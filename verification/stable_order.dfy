/**
 Stable sorting as a specification (src/ubin/sort.py `values`): the order is any strict weak
 order on the elements, and ties keep their places.
 */
module StableOrder {

  type Less<!T> = (T, T) -> bool

  ghost predicate StrictWeak<T(!new)>(lt: Less<T>) {
    && (forall a :: !lt(a, a))
    && (forall a, b :: lt(a, b) ==> !lt(b, a))
    && (forall a, b, c {:trigger lt(a, c), lt(a, b), lt(b, c)} :: lt(a, c) ==> lt(a, b) || lt(b, c))
  }

  /** The order that a key function and the reverse flag put on the items. */
  function OrderOf<T, K>(key: T -> K, lt: Less<K>, reverse: bool): Less<T> {
    (a, b) => if reverse then lt(key(b), key(a)) else lt(key(a), key(b))
  }

  lemma OrderIsStrictWeak<T(!new), K(!new)>(key: T -> K, lt: Less<K>, reverse: bool)
    requires StrictWeak(lt)
    ensures StrictWeak(OrderOf(key, lt, reverse))
  {
  }

  /** A list of keys that is aligned with its list of items. */
  ghost predicate Keyed<T, K>(key: T -> K, data: seq<T>, keys: seq<K>) {
    |keys| == |data| && forall i :: 0 <= i < |data| ==> keys[i] == key(data[i])
  }

  ghost predicate Sorted<T>(lt: Less<T>, s: seq<T>) {
    forall i, j :: 0 <= i < j < |s| ==> !lt(s[j], s[i])
  }

  /** Puts x before the first element that is not less than it. */
  function Insert<T>(lt: Less<T>, x: T, s: seq<T>): seq<T> {
    if s == [] || !lt(s[0], x) then [x] + s else [s[0]] + Insert(lt, x, s[1..])
  }

  /** The reference: stable sorting by insertion from the right. */
  function Values<T>(lt: Less<T>, s: seq<T>): seq<T> {
    if s == [] then [] else Insert(lt, s[0], Values(lt, s[1..]))
  }

  /** Merging two runs; the left run wins ties. */
  function Merged<T>(lt: Less<T>, a: seq<T>, b: seq<T>): (r: seq<T>)
    ensures |r| == |a| + |b|
  {
    if a == [] then b
    else if b == [] then a
    else if lt(b[0], a[0]) then [b[0]] + Merged(lt, a, b[1..])
    else [a[0]] + Merged(lt, a[1..], b)
  }

  /** The elements that the order does not separate from g, in their order of appearance. */
  function Ties<T>(lt: Less<T>, g: T, s: seq<T>): seq<T> {
    if s == [] then []
    else if !lt(g, s[0]) && !lt(s[0], g) then [s[0]] + Ties(lt, g, s[1..])
    else Ties(lt, g, s[1..])
  }

  ghost predicate Stable<T(!new)>(lt: Less<T>, s: seq<T>, r: seq<T>) {
    forall g :: Ties(lt, g, r) == Ties(lt, g, s)
  }

  // Insertion

  lemma {:induction false} InsertMembers<T>(lt: Less<T>, x: T, s: seq<T>)
    ensures multiset(Insert(lt, x, s)) == multiset{x} + multiset(s)
    ensures |Insert(lt, x, s)| == |s| + 1
  {
    if s != [] && lt(s[0], x) {
      InsertMembers(lt, x, s[1..]);
      assert s == [s[0]] + s[1..];
    }
  }

  lemma {:induction false} InsertSorted<T(!new)>(lt: Less<T>, x: T, s: seq<T>)
    requires StrictWeak(lt) && Sorted(lt, s)
    ensures Sorted(lt, Insert(lt, x, s))
  {
    if s != [] && lt(s[0], x) {
      InsertSorted(lt, x, s[1..]);
      InsertMembers(lt, x, s[1..]);
      var tail := Insert(lt, x, s[1..]);
      forall j | 0 <= j < |tail| ensures !lt(tail[j], s[0]) {
        assert tail[j] in multiset(tail);
        assert tail[j] == x || tail[j] in s[1..];
      }
    }
  }

  lemma {:induction false} InsertTies<T(!new)>(lt: Less<T>, g: T, x: T, s: seq<T>)
    requires StrictWeak(lt)
    ensures Ties(lt, g, Insert(lt, x, s)) == Ties(lt, g, [x] + s)
  {
    if s != [] && lt(s[0], x) {
      InsertTies(lt, g, x, s[1..]);
      var r := Insert(lt, x, s);
      assert r[1..] == Insert(lt, x, s[1..]);
      assert ([x] + s)[1..] == s;
      assert ([x] + s[1..])[1..] == s[1..];
    }
  }

  /** Values is a sorted permutation that keeps ties in place. */
  lemma {:induction false} ValuesCorrect<T(!new)>(lt: Less<T>, s: seq<T>)
    requires StrictWeak(lt)
    ensures Sorted(lt, Values(lt, s))
    ensures multiset(Values(lt, s)) == multiset(s) && |Values(lt, s)| == |s|
    ensures Stable(lt, s, Values(lt, s))
  {
    if s != [] {
      var rest := Values(lt, s[1..]);
      ValuesCorrect(lt, s[1..]);
      InsertSorted(lt, s[0], rest);
      InsertMembers(lt, s[0], rest);
      assert s == [s[0]] + s[1..];
      forall g ensures Ties(lt, g, Values(lt, s)) == Ties(lt, g, s) {
        InsertTies(lt, g, s[0], rest);
        assert ([s[0]] + rest)[1..] == rest;
      }
    }
  }

  // Uniqueness

  lemma {:induction false} TiesNonEmpty<T>(lt: Less<T>, g: T, s: seq<T>)
    ensures Ties(lt, g, s) != [] <==> exists i :: 0 <= i < |s| && !lt(g, s[i]) && !lt(s[i], g)
  {
    if s != [] {
      TiesNonEmpty(lt, g, s[1..]);
      if exists i :: 0 <= i < |s| && !lt(g, s[i]) && !lt(s[i], g) {
        var i :| 0 <= i < |s| && !lt(g, s[i]) && !lt(s[i], g);
        if i > 0 {
          assert s[1..][i - 1] == s[i];
        }
      }
      if exists i :: 0 <= i < |s[1..]| && !lt(g, s[1..][i]) && !lt(s[1..][i], g) {
        var i :| 0 <= i < |s[1..]| && !lt(g, s[1..][i]) && !lt(s[1..][i], g);
        assert s[i + 1] == s[1..][i];
      }
    }
  }

  lemma HeadNotAfter<T(!new)>(lt: Less<T>, a: seq<T>, b: seq<T>)
    requires StrictWeak(lt) && Sorted(lt, b) && a != [] && b != []
    requires Ties(lt, a[0], a) == Ties(lt, a[0], b)
    ensures !lt(a[0], b[0])
  {
    TiesNonEmpty(lt, a[0], a);
    TiesNonEmpty(lt, a[0], b);
    var i :| 0 <= i < |b| && !lt(a[0], b[i]) && !lt(b[i], a[0]);
    assert i == 0 || !lt(b[i], b[0]);
  }

  lemma SameEmptiness<T(!new)>(lt: Less<T>, a: seq<T>, b: seq<T>)
    requires StrictWeak(lt) && Stable(lt, a, b)
    ensures a == [] <==> b == []
  {
    if a != [] {
      assert Ties(lt, a[0], b) == Ties(lt, a[0], a);
      assert !lt(a[0], a[0]);
    }
    if b != [] {
      assert Ties(lt, b[0], b) == Ties(lt, b[0], a);
      assert !lt(b[0], b[0]);
    }
  }

  /** Two sorted sequences that list every class of ties alike are the same. */
  lemma {:induction false} StableUnique<T(!new)>(lt: Less<T>, a: seq<T>, b: seq<T>)
    requires StrictWeak(lt) && Sorted(lt, a) && Sorted(lt, b) && Stable(lt, a, b)
    ensures a == b
  {
    SameEmptiness(lt, a, b);
    if a != [] {
      HeadNotAfter(lt, a, b);
      HeadNotAfter(lt, b, a);
      assert Ties(lt, a[0], a)[0] == a[0];
      assert Ties(lt, a[0], b)[0] == b[0];
      forall g ensures Ties(lt, g, b[1..]) == Ties(lt, g, a[1..]) {
        assert Ties(lt, g, b) == Ties(lt, g, a);
        if !lt(g, a[0]) && !lt(a[0], g) {
          assert Ties(lt, g, a)[1..] == Ties(lt, g, a[1..]);
          assert Ties(lt, g, b)[1..] == Ties(lt, g, b[1..]);
        }
      }
      StableUnique(lt, a[1..], b[1..]);
      assert a == [a[0]] + a[1..] && b == [b[0]] + b[1..];
    }
  }

  /** The stable sorted arrangement is unique, so whatever has these properties is Values. */
  lemma ValuesUnique<T(!new)>(lt: Less<T>, s: seq<T>, r: seq<T>)
    requires StrictWeak(lt)
    ensures r == Values(lt, s) <==> Sorted(lt, r) && Stable(lt, s, r)
  {
    ValuesCorrect(lt, s);
    if Sorted(lt, r) && Stable(lt, s, r) {
      assert Stable(lt, r, Values(lt, s)) by {
        forall g ensures Ties(lt, g, Values(lt, s)) == Ties(lt, g, r) {
          assert Ties(lt, g, r) == Ties(lt, g, s);
        }
      }
      StableUnique(lt, r, Values(lt, s));
    }
  }

  // Merging

  /** Inserting before a merge is merging after an insertion on the left. */
  lemma {:induction false} InsertMerged<T(!new)>(lt: Less<T>, x: T, a: seq<T>, b: seq<T>)
    requires StrictWeak(lt) && Sorted(lt, a) && Sorted(lt, b)
    ensures Insert(lt, x, Merged(lt, a, b)) == Merged(lt, Insert(lt, x, a), b)
    decreases |a| + |b|
  {
    var xa := Insert(lt, x, a);
    if b == [] {
      assert xa != [];
    } else if a == [] {
      assert xa == [x];
      if lt(b[0], x) {
        InsertMerged(lt, x, a, b[1..]);
        assert Merged(lt, a, b[1..]) == b[1..];
      } else {
        assert xa[1..] == [];
      }
    } else if lt(b[0], a[0]) {
      var m := Merged(lt, a, b);
      assert m[0] == b[0] && m[1..] == Merged(lt, a, b[1..]);
      if lt(b[0], x) {
        InsertMerged(lt, x, a, b[1..]);
        assert lt(b[0], xa[0]);
      } else {
        assert !lt(a[0], x);
        assert xa == [x] + a && xa[1..] == a;
      }
    } else {
      var m := Merged(lt, a, b);
      assert m[0] == a[0] && m[1..] == Merged(lt, a[1..], b);
      if lt(a[0], x) {
        InsertMerged(lt, x, a[1..], b);
        assert xa[0] == a[0] && xa[1..] == Insert(lt, x, a[1..]);
      } else {
        assert !lt(b[0], x);
        assert xa == [x] + a && xa[1..] == a;
      }
    }
  }

  lemma {:induction false} ValuesConcat<T(!new)>(lt: Less<T>, a: seq<T>, b: seq<T>)
    requires StrictWeak(lt)
    ensures Values(lt, a + b) == Merged(lt, Values(lt, a), Values(lt, b))
  {
    if a == [] {
      assert a + b == b;
    } else {
      assert (a + b)[1..] == a[1..] + b;
      ValuesConcat(lt, a[1..], b);
      ValuesCorrect(lt, a[1..]);
      ValuesCorrect(lt, b);
      InsertMerged(lt, a[0], Values(lt, a[1..]), Values(lt, b));
    }
  }

  /** Sorting what is sorted already changes nothing. */
  lemma SortedStays<T(!new)>(lt: Less<T>, s: seq<T>)
    requires StrictWeak(lt) && Sorted(lt, s)
    ensures Values(lt, s) == s
  {
    ValuesUnique(lt, s, s);
  }

  // What a caller sees of keys and direction

  /** The items whose keys tie with that of g, in their order of appearance. */
  ghost function TiedWith<T, K>(key: T -> K, lt: Less<K>, g: T, s: seq<T>): seq<T> {
    if s == [] then []
    else if !lt(key(s[0]), key(g)) && !lt(key(g), key(s[0])) then [s[0]] + TiedWith(key, lt, g, s[1..])
    else TiedWith(key, lt, g, s[1..])
  }

  lemma {:induction false} TiesAreTied<T, K>(key: T -> K, lt: Less<K>, reverse: bool, g: T, s: seq<T>)
    ensures Ties(OrderOf(key, lt, reverse), g, s) == TiedWith(key, lt, g, s)
  {
    if s != [] {
      TiesAreTied(key, lt, reverse, g, s[1..]);
    }
  }

  /**
   The reference in terms of the caller's comparison: ascending keys, descending ones if reversed,
   and items with tied keys in the order in which they were given.
   */
  lemma ValuesByKey<T(!new), K(!new)>(key: T -> K, lt: Less<K>, reverse: bool, s: seq<T>)
    requires StrictWeak(lt)
    ensures var r := Values(OrderOf(key, lt, reverse), s);
            && (forall i, j :: 0 <= i < j < |r| ==>
                  if reverse then !lt(key(r[i]), key(r[j])) else !lt(key(r[j]), key(r[i])))
            && multiset(r) == multiset(s)
            && forall g :: TiedWith(key, lt, g, r) == TiedWith(key, lt, g, s)
  {
    hide Values, Ties, TiedWith;
    var order := OrderOf(key, lt, reverse);
    var r := Values(order, s);
    OrderIsStrictWeak(key, lt, reverse);
    ValuesCorrect(order, s);
    forall g ensures TiedWith(key, lt, g, r) == TiedWith(key, lt, g, s) {
      TiesAreTied(key, lt, reverse, g, r);
      TiesAreTied(key, lt, reverse, g, s);
      assert Ties(order, g, r) == Ties(order, g, s);
    }
  }

  // Lexicographic order

  ghost predicate StrictTotal<T(!new)>(lt: Less<T>) {
    StrictWeak(lt) && forall a, b :: a != b ==> lt(a, b) || lt(b, a)
  }

  predicate LexLess<T>(lt: Less<T>, a: seq<T>, b: seq<T>) {
    b != [] && (a == [] || lt(a[0], b[0]) || (!lt(b[0], a[0]) && LexLess(lt, a[1..], b[1..])))
  }

  lemma {:induction false} LexIsTotal<T(!new)>(lt: Less<T>, a: seq<T>, b: seq<T>)
    requires StrictTotal(lt)
    ensures !LexLess(lt, a, a)
    ensures LexLess(lt, a, b) ==> !LexLess(lt, b, a)
    ensures a != b ==> LexLess(lt, a, b) || LexLess(lt, b, a)
  {
    if a != [] && b != [] {
      LexIsTotal(lt, a[1..], b[1..]);
      assert a == [a[0]] + a[1..] && b == [b[0]] + b[1..];
    } else if a != [] {
      LexIsTotal(lt, a[1..], []);
    }
  }

  lemma {:induction false} LexSplits<T(!new)>(lt: Less<T>, a: seq<T>, b: seq<T>, c: seq<T>)
    requires StrictTotal(lt) && LexLess(lt, a, c)
    ensures LexLess(lt, a, b) || LexLess(lt, b, c)
  {
    if a != [] && b != [] && !lt(a[0], c[0]) && !lt(a[0], b[0]) && !lt(b[0], c[0]) {
      assert a[0] == c[0] == b[0];
      LexSplits(lt, a[1..], b[1..], c[1..]);
    }
  }

  /** The sequences agree up to k; there a ends, or has the lesser element. */
  ghost predicate LexDiffer<T>(lt: Less<T>, a: seq<T>, b: seq<T>, k: nat) {
    k <= |a| && k < |b| && a[..k] == b[..k] && (k < |a| ==> lt(a[k], b[k]))
  }

  lemma SameFirst<T>(lt: Less<T>, a: seq<T>, b: seq<T>, k: nat)
    requires LexDiffer(lt, a, b, k) && k > 0
    ensures a != [] && b != [] && a[0] == b[0]
  {
    assert a[..k][0] == b[..k][0];
  }

  /** Lexicographic order is decided where two sequences first differ. */
  lemma {:induction false} LexDecided<T(!new)>(lt: Less<T>, a: seq<T>, b: seq<T>)
    requires StrictTotal(lt)
    ensures LexLess(lt, a, b) <==> exists k: nat :: LexDiffer(lt, a, b, k)
  {
    if a == [] || b == [] || a[0] != b[0] {
      if LexLess(lt, a, b) {
        assert a[..0] == b[..0];
        assert LexDiffer(lt, a, b, 0);
      }
      if k: nat :| LexDiffer(lt, a, b, k) {
        if k > 0 {
          SameFirst(lt, a, b, k);
        }
      }
    } else {
      LexDecided(lt, a[1..], b[1..]);
      if LexLess(lt, a, b) {
        var k: nat :| LexDiffer(lt, a[1..], b[1..], k);
        assert a[..k + 1] == [a[0]] + a[1..][..k] && b[..k + 1] == [b[0]] + b[1..][..k];
        assert LexDiffer(lt, a, b, k + 1);
      }
      if k: nat :| LexDiffer(lt, a, b, k) {
        assert k > 0;
        assert a[1..][..k - 1] == a[..k][1..] && b[1..][..k - 1] == b[..k][1..];
        assert LexDiffer(lt, a[1..], b[1..], k - 1);
      }
    }
  }
}
