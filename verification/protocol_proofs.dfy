/** The codec is a two-way bijection between canonical values and accepted byte strings. */
module ProtocolProofs {
  import opened Bytes
  import opened Protocol
  import opened StableOrder
  import opened Utf8

  /** How many values the reader counts: map keys and values count separately. */
  ghost function Count(v: Value): (n: nat)
    ensures n >= 1
  {
    match v
    case List(items) => 1 + CountItems(items)
    case Map(entries) => 1 + CountEntries(entries)
    case _ => 1
  }

  ghost function CountItems(items: seq<Value>): (n: nat)
    ensures n >= |items|
  {
    if items == [] then 0 else Count(items[0]) + CountItems(items[1..])
  }

  ghost function CountEntries(entries: seq<Entry>): (n: nat)
    ensures n >= 2 * |entries|
  {
    if entries == [] then 0 else 1 + Count(entries[0].value) + CountEntries(entries[1..])
  }

  /** The value with the entries of every map in byte order of their keys. */
  ghost function Canon(v: Value): Value {
    match v
    case List(items) => List(CanonItems(items))
    case Map(entries) => Map(Values(ByKey(), CanonEntries(entries)))
    case _ => v
  }

  ghost function CanonItems(items: seq<Value>): (r: seq<Value>)
    ensures |r| == |items|
  {
    if items == [] then [] else [Canon(items[0])] + CanonItems(items[1..])
  }

  ghost function CanonEntries(entries: seq<Entry>): (r: seq<Entry>)
    ensures |r| == |entries|
  {
    if entries == [] then [] else [CanonEntry(entries[0])] + CanonEntries(entries[1..])
  }

  ghost function CanonEntry(e: Entry): Entry {
    Entry(e.key, Canon(e.value))
  }

  /** No dictionary, at any depth, has a key twice. */
  ghost predicate IsDictValue(v: Value) {
    match v
    case List(items) => forall i :: 0 <= i < |items| ==> IsDictValue(items[i])
    case Map(entries) =>
      && DistinctKeys(entries)
      && forall i :: 0 <= i < |entries| ==> IsDictValue(entries[i].value)
    case _ => true
  }

  ghost predicate DistinctKeys(entries: seq<Entry>) {
    forall i, j :: 0 <= i < j < |entries| ==> entries[i].key != entries[j].key
  }

  /** Keys strictly increasing in byte order. */
  ghost predicate Ascending(entries: seq<Entry>) {
    forall i, j :: 0 <= i < j < |entries| ==> BytesLess(Utf8.Encode(entries[i].key), Utf8.Encode(entries[j].key))
  }

  /** What the reader answers about a value that takes n items, when everything else is in order. */
  ghost function Within<T>(value: T, rest: seq<byte>, items: nat, n: nat, maxItems: nat)
    : Result<Parsed<T>, DecodeError>
  {
    if items + n <= maxItems then Ok(Parsed(value, rest, items + n)) else Err(ItemLimit)
  }

  // Sorting and canonical form

  lemma {:induction false} InsertCanon(e: Entry, s: seq<Entry>)
    ensures Insert(ByKey(), CanonEntry(e), CanonEntries(s)) == CanonEntries(Insert(ByKey(), e, s))
  {
    if s == [] {
      assert ([e] + s)[1..] == s;
    } else if ByKey()(s[0], e) {
      InsertCanon(e, s[1..]);
      assert CanonEntries(s)[1..] == CanonEntries(s[1..]);
      assert ([s[0]] + Insert(ByKey(), e, s[1..]))[1..] == Insert(ByKey(), e, s[1..]);
    } else {
      assert ([e] + s)[1..] == s;
    }
  }

  /** Sorting by key commutes with canonicalising the values. */
  lemma {:induction false} SortCanon(entries: seq<Entry>)
    ensures Values(ByKey(), CanonEntries(entries)) == CanonEntries(Values(ByKey(), entries))
  {
    if entries != [] {
      SortCanon(entries[1..]);
      assert CanonEntries(entries)[1..] == CanonEntries(entries[1..]);
      InsertCanon(entries[0], Values(ByKey(), entries[1..]));
    }
  }

  lemma {:induction false} InsertCount(e: Entry, s: seq<Entry>)
    ensures CountEntries(Insert(ByKey(), e, s)) == 1 + Count(e.value) + CountEntries(s)
  {
    if s != [] && ByKey()(s[0], e) {
      InsertCount(e, s[1..]);
      assert ([s[0]] + Insert(ByKey(), e, s[1..]))[1..] == Insert(ByKey(), e, s[1..]);
    } else {
      assert ([e] + s)[1..] == s;
    }
  }

  lemma {:induction false} SortCount(entries: seq<Entry>)
    ensures CountEntries(Values(ByKey(), entries)) == CountEntries(entries)
  {
    if entries != [] {
      SortCount(entries[1..]);
      InsertCount(entries[0], Values(ByKey(), entries[1..]));
    }
  }

  lemma {:induction false} CanonAt(entries: seq<Entry>, i: nat)
    requires i < |entries|
    ensures CanonEntries(entries)[i] == CanonEntry(entries[i])
  {
    if i > 0 {
      CanonAt(entries[1..], i - 1);
    }
  }

  /** Distinct encodable keys, once sorted, increase strictly. */
  lemma SortedAscends(entries: seq<Entry>)
    requires AllKeysEncodable(entries) && DistinctKeys(entries)
    ensures var s := Values(ByKey(), entries);
            Ascending(s) && |s| == |entries| && forall e :: e in s <==> e in entries
  {
    ByKeyIsOrdered();
    ValuesCorrect(ByKey(), entries);
    var s := Values(ByKey(), entries);
    forall e ensures e in s <==> e in entries {
      assert e in s <==> e in multiset(s);
      assert e in entries <==> e in multiset(entries);
    }
    forall i, j | 0 <= i < j < |s| ensures BytesLess(Utf8.Encode(s[i].key), Utf8.Encode(s[j].key)) {
      assert s[i] in entries && s[j] in entries;
      assert !ByKey()(s[j], s[i]);
      if Utf8.Encode(s[i].key) == Utf8.Encode(s[j].key) {
        EncodeInjective(s[i].key, s[j].key);
        SameKeySameEntry(entries, s[i], s[j]);
        TwiceInPermutation(s, entries, i, j);
      }
      BytesOrder(Utf8.Encode(s[i].key), Utf8.Encode(s[j].key));
    }
  }

  lemma SameKeySameEntry(entries: seq<Entry>, a: Entry, b: Entry)
    requires DistinctKeys(entries) && a in entries && b in entries && a.key == b.key
    ensures a == b
  {
  }

  /** An element that a permutation holds twice is held twice by the original. */
  lemma TwiceInPermutation(s: seq<Entry>, entries: seq<Entry>, i: nat, j: nat)
    requires i < j < |s| && s[i] == s[j] && multiset(s) == multiset(entries)
    ensures !DistinctKeys(entries)
  {
    var x := s[i];
    assert s == s[..j] + [s[j]] + s[j + 1..];
    assert s[..j] == s[..i] + [s[i]] + s[i + 1..j];
    assert multiset(s)[x] >= 2;
    CountedOnce(entries, x);
  }

  lemma {:induction false} CountedOnce(entries: seq<Entry>, x: Entry)
    ensures DistinctKeys(entries) ==> multiset(entries)[x] <= 1
  {
    if entries != [] && DistinctKeys(entries) {
      var rest := entries[1..];
      assert entries == [entries[0]] + rest;
      CountedOnce(rest, x);
      if entries[0] == x {
        assert x !in rest;
        assert multiset(rest)[x] == 0;
      }
    }
  }

  /** A strictly increasing list is its own sorted form. */
  lemma AscendingStays(entries: seq<Entry>)
    requires Ascending(entries)
    ensures Values(ByKey(), entries) == entries
  {
    ByKeyIsOrdered();
    forall i, j | 0 <= i < j < |entries| ensures !ByKey()(entries[j], entries[i]) {
      BytesOrder(Utf8.Encode(entries[i].key), Utf8.Encode(entries[j].key));
    }
    SortedStays(ByKey(), entries);
  }

  // Decoding undoes encoding

  lemma TakeFront(front: seq<byte>, rest: seq<byte>)
    ensures Take(front + rest, |front|) == Ok((front, rest))
  {
  }

  lemma ReadSizedFront(data: seq<byte>, rest: seq<byte>)
    requires |data| <= MAX_U32
    ensures ReadSized(U32(|data|) + data + rest) == Ok((data, rest))
  {
    assert U32(|data|) + data + rest == U32(|data|) + (data + rest);
    TakeFront(U32(|data|), data + rest);
    U32RoundTrip(|data|);
    TakeFront(data, rest);
  }

  /** The fixed-size and sized values. */
  lemma ReadEncodedScalar(v: Value, code: seq<byte>, rest: seq<byte>)
    requires !v.List? && !v.Map? && EncodeScalar(v) == Ok(code)
    ensures code != [] && code[0] != 0x30 && code[0] != 0x31
    ensures ReadScalar(code[0], code[1..] + rest) == Ok((v, rest))
  {
    hide FromBytes, ToBytes, Utf8.Encode, Utf8.Decode;
    var body := code[1..];
    match v {
      case Int(n) =>
        TakeFront(Int64ToBytes(n), rest);
        Int64RoundTrip(n);
      case Float(bits) =>
        TakeFront(PatternToBytes(bits), rest);
        PatternRoundTrip(bits);
      case Blob(data) =>
        assert body + rest == U32(|data|) + data + rest;
        ReadSizedFront(data, rest);
      case Text(text) =>
        assert body + rest == U32(|Utf8.Encode(text)|) + Utf8.Encode(text) + rest;
        ReadSizedFront(Utf8.Encode(text), rest);
        DecodeEncode(text);
      case Null => assert body + rest == rest;
      case Bool(_) => assert body + rest == rest;
      case OddMap => assert false;
      case Other => assert false;
    }
  }

  lemma ReadEncodedLeaf(v: Value, depth: nat, code: seq<byte>, rest: seq<byte>, items: nat, maxItems: nat)
    requires depth <= MAX_DEPTH + 1 && !v.List? && !v.Map?
    requires EncodeValue(v, depth) == Ok(code)
    ensures ReadValue(code + rest, items, maxItems, depth) == Within(v, rest, items, 1, maxItems)
  {
    hide ReadScalar, EncodeScalar, ReadItems, EncodeItems, ReadEntries, EncodeEntries, FromBytes, Values, ReadSized;
    ReadEncodedScalar(v, code, rest);
    assert code + rest == code[..1] + (code[1..] + rest);
    TakeFront(code[..1], code[1..] + rest);
  }

  lemma ReadHeader(tag: byte, n: nat, body: seq<byte>, rest: seq<byte>)
    requires n <= MAX_U32
    ensures Take([tag] + U32(n) + body + rest, 1) == Ok(([tag], U32(n) + (body + rest)))
    ensures Take(U32(n) + (body + rest), 4) == Ok((U32(n), body + rest)) && FromBytes(U32(n)) == n
  {
    assert [tag] + U32(n) + body + rest == [tag] + (U32(n) + (body + rest));
    TakeFront([tag], U32(n) + (body + rest));
    TakeFront(U32(n), body + rest);
    U32RoundTrip(n);
  }

  /** What sorting does to the entries of a dictionary. */
  lemma SortedIsReady(entries: seq<Entry>)
    requires AllKeysEncodable(entries) && IsDictValue(Map(entries))
    ensures var sorted := Values(ByKey(), entries);
            && Ascending(sorted) && |sorted| == |entries|
            && (forall i :: 0 <= i < |sorted| ==> IsDictValue(sorted[i].value) && Encodable(sorted[i].key))
            && CountEntries(sorted) == CountEntries(entries)
            && Map(CanonEntries(sorted)) == Canon(Map(entries))
  {
    var sorted := Values(ByKey(), entries);
    SortedAscends(entries);
    SortCanon(entries);
    SortCount(entries);
    forall i | 0 <= i < |sorted| ensures IsDictValue(sorted[i].value) && Encodable(sorted[i].key) {
      assert sorted[i] in entries;
    }
  }

  /** One level of reading a list: the early check, then the items. */
  lemma ReadListLevel(n: nat, body: seq<byte>, rest: seq<byte>, items: nat, maxItems: nat, depth: nat)
    requires depth <= MAX_DEPTH && n <= MAX_U32
    ensures var r := ReadItems(n, body + rest, items + 1, maxItems, depth + 1);
            ReadValue([0x30] + U32(n) + body + rest, items, maxItems, depth)
            == if items + 1 > maxItems || n > maxItems - (items + 1) then Err(ItemLimit)
               else if r.Err? then Err(r.error) else Ok(Parsed(List(r.value.value), r.value.rest, r.value.items))
  {
    hide ReadScalar, ReadItems, ReadEntries, FromBytes;
    ReadHeader(0x30, n, body, rest);
  }

  lemma ReadMapLevel(n: nat, body: seq<byte>, rest: seq<byte>, items: nat, maxItems: nat, depth: nat)
    requires depth <= MAX_DEPTH && n <= MAX_U32
    ensures var r := ReadEntries(n, None, body + rest, items + 1, maxItems, depth + 1);
            ReadValue([0x31] + U32(n) + body + rest, items, maxItems, depth)
            == if items + 1 > maxItems || n > (maxItems - (items + 1)) / 2 then Err(ItemLimit)
               else if r.Err? then Err(r.error) else Ok(Parsed(Map(r.value.value), r.value.rest, r.value.items))
  {
    hide ReadScalar, ReadItems, ReadEntries, FromBytes;
    ReadHeader(0x31, n, body, rest);
  }

  /**
   Reading an encoding, whatever follows it, gives the canonical value and counts its items; it is
   refused exactly when the count passes the limit.
   */
  lemma {:induction false} ReadEncoded(v: Value, depth: nat, code: seq<byte>, rest: seq<byte>, items: nat,
                                       maxItems: nat)
    requires depth <= MAX_DEPTH + 1 && IsDictValue(v) && items <= maxItems
    requires EncodeValue(v, depth) == Ok(code)
    ensures ReadValue(code + rest, items, maxItems, depth) == Within(Canon(v), rest, items, Count(v), maxItems)
    decreases MAX_DEPTH + 1 - depth, 0
  {
    hide ReadValue, EncodeScalar, ReadItems, EncodeItems, ReadEntries, EncodeEntries, Values;
    hide CanonItems, CanonEntries, CountItems, CountEntries;
    match v {
      case List(list) =>
        var body := EncodeItems(list, depth + 1).value;
        ReadListLevel(|list|, body, rest, items, maxItems, depth);
        if items + 1 <= maxItems {
          ReadEncodedItems(list, depth + 1, body, rest, items + 1, maxItems);
        }
      case Map(entries) =>
        var sorted := Values(ByKey(), entries);
        var body := EncodeEntries(sorted, depth + 1).value;
        ReadMapLevel(|entries|, body, rest, items, maxItems, depth);
        SortedIsReady(entries);
        if items + 1 <= maxItems {
          ReadEncodedEntries(sorted, None, depth + 1, body, rest, items + 1, maxItems);
        }
      case _ =>
        ReadEncodedLeaf(v, depth, code, rest, items, maxItems);
    }
  }

  lemma {:induction false} ReadEncodedItems(list: seq<Value>, depth: nat, code: seq<byte>, rest: seq<byte>, items: nat,
                                            maxItems: nat)
    requires depth <= MAX_DEPTH + 1 && items <= maxItems
    requires forall i :: 0 <= i < |list| ==> IsDictValue(list[i])
    requires EncodeItems(list, depth) == Ok(code)
    ensures ReadItems(|list|, code + rest, items, maxItems, depth)
            == Within(CanonItems(list), rest, items, CountItems(list), maxItems)
    decreases MAX_DEPTH + 1 - depth, 1 + |list|
  {
    hide ReadValue, EncodeValue;
    if list == [] {
      assert code + rest == rest;
    } else {
      var first := EncodeValue(list[0], depth).value;
      var others := EncodeItems(list[1..], depth).value;
      assert code + rest == first + (others + rest);
      ReadEncoded(list[0], depth, first, others + rest, items, maxItems);
      if items + Count(list[0]) <= maxItems {
        ReadEncodedItems(list[1..], depth, others, rest, items + Count(list[0]), maxItems);
      }
    }
  }

  lemma {:induction false} ReadEncodedEntry(e: Entry, previous: Option<seq<byte>>, depth: nat, code: seq<byte>,
                                            rest: seq<byte>, items: nat, maxItems: nat)
    requires depth <= MAX_DEPTH + 1 && items <= maxItems && IsDictValue(e.value) && Encodable(e.key)
    requires previous.Some? ==> BytesLess(previous.value, Utf8.Encode(e.key))
    requires EncodeEntry(e, depth) == Ok(code)
    ensures ReadEntry(previous, code + rest, items, maxItems, depth)
            == Within(CanonEntry(e), rest, items, 1 + Count(e.value), maxItems)
    decreases MAX_DEPTH + 1 - depth, 1
  {
    hide ReadValue, EncodeValue, Utf8.Encode, LexLess;
    var key := EncodeValue(Text(e.key), depth).value;
    var value := EncodeValue(e.value, depth).value;
    assert code + rest == key + (value + rest);
    ReadEncodedLeaf(Text(e.key), depth, key, value + rest, items, maxItems);
    if items + 1 <= maxItems {
      ReadEncoded(e.value, depth, value, rest, items + 1, maxItems);
    }
  }

  lemma {:induction false} ReadEncodedEntries(list: seq<Entry>, previous: Option<seq<byte>>, depth: nat,
                                              code: seq<byte>,
                                              rest: seq<byte>, items: nat, maxItems: nat)
    requires depth <= MAX_DEPTH + 1 && items <= maxItems
    requires forall i :: 0 <= i < |list| ==> IsDictValue(list[i].value) && Encodable(list[i].key)
    requires Ascending(list)
    requires previous.Some? && list != [] ==> BytesLess(previous.value, Utf8.Encode(list[0].key))
    requires EncodeEntries(list, depth) == Ok(code)
    ensures ReadEntries(|list|, previous, code + rest, items, maxItems, depth)
            == Within(CanonEntries(list), rest, items, CountEntries(list), maxItems)
    decreases MAX_DEPTH + 1 - depth, 2 + |list|
  {
    hide ReadEntry, EncodeEntry, Utf8.Encode, LexLess;
    if list == [] {
      assert code + rest == rest;
    } else {
      var e := list[0];
      var first := EncodeEntry(e, depth).value;
      var others := EncodeEntries(list[1..], depth).value;
      assert code + rest == first + (others + rest);
      ReadEncodedEntry(e, previous, depth, first, others + rest, items, maxItems);
      if items + 1 + Count(e.value) <= maxItems {
        ReadEncodedEntries(list[1..], Some(Utf8.Encode(e.key)), depth, others, rest, items + 1 + Count(e.value),
                           maxItems);
      }
    }
  }

  // Encoding undoes decoding

  lemma BytesTransitive(a: seq<byte>, b: seq<byte>, c: seq<byte>)
    requires BytesLess(a, b) && BytesLess(b, c)
    ensures BytesLess(a, c)
  {
    LexSplits(ByteLess(), a, c, b);
    BytesOrder(b, c);
  }

  /** The entries of a map as the reader accepts them. */
  ghost predicate CanonicalEntries(entries: seq<Entry>, previous: Option<seq<byte>>) {
    && Ascending(entries) && AllKeysEncodable(entries)
    && CanonEntries(entries) == entries
    && (forall i :: 0 <= i < |entries| ==> IsDictValue(entries[i].value))
    && (previous.Some? && entries != [] ==> BytesLess(previous.value, Utf8.Encode(entries[0].key)))
  }

  lemma PrependEntry(e: Entry, others: seq<Entry>)
    requires CanonicalEntries(others, Some(Utf8.Encode(e.key)))
    requires Encodable(e.key) && Canon(e.value) == e.value && IsDictValue(e.value)
    ensures var all := [e] + others;
            && Ascending(all) && AllKeysEncodable(all) && CanonEntries(all) == all
            && forall i :: 0 <= i < |all| ==> IsDictValue(all[i].value)
  {
    var all := [e] + others;
    assert all[1..] == others;
    forall i, j | 0 <= i < j < |all| ensures BytesLess(Utf8.Encode(all[i].key), Utf8.Encode(all[j].key)) {
      if i > 0 {
        assert BytesLess(Utf8.Encode(others[i - 1].key), Utf8.Encode(others[j - 1].key));
      } else if j > 1 {
        BytesTransitive(Utf8.Encode(e.key), Utf8.Encode(others[0].key), Utf8.Encode(others[j - 1].key));
      }
    }
  }

  lemma AscendingIsDistinct(entries: seq<Entry>)
    requires Ascending(entries)
    ensures DistinctKeys(entries)
  {
    forall i, j | 0 <= i < j < |entries| ensures entries[i].key != entries[j].key {
      BytesOrder(Utf8.Encode(entries[i].key), Utf8.Encode(entries[j].key));
    }
  }

  lemma TakeSplits(rest: seq<byte>, size: nat)
    requires Take(rest, size).Ok?
    ensures var (front, after) := Take(rest, size).value; rest == front + after && |front| == size
  {
  }

  lemma ReadSizedSplits(body: seq<byte>)
    requires ReadSized(body).Ok?
    ensures var (data, after) := ReadSized(body).value;
            |data| <= MAX_U32 && body == U32(|data|) + data + after
  {
    TakeSplits(body, 4);
    var (raw, after) := Take(body, 4).value;
    U32Canonical(raw);
    TakeSplits(after, FromBytes(raw));
  }

  lemma ReadFixedCanonical(tag: byte, body: seq<byte>)
    requires (tag == 0x10 || tag == 0x11) && ReadScalar(tag, body).Ok?
    ensures var (v, after) := ReadScalar(tag, body).value;
            !v.Text? && EncodeScalar(v).Ok? && [tag] + body == EncodeScalar(v).value + after
  {
    hide FromBytes, ToBytes;
    TakeSplits(body, 8);
    if tag == 0x10 {
      Int64Canonical(body[..8]);
    } else {
      PatternCanonical(body[..8]);
    }
  }

  lemma ReadSizedCanonical(tag: byte, body: seq<byte>)
    requires (tag == 0x20 || tag == 0x21) && ReadScalar(tag, body).Ok?
    ensures var (v, after) := ReadScalar(tag, body).value;
            && EncodeScalar(v).Ok? && [tag] + body == EncodeScalar(v).value + after
            && (v.Text? ==> Encodable(v.text))
  {
    hide FromBytes, ToBytes, Utf8.Encode, Utf8.Decode, ReadSized;
    ReadSizedSplits(body);
    var (data, after) := ReadSized(body).value;
    if tag == 0x21 {
      EncodeDecode(data);
    }
    assert [tag] + (U32(|data|) + data + after) == [tag] + U32(|data|) + data + after;
  }

  lemma ReadScalarCanonical(tag: byte, body: seq<byte>)
    requires ReadScalar(tag, body).Ok?
    ensures var (v, after) := ReadScalar(tag, body).value;
            && EncodeScalar(v).Ok? && [tag] + body == EncodeScalar(v).value + after
            && (v.Text? ==> Encodable(v.text))
  {
    if tag == 0x10 || tag == 0x11 {
      ReadFixedCanonical(tag, body);
    } else if tag == 0x20 || tag == 0x21 {
      ReadSizedCanonical(tag, body);
    } else {
      assert tag == 0x00 || tag == 0x01 || tag == 0x02;
    }
  }

  /** An accepted value that is neither a list nor a map is encoded by the bytes it was read from. */
  lemma ReadLeafCanonical(rest: seq<byte>, items: nat, maxItems: nat, depth: nat)
    requires depth <= MAX_DEPTH + 1 && ReadValue(rest, items, maxItems, depth).Ok?
    requires var v := ReadValue(rest, items, maxItems, depth).value.value; !v.List? && !v.Map?
    ensures var p := ReadValue(rest, items, maxItems, depth).value;
            && p.items == items + 1 <= maxItems
            && EncodeValue(p.value, depth).Ok? && rest == EncodeValue(p.value, depth).value + p.rest
            && (p.value.Text? ==> Encodable(p.value.text))
  {
    hide ReadScalar, EncodeScalar, ReadItems, EncodeItems, ReadEntries, EncodeEntries, FromBytes, Values, ReadSized;
    TakeSplits(rest, 1);
    var (tag, body) := Take(rest, 1).value;
    assert tag == [tag[0]];
    ReadScalarCanonical(tag[0], body);
  }

  /** Whatever the reader accepts is canonical, and is encoded by exactly the bytes it was read from. */
  lemma {:induction false} ReadCanonical(rest: seq<byte>, items: nat, maxItems: nat, depth: nat)
    requires depth <= MAX_DEPTH + 1 && ReadValue(rest, items, maxItems, depth).Ok?
    ensures var p := ReadValue(rest, items, maxItems, depth).value;
            && p.items == items + Count(p.value) <= maxItems
            && Canon(p.value) == p.value && IsDictValue(p.value)
            && EncodeValue(p.value, depth).Ok? && rest == EncodeValue(p.value, depth).value + p.rest
    decreases MAX_DEPTH + 1 - depth, 0
  {
    hide ReadScalar, EncodeScalar, ReadItems, EncodeItems, ReadEntries, EncodeEntries, FromBytes, Values, ReadSized,
      CanonItems, CanonEntries, CountItems, CountEntries, Ascending, DistinctKeys, ToBytes, Utf8.Encode, LexLess;
    var p := ReadValue(rest, items, maxItems, depth).value;
    if !p.value.List? && !p.value.Map? {
      ReadLeafCanonical(rest, items, maxItems, depth);
    } else {
      TakeSplits(rest, 1);
      var (tag, body) := Take(rest, 1).value;
      TakeSplits(body, 4);
      var (raw, after) := Take(body, 4).value;
      U32Canonical(raw);
      if p.value.List? {
        ReadItemsCanonical(FromBytes(raw), after, items + 1, maxItems, depth + 1);
      } else {
        ReadEntriesCanonical(FromBytes(raw), None, after, items + 1, maxItems, depth + 1);
        AscendingStays(p.value.entries);
        AscendingIsDistinct(p.value.entries);
      }
    }
  }

  lemma {:induction false} ReadItemsCanonical(count: nat, rest: seq<byte>, items: nat, maxItems: nat, depth: nat)
    requires depth <= MAX_DEPTH + 1 && items <= maxItems && ReadItems(count, rest, items, maxItems, depth).Ok?
    ensures var p := ReadItems(count, rest, items, maxItems, depth).value;
            && |p.value| == count
            && p.items == items + CountItems(p.value) <= maxItems
            && CanonItems(p.value) == p.value && (forall i :: 0 <= i < |p.value| ==> IsDictValue(p.value[i]))
            && EncodeItems(p.value, depth).Ok? && rest == EncodeItems(p.value, depth).value + p.rest
    decreases MAX_DEPTH + 1 - depth, 1 + count
  {
    hide ReadValue, EncodeValue;
    if count > 0 {
      var first := ReadValue(rest, items, maxItems, depth).value;
      ReadCanonical(rest, items, maxItems, depth);
      ReadItemsCanonical(count - 1, first.rest, first.items, maxItems, depth);
      var others := ReadItems(count - 1, first.rest, first.items, maxItems, depth).value;
      assert ([first.value] + others.value)[1..] == others.value;
    }
  }

  lemma {:induction false} ReadEntryCanonical(previous: Option<seq<byte>>, rest: seq<byte>, items: nat, maxItems: nat,
                                              depth: nat)
    requires depth <= MAX_DEPTH + 1 && ReadEntry(previous, rest, items, maxItems, depth).Ok?
    ensures var p := ReadEntry(previous, rest, items, maxItems, depth).value;
            && p.items == items + 1 + Count(p.value.value) <= maxItems
            && Encodable(p.value.key) && Canon(p.value.value) == p.value.value && IsDictValue(p.value.value)
            && (previous.Some? ==> BytesLess(previous.value, Utf8.Encode(p.value.key)))
            && EncodeEntry(p.value, depth).Ok? && rest == EncodeEntry(p.value, depth).value + p.rest
    decreases MAX_DEPTH + 1 - depth, 1
  {
    hide ReadValue, EncodeValue, Utf8.Encode, LexLess;
    var key := ReadValue(rest, items, maxItems, depth).value;
    ReadLeafCanonical(rest, items, maxItems, depth);
    ReadCanonical(key.rest, key.items, maxItems, depth);
  }

  lemma {:induction false} ReadEntriesCanonical(count: nat, previous: Option<seq<byte>>, rest: seq<byte>, items: nat,
                                                maxItems: nat, depth: nat)
    requires depth <= MAX_DEPTH + 1 && items <= maxItems
             && ReadEntries(count, previous, rest, items, maxItems, depth).Ok?
    ensures var p := ReadEntries(count, previous, rest, items, maxItems, depth).value;
            && |p.value| == count
            && p.items == items + CountEntries(p.value) <= maxItems
            && CanonicalEntries(p.value, previous)
            && EncodeEntries(p.value, depth).Ok? && rest == EncodeEntries(p.value, depth).value + p.rest
    decreases MAX_DEPTH + 1 - depth, 2 + count
  {
    hide ReadEntry, EncodeEntry, Utf8.Encode, LexLess;
    if count > 0 {
      var first := ReadEntry(previous, rest, items, maxItems, depth).value;
      ReadEntryCanonical(previous, rest, items, maxItems, depth);
      var next := Some(Utf8.Encode(first.value.key));
      ReadEntriesCanonical(count - 1, next, first.rest, first.items, maxItems, depth);
      var others := ReadEntries(count - 1, next, first.rest, first.items, maxItems, depth).value;
      PrependEntry(first.value, others.value);
      assert ([first.value] + others.value)[1..] == others.value;
    }
  }

  // The codec as a whole

  /**
   Decoding an encoding gives the canonical value exactly when both limits allow it, and otherwise
   names the limit that refuses it.
   */
  lemma DecodeUndoesEncode(v: Value, code: seq<byte>, maxItems: int, maxBytes: int)
    requires IsDictValue(v) && EncodeValue(v, 0) == Ok(code)
    requires maxItems >= 1 && maxBytes >= 0
    ensures DecodeValue(code, maxItems, maxBytes)
            == if |code| > maxBytes then Err(ByteLimit)
               else if Count(v) > maxItems then Err(ItemLimit)
               else Ok(Canon(v))
  {
    ReadEncoded(v, 0, code, [], 0, maxItems);
    assert code + [] == code;
  }

  /** Every accepted byte string is the encoding of the value it decodes to, which is canonical. */
  lemma EncodeUndoesDecode(data: seq<byte>, maxItems: int, maxBytes: int)
    requires DecodeValue(data, maxItems, maxBytes).Ok?
    ensures var v := DecodeValue(data, maxItems, maxBytes).value;
            EncodeValue(v, 0) == Ok(data) && Canon(v) == v && IsDictValue(v) && Count(v) <= maxItems
            && |data| <= maxBytes
  {
    ReadCanonical(data, 0, maxItems, 0);
    var p := ReadValue(data, 0, maxItems, 0).value;
    assert EncodeValue(p.value, 0).value + [] == EncodeValue(p.value, 0).value;
  }

  /** The canonical form has the same encoding. */
  lemma CanonHasSameEncoding(v: Value)
    requires IsDictValue(v) && EncodeValue(v, 0).Ok?
    ensures EncodeValue(Canon(v), 0) == EncodeValue(v, 0) && Canon(Canon(v)) == Canon(v)
  {
    var code := EncodeValue(v, 0).value;
    DecodeUndoesEncode(v, code, Count(v), |code|);
    EncodeUndoesDecode(code, Count(v), |code|);
  }

  /** The byte strings that decode are exactly the encodings that respect both limits. */
  lemma AcceptsExactlyEncodings(data: seq<byte>, maxItems: int, maxBytes: int)
    requires maxItems >= 1 && maxBytes >= 0
    ensures DecodeValue(data, maxItems, maxBytes).Ok?
            <==> exists v ::
              IsDictValue(v) && EncodeValue(v, 0) == Ok(data) && Count(v) <= maxItems && |data| <= maxBytes
  {
    if DecodeValue(data, maxItems, maxBytes).Ok? {
      EncodeUndoesDecode(data, maxItems, maxBytes);
    }
    if exists v :: IsDictValue(v) && EncodeValue(v, 0) == Ok(data) && Count(v) <= maxItems && |data| <= maxBytes {
      var v :| IsDictValue(v) && EncodeValue(v, 0) == Ok(data) && Count(v) <= maxItems && |data| <= maxBytes;
      DecodeUndoesEncode(v, data, maxItems, maxBytes);
    }
  }

  /** Two values have the same encoding exactly when they have the same canonical form. */
  lemma SameEncodingIffSameCanon(v: Value, w: Value)
    requires IsDictValue(v) && IsDictValue(w) && EncodeValue(v, 0).Ok? && EncodeValue(w, 0).Ok?
    ensures EncodeValue(v, 0) == EncodeValue(w, 0) <==> Canon(v) == Canon(w)
  {
    var a, b := EncodeValue(v, 0).value, EncodeValue(w, 0).value;
    var items, bytes := Count(v) + Count(w), |a| + |b|;
    DecodeUndoesEncode(v, a, items, bytes);
    DecodeUndoesEncode(w, b, items, bytes);
    EncodeUndoesDecode(a, items, bytes);
    EncodeUndoesDecode(b, items, bytes);
  }

  /** The order in which entries were inserted does not affect the encoding. */
  lemma InsertionOrderIsInvisible(a: seq<Entry>, b: seq<Entry>, depth: nat)
    requires DistinctKeys(a) && DistinctKeys(b) && multiset(a) == multiset(b) && depth <= MAX_DEPTH + 1
    ensures EncodeValue(Map(a), depth) == EncodeValue(Map(b), depth)
  {
    assert |multiset(a)| == |a| && |multiset(b)| == |b|;
    SameMembers(a, b);
    if AllKeysEncodable(a) {
      forall i | 0 <= i < |b| ensures Encodable(b[i].key) {
        assert b[i] in a;
      }
      SortedAscends(a);
      SortedAscends(b);
      AscendingUnique(Values(ByKey(), a), Values(ByKey(), b));
    } else {
      var i :| 0 <= i < |a| && !Encodable(a[i].key);
      assert a[i] in b;
    }
  }

  lemma SameMembers(a: seq<Entry>, b: seq<Entry>)
    requires multiset(a) == multiset(b)
    ensures forall e :: e in a <==> e in b
  {
    forall e ensures e in a <==> e in b {
      assert e in a <==> e in multiset(a);
      assert e in b <==> e in multiset(b);
    }
  }

  lemma SameFirst(a: seq<Entry>, b: seq<Entry>)
    requires Ascending(a) && Ascending(b) && a != [] && b != [] && a[0] in b && b[0] in a
    ensures a[0] == b[0]
  {
    hide LexLess, Utf8.Encode;
    var i :| 0 <= i < |b| && b[i] == a[0];
    var j :| 0 <= j < |a| && a[j] == b[0];
    BytesOrder(Utf8.Encode(a[0].key), Utf8.Encode(b[0].key));
  }

  /** A set of entries has one strictly increasing arrangement. */
  lemma {:induction false} AscendingUnique(a: seq<Entry>, b: seq<Entry>)
    requires Ascending(a) && Ascending(b) && forall e :: e in a <==> e in b
    ensures a == b
  {
    hide LexLess, Utf8.Encode;
    assert a != [] ==> a[0] in b;
    assert b != [] ==> b[0] in a;
    if a != [] {
      SameFirst(a, b);
      forall e ensures e in a[1..] <==> e in b[1..] {
        BytesOrder(Utf8.Encode(e.key), Utf8.Encode(e.key));
        TailMembers(a, e);
        TailMembers(b, e);
      }
      AscendingUnique(a[1..], b[1..]);
      assert a == [a[0]] + a[1..] && b == [b[0]] + b[1..];
    }
  }

  lemma TailMembers(s: seq<Entry>, e: Entry)
    requires Ascending(s) && s != []
    ensures e in s[1..] <==> e in s && e != s[0]
  {
    assert s == [s[0]] + s[1..];
    BytesOrder(Utf8.Encode(s[0].key), Utf8.Encode(s[0].key));
    if e in s[1..] {
      var i :| 0 <= i < |s[1..]| && s[1..][i] == e;
      assert s[i + 1] == e;
    }
  }
}
