/**
 What the bytes of an encoding are, digit by digit, and in which order the keys of a map come
 (src/ubin/protocol.py).
 */
module ProtocolForm {
  import opened Bytes
  import opened Protocol
  import opened ProtocolProofs
  import opened StableOrder
  import opened Utf8

  // Key order

  /** The byte strings agree up to k; there x ends, or has the smaller byte. */
  ghost predicate DifferAt(x: seq<byte>, y: seq<byte>, k: nat) {
    k <= |x| && k < |y| && x[..k] == y[..k] && (k < |x| ==> x[k] < y[k])
  }

  /** x is a proper prefix of y, or has the smaller byte where they first differ. */
  ghost predicate Before(x: seq<byte>, y: seq<byte>) {
    exists k :: DifferAt(x, y, k)
  }

  lemma BytesLessIsBefore(x: seq<byte>, y: seq<byte>)
    ensures BytesLess(x, y) <==> Before(x, y)
  {
    LexDecided(ByteLess(), x, y);
    forall k: nat ensures LexDiffer(ByteLess(), x, y, k) <==> DifferAt(x, y, k) {
    }
  }

  /** The texts agree up to k; there s ends, or has the smaller code point. */
  ghost predicate TextsDifferAt(s: seq<CodePoint>, t: seq<CodePoint>, k: nat) {
    k <= |s| && k < |t| && s[..k] == t[..k] && (k < |s| ==> s[k] < t[k])
  }

  ghost predicate TextBefore(s: seq<CodePoint>, t: seq<CodePoint>) {
    exists k :: TextsDifferAt(s, t, k)
  }

  lemma LastDigit(c: nat, d: nat)
    requires c < d
    ensures c / 64 < d / 64 || (c / 64 == d / 64 && c % 64 < d % 64)
  {
  }

  lemma TwoDigits(c: nat)
    ensures c / 64 / 64 == c / 4096 && c / 64 / 64 / 64 == c / 262144
  {
  }

  /** The number of bytes, and the first one, grow with the code point. */
  lemma ClassBefore(c: CodePoint, d: CodePoint)
    requires c < d && |EncodeOne(c)| != |EncodeOne(d)|
    ensures EncodeOne(c)[0] < EncodeOne(d)[0]
  {
  }

  lemma DigitsBefore(c: CodePoint, d: CodePoint, k: nat)
    requires |EncodeOne(c)| == |EncodeOne(d)| == k + 1
    requires c / 64 == d / 64 && c % 64 < d % 64
    ensures EncodeOne(c)[..k] == EncodeOne(d)[..k] && EncodeOne(c)[k] < EncodeOne(d)[k]
  {
    TwoDigits(c);
    TwoDigits(d);
  }

  lemma DigitsBefore2(c: CodePoint, d: CodePoint, k: nat)
    requires |EncodeOne(c)| == |EncodeOne(d)| == k + 2
    requires c / 64 < d / 64 && c / 4096 == d / 4096
    ensures EncodeOne(c)[..k] == EncodeOne(d)[..k] && EncodeOne(c)[k] < EncodeOne(d)[k]
  {
    TwoDigits(c);
    TwoDigits(d);
    LastDigit(c / 64, d / 64);
  }

  lemma DigitsBefore3(c: CodePoint, d: CodePoint, k: nat)
    requires |EncodeOne(c)| == |EncodeOne(d)| == k + 3
    requires c / 4096 < d / 4096 && c / 262144 == d / 262144
    ensures EncodeOne(c)[..k] == EncodeOne(d)[..k] && EncodeOne(c)[k] < EncodeOne(d)[k]
  {
    TwoDigits(c);
    TwoDigits(d);
    LastDigit(c / 4096, d / 4096);
    assert c / 4096 / 64 == c / 262144 && d / 4096 / 64 == d / 262144;
  }

  /** The encodings of two code points differ in a byte that is smaller for the smaller one. */
  lemma OneBefore(c: CodePoint, d: CodePoint) returns (k: nat)
    requires c < d
    ensures k < |EncodeOne(c)| && k < |EncodeOne(d)| && EncodeOne(c)[..k] == EncodeOne(d)[..k]
    ensures EncodeOne(c)[k] < EncodeOne(d)[k]
  {
    k := 0;
    if |EncodeOne(c)| != |EncodeOne(d)| {
      ClassBefore(c, d);
    } else {
      LastDigit(c, d);
      if c / 64 == d / 64 {
        k := |EncodeOne(c)| - 1;
        DigitsBefore(c, d, k);
      } else {
        k := MoreDigits(c, d);
      }
    }
  }

  lemma MoreDigits(c: CodePoint, d: CodePoint) returns (k: nat)
    requires |EncodeOne(c)| == |EncodeOne(d)| && c / 64 < d / 64
    ensures k < |EncodeOne(c)| && EncodeOne(c)[..k] == EncodeOne(d)[..k] && EncodeOne(c)[k] < EncodeOne(d)[k]
  {
    TwoDigits(c);
    TwoDigits(d);
    LastDigit(c / 64, d / 64);
    if |EncodeOne(c)| == 1 {
      k := 0;
    } else if c / 4096 == d / 4096 {
      k := |EncodeOne(c)| - 2;
      DigitsBefore2(c, d, k);
    } else {
      LastDigit(c / 4096, d / 4096);
      if c / 262144 == d / 262144 {
        k := |EncodeOne(c)| - 3;
        DigitsBefore3(c, d, k);
      } else {
        k := 0;
      }
    }
  }

  lemma BehindSame(front: seq<byte>, x: seq<byte>, y: seq<byte>)
    requires Before(x, y)
    ensures Before(front + x, front + y)
  {
    var k: nat :| DifferAt(x, y, k);
    assert (front + x)[..|front| + k] == front + x[..k] && (front + y)[..|front| + k] == front + y[..k];
    assert DifferAt(front + x, front + y, |front| + k);
  }

  lemma {:induction false} TextOrderIsByteOrder(s: seq<CodePoint>, t: seq<CodePoint>, k: nat)
    requires TextsDifferAt(s, t, k)
    ensures Before(Utf8.Encode(s), Utf8.Encode(t))
  {
    hide EncodeOne;
    if s == [] {
      assert DifferAt([], Utf8.Encode(t), 0);
    } else if k == 0 {
      var n := OneBefore(s[0], t[0]);
      var x, y := Utf8.Encode(s), Utf8.Encode(t);
      assert x[..n] == EncodeOne(s[0])[..n] && y[..n] == EncodeOne(t[0])[..n];
      assert DifferAt(x, y, n);
    } else {
      assert s[..k][0] == t[..k][0];
      assert s[1..][..k - 1] == s[..k][1..] && t[1..][..k - 1] == t[..k][1..];
      TextOrderIsByteOrder(s[1..], t[1..], k - 1);
      BehindSame(EncodeOne(s[0]), Utf8.Encode(s[1..]), Utf8.Encode(t[1..]));
    }
  }

  lemma {:induction false} TextsAreOrdered(s: seq<CodePoint>, t: seq<CodePoint>)
    ensures s == t || TextBefore(s, t) || TextBefore(t, s)
  {
    if s == [] || t == [] {
      if s != t {
        assert s[..0] == t[..0];
        assert TextsDifferAt(s, t, 0) || TextsDifferAt(t, s, 0);
      }
    } else if s[0] != t[0] {
      assert s[..0] == t[..0];
      assert TextsDifferAt(s, t, 0) || TextsDifferAt(t, s, 0);
    } else {
      TextsAreOrdered(s[1..], t[1..]);
      if k: nat :| TextsDifferAt(s[1..], t[1..], k) {
        assert s[..k + 1] == [s[0]] + s[1..][..k] && t[..k + 1] == [t[0]] + t[1..][..k];
        assert TextsDifferAt(s, t, k + 1);
      } else if k: nat :| TextsDifferAt(t[1..], s[1..], k) {
        assert s[..k + 1] == [s[0]] + s[1..][..k] && t[..k + 1] == [t[0]] + t[1..][..k];
        assert TextsDifferAt(t, s, k + 1);
      }
    }
  }

  /** UTF-8 keeps the order of texts: the byte order of keys is the order of their code points. */
  lemma ByteOrderIsTextOrder(s: seq<CodePoint>, t: seq<CodePoint>)
    ensures Before(Utf8.Encode(s), Utf8.Encode(t)) <==> TextBefore(s, t)
  {
    hide Utf8.Encode;
    var x, y := Utf8.Encode(s), Utf8.Encode(t);
    BytesLessIsBefore(x, y);
    BytesLessIsBefore(y, x);
    BytesOrder(x, y);
    TextsAreOrdered(s, t);
    if k: nat :| TextsDifferAt(s, t, k) {
      TextOrderIsByteOrder(s, t, k);
    } else if k: nat :| TextsDifferAt(t, s, k) {
      TextOrderIsByteOrder(t, s, k);
    }
  }

  /** In every map, at any depth, each key's UTF-8 bytes come before the next one's. */
  ghost predicate KeysAscend(v: Value) {
    match v
    case List(items) => forall i :: 0 <= i < |items| ==> KeysAscend(items[i])
    case Map(entries) =>
      && (forall i :: 0 <= i < |entries| ==> KeysAscend(entries[i].value))
      && (forall i :: 0 < i < |entries| ==> Before(Utf8.Encode(entries[i - 1].key), Utf8.Encode(entries[i].key)))
    case _ => true
  }

  // The form of an encoding

  ghost function Joined(parts: seq<seq<byte>>): seq<byte> {
    if parts == [] then [] else parts[0] + Joined(parts[1..])
  }

  /** A tag, a four-byte number and what follows it. */
  ghost predicate Sized(code: seq<byte>, tag: nat, n: nat, rest: seq<byte>) {
    |code| >= 5 && code[0] == tag && Number(code[1..5]) == n && code[5..] == rest
  }

  /** A tag and an eight-byte number. */
  ghost predicate Wide(code: seq<byte>, tag: nat, n: nat) {
    |code| == 9 && code[0] == tag && Number(code[1..]) == n
  }

  ghost predicate ShowsText(code: seq<byte>, text: seq<CodePoint>) {
    Sized(code, 0x21, |Utf8.Encode(text)|, Utf8.Encode(text))
  }

  /** The entries of a map in the order in which they are written. */
  ghost predicate IsOrder(order: seq<nat>, entries: seq<Entry>) {
    && |order| == |entries|
    && (forall i :: 0 <= i < |order| ==> order[i] < |entries|)
    && (forall i, j :: 0 <= i < j < |order| ==> order[i] != order[j])
    && (forall i :: 0 < i < |order| ==>
          Before(Utf8.Encode(entries[order[i - 1]].key), Utf8.Encode(entries[order[i]].key)))
  }

  /** The bytes are the value's: tags, big-endian numbers, contents, and every map in ascending order of its keys. */
  ghost predicate Shows(code: seq<byte>, v: Value)
    decreases v
  {
    match v
    case Null => code == [0x00]
    case Bool(b) => code == [if b then 0x02 else 0x01]
    case Int(n) =>
      && -0x8000_0000_0000_0000 <= n < 0x8000_0000_0000_0000
      && Wide(code, 0x10, if n >= 0 then n else 0x1_0000_0000_0000_0000 + n)
    case Float(bits) => Wide(code, 0x11, bits) && bits / 0x10_0000_0000_0000 % 0x800 != 0x7FF
    case Blob(data) => Sized(code, 0x20, |data|, data)
    case Text(text) => ShowsText(code, text)
    case List(items) =>
      exists parts: seq<seq<byte>> ::
        && |parts| == |items| && Sized(code, 0x30, |items|, Joined(parts))
        && forall i :: 0 <= i < |items| ==> Shows(parts[i], items[i])
    case Map(entries) =>
      exists order: seq<nat>, keys: seq<seq<byte>>, values: seq<seq<byte>> ::
        && IsOrder(order, entries) && |keys| == |values| == |entries|
        && Sized(code, 0x31, |entries|, Joined(Paired(keys, values)))
        && (forall i :: 0 <= i < |entries| ==> ShowsText(keys[i], entries[order[i]].key))
        && (forall i :: 0 <= i < |entries| ==> Shows(values[i], entries[order[i]].value))
    case _ => false
  }

  ghost function Paired(keys: seq<seq<byte>>, values: seq<seq<byte>>): seq<seq<byte>>
    requires |keys| == |values|
  {
    seq(|keys|, i requires 0 <= i < |keys| => keys[i] + values[i])
  }

  lemma IsSized(tag: byte, n: nat, rest: seq<byte>)
    requires n <= MAX_U32
    ensures Sized([tag] + U32(n) + rest, tag, n, rest)
  {
    hide ToBytes;
    Pow256Values();
    var code := [tag] + U32(n) + rest;
    assert code[1..5] == U32(n) && code[5..] == rest;
    ToBytesIsNumber(n, 4);
  }

  lemma ScalarShows(v: Value)
    requires !v.List? && !v.Map? && EncodeScalar(v).Ok?
    ensures Shows(EncodeScalar(v).value, v)
  {
    hide ToBytes, Number, Utf8.Encode, Encodable;
    Pow256Values();
    var code := EncodeScalar(v).value;
    match v {
      case Int(n) =>
        assert code[1..] == Int64ToBytes(n);
        ToBytesIsNumber(if n < 0 then n + 0x1_0000_0000_0000_0000 else n, 8);
      case Float(bits) =>
        assert code[1..] == PatternToBytes(bits);
        ToBytesIsNumber(bits, 8);
      case Blob(data) => IsSized(0x20, |data|, data);
      case Text(text) => IsSized(0x21, |Utf8.Encode(text)|, Utf8.Encode(text));
      case _ =>
    }
  }

  /** Which values that hold no others can be encoded. */
  lemma ScalarIsAccepted(v: Value)
    requires !v.List? && !v.Map?
    ensures EncodeScalar(v).Ok?
            <==> match v
                 case Null => true
                 case Bool(_) => true
                 case Int(n) => -0x8000_0000_0000_0000 <= n < 0x8000_0000_0000_0000
                 case Float(bits) => bits / 0x10_0000_0000_0000 % 0x800 != 0x7FF
                 case Blob(data) => |data| < 0x1_0000_0000
                 case Text(text) =>
                   (forall i :: 0 <= i < |text| ==> text[i] < 0xD800 || 0xDFFF < text[i])
                   && |Utf8.Encode(text)| < 0x1_0000_0000
                 case _ => false
  {
    hide Utf8.Encode;
  }

  /** The order that sorting puts the entries of a dictionary in. */
  lemma SortedOrder(entries: seq<Entry>) returns (order: seq<nat>)
    requires AllKeysEncodable(entries) && DistinctKeys(entries)
    ensures var sorted := Values(ByKey(), entries);
            IsOrder(order, entries) && |sorted| == |entries| && forall i :: 0 <= i < |entries| ==>
              entries[order[i]] == sorted[i]
  {
    hide Values, Utf8.Encode, Encodable, LexLess, Before;
    var sorted := Values(ByKey(), entries);
    SortedAscends(entries);
    forall i | 0 <= i < |sorted| ensures exists k: nat :: k < |entries| && entries[k] == sorted[i] {
      assert sorted[i] in entries;
    }
    order := seq(|sorted|, i requires 0 <= i < |sorted| => var k: nat :| k < |entries| && entries[k] == sorted[i]; k);
    forall i, j | 0 <= i < j < |order| ensures order[i] != order[j] {
      BytesOrder(Utf8.Encode(sorted[i].key), Utf8.Encode(sorted[i].key));
    }
    forall i | 0 < i < |order|
      ensures Before(Utf8.Encode(entries[order[i - 1]].key), Utf8.Encode(entries[order[i]].key))
    {
      BytesLessIsBefore(Utf8.Encode(sorted[i - 1].key), Utf8.Encode(sorted[i].key));
    }
  }

  /** An encoding has the form of its value. */
  lemma {:induction false} EncodingShows(v: Value, depth: nat)
    requires depth <= MAX_DEPTH + 1 && IsDictValue(v) && EncodeValue(v, depth).Ok?
    ensures Shows(EncodeValue(v, depth).value, v)
    decreases MAX_DEPTH + 1 - depth, 0
  {
    hide Values, EncodeScalar, Sized, Before, EncodeItems, EncodeEntries, ShowsText;
    match v {
      case List(items) =>
        var parts := ItemsShow(items, depth + 1);
        IsSized(0x30, |items|, Joined(parts));
      case Map(entries) =>
        var order := SortedOrder(entries);
        var sorted := Values(ByKey(), entries);
        forall i | 0 <= i < |sorted| ensures IsDictValue(sorted[i].value) {
          assert sorted[i] == entries[order[i]];
        }
        var keys, values := EntriesShow(sorted, depth + 1);
        IsSized(0x31, |entries|, Joined(Paired(keys, values)));
      case _ => ScalarShows(v);
    }
  }

  lemma {:induction false} ItemsShow(items: seq<Value>, depth: nat) returns (parts: seq<seq<byte>>)
    requires depth <= MAX_DEPTH + 1 && EncodeItems(items, depth).Ok?
    requires forall i :: 0 <= i < |items| ==> IsDictValue(items[i])
    ensures |parts| == |items| && Joined(parts) == EncodeItems(items, depth).value
    ensures forall i :: 0 <= i < |items| ==> Shows(parts[i], items[i])
    decreases MAX_DEPTH + 1 - depth, 1 + |items|
  {
    hide EncodeValue, Shows, IsDictValue;
    if items == [] {
      parts := [];
    } else {
      EncodingShows(items[0], depth);
      var rest := ItemsShow(items[1..], depth);
      parts := [EncodeValue(items[0], depth).value] + rest;
      assert parts[1..] == rest;
    }
  }

  lemma {:induction false} EntriesShow(entries: seq<Entry>, depth: nat)
    returns (keys: seq<seq<byte>>, values: seq<seq<byte>>)
    requires depth <= MAX_DEPTH + 1 && EncodeEntries(entries, depth).Ok?
    requires forall i :: 0 <= i < |entries| ==> IsDictValue(entries[i].value)
    ensures |keys| == |values| == |entries| && Joined(Paired(keys, values)) == EncodeEntries(entries, depth).value
    ensures forall i :: 0 <= i < |entries| ==> ShowsText(keys[i], entries[i].key) && Shows(values[i], entries[i].value)
    decreases MAX_DEPTH + 1 - depth, 2 + |entries|
  {
    hide EncodeValue, Shows, ShowsText, IsDictValue;
    if entries == [] {
      keys, values := [], [];
    } else {
      var key, value := EncodeValue(Text(entries[0].key), depth).value, EncodeValue(entries[0].value, depth).value;
      KeyShows(entries[0].key, depth);
      EncodingShows(entries[0].value, depth);
      var keyRest, valueRest := EntriesShow(entries[1..], depth);
      keys, values := [key] + keyRest, [value] + valueRest;
      assert Paired(keys, values)[1..] == Paired(keyRest, valueRest);
    }
  }

  lemma KeyShows(key: seq<CodePoint>, depth: nat)
    requires depth <= MAX_DEPTH + 1 && EncodeValue(Text(key), depth).Ok?
    ensures ShowsText(EncodeValue(Text(key), depth).value, key)
  {
    ScalarShows(Text(key));
  }

  // The order of decoded maps

  lemma {:induction false} ItemsAt(items: seq<Value>, depth: nat, i: nat)
    requires depth <= MAX_DEPTH + 1 && EncodeItems(items, depth).Ok? && CanonItems(items) == items && i < |items|
    ensures EncodeValue(items[i], depth).Ok? && Canon(items[i]) == items[i]
  {
    hide EncodeValue, Canon;
    if i > 0 {
      assert CanonItems(items)[1..] == CanonItems(items[1..]);
      ItemsAt(items[1..], depth, i - 1);
    }
  }

  lemma {:induction false} EntriesAt(entries: seq<Entry>, depth: nat, i: nat)
    requires depth <= MAX_DEPTH + 1 && EncodeEntries(entries, depth).Ok? && i < |entries|
    ensures EncodeValue(entries[i].value, depth).Ok?
  {
    hide EncodeValue;
    if i > 0 {
      EntriesAt(entries[1..], depth, i - 1);
    }
  }

  /** A map in canonical form has its entries in order, and their values are canonical. */
  lemma CanonicalMap(entries: seq<Entry>)
    requires AllKeysEncodable(entries) && DistinctKeys(entries) && Canon(Map(entries)) == Map(entries)
    ensures Values(ByKey(), entries) == entries && CanonEntries(entries) == entries
    ensures forall i :: 0 < i < |entries| ==> Before(Utf8.Encode(entries[i - 1].key), Utf8.Encode(entries[i].key))
  {
    hide Encodable, Utf8.Encode, LexLess, Before;
    SortCanon(entries);
    var sorted := Values(ByKey(), entries);
    SortedAscends(entries);
    CanonKeepsAscending(sorted);
    forall i | 0 < i < |entries| ensures Before(Utf8.Encode(entries[i - 1].key), Utf8.Encode(entries[i].key)) {
      BytesLessIsBefore(Utf8.Encode(entries[i - 1].key), Utf8.Encode(entries[i].key));
    }
    AscendingStays(entries);
  }

  lemma CanonKeepsAscending(entries: seq<Entry>)
    requires Ascending(entries)
    ensures Ascending(CanonEntries(entries))
  {
    var all := CanonEntries(entries);
    forall i, j | 0 <= i < j < |all| ensures BytesLess(Utf8.Encode(all[i].key), Utf8.Encode(all[j].key)) {
      CanonAt(entries, i);
      CanonAt(entries, j);
    }
  }

  lemma {:induction false} CanonAscends(v: Value, depth: nat)
    requires depth <= MAX_DEPTH + 1 && EncodeValue(v, depth).Ok? && IsDictValue(v) && Canon(v) == v
    ensures KeysAscend(v)
    decreases MAX_DEPTH + 1 - depth
  {
    hide EncodeScalar, EncodeItems, EncodeEntries, CanonItems, CanonEntries, Values, Before, Encodable;
    match v {
      case List(items) =>
        forall i | 0 <= i < |items| ensures KeysAscend(items[i]) {
          ItemsAt(items, depth + 1, i);
          CanonAscends(items[i], depth + 1);
        }
      case Map(entries) =>
        CanonicalMap(entries);
        forall i | 0 <= i < |entries| ensures KeysAscend(entries[i].value) {
          EntriesAt(entries, depth + 1, i);
          CanonAt(entries, i);
          CanonAscends(entries[i].value, depth + 1);
        }
      case _ =>
    }
  }

  /** What is accepted has the form of its value, and its maps are in order. */
  lemma DecodedShows(data: seq<byte>, maxItems: int, maxBytes: int)
    requires DecodeValue(data, maxItems, maxBytes).Ok?
    ensures var v := DecodeValue(data, maxItems, maxBytes).value; Shows(data, v) && KeysAscend(v)
  {
    hide EncodeValue, Canon, IsDictValue, Shows, KeysAscend, DecodeValue;
    EncodeUndoesDecode(data, maxItems, maxBytes);
    var v := DecodeValue(data, maxItems, maxBytes).value;
    EncodingShows(v, 0);
    CanonAscends(v, 0);
  }
}
