/** The canonical value codec (src/ubin/protocol.py): logical values, encoding and reading. */
module Protocol {
  import opened Bytes
  import opened StableOrder
  import opened Utf8

  const MAX_DEPTH: nat := 64
  const MAX_U32: nat := 0xFFFF_FFFF

  /** A float is its 64-bit IEEE 754 pattern. */
  type Pattern = n: int | 0 <= n < 0x1_0000_0000_0000_0000

  /**
   A Python value.  OddMap is a dictionary with a key that is no string, Other a value of any other
   type: what they hold plays no part.
   */
  datatype Value =
    | Null
    | Bool(b: bool)
    | Int(n: int)
    | Float(bits: Pattern)
    | Blob(data: seq<byte>)
    | Text(text: seq<CodePoint>)
    | List(items: seq<Value>)
    | Map(entries: seq<Entry>)
    | OddMap
    | Other

  /** A dictionary lists its entries in insertion order. */
  datatype Entry = Entry(key: seq<CodePoint>, value: Value)

  datatype EncodeError = TooDeep | IntegerRange | NotFinite | BadText | TooLong | KeyNotString | Unsupported

  datatype DecodeError =
    | NestedTooDeep
    | ItemLimit
    | ByteLimit
    | Truncated
    | NonFinite
    | BadUtf8
    | KeyNotText
    | KeyOrder
    | UnknownTag
    | TrailingBytes
    | BadLimit

  /** The exponent bits of infinities and NaNs are all ones. */
  predicate IsFinite(bits: Pattern) {
    bits / 0x10_0000_0000_0000 % 0x800 != 0x7FF
  }

  // Integers

  predicate FitsInt64(n: int) {
    -0x8000_0000_0000_0000 <= n < 0x8000_0000_0000_0000
  }

  function Int64ToBytes(n: int): (s: seq<byte>)
    requires FitsInt64(n)
    ensures |s| == 8
  {
    Pow256Values();
    ToBytes(if n < 0 then n + 0x1_0000_0000_0000_0000 else n, 8)
  }

  function Int64FromBytes(s: seq<byte>): (n: int)
    requires |s| == 8
    ensures FitsInt64(n)
  {
    Pow256Values();
    var v := FromBytes(s);
    if v < 0x8000_0000_0000_0000 then v else v - 0x1_0000_0000_0000_0000
  }

  lemma Int64RoundTrip(n: int)
    requires FitsInt64(n)
    ensures Int64FromBytes(Int64ToBytes(n)) == n
  {
    Pow256Values();
    FromToBytes(if n < 0 then n + 0x1_0000_0000_0000_0000 else n, 8);
  }

  lemma Int64Canonical(s: seq<byte>)
    requires |s| == 8
    ensures Int64ToBytes(Int64FromBytes(s)) == s
  {
    Pow256Values();
    ToFromBytes(s);
  }

  function U32(n: nat): (s: seq<byte>)
    requires n <= MAX_U32
    ensures |s| == 4
  {
    Pow256Values();
    ToBytes(n, 4)
  }

  function PatternToBytes(bits: Pattern): (s: seq<byte>)
    ensures |s| == 8
  {
    Pow256Values();
    ToBytes(bits, 8)
  }

  function PatternFromBytes(s: seq<byte>): Pattern
    requires |s| == 8
  {
    Pow256Values();
    FromBytes(s)
  }

  lemma U32RoundTrip(n: nat)
    requires n <= MAX_U32
    ensures FromBytes(U32(n)) == n
  {
    Pow256Values();
    FromToBytes(n, 4);
  }

  lemma U32Canonical(s: seq<byte>)
    requires |s| == 4
    ensures FromBytes(s) <= MAX_U32 && U32(FromBytes(s)) == s
  {
    Pow256Values();
    ToFromBytes(s);
  }

  lemma PatternRoundTrip(bits: Pattern)
    ensures PatternFromBytes(PatternToBytes(bits)) == bits
  {
    Pow256Values();
    FromToBytes(bits, 8);
  }

  lemma PatternCanonical(s: seq<byte>)
    requires |s| == 8
    ensures PatternToBytes(PatternFromBytes(s)) == s
  {
    Pow256Values();
    ToFromBytes(s);
  }

  // Key order

  function ByteLess(): Less<byte> {
    (x: byte, y: byte) => x < y
  }

  /** Unsigned lexicographic order of byte strings. */
  predicate BytesLess(a: seq<byte>, b: seq<byte>) {
    LexLess(ByteLess(), a, b)
  }

  function ByKey(): Less<Entry> {
    (a: Entry, b: Entry) => BytesLess(Utf8.Encode(a.key), Utf8.Encode(b.key))
  }

  lemma BytesOrder(a: seq<byte>, b: seq<byte>)
    ensures !BytesLess(a, a)
    ensures BytesLess(a, b) ==> !BytesLess(b, a)
    ensures a != b ==> BytesLess(a, b) || BytesLess(b, a)
  {
    LexIsTotal(ByteLess(), a, b);
  }

  lemma ByKeyIsOrdered()
    ensures StrictWeak(ByKey())
  {
    forall a: Entry, b: Entry, c: Entry
      ensures !ByKey()(a, a)
      ensures ByKey()(a, b) ==> !ByKey()(b, a)
      ensures ByKey()(a, c) ==> ByKey()(a, b) || ByKey()(b, c)
    {
      var x, y, z := Utf8.Encode(a.key), Utf8.Encode(b.key), Utf8.Encode(c.key);
      LexIsTotal(ByteLess(), x, y);
      LexIsTotal(ByteLess(), x, x);
      if LexLess(ByteLess(), x, z) {
        LexSplits(ByteLess(), x, y, z);
      }
    }
  }

  // Encoding

  predicate AllKeysEncodable(entries: seq<Entry>) {
    forall i :: 0 <= i < |entries| ==> Encodable(entries[i].key)
  }

  /** The encoding of a value at a nesting depth, or the first error met. */
  function EncodeValue(v: Value, depth: nat): (r: Result<seq<byte>, EncodeError>)
    requires depth <= MAX_DEPTH + 1
    decreases MAX_DEPTH + 1 - depth, 0
  {
    if depth > MAX_DEPTH then Err(TooDeep)
    else match v
         case List(items) =>
           if |items| > MAX_U32 then Err(TooLong)
           else var body :- EncodeItems(items, depth + 1); Ok([0x30] + U32(|items|) + body)
         case Map(entries) =>
           if !AllKeysEncodable(entries) then Err(BadText)
           else if |entries| > MAX_U32 then Err(TooLong)
           else var body :- EncodeEntries(Values(ByKey(), entries), depth + 1); Ok([0x31] + U32(|entries|) + body)
         case _ => EncodeScalar(v)
  }

  /** The encoding of a value that holds no other values. */
  function EncodeScalar(v: Value): Result<seq<byte>, EncodeError>
    requires !v.List? && !v.Map?
  {
    match v
    case Null => Ok([0x00])
    case Bool(b) => Ok([if b then 0x02 else 0x01])
    case Int(n) => if FitsInt64(n) then Ok([0x10] + Int64ToBytes(n)) else Err(IntegerRange)
    case Float(bits) => if IsFinite(bits) then Ok([0x11] + PatternToBytes(bits)) else Err(NotFinite)
    case Blob(data) => if |data| <= MAX_U32 then Ok([0x20] + U32(|data|) + data) else Err(TooLong)
    case Text(text) => EncodeText(text)
    case OddMap => Err(KeyNotString)
    case Other => Err(Unsupported)
  }

  function EncodeText(text: seq<CodePoint>): Result<seq<byte>, EncodeError> {
    if !Encodable(text) then Err(BadText)
    else if |Utf8.Encode(text)| > MAX_U32 then Err(TooLong)
    else Ok([0x21] + U32(|Utf8.Encode(text)|) + Utf8.Encode(text))
  }

  function EncodeItems(items: seq<Value>, depth: nat): Result<seq<byte>, EncodeError>
    requires depth <= MAX_DEPTH + 1
    decreases MAX_DEPTH + 1 - depth, 1 + |items|
  {
    if items == [] then Ok([])
    else
      var first :- EncodeValue(items[0], depth);
      var rest :- EncodeItems(items[1..], depth);
      Ok(first + rest)
  }

  /** Keys and values in turn, in the order of the list. */
  function EncodeEntries(entries: seq<Entry>, depth: nat): Result<seq<byte>, EncodeError>
    requires depth <= MAX_DEPTH + 1
    decreases MAX_DEPTH + 1 - depth, 2 + |entries|
  {
    if entries == [] then Ok([])
    else
      var first :- EncodeEntry(entries[0], depth);
      var rest :- EncodeEntries(entries[1..], depth);
      Ok(first + rest)
  }

  function EncodeEntry(e: Entry, depth: nat): Result<seq<byte>, EncodeError>
    requires depth <= MAX_DEPTH + 1
    decreases MAX_DEPTH + 1 - depth, 1
  {
    var key :- EncodeValue(Text(e.key), depth);
    var value :- EncodeValue(e.value, depth);
    Ok(key + value)
  }

  // Reading

  /** A parsed value, the bytes after it, and the number of values read so far. */
  datatype Parsed<+T> = Parsed(value: T, rest: seq<byte>, items: nat)

  function Take(rest: seq<byte>, size: nat): Result<(seq<byte>, seq<byte>), DecodeError> {
    if size > |rest| then Err(Truncated) else Ok((rest[..size], rest[size..]))
  }

  function ReadValue(rest: seq<byte>, items: nat, maxItems: nat, depth: nat): (r: Result<Parsed<Value>, DecodeError>)
    requires depth <= MAX_DEPTH + 1
    decreases MAX_DEPTH + 1 - depth, 0
  {
    if depth > MAX_DEPTH then Err(NestedTooDeep)
    else if items + 1 > maxItems then Err(ItemLimit)
    else
      var (tag, body) :- Take(rest, 1);
      if tag[0] == 0x30 then
        var (raw, after) :- Take(body, 4);
        if FromBytes(raw) > maxItems - (items + 1) then Err(ItemLimit)
        else
          var p :- ReadItems(FromBytes(raw), after, items + 1, maxItems, depth + 1);
          Ok(Parsed(List(p.value), p.rest, p.items))
      else if tag[0] == 0x31 then
        var (raw, after) :- Take(body, 4);
        if FromBytes(raw) > (maxItems - (items + 1)) / 2 then Err(ItemLimit)
        else
          var p :- ReadEntries(FromBytes(raw), None, after, items + 1, maxItems, depth + 1);
          Ok(Parsed(Map(p.value), p.rest, p.items))
      else
        var (value, after) :- ReadScalar(tag[0], body);
        Ok(Parsed(value, after, items + 1))
  }

  /** The rest of a value that holds no other values, after its tag. */
  function ReadScalar(tag: byte, body: seq<byte>): (r: Result<(Value, seq<byte>), DecodeError>)
    ensures r.Ok? ==> !r.value.0.List? && !r.value.0.Map?
  {
    match tag
    case 0x00 => Ok((Null, body))
    case 0x01 => Ok((Bool(false), body))
    case 0x02 => Ok((Bool(true), body))
    case 0x10 =>
      var (raw, after) :- Take(body, 8);
      Ok((Int(Int64FromBytes(raw)), after))
    case 0x11 =>
      var (raw, after) :- Take(body, 8);
      if IsFinite(PatternFromBytes(raw)) then Ok((Float(PatternFromBytes(raw)), after)) else Err(NonFinite)
    case 0x20 =>
      var (raw, after) :- ReadSized(body);
      Ok((Blob(raw), after))
    case 0x21 =>
      var (raw, after) :- ReadSized(body);
      (match Utf8.Decode(raw)
       case None => Err(BadUtf8)
       case Some(text) => Ok((Text(text), after)))
    case _ => Err(UnknownTag)
  }

  function ReadSized(body: seq<byte>): Result<(seq<byte>, seq<byte>), DecodeError> {
    var (raw, after) :- Take(body, 4);
    Take(after, FromBytes(raw))
  }

  function ReadItems(count: nat, rest: seq<byte>, items: nat, maxItems: nat, depth: nat)
    : Result<Parsed<seq<Value>>, DecodeError>
    requires depth <= MAX_DEPTH + 1
    decreases MAX_DEPTH + 1 - depth, 1 + count
  {
    if count == 0 then Ok(Parsed([], rest, items))
    else
      var first :- ReadValue(rest, items, maxItems, depth);
      var others :- ReadItems(count - 1, first.rest, first.items, maxItems, depth);
      Ok(Parsed([first.value] + others.value, others.rest, others.items))
  }

  function ReadEntries(count: nat, previous: Option<seq<byte>>, rest: seq<byte>, items: nat, maxItems: nat, depth: nat)
    : Result<Parsed<seq<Entry>>, DecodeError>
    requires depth <= MAX_DEPTH + 1
    decreases MAX_DEPTH + 1 - depth, 2 + count
  {
    if count == 0 then Ok(Parsed([], rest, items))
    else
      var first :- ReadEntry(previous, rest, items, maxItems, depth);
      var others :- ReadEntries(count - 1, Some(Utf8.Encode(first.value.key)), first.rest, first.items, maxItems,
                                depth);
      Ok(Parsed([first.value] + others.value, others.rest, others.items))
  }

  /** The key must be text and come strictly after the previous one in byte order. */
  function ReadEntry(previous: Option<seq<byte>>, rest: seq<byte>, items: nat, maxItems: nat, depth: nat)
    : Result<Parsed<Entry>, DecodeError>
    requires depth <= MAX_DEPTH + 1
    decreases MAX_DEPTH + 1 - depth, 1
  {
    var key :- ReadValue(rest, items, maxItems, depth);
    if !key.value.Text? then Err(KeyNotText)
    else if previous.Some? && !BytesLess(previous.value, Utf8.Encode(key.value.text)) then Err(KeyOrder)
    else
      var value :- ReadValue(key.rest, key.items, maxItems, depth);
      Ok(Parsed(Entry(key.value.text, value.value), value.rest, value.items))
  }

  function DecodeValue(data: seq<byte>, maxItems: int, maxBytes: int): Result<Value, DecodeError> {
    if maxItems < 1 || maxBytes < 0 then Err(BadLimit)
    else if |data| > maxBytes then Err(ByteLimit)
    else
      var p :- ReadValue(data, 0, maxItems, 0);
      if p.rest != [] then Err(TrailingBytes) else Ok(p.value)
  }
}
