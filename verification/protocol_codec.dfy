/** The encoder's and the reader's loops, and the envelope (src/ubin/protocol.py). */
module ProtocolCodec {
  import opened Bytes
  import opened Protocol
  import opened ProtocolForm
  import opened ProtocolProofs
  import opened StableOrder

  // The encoder

  ghost function After(front: seq<byte>, r: Result<seq<byte>, EncodeError>): Result<seq<byte>, EncodeError> {
    if r.Ok? then Ok(front + r.value) else r
  }

  lemma AfterNothing(r: Result<seq<byte>, EncodeError>)
    ensures After([], r) == r
  {
    if r.Ok? {
      assert [] + r.value == r.value;
    }
  }

  method Encode(v: Value, depth: nat) returns (r: Result<seq<byte>, EncodeError>)
    requires depth <= MAX_DEPTH + 1
    ensures r == EncodeValue(v, depth)
    ensures r.Ok? && IsDictValue(v) ==> Shows(r.value, v)
    decreases MAX_DEPTH + 1 - depth, 0
  {
    hide EncodeItems, EncodeEntries, Shows, IsDictValue;
    if EncodeValue(v, depth).Ok? && IsDictValue(v) {
      EncodingShows(v, depth);
    }
    if depth > MAX_DEPTH {
      return Err(TooDeep);
    }
    match v {
      case List(items) =>
        if |items| > MAX_U32 {
          return Err(TooLong);
        }
        var body :- EncodeList(items, depth + 1);
        return Ok([0x30] + U32(|items|) + body);
      case Map(entries) =>
        if !AllKeysEncodable(entries) {
          return Err(BadText);
        }
        if |entries| > MAX_U32 {
          return Err(TooLong);
        }
        var body :- EncodeSorted(Values(ByKey(), entries), depth + 1);
        return Ok([0x31] + U32(|entries|) + body);
      case _ =>
        return EncodeScalar(v);
    }
  }

  /** The loop over the items of a list. */
  method EncodeList(items: seq<Value>, depth: nat) returns (r: Result<seq<byte>, EncodeError>)
    requires depth <= MAX_DEPTH + 1
    ensures r == EncodeItems(items, depth)
    decreases MAX_DEPTH + 1 - depth, 1
  {
    hide EncodeValue;
    var body: seq<byte> := [];
    AfterNothing(EncodeItems(items, depth));
    assert items[0..] == items;
    for i := 0 to |items|
      invariant EncodeItems(items, depth) == After(body, EncodeItems(items[i..], depth))
    {
      ItemsFrom(items, i, depth, body);
      var item :- Encode(items[i], depth);
      body := body + item;
    }
    assert body + [] == body;
    return Ok(body);
  }

  /** The loop over the sorted entries of a map. */
  method EncodeSorted(sorted: seq<Entry>, depth: nat) returns (r: Result<seq<byte>, EncodeError>)
    requires depth <= MAX_DEPTH + 1
    ensures r == EncodeEntries(sorted, depth)
    decreases MAX_DEPTH + 1 - depth, 1
  {
    hide EncodeValue;
    var body: seq<byte> := [];
    AfterNothing(EncodeEntries(sorted, depth));
    assert sorted[0..] == sorted;
    for i := 0 to |sorted|
      invariant EncodeEntries(sorted, depth) == After(body, EncodeEntries(sorted[i..], depth))
    {
      EntriesFrom(sorted, i, depth, body);
      var key :- Encode(Text(sorted[i].key), depth);
      var value :- Encode(sorted[i].value, depth);
      body := body + (key + value);
    }
    assert body + [] == body;
    return Ok(body);
  }

  lemma ItemsFrom(items: seq<Value>, i: nat, depth: nat, body: seq<byte>)
    requires i < |items| && depth <= MAX_DEPTH + 1
    ensures var first := EncodeValue(items[i], depth);
            After(body, EncodeItems(items[i..], depth))
            == if first.Err? then first else After(body + first.value, EncodeItems(items[i + 1..], depth))
  {
    hide EncodeValue;
    assert items[i..][0] == items[i] && items[i..][1..] == items[i + 1..];
    var first, rest := EncodeValue(items[i], depth), EncodeItems(items[i + 1..], depth);
    if first.Ok? && rest.Ok? {
      assert body + (first.value + rest.value) == body + first.value + rest.value;
    }
  }

  lemma EntriesFrom(entries: seq<Entry>, i: nat, depth: nat, body: seq<byte>)
    requires i < |entries| && depth <= MAX_DEPTH + 1
    ensures var first := EncodeEntry(entries[i], depth);
            After(body, EncodeEntries(entries[i..], depth))
            == if first.Err? then first else After(body + first.value, EncodeEntries(entries[i + 1..], depth))
  {
    hide EncodeEntry;
    assert entries[i..][0] == entries[i] && entries[i..][1..] == entries[i + 1..];
    var first, rest := EncodeEntry(entries[i], depth), EncodeEntries(entries[i + 1..], depth);
    if first.Ok? && rest.Ok? {
      assert body + (first.value + rest.value) == body + first.value + rest.value;
    }
  }

  // The reader

  ghost function Prefixed<T>(front: seq<T>, r: Result<Parsed<seq<T>>, DecodeError>)
    : Result<Parsed<seq<T>>, DecodeError>
  {
    if r.Ok? then Ok(r.value.(value := front + r.value.value)) else r
  }

  lemma PrefixedNothing<T>(r: Result<Parsed<seq<T>>, DecodeError>)
    ensures Prefixed([], r) == r
  {
    if r.Ok? {
      assert [] + r.value.value == r.value.value;
    }
  }

  class Reader {
    const data: seq<byte>
    const maxItems: nat
    var offset: nat
    var items: nat

    ghost predicate Valid()
      reads this
    {
      offset <= |data|
    }

    ghost function Rest(): seq<byte>
      reads this
      requires Valid()
    {
      data[offset..]
    }

    constructor (data: seq<byte>, maxItems: nat)
      ensures Valid() && this.data == data && this.maxItems == maxItems && offset == 0 && items == 0
    {
      this.data, this.maxItems := data, maxItems;
      offset, items := 0, 0;
    }

    method Take(size: int) returns (r: Result<seq<byte>, DecodeError>)
      requires Valid()
      modifies this`offset
      ensures Valid()
      ensures size < 0 ==> r == Err(Truncated)
      ensures size >= 0 ==>
                match Protocol.Take(old(Rest()), size)
                case Ok((taken, rest)) => r == Ok(taken) && Rest() == rest
                case Err(e) => r == Err(e) && offset == old(offset)
    {
      if size < 0 || offset + size > |data| {
        return Err(Truncated);
      }
      r := Ok(data[offset..offset + size]);
      assert data[offset..][..size] == data[offset..offset + size] && data[offset..][size..] == data[offset + size..];
      offset := offset + size;
    }

    /** Reads a length and that many bytes. */
    method TakeSized() returns (r: Result<seq<byte>, DecodeError>)
      requires Valid()
      modifies this`offset
      ensures Valid()
      ensures match ReadSized(old(Rest()))
              case Ok((taken, rest)) => r == Ok(taken) && Rest() == rest
              case Err(e) => r == Err(e)
    {
      var size :- Take(4);
      r := Take(FromBytes(size));
    }

    method Scalar(tag: byte) returns (r: Result<Value, DecodeError>)
      requires Valid()
      modifies this`offset
      ensures Valid()
      ensures match ReadScalar(tag, old(Rest()))
              case Ok((value, rest)) => r == Ok(value) && Rest() == rest
              case Err(e) => r == Err(e)
    {
      hide FromBytes, ReadSized, Utf8.Decode;
      if tag == 0x00 {
        return Ok(Null);
      } else if tag == 0x01 {
        return Ok(Bool(false));
      } else if tag == 0x02 {
        return Ok(Bool(true));
      } else if tag == 0x10 {
        var raw :- Take(8);
        return Ok(Int(Int64FromBytes(raw)));
      } else if tag == 0x11 {
        var raw :- Take(8);
        if !IsFinite(PatternFromBytes(raw)) {
          return Err(NonFinite);
        }
        return Ok(Float(PatternFromBytes(raw)));
      } else if tag == 0x20 || tag == 0x21 {
        var raw :- TakeSized();
        if tag == 0x20 {
          return Ok(Blob(raw));
        }
        match Utf8.Decode(raw) {
          case None => return Err(BadUtf8);
          case Some(text) => return Ok(Text(text));
        }
      }
      return Err(UnknownTag);
    }

    method ReadOne(depth: nat) returns (r: Result<Value, DecodeError>)
      requires Valid() && depth <= MAX_DEPTH + 1
      modifies this
      ensures Valid()
      ensures match ReadValue(old(Rest()), old(items), maxItems, depth)
              case Ok(p) => r == Ok(p.value) && Rest() == p.rest && items == p.items
              case Err(e) => r == Err(e)
      decreases MAX_DEPTH + 1 - depth, 0
    {
      hide FromBytes, ReadScalar;
      if depth > MAX_DEPTH {
        return Err(NestedTooDeep);
      }
      items := items + 1;
      if items > maxItems {
        return Err(ItemLimit);
      }
      var tag :- Take(1);
      if tag[0] == 0x30 {
        var raw :- Take(4);
        if FromBytes(raw) > maxItems - items {
          return Err(ItemLimit);
        }
        var list :- ReadList(FromBytes(raw), depth);
        return Ok(List(list));
      } else if tag[0] == 0x31 {
        var raw :- Take(4);
        if FromBytes(raw) > (maxItems - items) / 2 {
          return Err(ItemLimit);
        }
        var entries :- ReadMap(FromBytes(raw), depth);
        return Ok(Map(entries));
      } else {
        r := Scalar(tag[0]);
      }
    }

    method ReadList(count: nat, depth: nat) returns (r: Result<seq<Value>, DecodeError>)
      requires Valid() && depth <= MAX_DEPTH
      modifies this
      ensures Valid()
      ensures match ReadItems(count, old(Rest()), old(items), maxItems, depth + 1)
              case Ok(p) => r == Ok(p.value) && Rest() == p.rest && items == p.items
              case Err(e) => r == Err(e)
      decreases MAX_DEPTH - depth, 1
    {
      hide ReadValue;
      ghost var goal := ReadItems(count, Rest(), items, maxItems, depth + 1);
      PrefixedNothing(goal);
      var list: seq<Value> := [];
      for i := 0 to count
        invariant Valid()
        invariant goal == Prefixed(list, ReadItems(count - i, Rest(), items, maxItems, depth + 1))
      {
        var item :- ReadOne(depth + 1);
        assert forall s: seq<Value> :: list + ([item] + s) == list + [item] + s;
        list := list + [item];
      }
      assert list + [] == list;
      return Ok(list);
    }

    method ReadMap(count: nat, depth: nat) returns (r: Result<seq<Entry>, DecodeError>)
      requires Valid() && depth <= MAX_DEPTH
      modifies this
      ensures Valid()
      ensures match ReadEntries(count, None, old(Rest()), old(items), maxItems, depth + 1)
              case Ok(p) => r == Ok(p.value) && Rest() == p.rest && items == p.items
              case Err(e) => r == Err(e)
      decreases MAX_DEPTH - depth, 2
    {
      hide ReadEntry;
      ghost var goal := ReadEntries(count, None, Rest(), items, maxItems, depth + 1);
      PrefixedNothing(goal);
      var entries: seq<Entry> := [];
      var previous: Option<seq<byte>> := None;
      for i := 0 to count
        invariant Valid()
        invariant goal == Prefixed(entries, ReadEntries(count - i, previous, Rest(), items, maxItems, depth + 1))
      {
        var e :- ReadPair(previous, depth);
        previous := Some(Utf8.Encode(e.key));
        assert forall s: seq<Entry> :: entries + ([e] + s) == entries + [e] + s;
        entries := entries + [e];
      }
      assert entries + [] == entries;
      return Ok(entries);
    }

    /** One key and its value. */
    method ReadPair(previous: Option<seq<byte>>, depth: nat) returns (r: Result<Entry, DecodeError>)
      requires Valid() && depth <= MAX_DEPTH
      modifies this
      ensures Valid()
      ensures match ReadEntry(previous, old(Rest()), old(items), maxItems, depth + 1)
              case Ok(p) => r == Ok(p.value) && Rest() == p.rest && items == p.items
              case Err(e) => r == Err(e)
      decreases MAX_DEPTH - depth, 1
    {
      hide ReadValue;
      var key :- ReadOne(depth + 1);
      if !key.Text? {
        return Err(KeyNotText);
      }
      var encodedKey := Utf8.Encode(key.text);
      if previous.Some? && !BytesLess(previous.value, encodedKey) {
        return Err(KeyOrder);
      }
      var value :- ReadOne(depth + 1);
      return Ok(Entry(key.text, value));
    }
  }

  method Decode(data: seq<byte>, maxItems: int, maxBytes: int) returns (r: Result<Value, DecodeError>)
    ensures r == DecodeValue(data, maxItems, maxBytes)
    ensures r.Ok? ==> Shows(data, r.value) && KeysAscend(r.value)
  {
    hide Shows, KeysAscend;
    if DecodeValue(data, maxItems, maxBytes).Ok? {
      DecodedShows(data, maxItems, maxBytes);
    }
    if maxItems < 1 || maxBytes < 0 {
      return Err(BadLimit);
    }
    if |data| > maxBytes {
      return Err(ByteLimit);
    }
    var reader := new Reader(data, maxItems);
    assert reader.Rest() == data;
    var value :- reader.ReadOne(0);
    if reader.offset != |reader.data| {
      return Err(TrailingBytes);
    }
    return Ok(value);
  }

  // The envelope

  /** "UBN2" */
  const MAGIC: seq<byte> := [85, 66, 78, 50]
  const PROTOCOL_VERSION: byte := 2
  const HEADER_SIZE: nat := 12
  const MESSAGE_TYPE_VALUE: nat := 1

  datatype Envelope = Envelope(messageType: nat, flags: nat, payload: seq<byte>)

  datatype EnvelopeError =
    | PayloadTooLong
    | BadMessageType
    | BadFlags
    | BadPayloadLimit
    | TruncatedEnvelope
    | BadMagic
    | BadVersion
    | OverPayloadLimit
    | LengthMismatch
    | NotValueMessage
    | Encoding(encodeError: EncodeError)
    | Decoding(decodeError: DecodeError)

  function U16(n: nat): (s: seq<byte>)
    requires n <= 0xFFFF
    ensures |s| == 2
  {
    Pow256Values();
    ToBytes(n, 2)
  }

  function EncodeEnvelope(payload: seq<byte>, messageType: int, flags: int): Result<seq<byte>, EnvelopeError> {
    if |payload| > MAX_U32 then Err(PayloadTooLong)
    else if !(0 <= messageType <= 255) then Err(BadMessageType)
    else if !(0 <= flags <= 0xFFFF) then Err(BadFlags)
    else Ok(MAGIC + [PROTOCOL_VERSION, messageType] + U16(flags) + U32(|payload|) + payload)
  }

  function DecodeEnvelope(data: seq<byte>, maxPayload: int): Result<Envelope, EnvelopeError> {
    if maxPayload < 0 then Err(BadPayloadLimit)
    else if |data| < HEADER_SIZE then Err(TruncatedEnvelope)
    else if data[..4] != MAGIC then Err(BadMagic)
    else if data[4] != PROTOCOL_VERSION then Err(BadVersion)
    else
      var size := FromBytes(data[8..12]);
      if size > maxPayload then Err(OverPayloadLimit)
      else if |data| != HEADER_SIZE + size then Err(LengthMismatch)
      else Ok(Envelope(data[5], FromBytes(data[6..8]), data[12..]))
  }

  /** An envelope digit by digit, and exactly when there is one. */
  lemma EnvelopeForm(payload: seq<byte>, messageType: int, flags: int)
    ensures EncodeEnvelope(payload, messageType, flags).Ok?
            <==> |payload| <= 0xFFFF_FFFF && 0 <= messageType <= 255 && 0 <= flags <= 0xFFFF
    ensures EncodeEnvelope(payload, messageType, flags).Ok? ==>
              var data := EncodeEnvelope(payload, messageType, flags).value;
              && |data| == 12 + |payload| && data[..6] == [85, 66, 78, 50, 2, messageType]
              && Number(data[6..8]) == flags && Number(data[8..12]) == |payload| && data[12..] == payload
  {
    hide ToBytes, Number;
    if EncodeEnvelope(payload, messageType, flags).Ok? {
      var data := EncodeEnvelope(payload, messageType, flags).value;
      Pow256Values();
      ToBytesIsNumber(flags, 2);
      ToBytesIsNumber(|payload|, 4);
      assert data[6..8] == U16(flags) && data[8..12] == U32(|payload|) && data[12..] == payload;
    }
  }

  /** Lists, one inside the other. */
  function Nested(k: nat): Value {
    if k == 0 then Null else List([Nested(k - 1)])
  }

  /** 64 levels of nesting can be encoded, and no more. */
  lemma {:induction false} DepthIsLimited(k: nat, depth: nat)
    requires depth <= 65
    ensures EncodeValue(Nested(k), depth).Ok? <==> depth + k <= 64
    decreases k
  {
    if k > 0 && depth <= 64 {
      DepthIsLimited(k - 1, depth + 1);
      OneItem(Nested(k - 1), depth + 1);
    }
  }

  lemma OneItem(v: Value, depth: nat)
    requires depth <= MAX_DEPTH + 1
    ensures EncodeItems([v], depth).Ok? <==> EncodeValue(v, depth).Ok?
  {
    hide EncodeValue;
    assert EncodeItems([v][1..], depth) == Ok([]);
  }

  /** An envelope opens to what was put in, unless the payload is over the limit. */
  lemma EnvelopeRoundTrip(payload: seq<byte>, messageType: int, flags: int, maxPayload: int)
    requires EncodeEnvelope(payload, messageType, flags).Ok? && maxPayload >= 0
    ensures DecodeEnvelope(EncodeEnvelope(payload, messageType, flags).value, maxPayload)
            == if |payload| > maxPayload then Err(OverPayloadLimit) else Ok(Envelope(messageType, flags, payload))
  {
    hide ToBytes, FromBytes;
    var data := EncodeEnvelope(payload, messageType, flags).value;
    Pow256Values();
    FromToBytes(flags, 2);
    U32RoundTrip(|payload|);
    assert data[..4] == MAGIC && data[4] == 2 && data[5] == messageType;
    assert data[6..8] == U16(flags) && data[8..12] == U32(|payload|) && data[12..] == payload;
  }

  /** Only the envelopes that the encoder writes are opened. */
  lemma EnvelopeCanonical(data: seq<byte>, maxPayload: int)
    requires DecodeEnvelope(data, maxPayload).Ok?
    ensures var e := DecodeEnvelope(data, maxPayload).value;
            EncodeEnvelope(e.payload, e.messageType, e.flags) == Ok(data) && |e.payload| <= maxPayload
  {
    hide ToBytes, FromBytes;
    Pow256Values();
    U32Canonical(data[8..12]);
    ToFromBytes(data[6..8]);
    var e := DecodeEnvelope(data, maxPayload).value;
    assert data == data[..4] + [data[4], data[5]] + data[6..8] + data[8..12] + data[12..];
  }

  function EncodeMessage(v: Value, flags: int): Result<seq<byte>, EnvelopeError> {
    match EncodeValue(v, 0)
    case Err(e) => Err(Encoding(e))
    case Ok(code) => EncodeEnvelope(code, MESSAGE_TYPE_VALUE, flags)
  }

  function DecodeMessage(data: seq<byte>, maxPayload: int, maxItems: int): Result<Value, EnvelopeError> {
    match DecodeEnvelope(data, maxPayload)
    case Err(e) => Err(e)
    case Ok(e) =>
      if e.messageType != MESSAGE_TYPE_VALUE then Err(NotValueMessage)
      else match DecodeValue(e.payload, maxItems, maxPayload)
           case Err(d) => Err(Decoding(d))
           case Ok(v) => Ok(v)
  }

  /** A message carries a value to its canonical form, within the limits. */
  lemma MessageRoundTrip(v: Value, flags: int, maxPayload: int, maxItems: int)
    requires IsDictValue(v) && EncodeMessage(v, flags).Ok? && maxPayload >= 0 && maxItems >= 1
    ensures DecodeMessage(EncodeMessage(v, flags).value, maxPayload, maxItems)
            == if |EncodeValue(v, 0).value| > maxPayload then Err(OverPayloadLimit)
               else if Count(v) > maxItems then Err(Decoding(ItemLimit))
               else Ok(Canon(v))
  {
    hide EncodeValue, DecodeValue, EncodeEnvelope, DecodeEnvelope;
    var code := EncodeValue(v, 0).value;
    EnvelopeRoundTrip(code, MESSAGE_TYPE_VALUE, flags, maxPayload);
    DecodeUndoesEncode(v, code, maxItems, maxPayload);
  }

  /** An accepted message is the one that its value and flags encode to. */
  lemma MessageCanonical(data: seq<byte>, maxPayload: int, maxItems: int)
    requires DecodeMessage(data, maxPayload, maxItems).Ok?
    ensures DecodeEnvelope(data, maxPayload).Ok?
    ensures EncodeMessage(DecodeMessage(data, maxPayload, maxItems).value,
                          DecodeEnvelope(data, maxPayload).value.flags) == Ok(data)
  {
    hide EncodeValue, DecodeValue, EncodeEnvelope, DecodeEnvelope;
    EnvelopeCanonical(data, maxPayload);
    EncodeUndoesDecode(DecodeEnvelope(data, maxPayload).value.payload, maxItems, maxPayload);
  }
}
