/** The gob encoder and decoder as they run: bytes pushed onto a buffer, and a cursor
    that moves over a slice. Each method does what the wire form or the reader of
    module `Gob` says. */
module GobCodec {
  import opened ByteStrings
  import opened Wrappers
  import opened Gob
  import opened GobTheorems

  /** A `Vec<u8>`. */
  class Buffer {
    var bytes: Bytes

    constructor ()
      ensures bytes == []
    {
      bytes := [];
    }

    method Push(value: byte)
      modifies this
      ensures bytes == old(bytes) + [value]
    {
      bytes := bytes + [value];
    }

    method Extend(more: Bytes)
      modifies this
      ensures bytes == old(bytes) + more
    {
      bytes := bytes + more;
    }
  }

  // ---------------------------------------------------------------------
  // Encoder
  // ---------------------------------------------------------------------

  /** `to_be_bytes` of an integer of `width` bytes. */
  function ToBigEndian(value: nat, width: nat): (b: Bytes)
    ensures |b| == width
  {
    if width == 0 then [] else ToBigEndian(value / 256, width - 1) + [value % 256]
  }

  lemma {:induction false} LeadingZeros(value: nat, width: nat, first: nat)
    requires 0 < value && value < Pow256(width) && first < width
    requires forall i :: 0 <= i < first ==> ToBigEndian(value, width)[i] == 0
    requires ToBigEndian(value, width)[first] != 0
    ensures ToBigEndian(value, width)[first..] == BigEndian(value)
    decreases width
  {
    var all, rest := ToBigEndian(value, width), ToBigEndian(value / 256, width - 1);
    if value < 256 {
      ZeroBytes(width - 1);
      assert first == width - 1;
      assert all[first..] == [value];
    } else {
      NonZeroByte(value / 256, width - 1);
      assert first < width - 1;
      assert rest[first] == all[first];
      assert forall i :: 0 <= i < first ==> rest[i] == all[i];
      LeadingZeros(value / 256, width - 1, first);
      assert all[first..] == rest[first..] + [value % 256];
    }
  }

  lemma {:induction false} ZeroBytes(width: nat)
    ensures forall i :: 0 <= i < width ==> ToBigEndian(0, width)[i] == 0
  {
    if width > 0 {
      ZeroBytes(width - 1);
    }
  }

  lemma {:induction false} NonZeroByte(value: nat, width: nat)
    requires 0 < value < Pow256(width)
    ensures exists i :: 0 <= i < width && ToBigEndian(value, width)[i] != 0
    decreases width
  {
    if value % 256 != 0 {
      assert ToBigEndian(value, width)[width - 1] != 0;
    } else {
      NonZeroByte(value / 256, width - 1);
      var i :| 0 <= i < width - 1 && ToBigEndian(value / 256, width - 1)[i] != 0;
      assert ToBigEndian(value, width)[i] != 0;
    }
  }

  method EncodeUint(out: Buffer, value: u64)
    modifies out
    ensures out.bytes == old(out.bytes) + Uint(value)
  {
    hide BigEndian, ToBigEndian, Pow256;
    if value < 128 {
      out.Push(value);
      return;
    }
    PowersOf256();
    NonZeroByte(value, 8);
    var bytes := ToBigEndian(value, 8);
    var first := 0;
    while bytes[first] == 0
      invariant 0 <= first < 8
      invariant forall i :: 0 <= i < first ==> bytes[i] == 0
      decreases 8 - first
    {
      first := first + 1;
    }
    LeadingZeros(value, 8, first);
    BigEndianIsShort(value, 8);
    var significant := bytes[first..];
    out.Push(256 - |significant|);
    out.Extend(significant);
  }

  method EncodeInt(out: Buffer, value: i64)
    modifies out
    ensures out.bytes == old(out.bytes) + Int(value)
  {
    EncodeUint(out, ZigZag(value));
  }

  method EncodeString(out: Buffer, value: Bytes)
    requires |value| < U64
    modifies out
    ensures out.bytes == old(out.bytes) + String(value)
  {
    EncodeUint(out, |value|);
    out.Extend(value);
    assert out.bytes == old(out.bytes) + (Uint(|value|) + value);
  }

  method EncodeMessage(body: Bytes) returns (out: Bytes)
    requires |body| < U64
    ensures out == Message(body)
  {
    var buffer := new Buffer();
    EncodeUint(buffer, |body|);
    buffer.Extend(body);
    return buffer.bytes;
  }

  method EncodeTypeDefinition(typeId: i64) returns (bytes: Bytes)
    requires typeId != I64_MIN
    ensures bytes == TypeDefinition(typeId, false)
  {
    hide Uint, Int;
    var out := new Buffer();
    EncodeInt(out, -typeId);
    EncodeUint(out, WIRE_TYPE_MAP_FIELD + 1);
    EncodeUint(out, 1);
    EncodeUint(out, 2);
    ghost var head := out.bytes;
    EncodeInt(out, typeId);
    EncodeUint(out, 0);
    EncodeUint(out, 1);
    EncodeInt(out, INTERFACE_TYPE_ID);
    ghost var middle := out.bytes;
    EncodeUint(out, 1);
    EncodeInt(out, INTERFACE_TYPE_ID);
    EncodeUint(out, 0);
    EncodeUint(out, 0);
    ghost var rest := Uint(1) + (Int(INTERFACE_TYPE_ID) + (Uint(0) + Uint(0)));
    FourInFront(middle, Uint(1), Int(INTERFACE_TYPE_ID), Uint(0), Uint(0));
    FourInFront(head, Int(typeId), Uint(0), Uint(1), Int(INTERFACE_TYPE_ID) + rest);
    InFront(head + Int(typeId) + Uint(0), Uint(1), Int(INTERFACE_TYPE_ID), rest);
    assert out.bytes == head + CommonTypeRest(typeId);
    FourInFront([], Int(-typeId), Uint(WIRE_TYPE_MAP_FIELD + 1), Uint(1), Uint(2) + CommonTypeRest(typeId));
    InFront([] + Int(-typeId) + Uint(WIRE_TYPE_MAP_FIELD + 1), Uint(1), Uint(2), CommonTypeRest(typeId));
    return out.bytes;
  }

  lemma FourInFront(before: Bytes, a: Bytes, b: Bytes, c: Bytes, d: Bytes)
    ensures before + a + b + c + d == before + (a + (b + (c + d)))
  {
    InFront(before, a, b, c + d);
    assert before + a + b + (c + d) == before + a + b + c + d;
  }

  method EncodeInterfaceString(out: Buffer, value: Bytes)
    requires |value| <= ISIZE_MAX
    modifies out
    ensures out.bytes == old(out.bytes) + InterfaceString(value)
  {
    hide Uint, Int, String, Message, ValidUtf8;
    StringNameIsText();
    InnerSize(value);
    ghost var before := out.bytes;
    EncodeString(out, STRING_TYPE_NAME);
    EncodeInt(out, STRING_TYPE_ID);
    var inner := new Buffer();
    EncodeUint(inner, 0);
    EncodeString(inner, value);
    assert inner.bytes == Uint(0) + String(value);
    var message := EncodeMessage(inner.bytes);
    out.Extend(message);
    InFront(before, String(STRING_TYPE_NAME), Int(STRING_TYPE_ID), message);
  }

  lemma InFront(before: Bytes, a: Bytes, b: Bytes, c: Bytes)
    ensures ((before + a) + b) + c == before + (a + (b + c))
  {
  }

  lemma InnerSize(value: Bytes)
    requires |value| <= ISIZE_MAX
    ensures |Uint(0) + String(value)| < U64
  {
    UintLength(|value|);
  }

  method EncodeMapValue(typeId: i64, entries: seq<Entry>) returns (bytes: Bytes)
    requires InMemory(entries)
    ensures bytes == MapValue(typeId, entries)
  {
    hide Uint, Int, InterfaceString;
    var out := new Buffer();
    EncodeInt(out, typeId);
    EncodeUint(out, 0);
    EncodeUint(out, |entries|);
    ghost var head := out.bytes;
    assert head + [] == head;
    for i := 0 to |entries|
      invariant fresh(out)
      invariant out.bytes + EntryBytes(entries[i..]) == head + EntryBytes(entries)
    {
      assert entries[i..][1..] == entries[i + 1..];
      ghost var before := out.bytes;
      EncodeInterfaceString(out, entries[i].0);
      EncodeInterfaceString(out, entries[i].1);
      assert out.bytes + EntryBytes(entries[i + 1..]) == before + EntryBytes(entries[i..]);
    }
    assert out.bytes + [] == out.bytes;
    return out.bytes;
  }

  /** `encode_token_map` */
  method EncodeTokenMap(token: Text) returns (stream: Bytes)
    requires |token| <= ISIZE_MAX
    ensures stream == EncodedTokenMap(token)
    ensures DecodeTokenMap(stream) == Ok(token)
  {
    TokenMapFits(token);
    TokenMapRoundTrip(token);
    hide Message, TypeDefinition, MapValue, DecodeTokenMap;
    var definition := EncodeTypeDefinition(MAP_TYPE_ID);
    var first := EncodeMessage(definition);
    var value := EncodeMapValue(MAP_TYPE_ID, [(TOKEN, token)]);
    var second := EncodeMessage(value);
    return first + second;
  }

  // ---------------------------------------------------------------------
  // Decoder
  // ---------------------------------------------------------------------

  /** A reader's answer as the cursor gives it, and what it leaves on success. */
  ghost predicate Reads<T>(parsed: Parsed<T>, result: Result<T, GobError>, left: Bytes)
  {
    match parsed
    case Got(value, rest) => result == Ok(value) && left == rest
    case Fail(error) => result == Err(error)
  }

  class Cursor {
    var bytes: Bytes

    constructor (bytes: Bytes)
      ensures this.bytes == bytes
    {
      this.bytes := bytes;
    }

    method Take(count: nat) returns (r: Result<Bytes, GobError>)
      modifies this
      ensures |old(bytes)| < count ==> r == Err(Truncated) && bytes == old(bytes)
      ensures count <= |old(bytes)| ==> r == Ok(old(bytes)[..count]) && bytes == old(bytes)[count..]
    {
      if |bytes| < count {
        return Err(Truncated);
      }
      r := Ok(bytes[..count]);
      bytes := bytes[count..];
    }

    method NextUint() returns (r: Result<u64, GobError>)
      modifies this
      ensures Reads(ReadUint(old(bytes)), r, bytes)
    {
      var head := Take(1);
      if head.Err? {
        return Err(head.error);
      }
      var first := head.value[0];
      if first < 128 {
        return Ok(first);
      }
      var count := 256 - first;
      if count > 8 {
        return Err(IntegerTooLarge);
      }
      var taken := Take(count);
      if taken.Err? {
        return Err(taken.error);
      }
      var value: nat := 0;
      FromBigEndianIsSmall(taken.value, 8);
      for i := 0 to |taken.value|
        invariant value == FromBigEndian(taken.value[..i])
      {
        assert taken.value[..i + 1][..i] == taken.value[..i];
        value := value * 256 + taken.value[i];
      }
      assert taken.value[..|taken.value|] == taken.value;
      assert old(bytes)[1..][..count] == old(bytes)[1..1 + count];
      assert old(bytes)[1..][count..] == old(bytes)[1 + count..];
      return Ok(value);
    }

    method NextInt() returns (r: Result<i64, GobError>)
      modifies this
      ensures Reads(ReadInt(old(bytes)), r, bytes)
    {
      var raw := NextUint();
      if raw.Err? {
        return Err(raw.error);
      }
      return Ok(UnZigZag(raw.value));
    }

    method NextMessage() returns (r: Result<Bytes, GobError>)
      modifies this
      ensures Reads(ReadMessage(old(bytes)), r, bytes)
    {
      var len := NextUint();
      if len.Err? {
        return Err(len.error);
      }
      r := Take(len.value);
    }

    method NextString() returns (r: Result<Text, GobError>)
      modifies this
      ensures Reads(ReadString(old(bytes)), r, bytes)
    {
      hide ReadUint;
      var len := NextUint();
      if len.Err? {
        return Err(len.error);
      }
      var taken := Take(len.value);
      if taken.Err? {
        return Err(taken.error);
      }
      if !ValidUtf8(taken.value) {
        return Err(NotUtf8);
      }
      return Ok(taken.value);
    }

    method ExpectUint(expected: u64, what: string) returns (r: Result<(), GobError>)
      modifies this
      ensures Reads(Expect(old(bytes), expected, what), r, bytes)
    {
      var value := NextUint();
      if value.Err? {
        return Err(value.error);
      }
      if value.value != expected {
        return Err(Unexpected(what));
      }
      return Ok(());
    }
  }

  method NextTypeName(cursor: Cursor) returns (r: Result<(), GobError>)
    modifies cursor
    ensures Reads(ReadTypeName(old(cursor.bytes)), r, cursor.bytes)
  {
    hide ReadUint, ReadString, Expect;
    var delta := cursor.NextUint();
    if delta.Err? {
      return Err(delta.error);
    }
    if delta.value == 2 {
      return Ok(());
    }
    if delta.value != 1 {
      return Err(Unexpected("map type has no id"));
    }
    var name := cursor.NextString();
    if name.Err? {
      return Err(name.error);
    }
    if name.value != MAP_TYPE_NAME {
      return Err(UnexpectedTypeName(name.value));
    }
    r := cursor.ExpectUint(1, "map type has no id");
  }

  method NextCommonTypeRest(cursor: Cursor, typeId: i64) returns (r: Result<(), GobError>)
    modifies cursor
    ensures Reads(ReadCommonTypeRest(old(cursor.bytes), typeId), r, cursor.bytes)
  {
    hide ReadInt, Expect;
    var id := cursor.NextInt();
    if id.Err? { return Err(id.error); }
    if id.value != typeId { return Err(Unexpected("map type id does not match the definition")); }
    r := cursor.ExpectUint(0, "common type is not terminated");
    if r.Err? { return; }
    r := cursor.ExpectUint(1, "map type has no key type");
    if r.Err? { return; }
    var key := cursor.NextInt();
    if key.Err? { return Err(key.error); }
    if key.value != INTERFACE_TYPE_ID { return Err(Unexpected("map key is not an interface")); }
    r := cursor.ExpectUint(1, "map type has no element type");
    if r.Err? { return; }
    var element := cursor.NextInt();
    if element.Err? { return Err(element.error); }
    if element.value != INTERFACE_TYPE_ID { return Err(Unexpected("map element is not an interface")); }
    r := cursor.ExpectUint(0, "map type is not terminated");
    if r.Err? { return; }
    r := cursor.ExpectUint(0, "wire type is not terminated");
  }

  method DecodeTypeDefinition(body: Bytes) returns (r: Result<i64, GobError>)
    ensures Reads(ReadTypeDefinition(body), r, [])
  {
    hide ReadInt, Expect, ReadTypeName, ReadCommonTypeRest;
    var cursor := new Cursor(body);
    var announced := cursor.NextInt();
    if announced.Err? {
      return Err(announced.error);
    }
    if announced.value >= 0 {
      return Err(Unexpected("first message is not a type definition"));
    }
    var typeId := Negated(announced.value);
    if typeId != MAP_TYPE_ID && typeId != LEGACY_MAP_TYPE_ID {
      return Err(UnexpectedTypeId(typeId));
    }
    var done := cursor.ExpectUint(WIRE_TYPE_MAP_FIELD + 1, "type definition is not a map type");
    if done.Err? { return Err(done.error); }
    done := cursor.ExpectUint(1, "map type has no common type");
    if done.Err? { return Err(done.error); }
    done := NextTypeName(cursor);
    if done.Err? { return Err(done.error); }
    done := NextCommonTypeRest(cursor, typeId);
    if done.Err? { return Err(done.error); }
    if cursor.bytes != [] {
      return Err(TrailingBytes);
    }
    return Ok(typeId);
  }

  method NextInterfaceString(cursor: Cursor) returns (r: Result<Text, GobError>)
    modifies cursor
    ensures Reads(ReadInterfaceString(old(cursor.bytes)), r, cursor.bytes)
  {
    hide ReadInt, Expect, ReadString, ReadMessage;
    var name := cursor.NextString();
    if name.Err? { return Err(name.error); }
    if name.value != STRING_TYPE_NAME { return Err(UnexpectedTypeName(name.value)); }
    var typeId := cursor.NextInt();
    if typeId.Err? { return Err(typeId.error); }
    if typeId.value != STRING_TYPE_ID { return Err(Unexpected("interface value is not a string")); }
    var message := cursor.NextMessage();
    if message.Err? { return Err(message.error); }
    var inner := new Cursor(message.value);
    var done := inner.ExpectUint(0, "interface value has no singleton delta");
    if done.Err? { return Err(done.error); }
    r := inner.NextString();
    if r.Ok? && inner.bytes != [] {
      r := Err(TrailingBytes);
    }
  }

  method DecodeMapValue(body: Bytes, typeId: i64) returns (r: Result<seq<(Text, Text)>, GobError>)
    ensures Reads(ReadMapValue(body, typeId), r, [])
  {
    hide ReadInt, Expect, ReadUint, ReadInterfaceString;
    var cursor := new Cursor(body);
    var id := cursor.NextInt();
    if id.Err? { return Err(id.error); }
    if id.value != typeId { return Err(Unexpected("value message has a different type id")); }
    var done := cursor.ExpectUint(0, "singleton delta is missing");
    if done.Err? { return Err(done.error); }
    var count := cursor.NextUint();
    if count.Err? { return Err(count.error); }
    var entries: seq<(Text, Text)> := [];
    ghost var all := ReadEntries(cursor.bytes, count.value);
    AppendNothing(all);
    for i := 0 to count.value
      invariant fresh(cursor)
      invariant all == Appended(entries, ReadEntries(cursor.bytes, count.value - i))
    {
      var key := NextInterfaceString(cursor);
      if key.Err? { return Err(key.error); }
      var value := NextInterfaceString(cursor);
      if value.Err? { return Err(value.error); }
      AppendMore(entries, (key.value, value.value), ReadEntries(cursor.bytes, count.value - i - 1));
      entries := entries + [(key.value, value.value)];
    }
    assert entries + [] == entries;
    if cursor.bytes != [] {
      return Err(TrailingBytes);
    }
    return Ok(entries);
  }

  function Appended<T>(entries: seq<T>, more: Parsed<seq<T>>): Parsed<seq<T>>
  {
    match more
    case Got(value, rest) => Got(entries + value, rest)
    case Fail(error) => Fail(error)
  }

  lemma AppendNothing<T>(more: Parsed<seq<T>>)
    ensures Appended([], more) == more
  {
    if more.Got? {
      assert [] + more.value == more.value;
    }
  }

  lemma AppendMore<T>(entries: seq<T>, entry: T, more: Parsed<seq<T>>)
    ensures Appended(entries + [entry], more) == Appended(entries, Appended([entry], more))
  {
    if more.Got? {
      assert entries + ([entry] + more.value) == (entries + [entry]) + more.value;
    }
  }

  /** `decode_string_map` */
  method DecodeStringEntries(stream: Bytes) returns (r: Result<seq<(Text, Text)>, GobError>)
    ensures r == DecodeStringMap(stream)
  {
    hide ReadMessage, ReadTypeDefinition, ReadMapValue;
    var cursor := new Cursor(stream);
    var definition := cursor.NextMessage();
    if definition.Err? { return Err(definition.error); }
    var typeId := DecodeTypeDefinition(definition.value);
    if typeId.Err? { return Err(typeId.error); }
    var value := cursor.NextMessage();
    if value.Err? { return Err(value.error); }
    r := DecodeMapValue(value.value, typeId.value);
    if r.Err? { return; }
    if cursor.bytes != [] {
      return Err(TrailingBytes);
    }
  }

  /** `decode_token_map` */
  method DecodeToken(stream: Bytes) returns (r: Result<Text, GobError>)
    ensures r == DecodeTokenMap(stream)
  {
    hide DecodeStringMap;
    var entries := DecodeStringEntries(stream);
    if entries.Err? { return Err(entries.error); }
    var token := Lookup(entries.value, TOKEN);
    if token.None? {
      return Err(Unexpected("no token entry in the session map"));
    }
    return Ok(token.value);
  }
}
