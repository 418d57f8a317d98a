/** What the gob codec promises: round trips, exact framing, and linear decoding. */
module GobTheorems {
  import opened ByteStrings
  import opened Wrappers
  import opened Gob

  // ---------------------------------------------------------------------
  // Round trips
  // ---------------------------------------------------------------------

  lemma MapNameIsText()
    ensures ValidUtf8(MAP_TYPE_NAME) && |MAP_TYPE_NAME| == 29
  {
    hide ValidUtf8, Ascii;
    AsciiIsUtf8(MAP_TYPE_NAME);
  }

  lemma StringNameIsText()
    ensures ValidUtf8(STRING_TYPE_NAME) && |STRING_TYPE_NAME| == 6
  {
    AsciiIsUtf8(STRING_TYPE_NAME);
  }

  lemma TokenKeyIsText()
    ensures ValidUtf8(TOKEN) && |TOKEN| == 5
  {
    AsciiIsUtf8(TOKEN);
  }

  lemma TypeNameRoundTrip(named: bool, tail: Bytes)
    ensures ReadTypeName(TypeName(named) + tail) == Got((), tail)
  {
    hide ReadUint, Uint, ReadString, String;
    if named {
      MapNameIsText();
      UintRoundTrip(1, String(MAP_TYPE_NAME) + (Uint(1) + tail));
      StringRoundTrip(MAP_TYPE_NAME, Uint(1) + tail);
      ExpectRoundTrip(1, "map type has no id", tail);
      assert TypeName(named) + tail == Uint(1) + (String(MAP_TYPE_NAME) + (Uint(1) + tail));
    } else {
      UintRoundTrip(2, tail);
    }
  }

  lemma CommonTypeRestRoundTrip(typeId: i64)
    ensures ReadCommonTypeRest(CommonTypeRest(typeId), typeId) == Got((), [])
  {
    hide ReadInt, Expect, Uint, Int;
    var b7 := Uint(0) + [];
    assert b7 == Uint(0);
    var b6 := Uint(0) + Uint(0);
    var b5 := Int(INTERFACE_TYPE_ID) + b6;
    var b4 := Uint(1) + b5;
    var b3 := Int(INTERFACE_TYPE_ID) + b4;
    var b2 := Uint(1) + b3;
    var b1 := Uint(0) + b2;
    IntRoundTrip(typeId, b1);
    ExpectRoundTrip(0, "common type is not terminated", b2);
    ExpectRoundTrip(1, "map type has no key type", b3);
    IntRoundTrip(INTERFACE_TYPE_ID, b4);
    ExpectRoundTrip(1, "map type has no element type", b5);
    IntRoundTrip(INTERFACE_TYPE_ID, b6);
    ExpectRoundTrip(0, "map type is not terminated", b7);
    ExpectRoundTrip(0, "wire type is not terminated", []);
  }

  /** Either type id, with or without the type's name, is read back. */
  lemma TypeDefinitionRoundTrip(typeId: i64, named: bool)
    requires typeId == MAP_TYPE_ID || typeId == LEGACY_MAP_TYPE_ID
    ensures ReadTypeDefinition(TypeDefinition(typeId, named)) == Got(typeId, [])
  {
    hide ReadInt, Expect, Uint, Int, ReadTypeName, TypeName, ReadCommonTypeRest, CommonTypeRest;
    var rest := CommonTypeRest(typeId);
    var b2 := TypeName(named) + rest;
    var b1 := Uint(1) + b2;
    IntRoundTrip(-typeId, Uint(WIRE_TYPE_MAP_FIELD + 1) + b1);
    ExpectRoundTrip(WIRE_TYPE_MAP_FIELD + 1, "type definition is not a map type", b1);
    ExpectRoundTrip(1, "map type has no common type", b2);
    TypeNameRoundTrip(named, rest);
    CommonTypeRestRoundTrip(typeId);
  }

  lemma InterfaceStringRoundTrip(value: Text, tail: Bytes)
    requires |value| <= ISIZE_MAX
    ensures ReadInterfaceString(InterfaceString(value) + tail) == Got(value, tail)
  {
    hide ReadInt, Expect, Uint, Int, ReadString, ReadMessage, Message;
    UintLength(0);
    UintLength(|value|);
    StringNameIsText();
    var inner := Uint(0) + String(value);
    var b1 := Message(inner) + tail;
    var b0 := Int(STRING_TYPE_ID) + b1;
    assert InterfaceString(value) + tail == String(STRING_TYPE_NAME) + b0;
    StringRoundTrip(STRING_TYPE_NAME, b0);
    IntRoundTrip(STRING_TYPE_ID, b1);
    MessageRoundTrip(inner, tail);
    ExpectRoundTrip(0, "interface value has no singleton delta", String(value));
    StringRoundTrip(value, []);
    assert String(value) + [] == String(value);
  }

  ghost predicate Texts(entries: seq<Entry>)
  {
    forall i :: 0 <= i < |entries| ==> ValidUtf8(entries[i].0) && ValidUtf8(entries[i].1)
  }

  lemma {:induction false} EntriesRoundTrip(entries: seq<Entry>, tail: Bytes)
    requires InMemory(entries) && Texts(entries)
    ensures ReadEntries(EntryBytes(entries) + tail, |entries|) == Got(entries, tail)
    decreases entries
  {
    hide ReadInterfaceString, InterfaceString;
    if entries == [] {
      assert [] + tail == tail;
    } else {
      var b2 := EntryBytes(entries[1..]) + tail;
      var b1 := InterfaceString(entries[0].1) + b2;
      assert EntryBytes(entries) + tail == InterfaceString(entries[0].0) + b1;
      InterfaceStringRoundTrip(entries[0].0, b1);
      InterfaceStringRoundTrip(entries[0].1, b2);
      EntriesRoundTrip(entries[1..], tail);
      assert [(entries[0].0, entries[0].1)] + entries[1..] == entries;
    }
  }

  lemma MapValueRoundTrip(typeId: i64, entries: seq<Entry>)
    requires InMemory(entries) && Texts(entries)
    ensures ReadMapValue(MapValue(typeId, entries), typeId) == Got(entries, [])
  {
    hide ReadInt, Expect, ReadUint, Uint, Int, ReadEntries, EntryBytes;
    var b2 := EntryBytes(entries);
    var b1 := Uint(|entries|) + b2;
    IntRoundTrip(typeId, Uint(0) + b1);
    ExpectRoundTrip(0, "singleton delta is missing", b1);
    UintRoundTrip(|entries|, b2);
    EntriesRoundTrip(entries, []);
    assert b2 + [] == b2;
  }

  /** Decoding the stream of any list of string pairs gives back the list. */
  lemma StreamRoundTrip(typeId: i64, named: bool, entries: seq<Entry>)
    requires typeId == MAP_TYPE_ID || typeId == LEGACY_MAP_TYPE_ID
    requires InMemory(entries) && Texts(entries) && |MapValue(typeId, entries)| < U64
    ensures |TypeDefinition(typeId, named)| < U64
    ensures DecodeStringMap(Stream(typeId, named, entries)) == Ok(entries)
  {
    TypeDefinitionLength(typeId, named);
    hide ReadMessage, Message, ReadTypeDefinition, TypeDefinition, ReadMapValue, MapValue;
    var value := Message(MapValue(typeId, entries));
    MessageRoundTrip(TypeDefinition(typeId, named), value);
    TypeDefinitionRoundTrip(typeId, named);
    MessageRoundTrip(MapValue(typeId, entries), []);
    assert value + [] == value;
    MapValueRoundTrip(typeId, entries);
  }

  lemma TypeDefinitionLength(typeId: i64, named: bool)
    requires typeId != I64_MIN
    ensures |TypeDefinition(typeId, named)| < 200
    ensures typeId == MAP_TYPE_ID && !named ==> |TypeDefinition(typeId, named)| == 13
  {
    UintLength(ZigZag(typeId));
    UintLength(ZigZag(-typeId));
    MapNameIsText();
    assert |Uint(128)| == 2 by {
      assert BigEndian(128) == [128];
    }
  }

  // ---------------------------------------------------------------------
  // Exact framing
  // ---------------------------------------------------------------------

  /** How much of its input a reader used. */
  function Used<T>(b: Bytes, parsed: Parsed<T>): int
    requires parsed.Got?
  {
    |b| - |parsed.rest|
  }

  /** A part of a text is the same part of every extension, and of every prefix that
      is long enough. */
  lemma PartIsLocal(b: Bytes, used: nat, k: nat, tail: Bytes)
    requires 1 <= used <= |b| && k <= |b|
    ensures (b + tail)[1..used] == b[1..used] && (b + tail)[used..] == b[used..] + tail
    ensures k >= used ==> b[..k][1..used] == b[1..used] && b[..k][used..] == b[used..k]
  {
  }

  lemma UintIsLocal(b: Bytes, k: nat, tail: Bytes)
    requires ReadUint(b).Got? && k <= |b|
    ensures var used := Used(b, ReadUint(b));
            && 1 <= used <= |b| && ReadUint(b).rest == b[used..]
            && (k < used ==> ReadUint(b[..k]) == Fail(Truncated))
            && ReadUint(b + tail) == Got(ReadUint(b).value, ReadUint(b).rest + tail)
            && (k >= used ==> ReadUint(b[..k]) == Got(ReadUint(b).value, b[used..k]))
  {
    var used := if b[0] < 128 then 1 else 257 - b[0];
    PartIsLocal(b, used, k, tail);
    assert (b + tail)[0] == b[0] && (k > 0 ==> b[..k][0] == b[0]);
    hide FromBigEndian;
  }

  lemma MessageIsLocal(b: Bytes, k: nat, tail: Bytes)
    requires ReadMessage(b).Got? && k <= |b|
    ensures var used := Used(b, ReadMessage(b));
            && 1 + |ReadMessage(b).value| <= used <= |b| && ReadMessage(b).rest == b[used..]
            && (k < used ==> ReadMessage(b[..k]) == Fail(Truncated))
            && ReadMessage(b + tail) == Got(ReadMessage(b).value, ReadMessage(b).rest + tail)
            && (k >= used ==> ReadMessage(b[..k]) == Got(ReadMessage(b).value, b[used..k]))
  {
    UintIsLocal(b, k, tail);
    hide ReadUint;
    var Got(len, rest) := ReadUint(b);
    var head := Used(b, ReadUint(b));
    assert (rest + tail)[..len] == rest[..len];
    assert (rest + tail)[len..] == rest[len..] + tail;
    assert rest[len..] == b[head + len..];
    if k >= head + len {
      assert b[head..k][..len] == rest[..len];
      assert b[head..k][len..] == b[head + len..k];
    }
  }

  /** Every strict prefix of an accepted stream is truncated; every extension has
      trailing bytes. */
  lemma FramingIsExact(stream: Bytes, k: nat, tail: Bytes)
    requires DecodeStringMap(stream).Ok?
    ensures k < |stream| ==> DecodeStringMap(stream[..k]) == Err(Truncated)
    ensures tail != [] ==> DecodeStringMap(stream + tail) == Err(TrailingBytes)
  {
    hide ReadMessage, ReadTypeDefinition, ReadMapValue;
    var Got(definition, b) := ReadMessage(stream);
    var used := Used(stream, ReadMessage(stream));
    var cut := if k < |stream| then k else |stream|;
    MessageIsLocal(stream, cut, tail);
    MessageIsLocal(b, if cut < used then 0 else cut - used, tail);
    if used <= k < |stream| {
      assert stream[..k][used..] == b[..k - used];
      assert stream[used..k] == b[..k - used];
    }
  }

  /** So it is for what the encoder writes. */
  lemma EncodedFramingIsExact(typeId: i64, named: bool, entries: seq<Entry>, k: nat, tail: Bytes)
    requires typeId == MAP_TYPE_ID || typeId == LEGACY_MAP_TYPE_ID
    requires InMemory(entries) && Texts(entries) && |MapValue(typeId, entries)| < U64
    requires |TypeDefinition(typeId, named)| < U64
    ensures var stream := Stream(typeId, named, entries);
            && (k < |stream| ==> DecodeStringMap(stream[..k]) == Err(Truncated))
            && (tail != [] ==> DecodeStringMap(stream + tail) == Err(TrailingBytes))
  {
    StreamRoundTrip(typeId, named, entries);
    hide Stream, DecodeStringMap;
    FramingIsExact(Stream(typeId, named, entries), k, tail);
  }

  // ---------------------------------------------------------------------
  // Linear decoding
  // ---------------------------------------------------------------------

  lemma UintShrinks(b: Bytes)
    requires ReadUint(b).Got?
    ensures |ReadUint(b).rest| + 1 <= |b|
  {
  }

  lemma MessageShrinks(b: Bytes)
    requires ReadMessage(b).Got?
    ensures |ReadMessage(b).rest| + 1 + |ReadMessage(b).value| <= |b|
  {
    UintShrinks(b);
  }

  /** A string inside an interface value costs at least eleven bytes of framing. */
  lemma InterfaceStringShrinks(b: Bytes)
    requires ReadInterfaceString(b).Got?
    ensures |ReadInterfaceString(b).rest| + 11 + |ReadInterfaceString(b).value| <= |b|
  {
    hide ReadUint, ReadMessage;
    StringNameIsText();
    MessageShrinks(b);
    var afterName := ReadString(b).rest;
    UintShrinks(afterName);
    var afterId := ReadInt(afterName).rest;
    MessageShrinks(afterId);
    var inner := ReadMessage(afterId).value;
    UintShrinks(inner);
    MessageShrinks(ReadUint(inner).rest);
  }

  function Lengths(entries: seq<(Text, Text)>): nat
  {
    if entries == [] then 0 else |entries[0].0| + |entries[0].1| + Lengths(entries[1..])
  }

  lemma {:induction false} EntriesShrink(b: Bytes, count: nat)
    requires ReadEntries(b, count).Got?
    ensures var Got(entries, rest) := ReadEntries(b, count);
            |entries| == count && |rest| + 22 * count + Lengths(entries) <= |b|
    decreases count
  {
    hide ReadInterfaceString;
    if count > 0 {
      InterfaceStringShrinks(b);
      var Got(key, b1) := ReadInterfaceString(b);
      InterfaceStringShrinks(b1);
      var Got(value, b2) := ReadInterfaceString(b1);
      EntriesShrink(b2, count - 1);
    }
  }

  /** An accepted stream is longer than 22 bytes per entry plus all its strings, so
      the loop over a declared count stops after linearly many steps. */
  lemma DecodingIsLinear(stream: Bytes)
    requires DecodeStringMap(stream).Ok?
    ensures var entries := DecodeStringMap(stream).value;
            22 * |entries| + Lengths(entries) < |stream|
  {
    hide ReadTypeDefinition, ReadEntries, ReadUint, ReadMessage;
    var Got(definition, b) := ReadMessage(stream);
    MessageShrinks(stream);
    MessageShrinks(b);
    var body := ReadMessage(b).value;
    UintShrinks(body);
    var b1 := ReadInt(body).rest;
    UintShrinks(b1);
    var b2 := ReadUint(b1).rest;
    UintShrinks(b2);
    EntriesShrink(ReadUint(b2).rest, ReadUint(b2).value);
  }

  // ---------------------------------------------------------------------
  // The session map
  // ---------------------------------------------------------------------

  /** The bytes of a length or a value below 2^16. */
  function UintSize(value: nat): nat
  {
    if value < 128 then 1 else if value < 256 then 2 else 3
  }

  lemma UintSizeIs(value: u64)
    requires value < 0x1_0000
    ensures |Uint(value)| == UintSize(value)
  {
    if 256 <= value {
      assert BigEndian(value) == BigEndian(value / 256) + [value % 256];
    }
  }

  lemma TokenMapFits(token: Bytes)
    requires |token| <= ISIZE_MAX
    ensures InMemory([(TOKEN, token)]) && |MapValue(MAP_TYPE_ID, [(TOKEN, token)])| < U64
    ensures |TypeDefinition(MAP_TYPE_ID, false)| < U64
  {
    TypeDefinitionLength(MAP_TYPE_ID, false);
    MapValueSize(token);
    UintLength(|token|);
    UintLength(1 + |Uint(|token|)| + |token|);
    UintLength(128);
  }

  /** `encode_token_map` */
  function EncodedTokenMap(token: Bytes): Bytes
    requires |token| <= ISIZE_MAX
  {
    TokenMapFits(token);
    Stream(MAP_TYPE_ID, false, [(TOKEN, token)])
  }

  /** The value message of a token: type id, delta, count, then 16 bytes for the key
      and the framed value. */
  lemma MapValueSize(token: Bytes)
    requires |token| <= ISIZE_MAX
    ensures InMemory([(TOKEN, token)])
    ensures 1 + |Uint(|token|)| + |token| < U64
    ensures |MapValue(MAP_TYPE_ID, [(TOKEN, token)])| ==
            |Uint(128)| + 18 + 8 + |Uint(1 + |Uint(|token|)| + |token|)| + 1 + |Uint(|token|)| + |token|
  {
    TokenKeyIsText();
    UintLength(|token|);
    InterfaceStringSize(TOKEN);
    InterfaceStringSize(token);
    UintSizeIs(5);
    UintSizeIs(7);
    var entries := [(TOKEN, token)];
    assert EntryBytes(entries) == InterfaceString(TOKEN) + (InterfaceString(token) + []) by {
      assert entries[1..] == [];
    }
    hide InterfaceString;
    assert |Uint(0)| == 1 && |Uint(1)| == 1;
  }

  lemma InterfaceStringSize(value: Bytes)
    requires |value| <= ISIZE_MAX
    ensures 1 + |Uint(|value|)| + |value| < U64
    ensures |InterfaceString(value)| == 8 + |Uint(1 + |Uint(|value|)| + |value|)| + 1 + |Uint(|value|)| + |value|
  {
    StringNameIsText();
    UintLength(|value|);
    UintSizeIs(0);
    UintSizeIs(6);
    UintSizeIs(12);
  }

  lemma MessageSize(body: Bytes)
    requires |body| < 0x1_0000
    ensures |Message(body)| == UintSize(|body|) + |body|
  {
    UintSizeIs(|body|);
  }

  /** The closed form for every token whose message stays below 2^16 bytes; 52 bytes
      of overhead for every token of at least 256 bytes. */
  lemma TokenMapSize(token: Bytes)
    requires |token| <= 65000
    ensures var value := 28 + UintSize(1 + UintSize(|token|) + |token|) + 1 + UintSize(|token|) + |token|;
            |EncodedTokenMap(token)| == 14 + UintSize(value) + value
    ensures 256 <= |token| ==> |EncodedTokenMap(token)| == |token| + 52
    ensures |token| <= |EncodedTokenMap(token)|
  {
    TokenMapFits(token);
    MapValueSize(token);
    UintSizeIs(|token|);
    UintSizeIs(1 + UintSize(|token|) + |token|);
    UintSizeIs(128);
    TypeDefinitionLength(MAP_TYPE_ID, false);
    hide MapValue, TypeDefinition, Uint, Message;
    MessageSize(TypeDefinition(MAP_TYPE_ID, false));
    MessageSize(MapValue(MAP_TYPE_ID, [(TOKEN, token)]));
  }

  lemma LongTokenMap(token: Bytes)
    requires 65000 < |token| <= ISIZE_MAX
    ensures |EncodedTokenMap(token)| > 65000
  {
    TokenMapFits(token);
    MapValueSize(token);
    hide MapValue, TypeDefinition, Uint;
  }

  /** Every token is read back from its session map. */
  lemma TokenMapRoundTrip(token: Text)
    requires |token| <= ISIZE_MAX
    ensures DecodeTokenMap(EncodedTokenMap(token)) == Ok(token)
  {
    TokenMapFits(token);
    TokenKeyIsText();
    StreamRoundTrip(MAP_TYPE_ID, false, [(TOKEN, token)]);
    hide DecodeStringMap, Stream;
  }
}
