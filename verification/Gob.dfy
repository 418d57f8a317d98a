/** The gob codec of the session map: what its two messages look like on the wire,
    and what the strict decoder reads from any bytes. */
module Gob {
  import opened ByteStrings
  import opened Wrappers

  const MAP_TYPE_ID: i64 := 64
  const LEGACY_MAP_TYPE_ID: i64 := 65
  const STRING_TYPE_ID: i64 := 6
  const INTERFACE_TYPE_ID: i64 := 8
  const WIRE_TYPE_MAP_FIELD: u64 := 3
  const MAP_TYPE_NAME: Bytes := Ascii("map[interface {}]interface {}")
  const STRING_TYPE_NAME: Bytes := Ascii("string")
  const TOKEN: Bytes := Ascii("token")

  datatype GobError =
    | Truncated
    | IntegerTooLarge
    | TrailingBytes
    | UnexpectedTypeId(id: i64)
    | UnexpectedTypeName(name: Bytes)
    | Unexpected(what: string)
    | NotUtf8

  // ---------------------------------------------------------------------
  // Wire forms
  // ---------------------------------------------------------------------

  /** The shortest big-endian form. */
  function BigEndian(value: nat): Bytes
  {
    if value < 256 then [value] else BigEndian(value / 256) + [value % 256]
  }

  function Uint(value: u64): Bytes
  {
    if value < 128 then [value]
    else
      BigEndianIsShort(value, 8);
      [256 - |BigEndian(value)|] + BigEndian(value)
  }

  function ZigZag(value: i64): u64
  {
    var v: int := value;
    if v < 0 then 2 * (-v - 1) + 1 else 2 * v
  }

  function Int(value: i64): Bytes
  {
    Uint(ZigZag(value))
  }

  function String(value: Bytes): Bytes
    requires |value| < U64
  {
    Uint(|value|) + value
  }

  function Message(body: Bytes): Bytes
    requires |body| < U64
  {
    Uint(|body|) + body
  }

  /** The type definition as the encoder writes it, or with the name a named map
      type would carry. */
  function TypeDefinition(typeId: i64, named: bool): Bytes
    requires typeId != I64_MIN
  {
    Int(-typeId) + (Uint(WIRE_TYPE_MAP_FIELD + 1) + (Uint(1) + (TypeName(named) + CommonTypeRest(typeId))))
  }

  function TypeName(named: bool): Bytes
  {
    if named then Uint(1) + (String(MAP_TYPE_NAME) + Uint(1)) else Uint(2)
  }

  function CommonTypeRest(typeId: i64): Bytes
  {
    Int(typeId) + (Uint(0) + (Uint(1) + (Int(INTERFACE_TYPE_ID) + (Uint(1) + (Int(INTERFACE_TYPE_ID) + (Uint(0) + Uint(0)))))))
  }

  /** A string inside an interface value. */
  function InterfaceString(value: Bytes): Bytes
    requires |value| <= ISIZE_MAX
  {
    UintLength(|value|);
    String(STRING_TYPE_NAME) + (Int(STRING_TYPE_ID) + Message(Uint(0) + String(value)))
  }

  type Entry = (Bytes, Bytes)

  /** Every string of the list fits in memory. */
  predicate InMemory(entries: seq<Entry>)
  {
    |entries| <= ISIZE_MAX && forall i :: 0 <= i < |entries| ==> |entries[i].0| <= ISIZE_MAX && |entries[i].1| <= ISIZE_MAX
  }

  function EntryBytes(entries: seq<Entry>): Bytes
    requires InMemory(entries)
  {
    if entries == [] then []
    else InterfaceString(entries[0].0) + (InterfaceString(entries[0].1) + EntryBytes(entries[1..]))
  }

  function MapValue(typeId: i64, entries: seq<Entry>): Bytes
    requires InMemory(entries)
  {
    Int(typeId) + (Uint(0) + (Uint(|entries|) + EntryBytes(entries)))
  }

  /** The two messages of a session map. */
  function Stream(typeId: i64, named: bool, entries: seq<Entry>): Bytes
    requires typeId != I64_MIN && InMemory(entries) && |MapValue(typeId, entries)| < U64
    requires |TypeDefinition(typeId, named)| < U64
  {
    Message(TypeDefinition(typeId, named)) + Message(MapValue(typeId, entries))
  }

  // ---------------------------------------------------------------------
  // Readers
  // ---------------------------------------------------------------------

  /** What a reader took from the front of its input, and what is left. */
  datatype Parsed<+T> = Got(value: T, rest: Bytes) | Fail(error: GobError) {
    predicate IsFailure() { Fail? }

    function PropagateFailure<U>(): Parsed<U>
      requires Fail?
    {
      Fail(error)
    }

    function Extract(): (T, Bytes)
      requires Got?
    {
      (value, rest)
    }
  }

  function FromBigEndian(b: Bytes): nat
  {
    if b == [] then 0 else FromBigEndian(b[..|b| - 1]) * 256 + b[|b| - 1]
  }

  function ReadUint(b: Bytes): Parsed<u64>
  {
    if b == [] then Fail(Truncated)
    else if b[0] < 128 then Got(b[0], b[1..])
    else
      var count := 256 - b[0];
      if count > 8 then Fail(IntegerTooLarge)
      else if |b| - 1 < count then Fail(Truncated)
      else
        FromBigEndianIsSmall(b[1..1 + count], 8);
        Got(FromBigEndian(b[1..1 + count]), b[1 + count..])
  }

  function UnZigZag(raw: u64): i64
  {
    if raw % 2 == 1 then -(raw / 2) - 1 else raw / 2
  }

  function ReadInt(b: Bytes): Parsed<i64>
  {
    var (raw, b) :- ReadUint(b);
    Got(UnZigZag(raw), b)
  }

  function ReadMessage(b: Bytes): Parsed<Bytes>
  {
    var (len, b) :- ReadUint(b);
    if |b| < len then Fail(Truncated) else Got(b[..len], b[len..])
  }

  function ReadString(b: Bytes): Parsed<Text>
  {
    var (bytes, b) :- ReadMessage(b);
    if ValidUtf8(bytes) then Got(bytes, b) else Fail(NotUtf8)
  }

  function Expect(b: Bytes, expected: u64, what: string): Parsed<()>
  {
    var (value, b) :- ReadUint(b);
    if value == expected then Got((), b) else Fail(Unexpected(what))
  }

  /** The negation of a release build: the smallest value wraps onto itself. */
  function Negated(value: i64): i64
  {
    if value == I64_MIN then I64_MIN else -value
  }

  function ReadTypeName(b: Bytes): Parsed<()>
  {
    var (delta, b) :- ReadUint(b);
    if delta == 2 then Got((), b)
    else if delta == 1 then
      var (name, b) :- ReadString(b);
      if name != MAP_TYPE_NAME then Fail(UnexpectedTypeName(name)) else Expect(b, 1, "map type has no id")
    else Fail(Unexpected("map type has no id"))
  }

  function ReadCommonTypeRest(b: Bytes, typeId: i64): Parsed<()>
  {
    var (id, b) :- ReadInt(b);
    if id != typeId then Fail(Unexpected("map type id does not match the definition"))
    else
      var (_, b) :- Expect(b, 0, "common type is not terminated");
      var (_, b) :- Expect(b, 1, "map type has no key type");
      var (key, b) :- ReadInt(b);
      if key != INTERFACE_TYPE_ID then Fail(Unexpected("map key is not an interface"))
      else
        var (_, b) :- Expect(b, 1, "map type has no element type");
        var (element, b) :- ReadInt(b);
        if element != INTERFACE_TYPE_ID then Fail(Unexpected("map element is not an interface"))
        else
          var (_, b) :- Expect(b, 0, "map type is not terminated");
          Expect(b, 0, "wire type is not terminated")
  }

  function ReadTypeDefinition(b: Bytes): Parsed<i64>
  {
    var (announced, b) :- ReadInt(b);
    if announced >= 0 then Fail(Unexpected("first message is not a type definition"))
    else
      var typeId := Negated(announced);
      if typeId != MAP_TYPE_ID && typeId != LEGACY_MAP_TYPE_ID then Fail(UnexpectedTypeId(typeId))
      else
        var (_, b) :- Expect(b, WIRE_TYPE_MAP_FIELD + 1, "type definition is not a map type");
        var (_, b) :- Expect(b, 1, "map type has no common type");
        var (_, b) :- ReadTypeName(b);
        var (_, b) :- ReadCommonTypeRest(b, typeId);
        if b != [] then Fail(TrailingBytes) else Got(typeId, b)
  }

  function ReadInterfaceString(b: Bytes): Parsed<Text>
  {
    var (name, b) :- ReadString(b);
    if name != STRING_TYPE_NAME then Fail(UnexpectedTypeName(name))
    else
      var (typeId, b) :- ReadInt(b);
      if typeId != STRING_TYPE_ID then Fail(Unexpected("interface value is not a string"))
      else
        var (inner, b) :- ReadMessage(b);
        var (_, inner) :- Expect(inner, 0, "interface value has no singleton delta");
        var (value, inner) :- ReadString(inner);
        if inner != [] then Fail(TrailingBytes) else Got(value, b)
  }

  function ReadEntries(b: Bytes, count: nat): Parsed<seq<(Text, Text)>>
    decreases count
  {
    if count == 0 then Got([], b)
    else
      var (key, b) :- ReadInterfaceString(b);
      var (value, b) :- ReadInterfaceString(b);
      var (entries, b) :- ReadEntries(b, count - 1);
      Got([(key, value)] + entries, b)
  }

  function ReadMapValue(b: Bytes, typeId: i64): Parsed<seq<(Text, Text)>>
  {
    var (id, b) :- ReadInt(b);
    if id != typeId then Fail(Unexpected("value message has a different type id"))
    else
      var (_, b) :- Expect(b, 0, "singleton delta is missing");
      var (count, b) :- ReadUint(b);
      var (entries, b) :- ReadEntries(b, count);
      if b != [] then Fail(TrailingBytes) else Got(entries, b)
  }

  /** `decode_string_map`: both messages, and nothing behind them. */
  function DecodeStringMap(stream: Bytes): Result<seq<(Text, Text)>, GobError>
  {
    match ReadMessage(stream)
    case Fail(error) => Err(error)
    case Got(definition, b) =>
      match ReadTypeDefinition(definition)
      case Fail(error) => Err(error)
      case Got(typeId, _) =>
        match ReadMessage(b)
        case Fail(error) => Err(error)
        case Got(value, b) =>
          match ReadMapValue(value, typeId)
          case Fail(error) => Err(error)
          case Got(entries, _) => if b != [] then Err(TrailingBytes) else Ok(entries)
  }

  /** The value of the first entry with the key. */
  function Lookup(entries: seq<(Text, Text)>, key: Bytes): Option<Text>
  {
    if entries == [] then None
    else if entries[0].0 == key then Some(entries[0].1)
    else Lookup(entries[1..], key)
  }

  function DecodeTokenMap(stream: Bytes): Result<Text, GobError>
  {
    match DecodeStringMap(stream)
    case Err(error) => Err(error)
    case Ok(entries) =>
      match Lookup(entries, TOKEN)
      case None => Err(Unexpected("no token entry in the session map"))
      case Some(value) => Ok(value)
  }

  // ---------------------------------------------------------------------
  // Integers
  // ---------------------------------------------------------------------

  function Pow256(n: nat): nat
  {
    if n == 0 then 1 else 256 * Pow256(n - 1)
  }

  lemma {:induction false} BigEndianIsShort(value: nat, n: nat)
    requires n >= 1 && (n == 8 ==> value < U64) && (n != 8 ==> value < Pow256(n))
    ensures 1 <= |BigEndian(value)| <= n
    decreases n
  {
    if value >= 256 {
      if n == 8 {
        assert Pow256(7) == 0x100_0000_0000_0000 by { PowersOf256(); }
      }
      BigEndianIsShort(value / 256, n - 1);
    }
  }

  lemma PowersOf256()
    ensures Pow256(7) == 0x100_0000_0000_0000 && Pow256(8) == U64
  {
    assert Pow256(2) == 0x1_0000;
    assert Pow256(4) == 0x1_0000_0000;
    assert Pow256(6) == 0x1_0000_0000_0000;
  }

  lemma {:induction false} FromBigEndianIsSmall(b: Bytes, n: nat)
    requires |b| <= n
    ensures FromBigEndian(b) < Pow256(n)
    ensures n == 8 ==> FromBigEndian(b) < U64
    decreases n
  {
    if n > 0 && b != [] {
      FromBigEndianIsSmall(b[..|b| - 1], n - 1);
    } else if n > 0 {
      FromBigEndianIsSmall([], n - 1);
    }
    PowersOf256();
  }

  lemma {:induction false} BigEndianRoundTrip(value: nat)
    ensures FromBigEndian(BigEndian(value)) == value
  {
    if value >= 256 {
      BigEndianRoundTrip(value / 256);
      assert BigEndian(value)[..|BigEndian(value)| - 1] == BigEndian(value / 256);
    } else {
      assert FromBigEndian([]) == 0;
      assert [value][..0] == [];
    }
  }

  lemma UintLength(value: u64)
    ensures 1 <= |Uint(value)| <= 9
  {
    if value >= 128 {
      BigEndianIsShort(value, 8);
    }
  }

  /** Every u64 is read back, whatever follows it. */
  lemma UintRoundTrip(value: u64, tail: Bytes)
    ensures ReadUint(Uint(value) + tail) == Got(value, tail)
  {
    if value >= 128 {
      BigEndianIsShort(value, 8);
      BigEndianRoundTrip(value);
      var b := Uint(value) + tail;
      assert b[1..1 + (256 - b[0])] == BigEndian(value);
      assert b[1 + (256 - b[0])..] == tail;
    }
  }

  lemma IntRoundTrip(value: i64, tail: Bytes)
    ensures ReadInt(Int(value) + tail) == Got(value, tail)
  {
    UintRoundTrip(ZigZag(value), tail);
  }

  lemma MessageRoundTrip(body: Bytes, tail: Bytes)
    requires |body| < U64
    ensures ReadMessage(Message(body) + tail) == Got(body, tail)
  {
    UintRoundTrip(|body|, body + tail);
    assert Message(body) + tail == Uint(|body|) + (body + tail);
  }

  lemma StringRoundTrip(value: Text, tail: Bytes)
    requires |value| < U64
    ensures ReadString(String(value) + tail) == Got(value, tail)
  {
    MessageRoundTrip(value, tail);
  }

  lemma ExpectRoundTrip(value: u64, what: string, tail: Bytes)
    ensures Expect(Uint(value) + tail, value, what) == Got((), tail)
  {
    UintRoundTrip(value, tail);
  }
}
