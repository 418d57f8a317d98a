/** The gob stream byte by byte, as Go writes it and lakeFS reads it. */
module GobWire {
  import opened ByteStrings
  import opened Wrappers
  import opened Gob
  import opened GobTheorems

  /** `string`, `token`, and the name of the map type. */
  const STRING_BYTES: Bytes := [0x73, 0x74, 0x72, 0x69, 0x6e, 0x67]
  const TOKEN_BYTES: Bytes := [0x74, 0x6f, 0x6b, 0x65, 0x6e]
  const MAP_NAME_BYTES: Bytes := [
    0x6d, 0x61, 0x70, 0x5b, 0x69, 0x6e, 0x74, 0x65, 0x72, 0x66, 0x61, 0x63, 0x65, 0x20, 0x7b, 0x7d, 0x5d,
    0x69, 0x6e, 0x74, 0x65, 0x72, 0x66, 0x61, 0x63, 0x65, 0x20, 0x7b, 0x7d]

  // ---------------------------------------------------------------------
  // Integers by value
  // ---------------------------------------------------------------------

  /** What is left of a number without its last `count` bytes. */
  function Shifted(value: nat, count: nat): nat
  {
    if count == 0 then value else Shifted(value / 256, count - 1)
  }

  lemma {:induction false} BigEndianDigits(value: nat)
    ensures var b := BigEndian(value);
            && |b| >= 1 && Shifted(value, |b|) == 0 && (value >= 256 ==> Shifted(value, |b| - 1) > 0)
            && forall k :: 0 <= k < |b| ==> b[|b| - 1 - k] == Shifted(value, k) % 256
  {
    var b := BigEndian(value);
    if value >= 256 {
      BigEndianDigits(value / 256);
      var head := BigEndian(value / 256);
      assert Shifted(value, |b|) == Shifted(value / 256, |head|);
      assert Shifted(value, |b| - 1) == Shifted(value / 256, |head| - 1);
      if value / 256 < 256 {
        assert |head| == 1 && Shifted(value / 256, 0) == value / 256;
      }
      forall k | 0 <= k < |b|
        ensures b[|b| - 1 - k] == Shifted(value, k) % 256
      {
        if k > 0 {
          assert b[|b| - 1 - k] == head[|head| - 1 - (k - 1)];
          assert Shifted(value, k) == Shifted(value / 256, k - 1);
        }
      }
    } else {
      assert Shifted(value, 1) == Shifted(value / 256, 0) == 0;
    }
  }

  /** 256 minus the count of the bytes, then the bytes from the highest that is not zero
      down to the lowest. */
  ghost predicate IsLongForm(value: nat, form: Bytes)
  {
    var count := |form| - 1;
    && 1 <= count <= 8 && form[0] == 256 - count
    && Shifted(value, count) == 0 && Shifted(value, count - 1) > 0
    && forall k :: 0 <= k < count ==> form[count - k] == Shifted(value, k) % 256
  }

  lemma LongForm(value: nat, b: Bytes)
    requires 1 <= |b| <= 8 && Shifted(value, |b|) == 0 && Shifted(value, |b| - 1) > 0
    requires forall k :: 0 <= k < |b| ==> b[|b| - 1 - k] == Shifted(value, k) % 256
    ensures IsLongForm(value, [256 - |b|] + b)
  {
    var all := [256 - |b|] + b;
    hide Shifted;
    assert forall i :: 0 <= i < |b| ==> all[i + 1] == b[i];
    forall k | 0 <= k < |b|
      ensures all[|b| - k] == Shifted(value, k) % 256
    {
      var i := |b| - 1 - k;
      assert all[i + 1] == b[i];
    }
  }

  /** A number below 128 is one byte, a larger one its long form. */
  lemma UintByValue(value: u64)
    ensures if value < 128 then Uint(value) == [value] else IsLongForm(value, Uint(value))
  {
    if value >= 128 {
      BigEndianIsShort(value, 8);
      BigEndianDigits(value);
      assert value < 256 ==> |BigEndian(value)| == 1 && Shifted(value, 0) == value;
      hide BigEndian, Shifted, IsLongForm;
      LongForm(value, BigEndian(value));
    }
  }

  /** A signed number doubles; a negative one is sent as the odd number below. */
  lemma IntByValue(value: i64)
    ensures value >= 0 ==> Int(value) == Uint(2 * value)
    ensures value < 0 ==> Int(value) == Uint(-2 * (value as int) - 1)
    ensures forall raw: u64 :: UnZigZag(raw) == value ==> raw == if value >= 0 then 2 * value else -2 * (value as int) - 1
  {
  }

  lemma SmallUints()
    ensures forall value: u64 :: value < 128 ==> Uint(value) == [value]
    ensures forall value: u64 :: 128 <= value < 256 ==> Uint(value) == [0xff, value]
  {
    forall value: u64 | 128 <= value < 256
      ensures Uint(value) == [0xff, value]
    {
      assert BigEndian(value) == [value];
    }
  }

  // ---------------------------------------------------------------------
  // Messages by byte
  // ---------------------------------------------------------------------

  lemma NamesAreBytes()
    ensures STRING_TYPE_NAME == STRING_BYTES && TOKEN == TOKEN_BYTES
  {
  }

  lemma MapNameIsBytes()
    ensures MAP_TYPE_NAME == MAP_NAME_BYTES
  {
  }

  lemma RestIsLiteral(typeId: i64, id: Bytes)
    requires Int(typeId) == id
    ensures CommonTypeRest(typeId) == id + [0, 1, 0x10, 1, 0x10, 0, 0]
  {
    SmallUints();
    assert Int(8) == [0x10];
    hide Uint, Int;
    var b2 := Uint(0) + Uint(0);
    assert b2 == [0, 0];
    var b4 := Uint(1) + (Int(8) + b2);
    assert b4 == [1, 0x10, 0, 0];
    var b7 := Uint(0) + (Uint(1) + (Int(8) + b4));
    assert b7 == [0, 1, 0x10, 1, 0x10, 0, 0];
  }

  lemma TypeNameIsLiteral()
    ensures TypeName(false) == [2]
    ensures TypeName(true) == [1, 29] + MAP_NAME_BYTES + [1]
  {
    SmallUints();
    MapNameIsBytes();
    hide Uint;
    assert String(MAP_TYPE_NAME) == [29] + MAP_NAME_BYTES;
  }

  lemma DefinitionIsLiteral(typeId: i64, named: bool, negated: Bytes, id: Bytes)
    requires typeId != I64_MIN && Int(-typeId) == negated && Int(typeId) == id
    ensures TypeDefinition(typeId, named) ==
            negated + [4, 1] + (if named then [1, 29] + MAP_NAME_BYTES + [1] else [2])
            + (id + [0, 1, 0x10, 1, 0x10, 0, 0])
  {
    SmallUints();
    TypeNameIsLiteral();
    RestIsLiteral(typeId, id);
    hide Uint, Int, TypeName, CommonTypeRest;
    FourAndOne(negated, TypeName(named), CommonTypeRest(typeId));
  }

  lemma FourAndOne(a: Bytes, b: Bytes, c: Bytes)
    ensures a + ([4] + ([1] + (b + c))) == a + [4, 1] + b + c
  {
    assert [4] + ([1] + (b + c)) == [4, 1] + (b + c);
    assert a + ([4, 1] + (b + c)) == (a + [4, 1]) + (b + c);
  }

  /** Both type definitions, with the name of the type and without. */
  lemma DefinitionsAreLiteral(named: bool)
    ensures var name := if named then [1, 29] + MAP_NAME_BYTES + [1] else [2];
            && TypeDefinition(64, named) == [0x7f] + [4, 1] + name + ([0xff, 0x80] + [0, 1, 0x10, 1, 0x10, 0, 0])
            && TypeDefinition(65, named) == [0xff, 0x81] + [4, 1] + name + ([0xff, 0x82] + [0, 1, 0x10, 1, 0x10, 0, 0])
  {
    assert Int(-64) == [0x7f] && Int(-65) == [0xff, 0x81] && Int(64) == [0xff, 0x80] && Int(65) == [0xff, 0x82] by {
      SmallUints();
    }
    hide Int, TypeDefinition;
    DefinitionIsLiteral(64, named, [0x7f], [0xff, 0x80]);
    DefinitionIsLiteral(65, named, [0xff, 0x81], [0xff, 0x82]);
  }

  lemma SixInFront(a: Bytes, b: Bytes, c: Bytes, d: Bytes, e: Bytes, f: Bytes)
    ensures a + b + c + d + e + f == (a + b) + (c + (d + (e + f)))
  {
    var ab := a + b;
    assert ab + c + d + e + f == ab + c + d + (e + f);
    assert ab + c + d + (e + f) == ab + c + (d + (e + f));
    assert ab + c + (d + (e + f)) == ab + (c + (d + (e + f)));
  }

  lemma InterfaceStringIsLiteral(value: Bytes)
    requires |value| <= ISIZE_MAX
    ensures 1 + |Uint(|value|)| + |value| < U64
    ensures InterfaceString(value) ==
            [6] + STRING_BYTES + [0x0c] + Uint(1 + |Uint(|value|)| + |value|) + [0] + (Uint(|value|) + value)
  {
    UintLength(|value|);
    NamesAreBytes();
    assert Int(6) == [0x0c] && Uint(0) == [0] && Uint(6) == [6] by { SmallUints(); }
    hide Int, Uint;
    var body := [0] + (Uint(|value|) + value);
    assert |body| == 1 + |Uint(|value|)| + |value|;
    SixInFront([6], STRING_BYTES, [0x0c], Uint(|body|), [0], Uint(|value|) + value);
  }

  /** What the second message of a login holds. */
  function TokenValue(token: Bytes): Bytes
    requires |token| <= ISIZE_MAX
  {
    UintLength(|token|);
    [0xff, 0x80, 0, 1]
    + ([6] + STRING_BYTES + [0x0c, 7, 0, 5] + TOKEN_BYTES)
    + ([6] + STRING_BYTES + [0x0c] + Uint(1 + |Uint(|token|)| + |token|) + [0] + (Uint(|token|) + token))
  }

  lemma KeyIsLiteral()
    ensures |TOKEN| == 5 && InterfaceString(TOKEN) == [6] + STRING_BYTES + [0x0c, 7, 0, 5] + TOKEN_BYTES
  {
    NamesAreBytes();
    InterfaceStringIsLiteral(TOKEN);
    SmallUints();
    hide InterfaceString, Uint;
    assert Uint(5) == [5] && Uint(7) == [7];
    var head := [6] + STRING_BYTES;
    assert head + [0x0c] + [7] + [0] + ([5] + TOKEN_BYTES) == head + [0x0c, 7, 0, 5] + TOKEN_BYTES;
  }

  lemma TokenValueIsLiteral(token: Bytes)
    requires |token| <= ISIZE_MAX
    ensures InMemory([(TOKEN, token)]) && MapValue(MAP_TYPE_ID, [(TOKEN, token)]) == TokenValue(token)
  {
    KeyIsLiteral();
    InterfaceStringIsLiteral(token);
    var entries := [(TOKEN, token)];
    assert EntryBytes(entries) == InterfaceString(TOKEN) + InterfaceString(token) by {
      hide InterfaceString;
      assert entries[1..] == [] && EntryBytes([]) == [];
      assert InterfaceString(token) + [] == InterfaceString(token);
    }
    assert Int(64) == [0xff, 0x80] && Uint(0) == [0] && Uint(1) == [1] by { SmallUints(); }
    hide InterfaceString, Int, Uint, EntryBytes;
    var all := EntryBytes(entries);
    assert MapValue(MAP_TYPE_ID, entries) == [0xff, 0x80] + ([0] + ([1] + all));
    assert [0xff, 0x80] + ([0] + ([1] + all)) == [0xff, 0x80, 0, 1] + all;
  }

  /** The two messages of a login, whatever the token: the first is fixed, and in the
      second only the token and its three length prefixes vary. */
  lemma TokenStreamIsLiteral(token: Bytes)
    requires |token| <= ISIZE_MAX
    ensures |TokenValue(token)| < U64
    ensures EncodedTokenMap(token) ==
            [0x0d, 0x7f, 4, 1, 2, 0xff, 0x80, 0, 1, 0x10, 1, 0x10, 0, 0]
            + (Uint(|TokenValue(token)|) + TokenValue(token))
  {
    TokenMapFits(token);
    TokenValueIsLiteral(token);
    FirstMessageIsLiteral();
    hide MapValue, TypeDefinition, TokenValue, Uint, Message;
    assert Message(TokenValue(token)) == Uint(|TokenValue(token)|) + TokenValue(token) by {
      MessageIsPrefixed(TokenValue(token));
    }
  }

  lemma MessageIsPrefixed(body: Bytes)
    requires |body| < U64
    ensures Message(body) == Uint(|body|) + body
  {
  }

  lemma FirstMessageIsLiteral()
    ensures |TypeDefinition(MAP_TYPE_ID, false)| < U64
    ensures Message(TypeDefinition(MAP_TYPE_ID, false)) == [0x0d, 0x7f, 4, 1, 2, 0xff, 0x80, 0, 1, 0x10, 1, 0x10, 0, 0]
  {
    DefinitionsAreLiteral(false);
    assert Uint(13) == [0x0d] by { SmallUints(); }
    hide TypeDefinition, Uint;
    var definition := TypeDefinition(64, false);
    assert definition == [0x7f, 4, 1, 2, 0xff, 0x80, 0, 1, 0x10, 1, 0x10, 0, 0];
  }

  // ---------------------------------------------------------------------
  // What the decoder accepts
  // ---------------------------------------------------------------------

  /** What is left behind the given integers, in whatever length they are written. */
  function After(b: Bytes, values: seq<nat>): Option<Bytes>
    decreases values
  {
    if values == [] then Some(b)
    else
      match ReadUint(b)
      case Fail(_) => None
      case Got(value, rest) => if value == values[0] then After(rest, values[1..]) else None
  }

  lemma AfterUint(b: Bytes, value: nat, rest: seq<nat>)
    ensures After(b, [value] + rest) ==
            if ReadUint(b).Got? && ReadUint(b).value == value then After(ReadUint(b).rest, rest) else None
  {
    hide ReadUint;
    assert ([value] + rest)[1..] == rest;
  }

  lemma AfterExpect(b: Bytes, value: u64, what: string, rest: seq<nat>)
    ensures After(b, [value] + rest) == if Expect(b, value, what).Got? then After(Expect(b, value, what).rest, rest) else None
  {
    AfterUint(b, value, rest);
    hide ReadUint, After;
  }

  lemma AfterInt(b: Bytes, value: i64, raw: nat, rest: seq<nat>)
    requires raw == if value >= 0 then 2 * (value as int) else -2 * (value as int) - 1
    ensures After(b, [raw] + rest) ==
            if ReadInt(b).Got? && ReadInt(b).value == value then After(ReadInt(b).rest, rest) else None
  {
    AfterUint(b, raw, rest);
    IntByValue(value);
    hide ReadUint, After;
  }

  /** The element type and the two ends, as the reader takes them. */
  predicate ElementAndEnds(b: Bytes)
  {
    var one := Expect(b, 1, "map type has no element type");
    && one.Got?
    && var element := ReadInt(one.rest);
       && element.Got? && element.value == 8
       && var end := Expect(element.rest, 0, "map type is not terminated");
          && end.Got? && Expect(end.rest, 0, "wire type is not terminated").Got?
          && Expect(end.rest, 0, "wire type is not terminated").rest == []
  }

  lemma ElementIsStrict(b: Bytes)
    ensures After(b, [1, 16, 0, 0]) == Some([]) <==> ElementAndEnds(b)
  {
    var v1, v2, v3 := [16, 0, 0], [0, 0], [0];
    assert [1, 16, 0, 0] == [1] + v1 && v1 == [16] + v2 && v2 == [0] + v3 && v3 == [0] + [];
    assert forall b: Bytes :: After(b, []) == Some(b);
    AfterExpect(b, 1, "map type has no element type", v1);
    var one := Expect(b, 1, "map type has no element type");
    hide ReadInt, Expect, After;
    if one.Got? {
      AfterInt(one.rest, 8, 16, v2);
      var element := ReadInt(one.rest);
      if element.Got? && element.value == 8 {
        AfterExpect(element.rest, 0, "map type is not terminated", v3);
        var end := Expect(element.rest, 0, "map type is not terminated");
        if end.Got? {
          AfterExpect(end.rest, 0, "wire type is not terminated", []);
        }
      }
    }
  }

  /** The part behind the name is accepted in one form only. */
  lemma RestIsStrict(b0: Bytes, typeId: i64)
    requires typeId == 64 || typeId == 65
    ensures ReadCommonTypeRest(b0, typeId).Got? && ReadCommonTypeRest(b0, typeId).rest == [] <==>
            After(b0, [2 * (typeId as int)] + [0, 1, 16, 1, 16, 0, 0]) == Some([])
  {
    AfterInt(b0, typeId, 2 * (typeId as int), [0, 1, 16, 1, 16, 0, 0]);
    hide ReadInt, Expect, After, KeyAndElement, ElementAndEnds;
    var id := ReadInt(b0);
    if id.Got? && id.value == typeId {
      KeyIsStrict(id.rest);
      RestUnfolds(b0, typeId);
    }
  }

  lemma RestUnfolds(b: Bytes, typeId: i64)
    requires ReadInt(b).Got? && ReadInt(b).value == typeId
    ensures ReadCommonTypeRest(b, typeId).Got? && ReadCommonTypeRest(b, typeId).rest == [] <==> KeyAndElement(ReadInt(b).rest)
  {
    hide ReadInt, Expect;
  }

  /** The end of the common type and the key type, then the rest. */
  predicate KeyAndElement(b: Bytes)
  {
    var end := Expect(b, 0, "common type is not terminated");
    && end.Got?
    && var one := Expect(end.rest, 1, "map type has no key type");
       && one.Got? && ReadInt(one.rest).Got? && ReadInt(one.rest).value == 8
       && ElementAndEnds(ReadInt(one.rest).rest)
  }

  lemma KeyIsStrict(b: Bytes)
    ensures After(b, [0, 1, 16, 1, 16, 0, 0]) == Some([]) <==> KeyAndElement(b)
  {
    var v1, v2, v3 := [1, 16, 1, 16, 0, 0], [16, 1, 16, 0, 0], [1, 16, 0, 0];
    assert [0, 1, 16, 1, 16, 0, 0] == [0] + v1 && v1 == [1] + v2 && v2 == [16] + v3;
    AfterExpect(b, 0, "common type is not terminated", v1);
    var end := Expect(b, 0, "common type is not terminated");
    hide ReadInt, Expect, After, ElementAndEnds;
    if end.Got? {
      AfterExpect(end.rest, 1, "map type has no key type", v2);
      var one := Expect(end.rest, 1, "map type has no key type");
      if one.Got? {
        AfterInt(one.rest, 8, 16, v3);
        if ReadInt(one.rest).Got? && ReadInt(one.rest).value == 8 {
          ElementIsStrict(ReadInt(one.rest).rest);
        }
      }
    }
  }

  /** What stands before the name: the negated type id, the field of the map type, and
      the field of its common type. */
  lemma DefinitionIsStrict(b: Bytes, typeId: i64)
    ensures ReadTypeDefinition(b) == Got(typeId, []) <==>
            && (typeId == 64 || typeId == 65)
            && var name := After(b, [2 * (typeId as int) - 1] + [4, 1]);
               && name.Some? && ReadTypeName(name.value).Got?
               && ReadCommonTypeRest(ReadTypeName(name.value).rest, typeId).Got?
               && ReadCommonTypeRest(ReadTypeName(name.value).rest, typeId).rest == []
  {
    hide ReadTypeName, ReadCommonTypeRest, Expect, ReadInt, After;
    if typeId == 64 || typeId == 65 {
      assert [4, 1] == [4] + [1] && [1] == [1] + [];
      AfterInt(b, -typeId, 2 * (typeId as int) - 1, [4, 1]);
      var announced := ReadInt(b);
      if announced.Got? && announced.value == -typeId {
        AfterExpect(announced.rest, 4, "type definition is not a map type", [1]);
        var field := Expect(announced.rest, 4, "type definition is not a map type");
        if field.Got? {
          AfterExpect(field.rest, 1, "map type has no common type", []);
          var common := Expect(field.rest, 1, "map type has no common type");
          AfterNothing(common);
          assert After(b, [2 * (typeId as int) - 1] + [4, 1]) == if common.Got? then Some(common.rest) else None;
        }
      }
    }
  }

  lemma AfterNothing<T>(parsed: Parsed<T>)
    ensures parsed.Got? ==> After(parsed.rest, []) == Some(parsed.rest)
  {
  }

  /** The name is left out, or is the one name of the map type. */
  lemma NameIsStrict(b: Bytes)
    ensures ReadTypeName(b).Got? <==>
            || After(b, [2]).Some?
            || (After(b, [1]).Some? && ReadString(After(b, [1]).value).Got?
                && ReadString(After(b, [1]).value).value == MAP_NAME_BYTES
                && After(ReadString(After(b, [1]).value).rest, [1]).Some?)
    ensures After(b, [2]).Some? ==> ReadTypeName(b) == Got((), After(b, [2]).value)
    ensures ReadTypeName(b).Got? && After(b, [2]).None? ==>
              ReadTypeName(b) == Got((), After(ReadString(After(b, [1]).value).rest, [1]).value)
  {
    MapNameIsBytes();
    assert [2] == [2] + [] && [1] == [1] + [];
    AfterUint(b, 2, []);
    AfterUint(b, 1, []);
    AfterNothing(ReadUint(b));
    hide ReadUint, ReadString, Expect, After;
    if ReadUint(b).Got? && ReadUint(b).value == 1 && ReadString(ReadUint(b).rest).Got? {
      var name := ReadString(ReadUint(b).rest);
      AfterExpect(name.rest, 1, "map type has no id", []);
      AfterNothing(Expect(name.rest, 1, "map type has no id"));
    }
  }

  /** One message with a zero and the text, and nothing behind it. */
  predicate MessageHolds(b: Bytes, value: Text, rest: Bytes)
  {
    var message := ReadMessage(b);
    && message.Got? && message.rest == rest && After(message.value, [0]).Some?
    && ReadString(After(message.value, [0]).value) == Got(value, [])
  }

  /** An interface value is accepted when it is the type name `string`, the type id 6 and
      one message with a zero and the text, and nothing behind it. */
  lemma InterfaceStringIsStrict(b: Bytes, value: Text, rest: Bytes)
    ensures ReadInterfaceString(b) == Got(value, rest) <==>
            && ReadString(b).Got? && ReadString(b).value == STRING_BYTES
            && After(ReadString(b).rest, [12]).Some?
            && MessageHolds(After(ReadString(b).rest, [12]).value, value, rest)
  {
    assert STRING_TYPE_NAME == STRING_BYTES by { NamesAreBytes(); }
    assert [12] == [12] + [];
    hide ReadString, ReadInt, ReadMessage, Expect, After, MessageHolds;
    if ReadString(b).Got? && ReadString(b).value == STRING_BYTES {
      var name := ReadString(b);
      AfterInt(name.rest, 6, 12, []);
      AfterNothing(ReadInt(name.rest));
      if ReadInt(name.rest).Got? && ReadInt(name.rest).value == 6 {
        BehindTypeId(b, value, rest);
      }
    }
  }

  lemma BehindTypeId(b: Bytes, value: Text, rest: Bytes)
    requires ReadString(b).Got? && ReadString(b).value == STRING_TYPE_NAME
    requires ReadInt(ReadString(b).rest).Got? && ReadInt(ReadString(b).rest).value == STRING_TYPE_ID
    ensures ReadInterfaceString(b) == Got(value, rest) <==> MessageHolds(ReadInt(ReadString(b).rest).rest, value, rest)
  {
    assert [0] == [0] + [];
    hide ReadString, ReadInt, ReadMessage, Expect, After;
    var message := ReadMessage(ReadInt(ReadString(b).rest).rest);
    if message.Got? {
      AfterExpect(message.value, 0, "interface value has no singleton delta", []);
      AfterNothing(Expect(message.value, 0, "interface value has no singleton delta"));
    }
  }

  /** The value message is the type id, a zero, the count, and exactly that many pairs. */
  lemma MapValueIsStrict(b: Bytes, typeId: i64, entries: seq<(Text, Text)>)
    requires typeId == 64 || typeId == 65
    ensures ReadMapValue(b, typeId) == Got(entries, []) <==>
            && var count := After(b, [2 * (typeId as int)] + [0]);
               && count.Some? && ReadUint(count.value).Got?
               && ReadEntries(ReadUint(count.value).rest, ReadUint(count.value).value) == Got(entries, [])
  {
    assert [0] == [0] + [];
    AfterInt(b, typeId, 2 * (typeId as int), [0]);
    hide ReadUint, ReadInt, ReadEntries, Expect, After;
    if ReadInt(b).Got? && ReadInt(b).value == typeId {
      AfterExpect(ReadInt(b).rest, 0, "singleton delta is missing", []);
      AfterNothing(Expect(ReadInt(b).rest, 0, "singleton delta is missing"));
    }
  }

  /** What else a first message can announce: a positive id is no definition, and every
      negative one but the two is named in the error, negated as a release build does. */
  lemma OtherIdsAreRefused(b: Bytes)
    requires ReadInt(b).Got?
    ensures var announced: int := ReadInt(b).value;
            && (announced >= 0 ==> ReadTypeDefinition(b) == Fail(Unexpected("first message is not a type definition")))
            && (announced < 0 && announced != -64 && announced != -65 ==>
                 ReadTypeDefinition(b).Fail?
                 && ReadTypeDefinition(b).error == UnexpectedTypeId(if announced == I64_MIN then I64_MIN else -announced))
  {
    hide ReadInt, Expect, ReadTypeName, ReadCommonTypeRest;
  }

  /** The token is the value of the first entry under its key, and a map without one is
      refused. */
  lemma FirstTokenIsRead(stream: Bytes, i: nat)
    requires DecodeStringMap(stream).Ok?
    ensures var entries := DecodeStringMap(stream).value;
            && (i < |entries| && entries[i].0 == TOKEN_BYTES && (forall j :: 0 <= j < i ==> entries[j].0 != TOKEN_BYTES) ==>
                 DecodeTokenMap(stream) == Ok(entries[i].1))
            && ((forall j :: 0 <= j < |entries| ==> entries[j].0 != TOKEN_BYTES) ==>
                 DecodeTokenMap(stream) == Err(Unexpected("no token entry in the session map")))
  {
    NamesAreBytes();
    hide DecodeStringMap;
    FirstIsFound(DecodeStringMap(stream).value, TOKEN_BYTES, i);
  }

  lemma {:induction false} FirstIsFound(entries: seq<(Text, Text)>, key: Bytes, i: nat)
    ensures i < |entries| && entries[i].0 == key && (forall j :: 0 <= j < i ==> entries[j].0 != key) ==>
              Lookup(entries, key) == Some(entries[i].1)
    ensures (forall j :: 0 <= j < |entries| ==> entries[j].0 != key) ==> Lookup(entries, key) == None
    decreases entries
  {
    if entries != [] && entries[0].0 != key {
      assert forall j :: 0 <= j < |entries[1..]| ==> entries[1..][j] == entries[j + 1];
      if i > 0 {
        FirstIsFound(entries[1..], key, i - 1);
      } else {
        FirstIsFound(entries[1..], key, 0);
      }
    }
  }
}
