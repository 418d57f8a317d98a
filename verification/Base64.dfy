/** Padded base64 with the URL-safe alphabet, section 5 of RFC 4648, and the strict
    decoder: canonical padding, and no bits set behind the last byte. */
module Base64 {
  import opened ByteStrings
  import opened Wrappers

  const PAD: byte := 61

  type sextet = x: int | 0 <= x < 64

  function Symbol(value: sextet): byte
  {
    if value < 26 then 65 + value
    else if value < 52 then 71 + value
    else if value < 62 then value - 4
    else if value == 62 then 45
    else 95
  }

  function Value(symbol: byte): (value: Option<int>)
    ensures value.Some? ==> 0 <= value.value < 64
  {
    if 65 <= symbol <= 90 then Some(symbol - 65)
    else if 97 <= symbol <= 122 then Some(symbol - 71)
    else if 48 <= symbol <= 57 then Some(symbol + 4)
    else if symbol == 45 then Some(62)
    else if symbol == 95 then Some(63)
    else None
  }

  function EncodeGroup(b: Bytes): Bytes
    requires 1 <= |b| <= 3
  {
    var head := Symbol(b[0] / 4);
    if |b| == 1 then [head, Symbol(b[0] % 4 * 16), PAD, PAD]
    else
      var second := Symbol(b[0] % 4 * 16 + b[1] / 16);
      if |b| == 2 then [head, second, Symbol(b[1] % 16 * 4), PAD]
      else [head, second, Symbol(b[1] % 16 * 4 + b[2] / 64), Symbol(b[2] % 64)]
  }

  function Encode(b: Bytes): Bytes
  {
    if b == [] then []
    else if |b| <= 3 then EncodeGroup(b)
    else EncodeGroup(b[..3]) + Encode(b[3..])
  }

  /** The three bytes of four six-bit values. */
  function ThreeOf(v0: sextet, v1: sextet, v2: sextet, v3: sextet): (b: Bytes)
    ensures |b| == 3
  {
    [v0 * 4 + v1 / 16, v1 % 16 * 16 + v2 / 4, v2 % 4 * 64 + v3]
  }

  /** A group of four symbols; padding only in the last one. */
  function DecodeGroup(s: Bytes, last: bool): Option<Bytes>
    requires |s| == 4
  {
    match (Value(s[0]), Value(s[1]), Value(s[2]), Value(s[3]))
    case (Some(v0), Some(v1), Some(v2), Some(v3)) =>
      Some(ThreeOf(v0, v1, v2, v3))
    case (Some(v0), Some(v1), Some(v2), None) =>
      if last && s[3] == PAD && v2 % 4 == 0 then Some([v0 * 4 + v1 / 16, v1 % 16 * 16 + v2 / 4]) else None
    case (Some(v0), Some(v1), None, None) =>
      if last && s[2] == PAD && s[3] == PAD && v1 % 16 == 0 then Some([v0 * 4 + v1 / 16]) else None
    case _ => None
  }

  function Decode(s: Bytes): Option<Bytes>
  {
    if s == [] then Some([])
    else if |s| < 4 then None
    else
      match (DecodeGroup(s[..4], |s| == 4), Decode(s[4..]))
      case (Some(head), Some(rest)) => Some(head + rest)
      case _ => None
  }

  lemma SymbolsAreInverse(value: sextet, symbol: byte)
    ensures Value(Symbol(value)) == Some(value)
    ensures Value(symbol).Some? ==> Symbol(Value(symbol).value) == symbol
    ensures Value(PAD).None?
  {
  }

  /** A number put together from two parts comes apart again. */
  lemma Parts(high: int, low: int, base: int)
    requires base == 4 || base == 16 || base == 64
    requires 0 <= low < base
    ensures (high * base + low) / base == high && (high * base + low) % base == low
  {
  }

  lemma OneByte(b: Bytes)
    requires |b| == 1
    ensures DecodeGroup(EncodeGroup(b), true) == Some(b)
  {
    SymbolsAreInverse(b[0] / 4, PAD);
    SymbolsAreInverse(b[0] % 4 * 16, PAD);
    Parts(b[0] % 4, 0, 16);
    hide Symbol, Value;
    assert b == [b[0]];
  }

  lemma TwoBytes(b: Bytes)
    requires |b| == 2
    ensures DecodeGroup(EncodeGroup(b), true) == Some(b)
  {
    var v1 := b[0] % 4 * 16 + b[1] / 16;
    SymbolsAreInverse(b[0] / 4, PAD);
    SymbolsAreInverse(v1, PAD);
    SymbolsAreInverse(b[1] % 16 * 4, PAD);
    Parts(b[0] % 4, b[1] / 16, 16);
    Parts(b[1] % 16, 0, 4);
    hide Symbol, Value;
    assert b == [b[0], b[1]];
  }

  lemma ThreeBytes(b: Bytes, last: bool)
    requires |b| == 3
    ensures DecodeGroup(EncodeGroup(b), last) == Some(b)
  {
    var v0, v1, v2, v3 := b[0] / 4, b[0] % 4 * 16 + b[1] / 16, b[1] % 16 * 4 + b[2] / 64, b[2] % 64;
    SymbolsAreInverse(v0, PAD);
    SymbolsAreInverse(v1, PAD);
    SymbolsAreInverse(v2, PAD);
    SymbolsAreInverse(v3, PAD);
    Parts(b[0] % 4, b[1] / 16, 16);
    Parts(b[1] % 16, b[2] / 64, 4);
    assert b == ThreeOf(v0, v1, v2, v3);
    hide Symbol, Value, ThreeOf;
    assert EncodeGroup(b) == [Symbol(v0), Symbol(v1), Symbol(v2), Symbol(v3)];
  }

  lemma GroupRoundTrip(b: Bytes)
    requires 1 <= |b| <= 3
    ensures DecodeGroup(EncodeGroup(b), true) == Some(b)
    ensures |b| == 3 ==> DecodeGroup(EncodeGroup(b), false) == Some(b)
  {
    hide DecodeGroup, EncodeGroup;
    if |b| == 1 {
      OneByte(b);
    } else if |b| == 2 {
      TwoBytes(b);
    } else {
      ThreeBytes(b, true);
      ThreeBytes(b, false);
    }
  }

  lemma OneByteGroup(s: Bytes, last: bool)
    requires |s| == 4 && DecodeGroup(s, last).Some? && Value(s[2]).None?
    ensures last && |DecodeGroup(s, last).value| == 1 && EncodeGroup(DecodeGroup(s, last).value) == s
  {
    SymbolsAreInverse(0, s[0]);
    SymbolsAreInverse(0, s[1]);
    var v0, v1 := Value(s[0]).value, Value(s[1]).value;
    hide Symbol, Value;
    Parts(v0, v1 / 16, 4);
  }

  lemma TwoByteGroup(s: Bytes, last: bool)
    requires |s| == 4 && DecodeGroup(s, last).Some? && Value(s[2]).Some? && Value(s[3]).None?
    ensures last && |DecodeGroup(s, last).value| == 2 && EncodeGroup(DecodeGroup(s, last).value) == s
  {
    SymbolsAreInverse(0, s[0]);
    SymbolsAreInverse(0, s[1]);
    SymbolsAreInverse(0, s[2]);
    var v0, v1, v2 := Value(s[0]).value, Value(s[1]).value, Value(s[2]).value;
    hide Symbol, Value;
    Parts(v0, v1 / 16, 4);
    Parts(v1 % 16, v2 / 4, 16);
  }

  lemma ThreeByteGroup(s: Bytes, last: bool)
    requires |s| == 4 && DecodeGroup(s, last).Some? && Value(s[2]).Some? && Value(s[3]).Some?
    ensures |DecodeGroup(s, last).value| == 3 && EncodeGroup(DecodeGroup(s, last).value) == s
  {
    SymbolsAreInverse(0, s[0]);
    SymbolsAreInverse(0, s[1]);
    SymbolsAreInverse(0, s[2]);
    SymbolsAreInverse(0, s[3]);
    var v0, v1, v2, v3 := Value(s[0]).value, Value(s[1]).value, Value(s[2]).value, Value(s[3]).value;
    FourSymbols(v0, v1, v2, v3);
    hide Symbol, Value, EncodeGroup, ThreeOf;
    assert s == [Symbol(v0), Symbol(v1), Symbol(v2), Symbol(v3)];
  }

  /** A group that is accepted is the one its bytes encode to. */
  lemma GroupIsCanonical(s: Bytes, last: bool)
    requires |s| == 4 && DecodeGroup(s, last).Some?
    ensures var b := DecodeGroup(s, last).value;
            1 <= |b| <= 3 && (!last ==> |b| == 3) && EncodeGroup(b) == s
  {
    hide DecodeGroup, EncodeGroup, Value;
    if Value(s[2]).None? {
      OneByteGroup(s, last);
    } else if Value(s[3]).None? {
      TwoByteGroup(s, last);
    } else {
      ThreeByteGroup(s, last);
    }
  }

  lemma FourSymbols(v0: sextet, v1: sextet, v2: sextet, v3: sextet)
    ensures EncodeGroup(ThreeOf(v0, v1, v2, v3)) == [Symbol(v0), Symbol(v1), Symbol(v2), Symbol(v3)]
  {
    hide Symbol;
    Regrouped(v0, v1, v2, v3);
  }

  /** Three bytes put together from four six-bit values give them back. */
  lemma Regrouped(v0: sextet, v1: sextet, v2: sextet, v3: sextet)
    ensures var b0, b1, b2 := v0 * 4 + v1 / 16, v1 % 16 * 16 + v2 / 4, v2 % 4 * 64 + v3;
            && b0 / 4 == v0 && b0 % 4 * 16 + b1 / 16 == v1 && b1 % 16 * 4 + b2 / 64 == v2 && b2 % 64 == v3
  {
    Parts(v0, v1 / 16, 4);
    Parts(v1 % 16, v2 / 4, 16);
    Parts(v2 % 4, v3, 64);
  }

  /** Every byte string is read back. */
  lemma {:induction false} RoundTrip(b: Bytes)
    ensures Decode(Encode(b)) == Some(b)
  {
    hide EncodeGroup, DecodeGroup;
    if b != [] {
      var group := if |b| <= 3 then b else b[..3];
      GroupLength(group);
      GroupRoundTrip(group);
      if |b| <= 3 {
        assert Encode(b)[..4] == Encode(b);
        assert Decode([]) == Some([]);
        assert b + [] == b;
      } else {
        RoundTrip(b[3..]);
        EncodedLength(b[3..]);
        assert Encode(b)[..4] == EncodeGroup(group);
        assert Encode(b)[4..] == Encode(b[3..]);
        assert b[..3] + b[3..] == b;
      }
    }
  }

  /** The decoder accepts nothing but what the encoder writes. */
  lemma {:induction false} DecodeIsCanonical(s: Bytes)
    requires Decode(s).Some?
    ensures Encode(Decode(s).value) == s
  {
    hide EncodeGroup, DecodeGroup;
    if s != [] {
      var last := |s| == 4;
      GroupIsCanonical(s[..4], last);
      DecodeIsCanonical(s[4..]);
      var head, rest := DecodeGroup(s[..4], last).value, Decode(s[4..]).value;
      if last {
        assert Decode([]) == Some([]);
        assert head + [] == head;
        assert s[..4] == s;
      } else {
        assert rest != [] by { assert Encode([]) == []; }
        assert (head + rest)[..3] == head && (head + rest)[3..] == rest;
        assert s[..4] + s[4..] == s;
      }
    }
  }

  lemma EncodeIsInjective(a: Bytes, b: Bytes)
    requires Encode(a) == Encode(b)
    ensures a == b
  {
    RoundTrip(a);
    RoundTrip(b);
  }

  lemma GroupLength(b: Bytes)
    requires 1 <= |b| <= 3
    ensures |EncodeGroup(b)| == 4
  {
  }

  lemma {:induction false} EncodedLength(b: Bytes)
    ensures |Encode(b)| == 4 * ((|b| + 2) / 3)
  {
    hide EncodeGroup;
    if |b| > 3 {
      GroupLength(b[..3]);
      EncodedLength(b[3..]);
    } else if b != [] {
      GroupLength(b);
    }
  }

  /** Only symbols and padding, so never a separator. */
  lemma {:induction false} EncodedAvoids(b: Bytes, separator: byte)
    requires Value(separator).None? && separator != PAD
    ensures separator !in Encode(b)
  {
    hide Symbol, EncodeGroup, Value;
    if b != [] {
      GroupAvoids(if |b| <= 3 then b else b[..3], separator);
    }
    if |b| > 3 {
      EncodedAvoids(b[3..], separator);
    }
  }

  lemma GroupAvoids(b: Bytes, separator: byte)
    requires 1 <= |b| <= 3 && Value(separator).None? && separator != PAD
    ensures separator !in EncodeGroup(b)
  {
    forall value: sextet
      ensures Symbol(value) != separator
    {
      SymbolsAreInverse(value, 0);
    }
    hide Symbol, Value;
  }

  // ---------------------------------------------------------------------
  // The alphabet, and the bits of a group
  // ---------------------------------------------------------------------

  /** `A`-`Z`, `a`-`z`, `0`-`9`, `-`, `_`, and `=` for padding. */
  lemma AlphabetIsUrlSafe(value: sextet)
    ensures value < 26 ==> Symbol(value) == 'A' as int + value
    ensures 26 <= value < 52 ==> Symbol(value) == 'a' as int + (value - 26)
    ensures 52 <= value < 62 ==> Symbol(value) == '0' as int + (value - 52)
    ensures value == 62 ==> Symbol(value) == '-' as int
    ensures value == 63 ==> Symbol(value) == '_' as int
    ensures PAD == '=' as int
  {
  }

  /** The symbols of a group spell the same bits as its bytes, most significant first;
      missing bits are zero and missing symbols are padding. */
  lemma GroupSpellsBits(b: Bytes)
    requires 1 <= |b| <= 3
    ensures var s := EncodeGroup(b);
            && |s| == 4 && Value(s[0]).Some? && Value(s[1]).Some?
            && var head := Value(s[0]).value * 64 + Value(s[1]).value;
               && (|b| == 1 ==> head == b[0] as int * 16 && s[2] == PAD && s[3] == PAD)
               && (|b| == 2 ==> Value(s[2]).Some? && head * 64 + Value(s[2]).value == (b[0] as int * 256 + b[1] as int) * 4 && s[3] == PAD)
               && (|b| == 3 ==>
                    && Value(s[2]).Some? && Value(s[3]).Some?
                    && (head * 64 + Value(s[2]).value) * 64 + Value(s[3]).value == (b[0] as int * 256 + b[1] as int) * 256 + b[2] as int)
  {
    SymbolsAreInverse(b[0] / 4, PAD);
    SymbolsAreInverse(b[0] % 4 * 16, PAD);
    if |b| >= 2 {
      SymbolsAreInverse(b[0] % 4 * 16 + b[1] / 16, PAD);
      SymbolsAreInverse(b[1] % 16 * 4, PAD);
    }
    if |b| == 3 {
      SymbolsAreInverse(b[1] % 16 * 4 + b[2] / 64, PAD);
      SymbolsAreInverse(b[2] % 64, PAD);
    }
    hide Symbol, Value;
  }
}
