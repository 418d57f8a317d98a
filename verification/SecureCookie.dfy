/** The gorilla cookie envelope: `base64(timestamp | base64(value) | mac)`, signed
    under the cookie's name. The MAC is any function to 32 bytes. */
module SecureCookie {
  import opened ByteStrings
  import opened Wrappers
  import Base64

  const PIPE: byte := 124
  const DEFAULT_MAX_LENGTH := 4096
  const DEFAULT_MAX_AGE: i64 := 86400 * 30
  const MAC_LEN := 32

  type Mac = m: Bytes | |m| == MAC_LEN witness seq(MAC_LEN, _ => 0)

  datatype CookieError = TooLong | NotBase64 | Malformed | BadSignature | BadTimestamp | Expired

  // ---------------------------------------------------------------------
  // Timestamps
  // ---------------------------------------------------------------------

  function Digits(n: nat): Bytes
  {
    if n < 10 then [48 + n] else Digits(n / 10) + [48 + n % 10]
  }

  /** A number as `{}` prints it. */
  function Decimal(n: i64): Bytes
  {
    var v: int := n;
    if v < 0 then [45] + Digits(-v) else Digits(v)
  }

  function ParseDigits(b: Bytes): Option<nat>
  {
    if b == [] || !(48 <= b[|b| - 1] <= 57) then None
    else if |b| == 1 then Some(b[0] - 48)
    else
      match ParseDigits(b[..|b| - 1])
      case None => None
      case Some(head) => Some(head * 10 + (b[|b| - 1] - 48))
  }

  /** `str::parse::<i64>`: an optional sign, then digits, within range. */
  function ParseI64(b: Bytes): Option<i64>
  {
    var negative := |b| > 1 && b[0] == 45;
    match ParseDigits(if |b| > 1 && (b[0] == 45 || b[0] == 43) then b[1..] else b)
    case None => None
    case Some(n) =>
      var value: int := if negative then -(n as int) else n;
      if -0x8000_0000_0000_0000 <= value < 0x8000_0000_0000_0000 then Some(value) else None
  }

  lemma {:induction false} DigitsRoundTrip(n: nat)
    ensures ParseDigits(Digits(n)) == Some(n)
    ensures |Digits(n)| >= 1 && 48 <= Digits(n)[0] <= 57
    ensures forall digit :: digit in Digits(n) ==> 48 <= digit <= 57
  {
    if n >= 10 {
      DigitsRoundTrip(n / 10);
      assert Digits(n)[..|Digits(n)| - 1] == Digits(n / 10);
    }
  }

  lemma DigitsAreRead(digits: Bytes, n: nat)
    requires ParseDigits(digits) == Some(n) && digits != [] && 48 <= digits[0] <= 57
    ensures n < 0x8000_0000_0000_0000 ==> ParseI64(digits) == Some(n)
    ensures n <= 0x8000_0000_0000_0000 ==> ParseI64([45] + digits) == Some(-(n as int))
    ensures PIPE !in digits ==> PIPE !in [45] + digits
  {
    hide ParseDigits;
    assert ([45] + digits)[1..] == digits;
  }

  lemma DecimalRoundTrip(n: i64)
    ensures ParseI64(Decimal(n)) == Some(n)
    ensures PIPE !in Decimal(n)
  {
    hide Digits, ParseDigits, ParseI64;
    var size: nat := if n < 0 then -(n as int) else n;
    DigitsRoundTrip(size);
    DigitsAreRead(Digits(size), size);
  }

  lemma OneMoreDigit(n: nat)
    requires n >= 10
    ensures |Digits(n)| == |Digits(n / 10)| + 1
  {
  }

  lemma FiveDigits(n: nat)
    requires n >= 100_000
    ensures |Digits(n)| == |Digits(n / 100_000)| + 5
  {
    var n1 := n / 10;
    var n2 := n1 / 10;
    var n3 := n2 / 10;
    var n4 := n3 / 10;
    OneMoreDigit(n);
    OneMoreDigit(n1);
    OneMoreDigit(n2);
    OneMoreDigit(n3);
    OneMoreDigit(n4);
    assert n4 / 10 == n / 100_000;
  }

  /** A timestamp between the years 2001 and 2286 has ten digits. */
  lemma TenDigits(n: nat)
    requires 1_000_000_000 <= n < 10_000_000_000
    ensures |Digits(n)| == 10
  {
    var high := n / 100_000;
    FiveDigits(n);
    OneMoreDigit(high);
    OneMoreDigit(high / 10);
    OneMoreDigit(high / 10 / 10);
    OneMoreDigit(high / 10 / 10 / 10);
    assert high / 10 / 10 / 10 / 10 < 10;
  }

  lemma DecimalOfNat(n: i64)
    requires n >= 0
    ensures Decimal(n) == Digits(n)
  {
  }

  /** Subtraction of a release build. */
  function WrappingSub(a: i64, b: i64): i64
  {
    var d: int := (a as int) - (b as int);
    if d < -0x8000_0000_0000_0000 then d + U64
    else if d >= 0x8000_0000_0000_0000 then d - U64
    else d
  }

  // ---------------------------------------------------------------------
  // The envelope
  // ---------------------------------------------------------------------

  /** Where the first separator is, or the length when there is none. */
  function PipeAt(b: Bytes): (at: nat)
    ensures at <= |b|
    ensures at < |b| ==> b[at] == PIPE
    ensures forall i :: 0 <= i < at ==> b[i] != PIPE
  {
    if b == [] || b[0] == PIPE then 0 else 1 + PipeAt(b[1..])
  }

  lemma PipeIsFirst(head: Bytes, tail: Bytes)
    requires PIPE !in head
    ensures var b := head + ([PIPE] + tail);
            PipeAt(b) == |head| < |b| && b[..PipeAt(b)] == head && b[PipeAt(b) + 1..] == tail
  {
    var b := head + ([PIPE] + tail);
    assert forall i :: 0 <= i < |head| ==> b[i] == head[i] && head[i] in head;
    assert b[|head|] == PIPE;
  }

  /** The timestamp, the encoded value and the MAC: what stands before, between and
      behind the first two separators. */
  function Fields(raw: Bytes): Option<(Bytes, Bytes, Bytes)>
  {
    var first := PipeAt(raw);
    if first == |raw| then None
    else
      var rest := raw[first + 1..];
      var second := PipeAt(rest);
      if second == |rest| then None else Some((raw[..first], rest[..second], rest[second + 1..]))
  }

  lemma FieldsOfPayload(timestamp: Bytes, encoded: Bytes, mac: Bytes)
    requires PIPE !in timestamp && PIPE !in encoded
    ensures Fields(Payload(timestamp, encoded, mac)) == Some((timestamp, encoded, mac))
  {
    hide PipeAt;
    PipeIsFirst(timestamp, encoded + ([PIPE] + mac));
    PipeIsFirst(encoded, mac);
  }

  lemma PayloadOfFields(raw: Bytes)
    requires Fields(raw).Some?
    ensures var (timestamp, encoded, mac) := Fields(raw).value;
            raw == Payload(timestamp, encoded, mac) && PIPE !in timestamp && PIPE !in encoded
  {
    hide PipeAt;
    var first := PipeAt(raw);
    var rest := raw[first + 1..];
    assert raw == raw[..first] + ([PIPE] + rest);
    assert rest == rest[..PipeAt(rest)] + ([PIPE] + rest[PipeAt(rest) + 1..]);
  }

  function Signed(name: Bytes, timestamp: Bytes, encoded: Bytes): Bytes
  {
    name + [PIPE] + timestamp + [PIPE] + encoded
  }

  function Payload(timestamp: Bytes, encoded: Bytes, mac: Bytes): Bytes
  {
    timestamp + ([PIPE] + (encoded + ([PIPE] + mac)))
  }

  datatype CookieCodec = CookieCodec(mac: Bytes -> Mac, maxLength: nat, maxAge: i64) {

    predicate TooBig(length: nat) { maxLength != 0 && length > maxLength }

    function Sealed(name: Bytes, timestamp: Bytes, encoded: Bytes): Bytes {
      Base64.Encode(Payload(timestamp, encoded, mac(Signed(name, timestamp, encoded))))
    }

    function Encoded(name: Bytes, value: Bytes, timestamp: i64): Result<Bytes, CookieError> {
      var out := Sealed(name, Decimal(timestamp), Base64.Encode(value));
      if TooBig(|out|) then Err(TooLong) else Ok(out)
    }

    /** True when the age check passes. */
    predicate Fresh(issued: i64, now: i64) {
      maxAge == 0 || issued >= WrappingSub(now, maxAge)
    }

    function Decoded(name: Bytes, value: Bytes, now: i64): Result<Bytes, CookieError> {
      if TooBig(|value|) then Err(TooLong)
      else
        match Base64.Decode(value)
        case None => Err(NotBase64)
        case Some(raw) =>
          match Fields(raw)
          case None => Err(Malformed)
          case Some((timestamp, encoded, tag)) =>
            if mac(Signed(name, timestamp, encoded)) != tag then Err(BadSignature)
            else
              match ParseI64(timestamp)
              case None => Err(BadTimestamp)
              case Some(issued) =>
                if !Fresh(issued, now) then Err(Expired)
                else
                  match Base64.Decode(encoded)
                  case None => Err(NotBase64)
                  case Some(plain) => Ok(plain)
    }

    method EncodeAt(name: Bytes, value: Bytes, timestamp: i64) returns (r: Result<Bytes, CookieError>)
      ensures r == Encoded(name, value, timestamp)
    {
      hide Base64.Encode, Decimal;
      var encodedValue := Base64.Encode(value);
      var signed := name + [PIPE] + Decimal(timestamp) + [PIPE] + encodedValue;
      var tag := mac(signed);
      var payload: Bytes := [];
      payload := payload + signed[|name| + 1..];
      payload := payload + [PIPE];
      payload := payload + tag;
      assert payload == Payload(Decimal(timestamp), encodedValue, tag);
      var out := Base64.Encode(payload);
      if maxLength != 0 && |out| > maxLength {
        return Err(TooLong);
      }
      return Ok(out);
    }

    method DecodeAt(name: Bytes, value: Bytes, now: i64) returns (r: Result<Bytes, CookieError>)
      ensures r == Decoded(name, value, now)
    {
      hide Base64.Decode, ParseI64, PipeAt, WrappingSub;
      if maxLength != 0 && |value| > maxLength {
        return Err(TooLong);
      }
      var raw := Base64.Decode(value);
      if raw.None? {
        return Err(NotBase64);
      }
      var first := PipeAt(raw.value);
      if first == |raw.value| {
        return Err(Malformed);
      }
      var timestamp, rest := raw.value[..first], raw.value[first + 1..];
      var second := PipeAt(rest);
      if second == |rest| {
        return Err(Malformed);
      }
      var encodedValue, tag := rest[..second], rest[second + 1..];
      var signed: Bytes := [];
      signed := signed + name;
      signed := signed + [PIPE];
      signed := signed + timestamp;
      signed := signed + [PIPE];
      signed := signed + encodedValue;
      assert signed == Signed(name, timestamp, encodedValue);
      if mac(signed) != tag {
        return Err(BadSignature);
      }
      var issued := ParseI64(timestamp);
      if issued.None? {
        return Err(BadTimestamp);
      }
      if maxAge != 0 && issued.value < WrappingSub(now, maxAge) {
        return Err(Expired);
      }
      var plain := Base64.Decode(encodedValue);
      if plain.None? {
        return Err(NotBase64);
      }
      return Ok(plain.value);
    }
  }

  // ---------------------------------------------------------------------
  // Main results
  // ---------------------------------------------------------------------

  /** What the decoder does with a sealed value, whatever bytes the MAC holds. */
  lemma SealedDecodes(codec: CookieCodec, name: Bytes, text: Bytes, value: Bytes, now: i64)
    requires PIPE !in text && !codec.TooBig(|codec.Sealed(name, text, Base64.Encode(value))|)
    ensures codec.Decoded(name, codec.Sealed(name, text, Base64.Encode(value)), now) ==
            match ParseI64(text)
            case None => Err(BadTimestamp)
            case Some(issued) => if codec.Fresh(issued, now) then Ok(value) else Err(Expired)
  {
    hide Base64.Encode, Base64.Decode, ParseI64, Fields, Signed, Payload, codec.Fresh;
    var encoded := Base64.Encode(value);
    var mac := codec.mac(Signed(name, text, encoded));
    assert Base64.Value(PIPE).None?;
    Base64.EncodedAvoids(value, PIPE);
    Base64.RoundTrip(value);
    Base64.RoundTrip(Payload(text, encoded, mac));
    FieldsOfPayload(text, encoded, mac);
  }

  /** What a codec sealed it opens again, whatever bytes the MAC holds: the value
      comes back exactly when the age check is off or passes, and `Expired` else. */
  lemma EnvelopeRoundTrip(codec: CookieCodec, name: Bytes, value: Bytes, timestamp: i64, now: i64)
    requires codec.Encoded(name, value, timestamp).Ok?
    ensures codec.Decoded(name, codec.Encoded(name, value, timestamp).value, now) ==
            if codec.Fresh(timestamp, now) then Ok(value) else Err(Expired)
  {
    DecimalRoundTrip(timestamp);
    hide Decimal, ParseI64, codec.Sealed, codec.Decoded, codec.Fresh;
    SealedDecodes(codec, name, Decimal(timestamp), value, now);
  }

  /** What is left of a number without its last `count` decimal digits. */
  function Tenths(n: nat, count: nat): nat
  {
    if count == 0 then n else Tenths(n / 10, count - 1)
  }

  /** A number in decimal: the digits `0` to `9` from the highest that is not zero. */
  lemma {:induction false} DigitsByValue(n: nat)
    ensures var d := Digits(n);
            && |d| >= 1 && Tenths(n, |d|) == 0 && (n >= 10 ==> Tenths(n, |d| - 1) > 0)
            && forall k :: 0 <= k < |d| ==> d[|d| - 1 - k] == '0' as int + Tenths(n, k) % 10
  {
    var d := Digits(n);
    if n >= 10 {
      DigitsByValue(n / 10);
      var head := Digits(n / 10);
      assert Tenths(n, |d|) == Tenths(n / 10, |head|) && Tenths(n, |d| - 1) == Tenths(n / 10, |head| - 1);
      if n / 10 < 10 {
        assert |head| == 1 && Tenths(n / 10, 0) == n / 10;
      }
      forall k | 0 <= k < |d|
        ensures d[|d| - 1 - k] == '0' as int + Tenths(n, k) % 10
      {
        if k > 0 {
          assert d[|d| - 1 - k] == head[|head| - 1 - (k - 1)];
          assert Tenths(n, k) == Tenths(n / 10, k - 1);
        }
      }
    } else {
      assert Tenths(n, 1) == Tenths(n / 10, 0) == 0;
    }
  }

  /** What a browser gets: base64 of the timestamp in decimal, the value in base64 and
      the MAC over both behind the cookie's name, with `|` between them. */
  lemma SealedLayout(codec: CookieCodec, name: Bytes, value: Bytes, timestamp: i64)
    requires codec.Encoded(name, value, timestamp).Ok?
    ensures var raw := Base64.Decode(codec.Encoded(name, value, timestamp).value);
            var bar := ['|' as int];
            var text := (if timestamp < 0 then ['-' as int] + Digits(-(timestamp as int)) else Digits(timestamp))
                        + bar + Base64.Encode(value);
            && raw.Some? && |raw.value| >= 33
            && raw.value[|raw.value| - 32..] == codec.mac(name + bar + text)
            && raw.value[..|raw.value| - 32] == text + bar
    ensures codec.maxLength != 0 ==> |codec.Encoded(name, value, timestamp).value| <= codec.maxLength
  {
    var encoded := Base64.Encode(value);
    var stamp := Decimal(timestamp);
    var text := stamp + ['|' as int] + encoded;
    hide Base64.Encode, Base64.Decode, Digits;
    assert Signed(name, stamp, encoded) == name + ['|' as int] + text;
    var mac := codec.mac(Signed(name, stamp, encoded));
    Base64.RoundTrip(Payload(stamp, encoded, mac));
    assert Payload(stamp, encoded, mac) == text + ['|' as int] + mac;
  }

  /** With the clock and the bound far from the ends of the range, "fresh" is the
      plain comparison. */
  lemma FreshIsRecent(codec: CookieCodec, issued: i64, now: i64)
    requires -0x8000_0000_0000_0000 <= now as int - codec.maxAge as int < 0x8000_0000_0000_0000
    ensures codec.Fresh(issued, now) <==> codec.maxAge == 0 || issued as int >= now as int - codec.maxAge as int
  {
  }

  lemma AcceptedIsSealed(codec: CookieCodec, name: Bytes, cookie: Bytes, now: i64, value: Bytes)
    requires codec.Decoded(name, cookie, now) == Ok(value)
    ensures !codec.TooBig(|cookie|)
    ensures exists text: Bytes ::
              && PIPE !in text && ParseI64(text).Some? && codec.Fresh(ParseI64(text).value, now)
              && cookie == codec.Sealed(name, text, Base64.Encode(value))
  {
    hide Base64.Encode, Base64.Decode, ParseI64, Signed, Fields;
    var raw := Base64.Decode(cookie).value;
    var (text, encoded, _) := Fields(raw).value;
    Base64.DecodeIsCanonical(cookie);
    Base64.DecodeIsCanonical(encoded);
    PayloadOfFields(raw);
    assert cookie == codec.Sealed(name, text, Base64.Encode(value));
  }

  /** The decoder accepts a cookie if and only if it is the sealed form of the value
      under some timestamp text that parses to a fresh time. */
  lemma AcceptsOnlySealed(codec: CookieCodec, name: Bytes, cookie: Bytes, now: i64, value: Bytes)
    ensures codec.Decoded(name, cookie, now) == Ok(value) <==>
            && !codec.TooBig(|cookie|)
            && exists text: Bytes ::
                 && PIPE !in text && ParseI64(text).Some? && codec.Fresh(ParseI64(text).value, now)
                 && cookie == codec.Sealed(name, text, Base64.Encode(value))
  {
    hide Base64.Encode, ParseI64, codec.Sealed, codec.Decoded, codec.Fresh;
    if codec.Decoded(name, cookie, now) == Ok(value) {
      AcceptedIsSealed(codec, name, cookie, now, value);
    }
    if !codec.TooBig(|cookie|) {
      if text: Bytes :|
        && PIPE !in text && ParseI64(text).Some? && codec.Fresh(ParseI64(text).value, now)
        && cookie == codec.Sealed(name, text, Base64.Encode(value))
      {
        SealedDecodes(codec, name, text, value, now);
      }
    }
  }

  /** Why a cookie is refused, in the order of the checks. */
  lemma RefusalsInOrder(codec: CookieCodec, name: Bytes, cookie: Bytes, now: i64)
    ensures var raw := Base64.Decode(cookie);
            var r := codec.Decoded(name, cookie, now);
            if codec.maxLength != 0 && |cookie| > codec.maxLength then r == Err(TooLong)
            else if raw.None? then r == Err(NotBase64)
            else if !(exists i, j :: 0 <= i < j < |raw.value| && raw.value[i] == '|' as int && raw.value[j] == '|' as int) then
              r == Err(Malformed)
            else r != Err(TooLong) && r != Err(Malformed)
    ensures forall text: Bytes, encoded: Bytes, tag: Bytes ::
              PIPE !in text && PIPE !in encoded && Base64.Decode(cookie) == Some(Payload(text, encoded, tag))
              && !(codec.maxLength != 0 && |cookie| > codec.maxLength) ==>
                (codec.Decoded(name, cookie, now) == Err(BadSignature) <==> codec.mac(Signed(name, text, encoded)) != tag)
  {
    hide Base64.Decode, ParseI64, Signed, Payload, codec.Fresh;
    if Base64.Decode(cookie).Some? {
      TwoPipes(Base64.Decode(cookie).value);
    }
    forall text: Bytes, encoded: Bytes, tag: Bytes | PIPE !in text && PIPE !in encoded
      ensures Fields(Payload(text, encoded, tag)) == Some((text, encoded, tag))
    {
      FieldsOfPayload(text, encoded, tag);
    }
    hide Fields;
  }

  lemma TwoPipes(raw: Bytes)
    ensures Fields(raw).Some? <==> exists i, j :: 0 <= i < j < |raw| && raw[i] == PIPE && raw[j] == PIPE
  {
    var first := PipeAt(raw);
    hide PipeAt;
    if first < |raw| {
      var rest := raw[first + 1..];
      var second := PipeAt(rest);
      assert forall i :: 0 <= i < |rest| ==> rest[i] == raw[first + 1 + i];
      if second < |rest| {
        assert raw[first] == PIPE && raw[first + 1 + second] == PIPE;
      } else {
        assert forall j :: first < j < |raw| ==> raw[j] == rest[j - first - 1];
      }
    }
  }

  /** Digits and nothing else are read as a number, each worth ten times the next. */
  lemma {:induction false} OnlyDigitsAreRead(b: Bytes)
    ensures ParseDigits(b).Some? <==> b != [] && forall i :: 0 <= i < |b| ==> '0' as int <= b[i] <= '9' as int
    ensures ParseDigits(b).Some? ==>
              var last := b[|b| - 1] as int - '0' as int;
              ParseDigits(b).value == if |b| == 1 then last else ParseDigits(b[..|b| - 1]).value * 10 + last
  {
    if |b| > 1 {
      OnlyDigitsAreRead(b[..|b| - 1]);
    }
  }

  /** A timestamp is read when it is digits with at most one sign in front, and its value
      fits into 64 bits. */
  lemma TimestampsAreNumbers(b: Bytes)
    ensures var signed := |b| > 1 && b[0] in {'+' as int, '-' as int};
            var digits := if signed then b[1..] else b;
            var minus := signed && b[0] == '-' as int;
            ParseI64(b) ==
            if ParseDigits(digits).None? then None
            else
              var value: int := if minus then -(ParseDigits(digits).value as int) else ParseDigits(digits).value;
              if -0x8000_0000_0000_0000 <= value < 0x8000_0000_0000_0000 then Some(value) else None
  {
  }

  lemma NoPipeBehind(a: Bytes, b: Bytes, c: Bytes, d: Bytes)
    requires PIPE !in b && a + [PIPE] + b == c + [PIPE] + d
    ensures |c| <= |a|
  {
    var text := a + [PIPE] + b;
    assert forall i :: |a| < i < |text| ==> text[i] == b[i - |a| - 1] && text[i] in b;
    assert (c + [PIPE] + d)[|c|] == PIPE;
  }

  /** The last separator splits a text in one way only. */
  lemma LastPipe(a: Bytes, b: Bytes, c: Bytes, d: Bytes)
    requires PIPE !in b && PIPE !in d && a + [PIPE] + b == c + [PIPE] + d
    ensures a == c && b == d
  {
    var text := a + [PIPE] + b;
    NoPipeBehind(a, b, c, d);
    NoPipeBehind(c, d, a, b);
    assert text[..|a|] == a && text[..|c|] == c;
    assert text[|a| + 1..] == b && text[|c| + 1..] == d;
  }

  /** Two different triples never share a signed message, even when a name holds the
      separator. */
  lemma SignedIsInjective(name: Bytes, timestamp: i64, value: Bytes, name': Bytes, timestamp': i64, value': Bytes)
    requires Signed(name, Decimal(timestamp), Base64.Encode(value)) ==
             Signed(name', Decimal(timestamp'), Base64.Encode(value'))
    ensures name == name' && timestamp == timestamp' && value == value'
  {
    hide Base64.Encode, Base64.Decode, Decimal;
    assert Base64.Value(PIPE).None?;
    Base64.EncodedAvoids(value, PIPE);
    Base64.EncodedAvoids(value', PIPE);
    DecimalRoundTrip(timestamp);
    DecimalRoundTrip(timestamp');
    LastPipe(name + [PIPE] + Decimal(timestamp), Base64.Encode(value),
             name' + [PIPE] + Decimal(timestamp'), Base64.Encode(value'));
    LastPipe(name, Decimal(timestamp), name', Decimal(timestamp'));
    Base64.EncodeIsInjective(value, value');
  }
}
