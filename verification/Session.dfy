/** The login cookie: the gob session map inside the signed envelope. */
module Session {
  import opened ByteStrings
  import opened Wrappers
  import Gob
  import GobTheorems
  import GobCodec
  import opened SecureCookie

  const SESSION_COOKIE: Bytes := Ascii("internal_auth_session")

  datatype SessionError = Cookie(cookie: CookieError) | Gob(gob: Gob.GobError)

  /** `CookieCodec::new` */
  function NewCodec(mac: Bytes -> Mac): CookieCodec
  {
    CookieCodec(mac, DEFAULT_MAX_LENGTH, DEFAULT_MAX_AGE)
  }

  /** The value of the `Set-Cookie` that logs a browser in. */
  function LoginValue(codec: CookieCodec, token: Text, now: i64): Result<Bytes, CookieError>
    requires |token| <= ISIZE_MAX
  {
    codec.Encoded(SESSION_COOKIE, GobTheorems.EncodedTokenMap(token), now)
  }

  function ReadValue(codec: CookieCodec, value: Bytes, now: i64): Result<Text, SessionError>
  {
    match codec.Decoded(SESSION_COOKIE, value, now)
    case Err(error) => Err(Cookie(error))
    case Ok(payload) =>
      match Gob.DecodeTokenMap(payload)
      case Err(error) => Err(SessionError.Gob(error))
      case Ok(token) => Ok(token)
  }

  method Login(codec: CookieCodec, token: Text, now: i64) returns (r: Result<Bytes, CookieError>)
    requires |token| <= ISIZE_MAX
    ensures r == LoginValue(codec, token, now)
  {
    var payload := GobCodec.EncodeTokenMap(token);
    r := codec.EncodeAt(SESSION_COOKIE, payload, now);
  }

  method Read(codec: CookieCodec, value: Bytes, now: i64) returns (r: Result<Text, SessionError>)
    ensures r == ReadValue(codec, value, now)
  {
    var payload := codec.DecodeAt(SESSION_COOKIE, value, now);
    if payload.Err? {
      return Err(Cookie(payload.error));
    }
    var token := GobCodec.DecodeToken(payload.value);
    if token.Err? {
      return Err(SessionError.Gob(token.error));
    }
    return Ok(token.value);
  }

  /** Every login reads back to the same token for as long as it is fresh. */
  lemma LoginReadsBack(codec: CookieCodec, token: Text, issued: i64, now: i64)
    requires |token| <= ISIZE_MAX && LoginValue(codec, token, issued).Ok?
    ensures ReadValue(codec, LoginValue(codec, token, issued).value, now) ==
            if codec.Fresh(issued, now) then Ok(token) else Err(Cookie(Expired))
  {
    hide Gob.DecodeTokenMap, GobTheorems.EncodedTokenMap, codec.Encoded, codec.Decoded, codec.Fresh;
    GobTheorems.TokenMapRoundTrip(token);
    EnvelopeRoundTrip(codec, SESSION_COOKIE, GobTheorems.EncodedTokenMap(token), issued, now);
  }

  /** Padded base64 of `n` bytes. */
  function Expanded(n: nat): nat
  {
    4 * ((n + 2) / 3)
  }

  lemma CookieLength(codec: CookieCodec, value: Bytes, now: i64)
    ensures codec.Encoded(SESSION_COOKIE, value, now).Err? <==>
            codec.TooBig(Expanded(|Decimal(now)| + 1 + Expanded(|value|) + 1 + MAC_LEN))
  {
    hide Decimal, Base64.Encode;
    var encoded := Base64.Encode(value);
    Base64.EncodedLength(value);
    Base64.EncodedLength(Payload(Decimal(now), encoded, codec.mac(Signed(SESSION_COOKIE, Decimal(now), encoded))));
  }

  lemma Threshold(n: nat)
    ensures Expanded(10 + 1 + Expanded(n) + 1 + 32) <= 4096 <==> n <= 2271
  {
    assert n <= 2271 ==> Expanded(n) <= 3028;
    assert n >= 2272 ==> Expanded(n) >= 3032;
  }

  lemma PayloadBound(token: Text)
    requires |token| <= ISIZE_MAX
    ensures |GobTheorems.EncodedTokenMap(token)| <= 2271 <==> |token| <= 2219
  {
    if |token| <= 65000 {
      GobTheorems.TokenMapSize(token);
    } else {
      GobTheorems.LongTokenMap(token);
    }
  }

  /** With the default limit and a timestamp of ten digits, a login succeeds if and
      only if the token has at most 2219 bytes. */
  lemma LoginBound(mac: Bytes -> Mac, token: Text, now: i64)
    requires |token| <= ISIZE_MAX && 1_000_000_000 <= now < 10_000_000_000
    ensures LoginValue(NewCodec(mac), token, now).Ok? <==> |token| <= 2219
  {
    var codec, value := NewCodec(mac), GobTheorems.EncodedTokenMap(token);
    hide Decimal, GobTheorems.EncodedTokenMap, codec.Encoded, Expanded;
    CookieLength(codec, value, now);
    TenDigits(now);
    assert |Decimal(now)| == 10 by {
      DecimalOfNat(now);
    }
    Threshold(|value|);
    PayloadBound(token);
  }

  lemma CookieNameIsLiteral()
    ensures SESSION_COOKIE == Ascii("internal_auth_session")
  {
  }

  /** A login is the session map of the token, sealed under the cookie's name. */
  lemma LoginLayout(codec: CookieCodec, token: Text, now: i64)
    requires |token| <= ISIZE_MAX && now >= 0 && LoginValue(codec, token, now).Ok?
    ensures var raw := Base64.Decode(LoginValue(codec, token, now).value);
            var bar := ['|' as int];
            var text := Digits(now) + bar + Base64.Encode(GobTheorems.EncodedTokenMap(token));
            && raw.Some? && |raw.value| >= 33
            && raw.value[|raw.value| - 32..] == codec.mac(SESSION_COOKIE + bar + text)
            && raw.value[..|raw.value| - 32] == text + bar
  {
    hide GobTheorems.EncodedTokenMap, codec.Encoded, Digits, Base64.Encode, Base64.Decode;
    SealedLayout(codec, SESSION_COOKIE, GobTheorems.EncodedTokenMap(token), now);
  }

  /** A login of the default codec reads back for 30 days, 2592000 seconds, counted in
      whole seconds and including the last, and is expired from then on. */
  lemma LoginExpires(mac: Bytes -> Mac, token: Text, issued: i64, now: i64)
    requires |token| <= ISIZE_MAX && LoginValue(NewCodec(mac), token, issued).Ok?
    requires now as int - 2592000 >= -0x8000_0000_0000_0000
    ensures ReadValue(NewCodec(mac), LoginValue(NewCodec(mac), token, issued).value, now) ==
            if now as int - issued as int <= 2592000 then Ok(token) else Err(Cookie(Expired))
  {
    LoginReadsBack(NewCodec(mac), token, issued, now);
    FreshIsRecent(NewCodec(mac), issued, now);
    hide LoginValue, ReadValue;
  }
}
