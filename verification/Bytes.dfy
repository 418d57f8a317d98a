/** Bytes, and the text that Rust strings hold. */
module ByteStrings {
  type byte = x: int | 0 <= x < 256

  type Bytes = seq<byte>

  /** The bound of every allocation in Rust. */
  const ISIZE_MAX := 0x7fff_ffff_ffff_ffff

  const U64 := 0x1_0000_0000_0000_0000

  type u64 = x: int | 0 <= x < U64

  type i64 = x: int | -0x8000_0000_0000_0000 <= x < 0x8000_0000_0000_0000

  const I64_MIN: i64 := -0x8000_0000_0000_0000

  /** The bytes of a text of ASCII characters. */
  function Ascii(text: string): (bytes: Bytes)
    requires forall i :: 0 <= i < |text| ==> text[i] < 128 as char
    ensures |bytes| == |text|
    ensures forall i :: 0 <= i < |text| ==> bytes[i] == text[i] as int
  {
    seq(|text|, i requires 0 <= i < |text| => text[i] as int)
  }

  predicate Between(low: byte, value: byte, high: byte)
  {
    low <= value <= high
  }

  predicate IsTail(value: byte)
  {
    Between(0x80, value, 0xBF)
  }

  /** The well-formed byte sequences of section 4 of RFC 3629. */
  predicate ValidUtf8(b: Bytes)
  {
    if b == [] then true
    else if b[0] < 0x80 then ValidUtf8(b[1..])
    else if Between(0xC2, b[0], 0xDF) then |b| >= 2 && IsTail(b[1]) && ValidUtf8(b[2..])
    else if Between(0xE0, b[0], 0xEF) then
      && |b| >= 3
      && Between(if b[0] == 0xE0 then 0xA0 else 0x80, b[1], if b[0] == 0xED then 0x9F else 0xBF)
      && IsTail(b[2]) && ValidUtf8(b[3..])
    else
      && Between(0xF0, b[0], 0xF4) && |b| >= 4
      && Between(if b[0] == 0xF0 then 0x90 else 0x80, b[1], if b[0] == 0xF4 then 0x8F else 0xBF)
      && IsTail(b[2]) && IsTail(b[3]) && ValidUtf8(b[4..])
  }

  type Text = b: Bytes | ValidUtf8(b)

  lemma {:induction false} AsciiIsUtf8(b: Bytes)
    requires forall i :: 0 <= i < |b| ==> b[i] < 0x80
    ensures ValidUtf8(b)
  {
    if b != [] {
      AsciiIsUtf8(b[1..]);
    }
  }
}
