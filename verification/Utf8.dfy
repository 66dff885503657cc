/**
 UTF-8 (section 3 of RFC 3629): what the bytes of a Rust string are. Used where the
 repository works on the bytes of a text: percent-encoding and the placeholder scan.
 */
module Utf8 {
  import opened MachineTypes

  /** One to four bytes; every byte of a multi-byte character is at least 0x80. */
  function EncodeChar(c: char): (b: bytes)
    ensures 1 <= |b| <= 4
    ensures c as int < 0x80 ==> b == [c as int as byte]
    ensures c as int >= 0x80 ==> forall i :: 0 <= i < |b| ==> b[i] as int >= 0x80
  {
    var n := c as int;
    if n < 0x80 then [n as byte]
    else if n < 0x800 then [(0xC0 + n / 64) as byte, (0x80 + n % 64) as byte]
    else if n < 0x1_0000 then
      [(0xE0 + n / 4096) as byte, (0x80 + n / 64 % 64) as byte, (0x80 + n % 64) as byte]
    else
      [(0xF0 + n / 262144) as byte, (0x80 + n / 4096 % 64) as byte,
       (0x80 + n / 64 % 64) as byte, (0x80 + n % 64) as byte]
  }

  /** The shortest form, with a lead byte of its length and continuation bytes behind it (section 4 of RFC 3629). */
  lemma EncodedShortest(c: char)
    ensures var n, b := c as int, EncodeChar(c);
            && |b| == (if n < 0x80 then 1 else if n < 0x800 then 2 else if n < 0x1_0000 then 3 else 4)
            && (|b| == 2 ==> 0xC2 <= b[0] as int <= 0xDF)
            && (|b| == 3 ==> 0xE0 <= b[0] as int <= 0xEF && (b[0] == 0xE0 ==> b[1] as int >= 0xA0))
            && (|b| == 4 ==> 0xF0 <= b[0] as int <= 0xF4 && (b[0] == 0xF0 ==> b[1] as int >= 0x90))
            && forall i :: 1 <= i < |b| ==> 0x80 <= b[i] as int <= 0xBF
  {
  }

  function Encode(s: string): (b: bytes)
    ensures |b| >= |s|
  {
    if s == "" then [] else EncodeChar(s[0]) + Encode(s[1..])
  }

  /** How many bytes the character starting with `first` takes. */
  function CharLength(first: byte): (n: nat)
    ensures 1 <= n <= 4
  {
    if first < 0xC0 then 1 else if first < 0xE0 then 2 else if first < 0xF0 then 3 else 4
  }

  function Low(b: byte): int { b as int % 64 }

  /** The code point at the head of a byte string. */
  function DecodeHead(b: bytes): int
    requires b != [] && CharLength(b[0]) <= |b|
  {
    match CharLength(b[0])
    case 1 => b[0] as int
    case 2 => (b[0] as int - 0xC0) * 64 + Low(b[1])
    case 3 => (b[0] as int - 0xE0) * 4096 + Low(b[1]) * 64 + Low(b[2])
    case _ => (b[0] as int - 0xF0) * 262144 + Low(b[1]) * 4096 + Low(b[2]) * 64 + Low(b[3])
  }

  predicate IsScalar(n: int) { 0 <= n < 0xD800 || 0xE000 <= n < 0x11_0000 }

  /** The text of a byte string; stops where the bytes are not UTF-8. */
  function Decode(b: bytes): string {
    if b == [] || CharLength(b[0]) > |b| || !IsScalar(DecodeHead(b)) then ""
    else [DecodeHead(b) as char] + Decode(b[CharLength(b[0])..])
  }

  lemma TwoDigits(n: nat)
    requires n < 0x800
    ensures n / 64 * 64 + n % 64 == n && n / 64 < 32
  {
  }

  lemma ThreeDigits(n: nat)
    requires n < 0x1_0000
    ensures n / 4096 * 4096 + n / 64 % 64 * 64 + n % 64 == n && n / 4096 < 16
  {
    assert n / 64 / 64 == n / 4096;
  }

  lemma FourDigits(n: nat)
    requires n < 0x20_0000
    ensures n / 262144 * 262144 + n / 4096 % 64 * 4096 + n / 64 % 64 * 64 + n % 64 == n && n / 262144 < 8
  {
    assert n / 64 / 64 == n / 4096;
    assert n / 4096 / 64 == n / 262144;
  }

  lemma LowOfTail(d: nat)
    requires d < 64
    ensures Low((0x80 + d) as byte) == d
  {
  }

  lemma DecodeHeadOfChar(c: char, rest: bytes)
    ensures var b := EncodeChar(c) + rest;
            CharLength(b[0]) == |EncodeChar(c)| && DecodeHead(b) == c as int
  {
    hide Low;
    var n := c as int;
    LowOfTail(n % 64);
    LowOfTail(n / 64 % 64);
    LowOfTail(n / 4096 % 64);
    if n < 0x80 {
    } else if n < 0x800 {
      TwoDigits(n);
    } else if n < 0x1_0000 {
      ThreeDigits(n);
    } else {
      FourDigits(n);
    }
  }

  /** Every text is recovered from its bytes. */
  lemma {:induction false} DecodeEncode(s: string)
    ensures Decode(Encode(s)) == s
  {
    if s != "" {
      DecodeHeadOfChar(s[0], Encode(s[1..]));
      assert Encode(s)[|EncodeChar(s[0])|..] == Encode(s[1..]);
      DecodeEncode(s[1..]);
    }
  }
}
