/**
 The Base64 VLQ encoder of the source-map generator (`scripts/sourcemap-test/main.py`), and the
 decoder of section 6 of ECMA-426 that reads it back.
 */
module Vlq {
  import opened Options

  const UPPER := "ABCDEFGHIJKLMNOPQRSTUVWXYZ"
  const LOWER := "abcdefghijklmnopqrstuvwxyz"
  const B64 := UPPER + LOWER + "0123456789+/"

  function Digit(n: nat): char
    requires n < 64
  {
    B64[n]
  }

  /** The sign goes to the lowest bit. */
  function Zigzag(value: int): nat { if value < 0 then 2 * -value + 1 else 2 * value }

  /** Five bits at a time, lowest first; bit 32 says that more follow. */
  function Digits(vlq: nat): string {
    if vlq / 32 > 0 then [Digit(vlq % 32 + 32)] + Digits(vlq / 32) else [Digit(vlq % 32)]
  }

  function Encoded(value: int): string { Digits(Zigzag(value)) }

  function EncodedAll(values: seq<int>): string {
    if values == [] then "" else EncodedAll(values[..|values| - 1]) + Encoded(values[|values| - 1])
  }

  lemma DigitsUnfold(vlq: nat)
    ensures Digits(vlq) == [Digit(vlq % 32 + if vlq / 32 > 0 then 32 else 0)] + if vlq / 32 > 0 then Digits(vlq / 32) else ""
  {
  }

  method VlqEncode(value: int) returns (result: string)
    ensures result == Encoded(value)
  {
    hide Digit;
    var vlq := if value < 0 then (-value) * 2 + 1 else value * 2;
    result := "";
    var more := true;
    while more
      invariant 0 <= vlq
      invariant if more then result + Digits(vlq) == Encoded(value) else result == Encoded(value)
      decreases more, vlq
    {
      var digit := vlq % 32;
      DigitsUnfold(vlq);
      vlq := vlq / 32;
      if vlq > 0 {
        digit := digit + 32;
      }
      result := result + [Digit(digit)];
      more := vlq != 0;
    }
  }

  method EncodeSegment(values: seq<int>) returns (result: string)
    ensures result == EncodedAll(values)
  {
    result := "";
    for n := 0 to |values|
      invariant result == EncodedAll(values[..n])
    {
      assert values[..n + 1][..n] == values[..n];
      var one := VlqEncode(values[n]);
      result := result + one;
    }
    assert values[..|values|] == values;
  }

  // ---- Section 6 of ECMA-426, read backwards -----------------------------------------------

  /** The value of a Base64 character. */
  function B64Value(c: char): Option<nat> {
    if 'A' <= c <= 'Z' then Some(c as int - 'A' as int)
    else if 'a' <= c <= 'z' then Some(c as int - 'a' as int + 26)
    else if '0' <= c <= '9' then Some(c as int - '0' as int + 52)
    else if c == '+' then Some(62)
    else if c == '/' then Some(63)
    else None
  }

  /** One number and the text behind it; `None` where the text is not a VLQ. */
  function DecodeDigits(s: string): Option<(nat, string)> {
    if s == "" then None
    else match B64Value(s[0])
      case None => None
      case Some(d) =>
        if d < 32 then Some((d, s[1..]))
        else match DecodeDigits(s[1..])
          case None => None
          case Some((rest, tail)) => Some((d - 32 + 32 * rest, tail))
  }

  function Unzigzag(vlq: nat): int { if vlq % 2 == 1 then -(vlq / 2) else vlq / 2 }

  function DecodeOne(s: string): Option<(int, string)> {
    match DecodeDigits(s) case None => None case Some((vlq, tail)) => Some((Unzigzag(vlq), tail))
  }

  /** Every number of a text, in order. */
  function DecodeAll(s: string): Option<seq<int>>
    decreases |s|
  {
    if s == "" then Some([])
    else match DecodeOne(s)
      case None => None
      case Some((v, tail)) =>
        if |tail| >= |s| then None
        else match DecodeAll(tail) case None => None case Some(vs) => Some([v] + vs)
  }

  lemma B64RoundTrip(n: nat)
    requires n < 64
    ensures B64Value(Digit(n)) == Some(n)
  {
    if n < 26 {
      assert B64[n] == UPPER[n];
    } else if n < 52 {
      assert B64[n] == LOWER[n - 26];
    } else {
      assert B64[n] == "0123456789+/"[n - 52];
    }
  }

  lemma {:induction false} DigitsRoundTrip(vlq: nat, tail: string)
    ensures DecodeDigits(Digits(vlq) + tail) == Some((vlq, tail)) && Digits(vlq) != ""
  {
    hide B64Value, Digit;
    var s := Digits(vlq) + tail;
    if vlq / 32 > 0 {
      B64RoundTrip(vlq % 32 + 32);
      assert s[1..] == Digits(vlq / 32) + tail;
      DigitsRoundTrip(vlq / 32, tail);
    } else {
      B64RoundTrip(vlq % 32);
      assert s[1..] == tail;
    }
  }

  lemma OneRoundTrip(value: int, tail: string)
    ensures DecodeOne(Encoded(value) + tail) == Some((value, tail)) && Encoded(value) != ""
  {
    hide Digits, DecodeDigits;
    DigitsRoundTrip(Zigzag(value), tail);
    assert Unzigzag(Zigzag(value)) == value;
  }

  lemma {:induction false} EncodedAllFirst(values: seq<int>)
    requires values != []
    ensures EncodedAll(values) == Encoded(values[0]) + EncodedAll(values[1..])
  {
    hide Encoded;
    var n := |values| - 1;
    if n == 0 {
      assert values[..0] == [] && values[1..] == [];
      assert EncodedAll([]) == "";
    } else {
      EncodedAllFirst(values[..n]);
      assert values[..n][1..] == values[1..][..n - 1];
      assert values[1..][n - 1] == values[n];
    }
  }

  lemma NothingEncoded()
    ensures EncodedAll([]) == ""
  {
  }

  /** Decoding the output of the encoder gives back the numbers, of any size and sign. */
  lemma {:induction false} SegmentRoundTrip(values: seq<int>)
    ensures DecodeAll(EncodedAll(values)) == Some(values)
  {
    hide Encoded, DecodeOne, EncodedAll;
    if values == [] {
      NothingEncoded();
    } else {
      EncodedAllFirst(values);
      OneRoundTrip(values[0], EncodedAll(values[1..]));
      SegmentRoundTrip(values[1..]);
      assert [values[0]] + values[1..] == values;
    }
  }

  /** So no two lists of numbers share an encoding. */
  lemma {:induction false} UniquelyDecodable(a: seq<int>, b: seq<int>)
    requires EncodedAll(a) == EncodedAll(b)
    ensures a == b
  {
    SegmentRoundTrip(a);
    SegmentRoundTrip(b);
  }
}
