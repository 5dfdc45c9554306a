/**
 Hexadecimal text for byte strings: two digits per byte, most significant
 nibble first, decoding either case and encoding in the chosen case.
 */
module Hex {
  import opened Bytes
  import opened Results

  const LOWER_DIGITS: string := "0123456789abcdef"
  const UPPER_DIGITS: string := "0123456789ABCDEF"

  /** The digit for nibble `n`, upper- or lower-case. */
  function Digit(n: nat, upper: bool): char
    requires n < 16
  {
    if upper then UPPER_DIGITS[n] else LOWER_DIGITS[n]
  }

  predicate IsDecimalDigit(c: char) {
    '0' <= c <= '9'
  }

  /** A digit as this module writes it in the given case. */
  predicate IsCasedDigit(c: char, upper: bool) {
    IsDecimalDigit(c) || (if upper then 'A' <= c <= 'F' else 'a' <= c <= 'f')
  }

  predicate IsHexDigit(c: char) {
    IsCasedDigit(c, false) || IsCasedDigit(c, true)
  }

  predicate AllHexDigits(s: string) {
    forall i :: 0 <= i < |s| ==> IsHexDigit(s[i])
  }

  /** ASCII case mapping; every character outside A-Z (resp. a-z) is kept. */
  function ToLower(c: char): char {
    if 'A' <= c <= 'Z' then (c as int + 32) as char else c
  }

  function ToUpper(c: char): char {
    if 'a' <= c <= 'z' then (c as int - 32) as char else c
  }

  function LowerString(s: string): (r: string)
    ensures |r| == |s|
  {
    seq(|s|, i requires 0 <= i < |s| => ToLower(s[i]))
  }

  function UpperString(s: string): (r: string)
    ensures |r| == |s|
  {
    seq(|s|, i requires 0 <= i < |s| => ToUpper(s[i]))
  }

  /** The value of one hexadecimal digit of either case. */
  function DigitValue(c: char): (r: Option<nat>)
    ensures r.Some? <==> IsHexDigit(c)
    ensures r.Some? ==> r.value < 16
    ensures r.Some? ==> Digit(r.value, false) == ToLower(c) && Digit(r.value, true) == ToUpper(c)
  {
    if '0' <= c <= '9' then Some(c as int - '0' as int)
    else if 'a' <= c <= 'f' then Some(c as int - 'a' as int + 10)
    else if 'A' <= c <= 'F' then Some(c as int - 'A' as int + 10)
    else None
  }

  lemma DigitValueOfDigit(n: nat, upper: bool)
    requires n < 16
    ensures DigitValue(Digit(n, upper)) == Some(n)
  {
  }

  /** The two digits of one byte. */
  function ByteDigits(b: Byte, upper: bool): (r: string)
    ensures |r| == 2
  {
    [Digit(b / 16, upper), Digit(b % 16, upper)]
  }

  /** The byte written by two hexadecimal digits, if both are digits. */
  function DigitPair(hi: char, lo: char): (r: Option<Byte>)
    ensures r.Some? <==> IsHexDigit(hi) && IsHexDigit(lo)
  {
    match (DigitValue(hi), DigitValue(lo))
    case (Some(h), Some(l)) => Some(h * 16 + l)
    case _ => None
  }

  lemma DigitPairOfByteDigits(b: Byte, upper: bool)
    ensures DigitPair(ByteDigits(b, upper)[0], ByteDigits(b, upper)[1]) == Some(b)
  {
    DigitValueOfDigit(b / 16, upper);
    DigitValueOfDigit(b % 16, upper);
  }

  lemma ByteDigitsOfDigitPair(hi: char, lo: char, b: Byte, upper: bool)
    requires DigitPair(hi, lo) == Some(b)
    ensures ByteDigits(b, upper) == if upper then [ToUpper(hi), ToUpper(lo)] else [ToLower(hi), ToLower(lo)]
  {
    var h, l := DigitValue(hi).value, DigitValue(lo).value;
    assert b / 16 == h && b % 16 == l;
  }

  /** `bs` written as hexadecimal, two digits per byte, in one case. */
  function Encode(bs: seq<Byte>, upper: bool): (r: string)
    ensures |r| == 2 * |bs|
  {
    if |bs| == 0 then "" else ByteDigits(bs[0], upper) + Encode(bs[1..], upper)
  }

  /** Encoding distributes over concatenation, so a byte string can be encoded piece by piece. */
  lemma {:induction false} EncodeAppend(x: seq<Byte>, y: seq<Byte>, upper: bool)
    ensures Encode(x + y, upper) == Encode(x, upper) + Encode(y, upper)
  {
    if |x| > 0 {
      var xy := x + y;
      assert xy[0] == x[0] && xy[1..] == x[1..] + y;
      assert Encode(xy, upper) == ByteDigits(x[0], upper) + Encode(x[1..] + y, upper);
      EncodeAppend(x[1..], y, upper);
    } else {
      assert x + y == y;
    }
  }

  /** The bytes written by `s`; absent when `s` has odd length or a non-digit. */
  function Decode(s: string): (r: Option<seq<Byte>>)
    ensures r.Some? <==> |s| % 2 == 0 && AllHexDigits(s)
    ensures r.Some? ==> |r.value| == |s| / 2
    decreases |s|
  {
    if |s| == 0 then Some([])
    else if |s| == 1 then None
    else
      AllHexDigitsSplit(s);
      var head, tail := DigitPair(s[0], s[1]), Decode(s[2..]);
      if head.Some? && tail.Some? then Some([head.value] + tail.value) else None
  }

  lemma AllHexDigitsSplit(s: string)
    requires |s| >= 2
    ensures AllHexDigits(s) <==> IsHexDigit(s[0]) && IsHexDigit(s[1]) && AllHexDigits(s[2..])
  {
    if IsHexDigit(s[0]) && IsHexDigit(s[1]) && AllHexDigits(s[2..]) {
      forall i | 2 <= i < |s| ensures IsHexDigit(s[i]) {
        assert s[i] == s[2..][i - 2];
      }
    }
  }

  /** Every character of an encoding is a digit of the requested case. */
  lemma {:induction false} EncodeDigits(bs: seq<Byte>, upper: bool)
    ensures forall i :: 0 <= i < |Encode(bs, upper)| ==>
      IsCasedDigit(Encode(bs, upper)[i], upper)
  {
    if |bs| > 0 {
      EncodeDigits(bs[1..], upper);
    }
  }

  /** Decoding inverts encoding, in either case. */
  lemma {:induction false} DecodeEncode(bs: seq<Byte>, upper: bool)
    ensures Decode(Encode(bs, upper)) == Some(bs)
  {
    if |bs| > 0 {
      var s := Encode(bs, upper);
      DigitPairOfByteDigits(bs[0], upper);
      assert s[2..] == Encode(bs[1..], upper);
      DecodeEncode(bs[1..], upper);
      assert [bs[0]] + bs[1..] == bs;
    }
  }

  /** Case mapping of a string acts on its first two characters and the rest separately. */
  lemma CaseStringSplit(s: string)
    requires |s| >= 2
    ensures UpperString(s) == [ToUpper(s[0]), ToUpper(s[1])] + UpperString(s[2..])
    ensures LowerString(s) == [ToLower(s[0]), ToLower(s[1])] + LowerString(s[2..])
  {
    assert UpperString(s) == [ToUpper(s[0]), ToUpper(s[1])] + UpperString(s[2..]) by {
      var r := [ToUpper(s[0]), ToUpper(s[1])] + UpperString(s[2..]);
      forall i | 2 <= i < |s| ensures UpperString(s)[i] == r[i] {
        assert r[i] == UpperString(s[2..])[i - 2];
      }
    }
    assert LowerString(s) == [ToLower(s[0]), ToLower(s[1])] + LowerString(s[2..]) by {
      var r := [ToLower(s[0]), ToLower(s[1])] + LowerString(s[2..]);
      forall i | 2 <= i < |s| ensures LowerString(s)[i] == r[i] {
        assert r[i] == LowerString(s[2..])[i - 2];
      }
    }
  }

  /** Re-encoding decoded text gives the text with its letters in one case. */
  lemma {:induction false} EncodeDecode(s: string, bs: seq<Byte>, upper: bool)
    requires Decode(s) == Some(bs)
    ensures Encode(bs, upper) == if upper then UpperString(s) else LowerString(s)
    decreases |s|
  {
    if |s| > 0 {
      var b := DigitPair(s[0], s[1]).value;
      var rest := Decode(s[2..]).value;
      assert bs == [b] + rest;
      assert bs[0] == b && bs[1..] == rest;
      EncodeDecode(s[2..], rest, upper);
      ByteDigitsOfDigitPair(s[0], s[1], b, upper);
      CaseStringSplit(s);
    }
  }
}
