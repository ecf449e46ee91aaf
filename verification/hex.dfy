/** Hexadecimal text and bytes as Node.js handles them: `digest("hex")`
    writes lower-case digit pairs; `Buffer.from(s, "hex")` reads digit pairs
    of either case from the start and silently stops at the first pair that
    is not two hex digits, so it never throws. */
module Hex {

  type Byte = x: int | 0 <= x < 256

  predicate IsHexDigit(c: char) {
    '0' <= c <= '9' || 'a' <= c <= 'f' || 'A' <= c <= 'F'
  }

  function DigitValue(c: char): (v: int)
    requires IsHexDigit(c)
    ensures 0 <= v < 16
  {
    if '0' <= c <= '9' then c as int - '0' as int
    else if 'a' <= c <= 'f' then c as int - 'a' as int + 10
    else c as int - 'A' as int + 10
  }

  /** The lower-case digit for a nibble. */
  function Digit(v: int): (c: char)
    requires 0 <= v < 16
    ensures IsHexDigit(c) && DigitValue(c) == v
    ensures !('A' <= c <= 'F')
  {
    if v < 10 then ('0' as int + v) as char else ('a' as int + v - 10) as char
  }

  /** `digest("hex")`: two lower-case digits per byte, high nibble first. */
  function Encode(bytes: seq<Byte>): (s: string)
    ensures |s| == 2 * |bytes|
    ensures forall i :: 0 <= i < |s| ==> IsHexDigit(s[i]) && !('A' <= s[i] <= 'F')
  {
    if |bytes| == 0 then ""
    else [Digit(bytes[0] / 16), Digit(bytes[0] % 16)] + Encode(bytes[1..])
  }

  /** `Buffer.from(s, "hex")`: digit pairs from the start, up to the first
      pair that is not two digits (or a lone final character). */
  function Decode(s: string): (bytes: seq<Byte>)
    ensures |bytes| <= |s| / 2
    ensures |s| >= 2 && IsHexDigit(s[0]) && IsHexDigit(s[1]) <==> |bytes| > 0
  {
    if |s| >= 2 && IsHexDigit(s[0]) && IsHexDigit(s[1]) then
      [DigitValue(s[0]) * 16 + DigitValue(s[1])] + Decode(s[2..])
    else []
  }

  /** The value a digit pair at offset `k` denotes. */
  predicate PairAt(s: string, k: int, b: int) {
    0 <= k && k + 1 < |s| && IsHexDigit(s[k]) && IsHexDigit(s[k + 1]) &&
    b == DigitValue(s[k]) * 16 + DigitValue(s[k + 1])
  }

  /** Byte `i` of an encoding is written as the digit pair at offset `2 * i`. */
  lemma {:induction false} EncodePairs(bytes: seq<Byte>)
    ensures forall i :: 0 <= i < |bytes| ==> PairAt(Encode(bytes), 2 * i, bytes[i])
  {
    if |bytes| > 0 {
      EncodePairs(bytes[1..]);
      var s := Encode(bytes);
      var tail := Encode(bytes[1..]);
      assert s == [Digit(bytes[0] / 16), Digit(bytes[0] % 16)] + tail;
      forall i | 0 <= i < |bytes| ensures PairAt(s, 2 * i, bytes[i]) {
        if i > 0 {
          assert PairAt(tail, 2 * (i - 1), bytes[1..][i - 1]);
          assert s[2 * i] == tail[2 * (i - 1)] && s[2 * i + 1] == tail[2 * (i - 1) + 1];
        }
      }
    }
  }

  /** Byte `i` of a decoding is read from the digit pair at offset `2 * i`, and
      the text right after the last pair read is not a digit pair. */
  lemma DecodePairs(s: string)
    ensures forall i :: 0 <= i < |Decode(s)| ==> PairAt(s, 2 * i, Decode(s)[i])
    ensures var k := 2 * |Decode(s)|; !(k + 1 < |s| && IsHexDigit(s[k]) && IsHexDigit(s[k + 1]))
  {
    DecodeReadsPairs(s);
    DecodeStops(s);
  }

  lemma {:induction false} DecodeReadsPairs(s: string)
    ensures forall i :: 0 <= i < |Decode(s)| ==> PairAt(s, 2 * i, Decode(s)[i])
    decreases |s|
  {
    if |s| >= 2 && IsHexDigit(s[0]) && IsHexDigit(s[1]) {
      var tail := s[2..];
      DecodeReadsPairs(tail);
      var bytes := Decode(s);
      assert bytes == [DigitValue(s[0]) * 16 + DigitValue(s[1])] + Decode(tail);
      forall i | 0 <= i < |bytes| ensures PairAt(s, 2 * i, bytes[i]) {
        if i > 0 {
          assert bytes[i] == Decode(tail)[i - 1];
          PairShift(s, 2 * (i - 1), bytes[i]);
        }
      }
    }
  }

  lemma {:induction false} DecodeStops(s: string)
    ensures var k := 2 * |Decode(s)|; !(k + 1 < |s| && IsHexDigit(s[k]) && IsHexDigit(s[k + 1]))
    decreases |s|
  {
    if |s| >= 2 && IsHexDigit(s[0]) && IsHexDigit(s[1]) {
      var tail := s[2..];
      DecodeStops(tail);
      var k := 2 * |Decode(s)|;
      assert k == 2 * |Decode(tail)| + 2;
      if k + 1 < |s| {
        assert s[k] == tail[k - 2] && s[k + 1] == tail[k - 1];
      }
    }
  }

  /** A digit pair after the first two characters is the same pair, two
      places further on. */
  lemma PairShift(s: string, k: int, b: int)
    requires |s| >= 2 && PairAt(s[2..], k, b)
    ensures PairAt(s, k + 2, b)
  {
    assert s[k + 2] == s[2..][k] && s[k + 3] == s[2..][k + 1];
  }

  /** Decoding an encoding continues into whatever text follows it. */
  lemma {:induction false} DecodeEncodePrefix(bytes: seq<Byte>, rest: string)
    ensures Decode(Encode(bytes) + rest) == bytes + Decode(rest)
  {
    if |bytes| > 0 {
      var b := bytes[0];
      var s := Encode(bytes) + rest;
      assert s == [Digit(b / 16), Digit(b % 16)] + (Encode(bytes[1..]) + rest);
      assert s[2..] == Encode(bytes[1..]) + rest;
      assert DigitValue(s[0]) * 16 + DigitValue(s[1]) == b;
      DecodeEncodePrefix(bytes[1..], rest);
      assert Decode(s) == [b] + (bytes[1..] + Decode(rest));
      assert bytes == [b] + bytes[1..];
      assert [b] + (bytes[1..] + Decode(rest)) == bytes + Decode(rest);
    } else {
      assert Encode(bytes) + rest == rest;
    }
  }

  /** Decoding inverts encoding. */
  lemma DecodeEncode(bytes: seq<Byte>)
    ensures Decode(Encode(bytes)) == bytes
  {
    DecodeEncodePrefix(bytes, "");
    assert Encode(bytes) + "" == Encode(bytes);
  }

  /** Text after a valid encoding that does not start with a digit pair is
      ignored: the decoder truncates instead of failing. */
  lemma DecodeIgnoresTrailingText(bytes: seq<Byte>, rest: string)
    requires |rest| > 0 && !IsHexDigit(rest[0])
    ensures Decode(Encode(bytes) + rest) == bytes
  {
    DecodeEncodePrefix(bytes, rest);
  }
}
