/**
 * The hexadecimal codec of Node's Buffer as the crypto tool uses it.
 *
 * Encoding (`buf.toString('hex')`) is base16 of section 8 of RFC 4648
 * written with lower-case digits, two digits per byte, high nibble first.
 * Decoding (`Buffer.from(s, 'hex')`) never fails: it reads pairs of digits
 * (either case) from the front and stops at the first pair holding a
 * character that is not a hexadecimal digit, or at a single trailing
 * character.
 */
module Hex {

  type Byte = b: int | 0 <= b < 256

  predicate IsHexDigit(c: char) {
    '0' <= c <= '9' || 'a' <= c <= 'f' || 'A' <= c <= 'F'
  }

  predicate IsLowerHexDigit(c: char) {
    '0' <= c <= '9' || 'a' <= c <= 'f'
  }

  /** Every character of `s` is a lower-case hexadecimal digit. */
  predicate IsLowerHex(s: string) {
    forall i :: 0 <= i < |s| ==> IsLowerHexDigit(s[i])
  }

  /** The value of one hexadecimal digit. */
  function DigitValue(c: char): (n: nat)
    requires IsHexDigit(c)
    ensures n < 16
  {
    if c <= '9' then c as int - '0' as int
    else if c <= 'F' then c as int - 'A' as int + 10
    else c as int - 'a' as int + 10
  }

  /** The lower-case digit of a nibble. */
  function DigitChar(n: nat): (c: char)
    requires n < 16
    ensures IsLowerHexDigit(c) && IsHexDigit(c)
    ensures DigitValue(c) == n
  {
    if n < 10 then ('0' as int + n) as char else ('a' as int + n - 10) as char
  }

  /** `buf.toString('hex')`. */
  function Encode(b: seq<Byte>): (s: string)
    ensures |s| == 2 * |b|
  {
    if b == [] then []
    else [DigitChar(b[0] / 16), DigitChar(b[0] % 16)] + Encode(b[1..])
  }

  /** An encoding is written in lower-case digits only. */
  lemma {:induction false} EncodeLowerHex(b: seq<Byte>)
    ensures IsLowerHex(Encode(b))
  {
    if b != [] {
      EncodeLowerHex(b[1..]);
      var s := Encode(b);
      forall i | 2 <= i < |s| ensures IsLowerHexDigit(s[i]) {
        assert s[i] == Encode(b[1..])[i - 2];
      }
    }
  }

  /** `Buffer.from(s, 'hex')`, with its silent truncation. */
  function Decode(s: string): (b: seq<Byte>)
    ensures 2 * |b| <= |s|
  {
    if |s| < 2 || !IsHexDigit(s[0]) || !IsHexDigit(s[1]) then []
    else [DigitValue(s[0]) * 16 + DigitValue(s[1])] + Decode(s[2..])
  }

  /** Decoding reads back exactly the bytes an encoding holds, then goes on
      with whatever follows it. */
  lemma {:induction false} DecodeAfterEncode(b: seq<Byte>, rest: string)
    ensures Decode(Encode(b) + rest) == b + Decode(rest)
  {
    if b == [] {
      assert Encode(b) + rest == rest;
    } else {
      var x := b[0];
      var tail := Encode(b[1..]) + rest;
      assert Encode(b) + rest == [DigitChar(x / 16), DigitChar(x % 16)] + tail;
      DecodeByte(x, tail);
      DecodeAfterEncode(b[1..], rest);
      ConsAppend(b, Decode(rest));
    }
  }

  lemma ConsAppend<T>(b: seq<T>, d: seq<T>)
    requires b != []
    ensures b + d == [b[0]] + (b[1..] + d)
  {
    assert b == [b[0]] + b[1..];
  }

  /** Decoding a string that starts with the two digits of a byte. */
  lemma DecodeByte(x: Byte, t: string)
    ensures Decode([DigitChar(x / 16), DigitChar(x % 16)] + t) == [x] + Decode(t)
  {
    var hi, lo := DigitChar(x / 16), DigitChar(x % 16);
    assert ([hi, lo] + t)[2..] == t;
    assert DigitValue(hi) * 16 + DigitValue(lo) == x;
  }

  /** Round trip: decoding an encoding gives back the bytes. */
  lemma DecodeEncode(b: seq<Byte>)
    ensures Decode(Encode(b)) == b
  {
    DecodeAfterEncode(b, []);
    assert Encode(b) + [] == Encode(b);
  }

  /** Decoding stops at the end of an encoding when what follows does not
      begin with two hexadecimal digits: the rest is silently dropped. */
  lemma DecodeTruncates(b: seq<Byte>, rest: string)
    requires |rest| < 2 || !IsHexDigit(rest[0]) || !IsHexDigit(rest[1])
    ensures Decode(Encode(b) + rest) == b
  {
    DecodeAfterEncode(b, rest);
  }

  /** Round trip the other way: a string of lower-case digits of even length
      decodes in full and encodes back to itself. */
  lemma {:induction false} EncodeDecode(s: string)
    requires IsLowerHex(s) && |s| % 2 == 0
    ensures 2 * |Decode(s)| == |s|
    ensures Encode(Decode(s)) == s
  {
    if s != [] {
      assert IsLowerHexDigit(s[0]) && IsLowerHexDigit(s[1]);
      assert IsLowerHex(s[2..]) by {
        forall i | 0 <= i < |s| - 2 ensures IsLowerHexDigit(s[2..][i]) {
          assert s[2..][i] == s[i + 2];
        }
      }
      EncodeDecode(s[2..]);
      var hi, lo := DigitValue(s[0]), DigitValue(s[1]);
      var v := hi * 16 + lo;
      assert v / 16 == hi && v % 16 == lo;
      LowerDigitRoundTrip(s[0]);
      LowerDigitRoundTrip(s[1]);
      assert s == [s[0], s[1]] + s[2..];
    }
  }

  lemma LowerDigitRoundTrip(c: char)
    requires IsLowerHexDigit(c)
    ensures DigitChar(DigitValue(c)) == c
  {
  }
}
