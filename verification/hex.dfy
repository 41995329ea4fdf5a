/**
 * `buffer.toString("hex")`: two lower-case hexadecimal digits per byte,
 * most significant nibble first, and a strict decoder as its partner.
 */
module Hex {
  import opened Prelude

  predicate IsLowerHexDigit(c: char) {
    ('0' <= c <= '9') || ('a' <= c <= 'f')
  }

  function DigitChar(d: nat): (c: char)
    requires d < 16
    ensures IsLowerHexDigit(c)
  {
    if d < 10 then ('0' as int + d) as char else ('a' as int + d - 10) as char
  }

  function DigitValue(c: char): (d: nat)
    requires IsLowerHexDigit(c)
    ensures d < 16
  {
    if c <= '9' then c as int - '0' as int else c as int - 'a' as int + 10
  }

  lemma DigitRoundTrip(d: nat)
    requires d < 16
    ensures DigitValue(DigitChar(d)) == d
  {
  }

  lemma ValueRoundTrip(c: char)
    requires IsLowerHexDigit(c)
    ensures DigitChar(DigitValue(c)) == c
  {
  }

  /** Hexadecimal rendering of a byte buffer. */
  function ToHex(bytes: seq<byte>): (h: string)
    ensures |h| == 2 * |bytes|
    ensures forall k :: 0 <= k < |h| ==> IsLowerHexDigit(h[k])
  {
    if |bytes| == 0 then ""
    else [DigitChar(bytes[0] as nat / 16), DigitChar(bytes[0] as nat % 16)] + ToHex(bytes[1..])
  }

  /** Reads pairs of lower-case digits back into bytes; anything else is rejected. */
  function FromHex(h: string): (r: Option<seq<byte>>)
    ensures r.Some? ==> 2 * |r.value| == |h|
    decreases |h|
  {
    if |h| == 0 then Some([])
    else if |h| == 1 || !IsLowerHexDigit(h[0]) || !IsLowerHexDigit(h[1]) then None
    else
      match FromHex(h[2..])
      case None => None
      case Some(rest) => Some([(DigitValue(h[0]) * 16 + DigitValue(h[1])) as byte] + rest)
  }

  /** Decoding the rendering of a buffer gives the buffer back. */
  lemma {:induction false} FromToHex(bytes: seq<byte>)
    ensures FromHex(ToHex(bytes)) == Some(bytes)
    decreases |bytes|
  {
    if |bytes| > 0 {
      var b := bytes[0] as nat;
      var h := ToHex(bytes);
      assert h[2..] == ToHex(bytes[1..]);
      DigitRoundTrip(b / 16);
      DigitRoundTrip(b % 16);
      FromToHex(bytes[1..]);
      assert [bytes[0]] + bytes[1..] == bytes;
    }
  }

  /** Every accepted string is the rendering of what it decodes to. */
  lemma {:induction false} ToFromHex(h: string)
    requires FromHex(h).Some?
    ensures ToHex(FromHex(h).value) == h
    decreases |h|
  {
    if |h| > 0 {
      var hi := DigitValue(h[0]);
      var lo := DigitValue(h[1]);
      var b := hi * 16 + lo;
      assert b / 16 == hi && b % 16 == lo;
      ValueRoundTrip(h[0]);
      ValueRoundTrip(h[1]);
      ToFromHex(h[2..]);
      assert h == [h[0], h[1]] + h[2..];
    }
  }
}
