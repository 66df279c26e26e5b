/**
 * Go's encoding/hex as the parser uses it: DecodeString for tags and
 * covenant keys, EncodeToString for the lower-case rendering the tests
 * compare against. encoding/hex itself is not part of this model; its
 * behaviour is stated here from its documentation: a string decodes when
 * it has even length and every character is a hexadecimal digit of either
 * case.
 */
module Hex {
  import opened Wrappers
  import opened GoInts

  predicate IsHexChar(c: char) {
    ('0' <= c <= '9') || ('a' <= c <= 'f') || ('A' <= c <= 'F')
  }

  predicate IsLowerHexChar(c: char) {
    ('0' <= c <= '9') || ('a' <= c <= 'f')
  }

  function HexValue(c: char): (v: nat)
    requires IsHexChar(c)
    ensures v < 16
  {
    if '0' <= c <= '9' then c as int - '0' as int
    else if 'a' <= c <= 'f' then c as int - 'a' as int + 10
    else c as int - 'A' as int + 10
  }

  /** The lower-case digit for a nibble, as EncodeToString writes it. */
  function HexDigit(d: nat): (c: char)
    requires d < 16
    ensures IsLowerHexChar(c) && HexValue(c) == d
  {
    if d < 10 then ('0' as int + d) as char else ('a' as int + d - 10) as char
  }

  /** hex.DecodeString: None stands for its InvalidByteError and ErrLength. */
  function DecodeString(s: string): (r: Option<seq<Byte>>)
    ensures r.Some? <==> |s| % 2 == 0 && forall i :: 0 <= i < |s| ==> IsHexChar(s[i])
    ensures r.Some? ==> |r.value| == |s| / 2
    decreases |s|
  {
    if |s| == 0 then Some([])
    else if |s| == 1 || !IsHexChar(s[0]) || !IsHexChar(s[1]) then None
    else
      match DecodeString(s[2..])
      case None => None
      case Some(rest) =>
        assert forall i :: 2 <= i < |s| ==> s[i] == s[2..][i - 2];
        Some([16 * HexValue(s[0]) + HexValue(s[1])] + rest)
  }

  /** hex.EncodeToString: two lower-case digits per byte, high nibble first. */
  function EncodeToString(b: seq<Byte>): (s: string)
    ensures |s| == 2 * |b|
    ensures forall i :: 0 <= i < |s| ==> IsLowerHexChar(s[i])
  {
    if |b| == 0 then "" else [HexDigit(b[0] / 16), HexDigit(b[0] % 16)] + EncodeToString(b[1..])
  }

  /** Decoding what was encoded gives the bytes back. */
  lemma {:induction false} DecodeEncode(b: seq<Byte>)
    ensures DecodeString(EncodeToString(b)) == Some(b)
  {
    if |b| > 0 {
      var s := EncodeToString(b);
      assert s[2..] == EncodeToString(b[1..]);
      DecodeEncode(b[1..]);
      assert b == [b[0]] + b[1..];
    }
  }

  /** A lower-case hex string is the encoding of what it decodes to (the tag round trip). */
  lemma {:induction false} EncodeDecode(s: string)
    requires |s| % 2 == 0 && forall i :: 0 <= i < |s| ==> IsLowerHexChar(s[i])
    ensures DecodeString(s).Some? && EncodeToString(DecodeString(s).value) == s
  {
    if |s| > 0 {
      EncodeDecode(s[2..]);
      var b := DecodeString(s).value;
      assert b[1..] == DecodeString(s[2..]).value;
      assert HexDigit(b[0] / 16) == s[0];
      assert HexDigit(b[0] % 16) == s[1];
      assert s == [s[0], s[1]] + s[2..];
    }
  }
}
