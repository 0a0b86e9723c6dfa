/**
 * Lowercase hexadecimal rendering of byte strings, as done by
 * `b.toString(16).padStart(2, "0")` joined over a byte array. Session tokens
 * and password digests are both rendered this way.
 */
module Hex {
  import opened Wrappers

  type byte = x: int | 0 <= x < 256

  /** The 32 bytes of a SHA-256 digest or of one call to the random source. */
  type Bytes32 = s: seq<byte> | |s| == 32 witness seq(32, i => 0)

  predicate IsLowerHexChar(c: char) {
    '0' <= c <= '9' || 'a' <= c <= 'f'
  }

  predicate IsLowerHex(s: string) {
    forall i :: 0 <= i < |s| ==> IsLowerHexChar(s[i])
  }

  /** The value of one lowercase hex digit. */
  function DigitValue(c: char): (d: nat)
    requires IsLowerHexChar(c)
    ensures d < 16
  {
    if c <= '9' then c as int - '0' as int else c as int - 'a' as int + 10
  }

  /** The lowercase hex digit of `d`. */
  function Digit(d: nat): (c: char)
    requires d < 16
    ensures IsLowerHexChar(c)
    ensures DigitValue(c) == d
  {
    if d < 10 then ('0' as int + d) as char else ('a' as int + d - 10) as char
  }

  /** The number a string of hex digits denotes, most significant digit first. */
  function ValueOf(s: string): nat
    requires IsLowerHex(s)
  {
    if s == [] then 0 else ValueOf(s[..|s| - 1]) * 16 + DigitValue(s[|s| - 1])
  }

  /** `n.toString(16)` for a non-negative integer: shortest digit string. */
  function ToString16(n: nat): (s: string)
    ensures 1 <= |s|
    ensures IsLowerHex(s)
    ensures ValueOf(s) == n
    ensures |s| > 1 ==> s[0] != '0'
    ensures n < 256 ==> |s| <= 2
  {
    if n < 16 then [Digit(n)]
    else
      var hi := ToString16(n / 16);
      var s := hi + [Digit(n % 16)];
      assert s[..|s| - 1] == hi;
      s
  }

  /** `s.padStart(len, [c])`: left-fill with `c` up to length `len`. */
  function PadStart(s: string, len: nat, c: char): (r: string)
    ensures |r| == if |s| >= len then |s| else len
    ensures r[|r| - |s|..] == s
    ensures forall i :: 0 <= i < |r| - |s| ==> r[i] == c
  {
    if |s| >= len then s else seq(len - |s|, i => c) + s
  }

  /** One byte as exactly two lowercase hex digits, high nibble first. */
  function ByteToHex(b: byte): (s: string)
    ensures |s| == 2
    ensures s == [Digit(b / 16), Digit(b % 16)]
  {
    var digits := ToString16(b);
    assert b >= 16 ==> ToString16(b / 16) == [Digit(b / 16)];
    PadStart(digits, 2, '0')
  }

  /** A byte string rendered as lowercase hex, two characters per byte. */
  function BytesToHex(bs: seq<byte>): (s: string)
    ensures |s| == 2 * |bs|
    ensures IsLowerHex(s)
  {
    if bs == [] then [] else ByteToHex(bs[0]) + BytesToHex(bs[1..])
  }

  /** Reading hex text back into bytes; `None` for odd length or a non-hex character. */
  function HexToBytes(s: string): (r: Option<seq<byte>>)
    ensures r.Some? ==> 2 * |r.value| == |s|
  {
    if s == [] then Some([])
    else if |s| == 1 || !IsLowerHexChar(s[0]) || !IsLowerHexChar(s[1]) then None
    else match HexToBytes(s[2..])
      case None => None
      case Some(rest) => Some([DigitValue(s[0]) * 16 + DigitValue(s[1])] + rest)
  }

  /** The rendering loses nothing: reading it back gives the bytes that were rendered. */
  lemma {:induction false} HexRoundTrip(bs: seq<byte>)
    ensures HexToBytes(BytesToHex(bs)) == Some(bs)
  {
    if bs != [] {
      var head := ByteToHex(bs[0]);
      var tail := BytesToHex(bs[1..]);
      var s := head + tail;
      assert BytesToHex(bs) == s;
      assert s[0] == head[0] && s[1] == head[1] && s[2..] == tail;
      HexRoundTrip(bs[1..]);
      assert DigitValue(s[0]) * 16 + DigitValue(s[1]) == bs[0];
      assert HexToBytes(s) == Some([bs[0]] + bs[1..]);
      assert [bs[0]] + bs[1..] == bs;
    }
  }

  /** Distinct byte strings never render to the same text. */
  lemma HexInjective(a: seq<byte>, b: seq<byte>)
    ensures BytesToHex(a) == BytesToHex(b) ==> a == b
  {
    HexRoundTrip(a);
    HexRoundTrip(b);
  }
}
