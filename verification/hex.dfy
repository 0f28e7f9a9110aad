/**
 * The parts of Go's `encoding/hex` that the TBCD codec is built on:
 * `hex.EncodeToString` writes each octet as two lower-case digits, high nibble
 * first; `hex.DecodeString` reads digit pairs in either case.
 */
module Hex {
  import opened Slices

  predicate IsHexChar(c: char) {
    ('0' <= c <= '9') || ('a' <= c <= 'f') || ('A' <= c <= 'F')
  }

  predicate IsLowerHexChar(c: char) {
    ('0' <= c <= '9') || ('a' <= c <= 'f')
  }

  predicate AllHex(s: string) {
    forall i :: 0 <= i < |s| ==> IsHexChar(s[i])
  }

  predicate AllLowerHex(s: string) {
    forall i :: 0 <= i < |s| ==> IsLowerHexChar(s[i])
  }

  /** The lower-case digit for a nibble. */
  function HexDigit(n: byte): (c: char)
    requires n < 16
    ensures IsLowerHexChar(c)
  {
    "0123456789abcdef"[n as int]
  }

  /** The nibble a digit of either case stands for. */
  function HexValue(c: char): (v: byte)
    requires IsHexChar(c)
    ensures v < 16
  {
    match c
    case '0' => 0x0
    case '1' => 0x1
    case '2' => 0x2
    case '3' => 0x3
    case '4' => 0x4
    case '5' => 0x5
    case '6' => 0x6
    case '7' => 0x7
    case '8' => 0x8
    case '9' => 0x9
    case 'a' => 0xA
    case 'b' => 0xB
    case 'c' => 0xC
    case 'd' => 0xD
    case 'e' => 0xE
    case 'f' => 0xF
    case 'A' => 0xA
    case 'B' => 0xB
    case 'C' => 0xC
    case 'D' => 0xD
    case 'E' => 0xE
    case 'F' => 0xF
  }

  /** A hex digit in lower case. */
  function LowerChar(c: char): char {
    match c
    case 'A' => 'a'
    case 'B' => 'b'
    case 'C' => 'c'
    case 'D' => 'd'
    case 'E' => 'e'
    case 'F' => 'f'
    case _ => c
  }

  function Lower(s: string): (r: string)
    ensures |r| == |s|
    ensures forall i :: 0 <= i < |s| ==> r[i] == LowerChar(s[i])
  {
    if s == [] then [] else [LowerChar(s[0])] + Lower(s[1..])
  }

  lemma DigitOfValue(c: char)
    requires IsHexChar(c)
    ensures HexDigit(HexValue(c)) == LowerChar(c)
  {
  }

  lemma ValueOfDigit(n: byte)
    requires n < 16
    ensures HexValue(HexDigit(n)) == n
  {
  }

  /** Bits 8-5 of an octet; with `LowNibble` it determines the octet (`SameNibbles`, `PairValue`). */
  function HighNibble(b: byte): (n: byte)
    ensures n < 16
  {
    b >> 4
  }

  /** Bits 4-1 of an octet; see `HighNibble`. */
  function LowNibble(b: byte): (n: byte)
    ensures n < 16
  {
    b & 0x0F
  }

  /** An octet is determined by its two nibbles. */
  lemma SameNibbles(x: byte, y: byte)
    requires HighNibble(x) == HighNibble(y) && LowNibble(x) == LowNibble(y)
    ensures x == y
  {
  }

  /** The octet a pair of digits spells, high nibble first. */
  function PairValue(hi: char, lo: char): (b: byte)
    requires IsHexChar(hi) && IsHexChar(lo)
    ensures HighNibble(b) == HexValue(hi) && LowNibble(b) == HexValue(lo)
  {
    (HexValue(hi) << 4) | HexValue(lo)
  }

  /** `hex.EncodeToString(b)` */
  function EncodeToString(b: seq<byte>): (s: string)
    ensures |s| == 2 * |b|
    ensures AllLowerHex(s)
    ensures forall k :: 0 <= k < |b| ==> s[2 * k] == HexDigit(HighNibble(b[k])) && s[2 * k + 1] == HexDigit(LowNibble(b[k]))
  {
    if b == [] then "" else
      var rest := EncodeToString(b[1..]);
      assert forall k :: 1 <= k < |b| ==> b[k] == b[1..][k - 1] && 2 * k == 2 * (k - 1) + 2;
      [HexDigit(HighNibble(b[0])), HexDigit(LowNibble(b[0]))] + rest
  }

  /** `hex.DecodeString(s)` on an input it accepts: an even number of hex digits. */
  function DecodeString(s: string): (b: seq<byte>)
    requires |s| % 2 == 0 && AllHex(s)
    ensures |b| == |s| / 2
    ensures forall k :: 0 <= k < |b| ==> b[k] == PairValue(s[2 * k], s[2 * k + 1])
  {
    seq(|s| / 2, k requires 0 <= k < |s| / 2 => PairValue(s[2 * k], s[2 * k + 1]))
  }

  /** A lower-case digit is determined by its value. */
  lemma SameValueDigit(lower: char, c: char)
    requires IsLowerHexChar(lower) && IsHexChar(c)
    requires HexValue(lower) == HexValue(c)
    ensures lower == LowerChar(c)
  {
    DigitOfValue(lower);
    DigitOfValue(c);
  }

  /** 'f' is the digit of the nibble 1111 and of no other. */
  lemma FillerDigit(n: byte)
    requires n < 16
    ensures HexDigit(n) == 'f' <==> n == 0x0F
  {
  }

  /** Only 'f' and 'F' stand for the nibble 1111. */
  lemma FillerValue(c: char)
    requires IsHexChar(c)
    ensures HexValue(c) == 0x0F <==> LowerChar(c) == 'f'
  {
  }
}
