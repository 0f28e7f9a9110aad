/**
 * The hand-written octet codecs of `utils/utils.go`: TBCD digit strings
 * (TBCD-STRING, section 17.7.8 of 3GPP TS 29.002: digit n in bits 4-1 and digit n+1
 * in bits 8-5 of each octet, an odd count completed with the filler 1111) and the
 * GSN-Address octets (a type/length header followed by the IPv4 or IPv6 address).
 */
module Utils {
  import opened Wrappers
  import opened Slices
  import opened Hex

  // ---------------------------------------------------------------------------
  // Nibble swap
  // ---------------------------------------------------------------------------

  /** One octet with its high and low nibbles exchanged. */
  function SwapNibble(b: byte): (r: byte)
    ensures HighNibble(r) == LowNibble(b) && LowNibble(r) == HighNibble(b)
  {
    ((b & 0x0F) << 4) | ((b & 0xF0) >> 4)
  }

  /** Every octet of `data` nibble-swapped, in place order. */
  function NibbleSwapped(data: seq<byte>): (r: seq<byte>)
    ensures |r| == |data|
  {
    seq(|data|, i requires 0 <= i < |data| => SwapNibble(data[i]))
  }

  /** `swapNibbles`: fills a freshly made slice octet by octet. */
  method SwapNibbles(data: seq<byte>) returns (swapped: seq<byte>)
    ensures |swapped| == |data|
    ensures forall i :: 0 <= i < |data| ==> HighNibble(swapped[i]) == LowNibble(data[i]) && LowNibble(swapped[i]) == HighNibble(data[i])
    ensures swapped == NibbleSwapped(data)
  {
    var a := new byte[|data|];
    for i := 0 to |data|
      invariant forall j :: 0 <= j < i ==> a[j] == SwapNibble(data[j])
    {
      a[i] := ((data[i] & 0x0F) << 4) | ((data[i] & 0xF0) >> 4);
    }
    swapped := a[..];
  }

  /** Swapping twice gives the octets back. */
  lemma SwapNibblesInvolution(data: seq<byte>)
    ensures NibbleSwapped(NibbleSwapped(data)) == data
  {
    var twice := NibbleSwapped(NibbleSwapped(data));
    forall i | 0 <= i < |data|
      ensures twice[i] == data[i]
    {
      SameNibbles(twice[i], data[i]);
    }
  }

  // ---------------------------------------------------------------------------
  // TBCD encoding
  // ---------------------------------------------------------------------------

  datatype TbcdError =
    | InvalidCharacter(c: char)   // EncodeTBCDDigits: a character outside 0-9a-fA-F
    | NilInput                    // DecodeTBCDDigits: the slice is nil

  /**
   * The digit string with the filler 'f' appended when its length is odd; what this
   * does to the octets is the last clause of `PackDigits`' contract.
   */
  function Padded(s: string): (p: string)
    ensures |p| % 2 == 0
  {
    if |s| % 2 == 0 then s else s + "f"
  }

  /**
   * The TBCD octets of a hex digit string: the octets `hex.DecodeString` reads from
   * the padded string, nibble-swapped. The ensures are the TBCD-STRING layout.
   */
  function PackDigits(s: string): (r: seq<byte>)
    requires AllHex(s)
    ensures |r| == (|s| + 1) / 2
    ensures forall i :: 0 <= i < |r| ==> LowNibble(r[i]) == HexValue(s[2 * i])
    ensures forall i :: 0 <= i < |r| ==> HighNibble(r[i]) == if 2 * i + 1 < |s| then HexValue(s[2 * i + 1]) else 0x0F
  {
    var p := Padded(s);
    assert forall k :: 0 <= k < |p| ==> IsHexChar(p[k]);
    NibbleSwapped(DecodeString(p))
  }

  /** The octet component of `EncodeTBCDDigits(s)`: the packed digits, or nil on error. */
  function TbcdBytes(s: string): (r: Bytes)
    ensures r.Buf? <==> AllHex(s)
    ensures AllHex(s) ==> r == Buf(PackDigits(s))
  {
    if AllHex(s) then Buf(PackDigits(s)) else Nil
  }

  /**
   * `EncodeTBCDDigits`: validates the characters in order, stopping at the first
   * one that is not a hex digit, then pads, hex-decodes and swaps nibbles.
   */
  method EncodeTBCDDigits(s: string) returns (r: Bytes, err: Option<TbcdError>)
    ensures err.None? <==> AllHex(s)
    ensures err.None? ==> r == Buf(PackDigits(s))
    ensures err.Some? ==> r == Nil && exists i :: 0 <= i < |s| && err == Some(InvalidCharacter(s[i])) && !IsHexChar(s[i]) && AllHex(s[..i])
  {
    var i := 0;
    while i < |s|
      invariant 0 <= i <= |s|
      invariant AllHex(s[..i])
    {
      if !IsHexChar(s[i]) {
        return Nil, Some(InvalidCharacter(s[i]));
      }
      i := i + 1;
    }
    assert s[..i] == s;
    var hexString := if |s| % 2 == 0 then s else s + "f";
    assert forall k :: 0 <= k < |hexString| ==> IsHexChar(hexString[k]);
    var raw := DecodeString(hexString);
    var swapped := SwapNibbles(raw);
    return Buf(swapped), None;
  }

  // ---------------------------------------------------------------------------
  // TBCD decoding
  // ---------------------------------------------------------------------------

  /** Whether the last octet's high nibble is the filler 1111. */
  predicate EndsWithFiller(b: seq<byte>) {
    |b| > 0 && HighNibble(b[|b| - 1]) == 0x0F
  }

  /**
   * `DecodeTBCDDigits`: nil is the only error; otherwise the digits are read low
   * nibble first and one trailing 'f' (the filler) is dropped.
   */
  function DecodeTBCDDigits(raw: Bytes): (r: Result<string, TbcdError>)
    ensures r.Failure? <==> raw.Nil?
    ensures r.Failure? ==> r.error == NilInput
    ensures r.Success? ==> AllLowerHex(r.value)
    ensures r.Success? ==> CanonicalDigits(r.value)
    ensures r.Success? ==> |r.value| == 2 * |raw.data| - (if EndsWithFiller(raw.data) then 1 else 0)
    ensures r.Success? ==> forall k :: 0 <= k < |raw.data| ==>
              HexValue(r.value[2 * k]) == LowNibble(raw.data[k]) &&
              (2 * k + 1 < |r.value| ==> HexValue(r.value[2 * k + 1]) == HighNibble(raw.data[k]))
  {
    match raw
    case Nil => Failure(NilInput)
    case Buf(b) =>
      var swapped := NibbleSwapped(b);
      var s := EncodeToString(swapped);
      DecodedDigits(b, s);
      if |s| > 0 && (s[|s| - 1] == 'f' || s[|s| - 1] == 'F') then Success(s[..|s| - 1]) else Success(s)
  }

  /** What `hex.EncodeToString(swapNibbles(b))` spells, digit by digit. */
  lemma DecodedDigits(b: seq<byte>, s: string)
    requires s == EncodeToString(NibbleSwapped(b))
    ensures |s| == 2 * |b|
    ensures forall k :: 0 <= k < |b| ==> HexValue(s[2 * k]) == LowNibble(b[k]) && HexValue(s[2 * k + 1]) == HighNibble(b[k])
    ensures |b| > 0 ==> (s[|s| - 1] == 'f' <==> EndsWithFiller(b))
  {
    forall k | 0 <= k < |b|
      ensures HexValue(s[2 * k]) == LowNibble(b[k]) && HexValue(s[2 * k + 1]) == HighNibble(b[k])
    {
      DecodedOctet(b, s, k);
    }
    if |b| > 0 {
      var k := |b| - 1;
      DecodedOctet(b, s, k);
      assert s[|s| - 1] == s[2 * k + 1];
      DecodedFiller(b, s);
    }
  }

  /** The last digit is 'f' exactly when the last octet carries the filler. */
  lemma DecodedFiller(b: seq<byte>, s: string)
    requires |b| > 0 && |s| == 2 * |b|
    requires s[|s| - 1] == HexDigit(HighNibble(b[|b| - 1]))
    ensures s[|s| - 1] == 'f' <==> EndsWithFiller(b)
  {
    FillerDigit(HighNibble(b[|b| - 1]));
  }

  /** The two digits that octet `k` of `b` decodes to. */
  lemma DecodedOctet(b: seq<byte>, s: string, k: nat)
    requires s == EncodeToString(NibbleSwapped(b))
    requires k < |b|
    ensures s[2 * k] == HexDigit(LowNibble(b[k])) && s[2 * k + 1] == HexDigit(HighNibble(b[k]))
    ensures HexValue(s[2 * k]) == LowNibble(b[k]) && HexValue(s[2 * k + 1]) == HighNibble(b[k])
  {
    var w := NibbleSwapped(b);
    assert w[k] == SwapNibble(b[k]);
    ValueOfDigit(LowNibble(b[k]));
    ValueOfDigit(HighNibble(b[k]));
  }

  // ---------------------------------------------------------------------------
  // TBCD round trips
  // ---------------------------------------------------------------------------

  /** encode(decode(b)) == b for every non-nil slice: decoding loses nothing. */
  lemma TbcdBytesRoundTrip(b: seq<byte>)
    ensures DecodeTBCDDigits(Buf(b)).Success?
    ensures TbcdBytes(DecodeTBCDDigits(Buf(b)).value) == Buf(b)
  {
    var d := DecodeTBCDDigits(Buf(b)).value;
    var p := PackDigits(d);
    RepackedOctets(b, d, p);
  }

  /** Packing the digits that `b` decodes to gives `b` back; stated over the two layouts. */
  lemma RepackedOctets(b: seq<byte>, d: string, p: seq<byte>)
    requires AllLowerHex(d)
    requires |d| == 2 * |b| - (if EndsWithFiller(b) then 1 else 0)
    requires forall k :: 0 <= k < |b| ==>
               HexValue(d[2 * k]) == LowNibble(b[k]) && (2 * k + 1 < |d| ==> HexValue(d[2 * k + 1]) == HighNibble(b[k]))
    requires |p| == (|d| + 1) / 2
    requires forall i :: 0 <= i < |p| ==> LowNibble(p[i]) == HexValue(d[2 * i])
    requires forall i :: 0 <= i < |p| ==> HighNibble(p[i]) == if 2 * i + 1 < |d| then HexValue(d[2 * i + 1]) else 0x0F
    ensures p == b
  {
    assert |p| == |b|;
    forall i | 0 <= i < |b|
      ensures p[i] == b[i]
    {
      assert LowNibble(p[i]) == LowNibble(b[i]);
      if 2 * i + 1 < |d| {
        assert HighNibble(p[i]) == HighNibble(b[i]);
      } else {
        assert i == |b| - 1 && EndsWithFiller(b);
      }
      SameNibbles(p[i], b[i]);
    }
  }

  /**
   * decode(encode(s)) for every valid digit string: the lower-case spelling of `s`,
   * except that an even-length string ending in 'f'/'F' loses that digit (it reads
   * as the filler).
   */
  lemma TbcdDigitsRoundTrip(s: string)
    requires AllHex(s)
    ensures DecodeTBCDDigits(TbcdBytes(s)) ==
      Success(if |s| % 2 == 0 && |s| > 0 && LowerChar(s[|s| - 1]) == 'f' then Lower(s)[..|s| - 1] else Lower(s))
  {
    var p := PackDigits(s);
    var d := DecodeTBCDDigits(Buf(p)).value;
    PackedFiller(s);
    ReadBackLength(s, p, d);
    PackedDigitsAgree(s, p, d);
    ReadBackDigits(s, d);
    assert TbcdBytes(s) == Buf(p);
  }

  /**
   * The digit strings a TBCD round trip gives back unchanged: lower-case hex digits,
   * except an even-length string whose last digit is the filler 'f'.
   */
  predicate CanonicalDigits(s: string) {
    AllLowerHex(s) && !(|s| % 2 == 0 && |s| > 0 && s[|s| - 1] == 'f')
  }

  /** Decoding gives back the string encoded, for canonical strings. */
  lemma CanonicalDigitsRoundTrip(s: string)
    requires CanonicalDigits(s)
    ensures TbcdBytes(s).Buf?
    ensures DecodeTBCDDigits(TbcdBytes(s)) == Success(s)
  {
    assert AllHex(s);
    assert Lower(s) == s;
    TbcdDigitsRoundTrip(s);
  }

  /**
   * At most one canonical digit string packs into given octets; with
   * `TbcdBytesRoundTrip` and the canonical result of `DecodeTBCDDigits`, exactly one:
   * the decode of those octets.
   */
  lemma CanonicalDigitsUnique(s1: string, s2: string)
    requires CanonicalDigits(s1) && CanonicalDigits(s2)
    requires TbcdBytes(s1) == TbcdBytes(s2)
    ensures s1 == s2
  {
    CanonicalDigitsRoundTrip(s1);
    CanonicalDigitsRoundTrip(s2);
  }

  /** The canonical string that packs into `b` is the one `DecodeTBCDDigits` returns. */
  lemma CanonicalDigitsDecode(s: string, b: seq<byte>)
    requires CanonicalDigits(s) && TbcdBytes(s) == Buf(b)
    ensures DecodeTBCDDigits(Buf(b)) == Success(s)
  {
    CanonicalDigitsRoundTrip(s);
  }

  /** How many digits come back: all of them, less the one that reads as the filler. */
  lemma ReadBackLength(s: string, p: seq<byte>, d: string)
    requires AllHex(s)
    requires |p| == (|s| + 1) / 2
    requires |d| == 2 * |p| - (if EndsWithFiller(p) then 1 else 0)
    requires EndsWithFiller(p) <==> |s| % 2 == 1 || (|s| > 0 && LowerChar(s[|s| - 1]) == 'f')
    ensures |d| == if |s| % 2 == 0 && |s| > 0 && LowerChar(s[|s| - 1]) == 'f' then |s| - 1 else |s|
  {
  }

  /** A digit-by-digit lower-case copy of `s`, possibly one shorter, is that prefix of `Lower(s)`. */
  lemma ReadBackDigits(s: string, d: string)
    requires |d| == if |s| % 2 == 0 && |s| > 0 && LowerChar(s[|s| - 1]) == 'f' then |s| - 1 else |s|
    requires forall i :: 0 <= i < |d| ==> d[i] == LowerChar(s[i])
    ensures d == if |s| % 2 == 0 && |s| > 0 && LowerChar(s[|s| - 1]) == 'f' then Lower(s)[..|s| - 1] else Lower(s)
  {
    var expected := if |s| % 2 == 0 && |s| > 0 && LowerChar(s[|s| - 1]) == 'f' then Lower(s)[..|s| - 1] else Lower(s);
    assert |d| == |expected|;
    forall i | 0 <= i < |d|
      ensures d[i] == expected[i]
    {
      assert expected[i] == Lower(s)[i];
    }
  }

  /**
   * The digits read back from a packing of `s` are those of `s`, in lower case. Stated
   * over the layouts that `PackDigits` and `DecodeTBCDDigits` promise.
   */
  lemma PackedDigitsAgree(s: string, p: seq<byte>, d: string)
    requires AllHex(s) && AllLowerHex(d)
    requires |p| == (|s| + 1) / 2
    requires |d| == 2 * |p| - (if EndsWithFiller(p) then 1 else 0) && |d| <= |s|
    requires forall i :: 0 <= i < |p| ==> LowNibble(p[i]) == HexValue(s[2 * i])
    requires forall i :: 0 <= i < |p| ==> HighNibble(p[i]) == if 2 * i + 1 < |s| then HexValue(s[2 * i + 1]) else 0x0F
    requires forall k :: 0 <= k < |p| ==>
               HexValue(d[2 * k]) == LowNibble(p[k]) && (2 * k + 1 < |d| ==> HexValue(d[2 * k + 1]) == HighNibble(p[k]))
    ensures forall i :: 0 <= i < |d| ==> d[i] == LowerChar(s[i])
  {
    forall i | 0 <= i < |d|
      ensures d[i] == LowerChar(s[i])
    {
      var k := i / 2;
      if i % 2 == 0 {
        PackedDigitAgrees(s[i], d[i], LowNibble(p[k]));
      } else {
        PackedDigitAgrees(s[i], d[i], HighNibble(p[k]));
      }
    }
  }

  /** A digit read back from a nibble that was packed from `c` is `c`, lower-cased. */
  lemma PackedDigitAgrees(c: char, back: char, nibble: byte)
    requires IsHexChar(c) && IsLowerHexChar(back)
    requires HexValue(c) == nibble && HexValue(back) == nibble
    ensures back == LowerChar(c)
  {
    SameValueDigit(back, c);
  }

  /** The packing ends with the filler nibble exactly when `s` is odd or ends in 'f'/'F'. */
  lemma PackedFiller(s: string)
    requires AllHex(s)
    ensures EndsWithFiller(PackDigits(s)) <==> |s| % 2 == 1 || (|s| > 0 && LowerChar(s[|s| - 1]) == 'f')
  {
    if |s| % 2 == 0 && |s| > 0 {
      PackedLastNibble(s);
      FillerValue(s[|s| - 1]);
    }
  }

  /** For an even, non-empty `s` the last high nibble is the last digit. */
  lemma PackedLastNibble(s: string)
    requires AllHex(s) && |s| % 2 == 0 && |s| > 0
    ensures EndsWithFiller(PackDigits(s)) <==> HexValue(s[|s| - 1]) == 0x0F
  {
    var p := PackDigits(s);
    var k := |p| - 1;
    assert 2 * k + 1 == |s| - 1;
    assert HighNibble(p[k]) == HexValue(s[|s| - 1]);
  }

  /** The vector of `utils_test.go`: fifteen digits pack into eight octets, the last one filled. */
  lemma PackDigitsExample()
    ensures PackDigits("123451234567890") == [0x21, 0x43, 0x15, 0x32, 0x54, 0x76, 0x98, 0xf0]
  {
    PackedExample("123451234567890", PackDigits("123451234567890"));
  }

  /** The same vector read back: the eight octets decode to the fifteen digits. */
  lemma DecodeDigitsExample()
    ensures DecodeTBCDDigits(Buf([0x21, 0x43, 0x15, 0x32, 0x54, 0x76, 0x98, 0xf0])) == Success("123451234567890")
  {
    PackDigitsExample();
    CanonicalDigitsRoundTrip("123451234567890");
  }

  lemma PackedExample(s: string, p: seq<byte>)
    requires s == "123451234567890" && AllHex(s)
    requires |p| == 8
    requires forall i :: 0 <= i < |p| ==> LowNibble(p[i]) == HexValue(s[2 * i])
    requires forall i :: 0 <= i < |p| ==> HighNibble(p[i]) == if 2 * i + 1 < |s| then HexValue(s[2 * i + 1]) else 0x0F
    ensures p == [0x21, 0x43, 0x15, 0x32, 0x54, 0x76, 0x98, 0xf0]
  {
    SameNibbles(p[0], 0x21);
    SameNibbles(p[1], 0x43);
    SameNibbles(p[2], 0x15);
    SameNibbles(p[3], 0x32);
    SameNibbles(p[4], 0x54);
    SameNibbles(p[5], 0x76);
    SameNibbles(p[6], 0x98);
    SameNibbles(p[7], 0xf0);
  }

  // ---------------------------------------------------------------------------
  // GSN-Address
  // ---------------------------------------------------------------------------

  /**
   * An IP address as `net.IP` holds it once classified by `To4`: the four octets of
   * an IPv4 address, or the sixteen of an IPv6 one.
   */
  datatype IpAddress = IPv4(octets: seq<byte>) | IPv6(octets: seq<byte>) {
    predicate Valid() {
      if IPv4? then |octets| == 4 else |octets| == 16
    }
  }

  type IpAddr = a: IpAddress | a.Valid() witness IPv4([0, 0, 0, 0])

  datatype GsnError =
    | InvalidIp                             // BuildGSNAddress: the text is not an IP address
    | AddressTooShort                       // ParseGSNAddress: no header octet
    | DataTooShort(expected: int, got: int) // fewer octets than the header's length announces
    | InvalidIPv4Length(length: int)        // type 0 with a length other than 4
    | InvalidIPv6Length(length: int)        // type 1 with a length other than 16
    | UnknownAddressType(addressType: int)  // types 2 and 3

  /** Bits 8-7 of the header octet; `GsnHeader` states that it reads back the type written. */
  function HeaderType(header: byte): (t: byte)
    ensures t < 4
  {
    (header >> 6) & 0x03
  }

  /** Bits 6-1 of the header octet; `GsnHeader` states that it reads back the length written. */
  function HeaderLength(header: byte): (n: byte)
    ensures n < 64
  {
    header & 0x3F
  }

  /** The header octet `(type << 6) | (length & 0x3F)`. */
  function GsnHeader(addrType: byte, addrLen: byte): (h: byte)
    requires addrType < 4
    ensures HeaderType(h) == addrType && HeaderLength(h) == addrLen & 0x3F
  {
    (addrType << 6) | (addrLen & 0x3F)
  }

  /** The GSN-Address octets of an IP address: the header, then the address. */
  function GsnAddress(a: IpAddr): (r: seq<byte>)
    ensures |r| == 1 + |a.octets| && r[1..] == a.octets
    ensures r[0] == if a.IPv4? then 0x04 else 0x50
  {
    [GsnHeader(if a.IPv4? then 0 else 1, |a.octets| as byte)] + a.octets
  }

  /**
   * `BuildGSNAddress`: `ip` is what `net.ParseIP` made of the text (None when it
   * returned nil). Allocates the result and copies the address in after the header.
   */
  method BuildGSNAddress(ip: Option<IpAddr>) returns (r: Bytes, err: Option<GsnError>)
    ensures ip.None? ==> r == Nil && err == Some(InvalidIp)
    ensures ip.Some? ==> r == Buf(GsnAddress(ip.value)) && err.None?
  {
    if ip.None? {
      return Nil, Some(InvalidIp);
    }
    var addrType: byte := if ip.value.IPv4? then 0 else 1;
    var addrBytes := ip.value.octets;
    var addrLen := |addrBytes| as byte;
    var header := (addrType << 6) | (addrLen & 0x3F);
    var result := new byte[1 + |addrBytes|];
    result[0] := header;
    forall i | 0 <= i < |addrBytes| {
      result[1 + i] := addrBytes[i];
    }
    assert result[1..] == addrBytes;
    return Buf(result[..]), None;
  }

  /**
   * `ParseGSNAddress`: reads the header, checks the length against the data and the
   * type, and returns the address; octets after the address are ignored. A success
   * has read a GSN-Address off the front of the data.
   */
  function ParseGSNAddress(data: Bytes): (r: Result<IpAddr, GsnError>)
    ensures r.Success? ==> |r.value.octets| < Len(data) && Data(data)[..1 + |r.value.octets|] == GsnAddress(r.value)
  {
    var d := Data(data);
    if |d| < 1 then Failure(AddressTooShort)
    else
      var header := d[0];
      var addrType := HeaderType(header);
      var addrLen := HeaderLength(header);
      if |d| < 1 + addrLen as int then Failure(DataTooShort(1 + addrLen as int, |d|))
      else
        var addrBytes := d[1..1 + addrLen as int];
        if addrType == 0 then
          if addrLen != 4 then Failure(InvalidIPv4Length(addrLen as int))
          else
            assert d[..5] == [header] + addrBytes;
            Success(IPv4(addrBytes))
        else if addrType == 1 then
          if addrLen != 16 then Failure(InvalidIPv6Length(addrLen as int))
          else
            assert d[..17] == [header] + addrBytes;
            Success(IPv6(addrBytes))
        else
          Failure(UnknownAddressType(addrType as int))
  }

  /** Parsing what `BuildGSNAddress` produced, with anything after it, gives the address back. */
  lemma GsnAddressRoundTrip(a: IpAddr, trailing: seq<byte>)
    ensures ParseGSNAddress(Buf(GsnAddress(a) + trailing)) == Success(a)
  {
    var d := GsnAddress(a) + trailing;
    assert d[0] == GsnAddress(a)[0];
    assert d[1..1 + |a.octets|] == a.octets;
  }

  /** The data parses exactly when it starts with the GSN-Address of some IP address. */
  lemma ParseGSNAddressSucceeds(data: Bytes)
    ensures ParseGSNAddress(data).Success? <==>
      exists a: IpAddr, trailing: seq<byte> :: Data(data) == GsnAddress(a) + trailing
  {
    var d := Data(data);
    var r := ParseGSNAddress(data);
    if r.Success? {
      var n := 1 + |r.value.octets|;
      assert d == GsnAddress(r.value) + d[n..];
    }
    if exists a: IpAddr, trailing: seq<byte> :: d == GsnAddress(a) + trailing {
      var a: IpAddr, trailing: seq<byte> :| d == GsnAddress(a) + trailing;
      GsnAddressRoundTrip(a, trailing);
      assert data == Buf(GsnAddress(a) + trailing);
    }
  }

  /**
   * The errors of `ParseGSNAddress`, in the order the checks are made: no header, too
   * few octets for the announced length, a length that does not fit the type, and
   * types 2 and 3.
   */
  lemma ParseGSNAddressErrors(data: Bytes)
    ensures Len(data) == 0 ==> ParseGSNAddress(data) == Failure(AddressTooShort)
    ensures Len(data) > 0 ==>
      var t, n := HeaderType(Data(data)[0]) as int, HeaderLength(Data(data)[0]) as int;
      && (Len(data) < 1 + n ==> ParseGSNAddress(data) == Failure(DataTooShort(1 + n, Len(data))))
      && (Len(data) >= 1 + n && t == 0 && n != 4 ==> ParseGSNAddress(data) == Failure(InvalidIPv4Length(n)))
      && (Len(data) >= 1 + n && t == 1 && n != 16 ==> ParseGSNAddress(data) == Failure(InvalidIPv6Length(n)))
      && (Len(data) >= 1 + n && t >= 2 ==> ParseGSNAddress(data) == Failure(UnknownAddressType(t)))
  {
  }
}
