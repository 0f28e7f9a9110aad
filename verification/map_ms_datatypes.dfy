/**
 * Mobility-management data types of `asn1mapmodel/map-ms-datatypes.go`: the
 * UPDATE-LOCATION and UPDATE-GPRS-LOCATION argument and result records, the
 * capability bit positions, and the getters. Unlike the short-message getters these
 * keep the TBCD decoder's error: a zero-length number fails.
 */
module MapMs {
  import opened Wrappers
  import opened Slices
  import opened Asn1
  import opened MapCommon
  import Utils

  /** GSN-Address octets, as `Utils.ParseGSNAddress` reads them. */
  type GSNAddress = Bytes

  /** SupportedCamelPhases bit positions (phase1 (0) .. phase4 (3)). */
  const CamelPhase1: nat := 0
  const CamelPhase2: nat := 1
  const CamelPhase3: nat := 2
  const CamelPhase4: nat := 3

  /** SupportedLCS-CapabilitySets bit positions (lcsCapabilitySet1 (0) .. lcsCapabilitySet5 (4)). */
  const LCSCapabilitySet1: nat := 0
  const LCSCapabilitySet2: nat := 1
  const LCSCapabilitySet3: nat := 2
  const LCSCapabilitySet4: nat := 3
  const LCSCapabilitySet5: nat := 4

  /** The named bits are numbered consecutively from 0, phase n or set n at bit n - 1. */
  lemma CapabilityBitPositions()
    ensures [CamelPhase1, CamelPhase2, CamelPhase3, CamelPhase4] == [0, 1, 2, 3]
    ensures [LCSCapabilitySet1, LCSCapabilitySet2, LCSCapabilitySet3, LCSCapabilitySet4, LCSCapabilitySet5] == [0, 1, 2, 3, 4]
  {
  }

  /** VLR-Capability: supportedCamelPhases [0], supportedLCS-CapabilitySets [5]. */
  datatype VlrCapability = VlrCapability(supportedCamelPhases: BitString, supportedLCSCapabilitySets: BitString)

  /** SGSN-Capability: gprsEnhancementsSupportIndicator [3], supportedLCS-CapabilitySets [5]. */
  datatype SGSNCapability = SGSNCapability(gprsEnhancementsSupportIndicator: RawValue, supportedLCSCapabilitySets: BitString)

  /** The number getters: the digits after the header, failing on a zero-length address. */
  function NumberString(address: ISDNAddressString): (r: Result<string, Utils.TbcdError>)
    ensures r.Failure? <==> Len(address) == 0
    ensures r.Failure? ==> r.error == Utils.NilInput
    ensures r.Success? ==> Utils.CanonicalDigits(r.value)
    ensures r.Success? ==> Utils.TbcdBytes(r.value) == Buf(Data(address)[1..])
  {
    AddressDigitsOrError(address)
  }

  /** The IMSI getters: the IMSI octets decoded directly, failing on a nil IMSI. */
  function ImsiString(imsi: IMSI): (r: Result<string, Utils.TbcdError>)
    ensures r.Failure? <==> imsi.Nil?
    ensures r.Success? ==> Utils.CanonicalDigits(r.value)
    ensures r.Success? ==> Utils.TbcdBytes(r.value) == imsi
  {
    if imsi.Buf? then
      Utils.TbcdBytesRoundTrip(imsi.data);
      Utils.DecodeTBCDDigits(imsi)
    else
      Utils.DecodeTBCDDigits(imsi)
  }

  /** UpdateLocationArg: imsi, msc-Number [1], vlr-Number, vlr-Capability [6]. */
  datatype UpdateLocationArg = UpdateLocationArg(imsi: IMSI, mscNumber: ISDNAddressString, vlrNumber: ISDNAddressString,
                                                 vlrCapability: VlrCapability)
  {
    function GetImsiString(): (r: Result<string, Utils.TbcdError>)
      ensures r.Failure? <==> imsi.Nil?
      ensures r.Success? ==> Utils.CanonicalDigits(r.value)
      ensures r.Success? ==> Utils.TbcdBytes(r.value) == imsi
    {
      ImsiString(imsi)
    }

    function GetMSCNumberString(): (r: Result<string, Utils.TbcdError>)
      ensures r.Failure? <==> Len(mscNumber) == 0
      ensures r.Success? ==> Utils.CanonicalDigits(r.value)
      ensures r.Success? ==> Utils.TbcdBytes(r.value) == Buf(Data(mscNumber)[1..])
    {
      NumberString(mscNumber)
    }

    function GetVLRNumberString(): (r: Result<string, Utils.TbcdError>)
      ensures r.Failure? <==> Len(vlrNumber) == 0
      ensures r.Success? ==> Utils.CanonicalDigits(r.value)
      ensures r.Success? ==> Utils.TbcdBytes(r.value) == Buf(Data(vlrNumber)[1..])
    {
      NumberString(vlrNumber)
    }
  }

  /** UpdateGprsLocationArg: imsi, sgsn-Number, sgsn-Address, sgsn-Capability [0]. */
  datatype UpdateGprsLocationArg = UpdateGprsLocationArg(imsi: IMSI, sgsnNumber: ISDNAddressString, sgsnAddress: GSNAddress,
                                                         sgsnCapability: SGSNCapability)
  {
    function GetImsiString(): (r: Result<string, Utils.TbcdError>)
      ensures r.Failure? <==> imsi.Nil?
      ensures r.Success? ==> Utils.CanonicalDigits(r.value)
      ensures r.Success? ==> Utils.TbcdBytes(r.value) == imsi
    {
      ImsiString(imsi)
    }

    function GetSGSNNumberString(): (r: Result<string, Utils.TbcdError>)
      ensures r.Failure? <==> Len(sgsnNumber) == 0
      ensures r.Success? ==> Utils.CanonicalDigits(r.value)
      ensures r.Success? ==> Utils.TbcdBytes(r.value) == Buf(Data(sgsnNumber)[1..])
    {
      NumberString(sgsnNumber)
    }

    /**
     * `GetSGSNAddressString`: succeeds exactly when the octets start with a GSN-Address,
     * and otherwise reports the error `Utils.ParseGSNAddress` finds first.
     */
    function GetSGSNAddressString(): (r: Result<Utils.IpAddr, Utils.GsnError>)
      ensures r.Success? <==> exists a: Utils.IpAddr, trailing: seq<byte> :: Data(sgsnAddress) == Utils.GsnAddress(a) + trailing
      ensures r.Success? ==> |r.value.octets| < Len(sgsnAddress) && Data(sgsnAddress)[..1 + |r.value.octets|] == Utils.GsnAddress(r.value)
      ensures Len(sgsnAddress) == 0 ==> r == Failure(Utils.AddressTooShort)
      ensures Len(sgsnAddress) > 0 ==>
        var t, n := Utils.HeaderType(Data(sgsnAddress)[0]) as int, Utils.HeaderLength(Data(sgsnAddress)[0]) as int;
        && (Len(sgsnAddress) < 1 + n ==> r == Failure(Utils.DataTooShort(1 + n, Len(sgsnAddress))))
        && (Len(sgsnAddress) >= 1 + n && t == 0 && n != 4 ==> r == Failure(Utils.InvalidIPv4Length(n)))
        && (Len(sgsnAddress) >= 1 + n && t == 1 && n != 16 ==> r == Failure(Utils.InvalidIPv6Length(n)))
        && (Len(sgsnAddress) >= 1 + n && t >= 2 ==> r == Failure(Utils.UnknownAddressType(t)))
    {
      Utils.ParseGSNAddressSucceeds(sgsnAddress);
      Utils.ParseGSNAddressErrors(sgsnAddress);
      Utils.ParseGSNAddress(sgsnAddress)
    }
  }

  /** UpdateLocationRes: hlr-Number. */
  datatype UpdateLocationRes = UpdateLocationRes(hlrNumber: ISDNAddressString)
  {
    function GetHLRNumberString(): (r: Result<string, Utils.TbcdError>)
      ensures r.Failure? <==> Len(hlrNumber) == 0
      ensures r.Success? ==> Utils.CanonicalDigits(r.value)
      ensures r.Success? ==> Utils.TbcdBytes(r.value) == Buf(Data(hlrNumber)[1..])
    {
      NumberString(hlrNumber)
    }
  }

  /** UpdateGprsLocationRes: hlr-Number. */
  datatype UpdateGprsLocationRes = UpdateGprsLocationRes(hlrNumber: ISDNAddressString)
  {
    function GetHLRNumberString(): (r: Result<string, Utils.TbcdError>)
      ensures r.Failure? <==> Len(hlrNumber) == 0
      ensures r.Success? ==> Utils.CanonicalDigits(r.value)
      ensures r.Success? ==> Utils.TbcdBytes(r.value) == Buf(Data(hlrNumber)[1..])
    {
      NumberString(hlrNumber)
    }
  }

  /** A header-only number reads as "" without error. */
  lemma HeaderOnlyNumber(header: byte)
    ensures NumberString(Buf([header])) == Success("")
  {
    assert DecodeAddressString(Buf([header])).digits == Buf([]);
    assert Utils.DecodeTBCDDigits(Buf([])).Success?;
  }

  /**
   * Rewriting the header octet (extension, nature of address, numbering plan) of a
   * number never changes what its getter returns.
   */
  lemma NumberStringIgnoresHeader(address: ISDNAddressString, header: byte)
    requires Len(address) > 0
    ensures NumberString(Buf([header] + Data(address)[1..])) == NumberString(address)
  {
    var rewritten := Buf([header] + Data(address)[1..]);
    assert Data(rewritten)[1..] == Data(address)[1..];
    AddressDigitsIgnoreHeader(rewritten, address);
  }
}
