/**
 * How the conversions of `marshal.go` and the field extraction of `parse.go` undo
 * each other, given that the DER layer returns the record it was given.
 */
module RoundTrip {
  import opened Wrappers
  import opened Slices
  import opened Asn1
  import opened Hex
  import opened MapCommon
  import opened MapSm
  import opened Marshal
  import opened Parse
  import GsmMap
  import Utils

  /** A canonical digit string survives being written as an international ISDN address and read back. */
  lemma IsdnDigitsRoundTrip(s: string)
    requires Utils.CanonicalDigits(s)
    ensures AddressDigits(IsdnAddress(s)) == s
  {
    Utils.CanonicalDigitsRoundTrip(s);
    assert IsdnAddress(s).data[1..] == Utils.PackDigits(s);
  }

  /** A canonical digit string is what a getter reads from the international ISDN address written from it. */
  lemma IsdnReadsAs(s: string)
    requires Utils.CanonicalDigits(s)
    ensures AddressReadsAs(IsdnAddress(s), s)
  {
    assert AllHex(s);
    assert Utils.TbcdBytes(s) == Buf(IsdnAddress(s).data[1..]);
  }

  /** An address with header 0x91 is written back octet for octet from the digits read out of it. */
  lemma IsdnAddressReencode(a: AddressString)
    requires Len(a) > 0 && Data(a)[0] == 0x91
    ensures IsdnAddress(AddressDigits(a)) == a
  {
    var s := AddressDigits(a);
    assert Utils.TbcdBytes(s) == Buf(Data(a)[1..]);
    SameHeaderSameTail(IsdnAddress(s), a);
  }

  /** As `IsdnAddressReencode`, for any string a getter may read from the address. */
  lemma IsdnReadsAsReencode(a: AddressString, s: string)
    requires Len(a) > 0 && Data(a)[0] == 0x91
    requires AddressReadsAs(a, s)
    ensures IsdnAddress(s) == a
  {
    SameHeaderSameTail(IsdnAddress(s), a);
  }

  /** Two non-nil addresses with the same header octet and the same digit octets are equal. */
  lemma SameHeaderSameTail(a: AddressString, b: AddressString)
    requires a.Buf? && b.Buf? && |a.data| > 0 && |b.data| > 0
    requires a.data[0] == b.data[0] && a.data[1..] == b.data[1..]
    ensures a == b
  {
    assert a.data == [a.data[0]] + a.data[1..];
    assert b.data == [b.data[0]] + b.data[1..];
  }

  /** Converting an SRI-SM request and parsing the record gives it back, for canonical digit strings. */
  lemma SriSmRoundTrip(sriSm: GsmMap.SriSm, rest: Bytes)
    requires Utils.CanonicalDigits(sriSm.msisdn) && Utils.CanonicalDigits(sriSm.serviceCentreAddress)
    ensures ParseSriSm(Unmarshalled(ConvertSriSmToRoutingInfoForSMArg(sriSm), rest)) == Success(Parsed(sriSm, rest))
  {
    IsdnDigitsRoundTrip(sriSm.msisdn);
    IsdnDigitsRoundTrip(sriSm.serviceCentreAddress);
  }

  /** Converting an SRI-SM response and parsing the record gives it back, for canonical digit strings. */
  lemma SriSmRespRoundTrip(sriSmResp: GsmMap.SriSmResp, rest: Bytes)
    requires Utils.CanonicalDigits(sriSmResp.imsi) && Utils.CanonicalDigits(sriSmResp.locationInfoWithLMSI.networkNodeNumber)
    ensures ParseSriSmResp(Unmarshalled(ConvertSriSmRespToRoutingInfoForSMRes(sriSmResp), rest)) == Success(Parsed(sriSmResp, rest))
  {
    Utils.CanonicalDigitsRoundTrip(sriSmResp.imsi);
    IsdnDigitsRoundTrip(sriSmResp.locationInfoWithLMSI.networkNodeNumber);
  }

  /**
   * Converting an MT-FORWARD-SM and parsing the record gives it back, for canonical
   * digit strings and a TPDU codec that round-trips; the rest is always empty.
   */
  lemma MtFsmRoundTrip<Tpdu>(mtFsm: GsmMap.MtFsm<Tpdu>, marshalTP: Tpdu -> SignalInfo, unmarshalDeliver: SignalInfo -> Tpdu, rest: Bytes)
    requires Utils.CanonicalDigits(mtFsm.imsi) && Utils.CanonicalDigits(mtFsm.serviceCentreAddressOA)
    requires unmarshalDeliver(marshalTP(mtFsm.tpdu)) == mtFsm.tpdu
    ensures ParseMtFsm(Unmarshalled(ConvertMtFsmToMTForwardSMArg(mtFsm, marshalTP), rest), unmarshalDeliver) ==
      Success(Parsed(mtFsm, Buf([])))
  {
    var arg := ConvertMtFsmToMTForwardSMArg(mtFsm, marshalTP);
    var back := ParseMtFsm(Unmarshalled(arg, rest), unmarshalDeliver).value.value;
    Utils.CanonicalDigitsRoundTrip(mtFsm.imsi);
    assert arg.smRpDa.bytes == Utils.TbcdBytes(mtFsm.imsi);
    ImsiReadsAsUnique(arg.smRpDa.bytes, back.imsi, mtFsm.imsi);
    IsdnReadsAs(mtFsm.serviceCentreAddressOA);
    assert arg.smRpOa.bytes == IsdnAddress(mtFsm.serviceCentreAddressOA);
    AddressReadsAsUnique(arg.smRpOa.bytes, back.serviceCentreAddressOA, mtFsm.serviceCentreAddressOA);
    assert back == mtFsm;
  }

  /** As `MtFsmRoundTrip`, for MO-FORWARD-SM. */
  lemma MoFsmRoundTrip<Tpdu>(moFsm: GsmMap.MoFsm<Tpdu>, marshalTP: Tpdu -> SignalInfo, unmarshalSubmit: SignalInfo -> Tpdu, rest: Bytes)
    requires Utils.CanonicalDigits(moFsm.serviceCentreAddressDA) && Utils.CanonicalDigits(moFsm.msisdn)
    requires unmarshalSubmit(marshalTP(moFsm.tpdu)) == moFsm.tpdu
    ensures ParseMoFsm(Unmarshalled(ConvertMoFsmToMOForwardSMArg(moFsm, marshalTP), rest), unmarshalSubmit) ==
      Success(Parsed(moFsm, Buf([])))
  {
    var arg := ConvertMoFsmToMOForwardSMArg(moFsm, marshalTP);
    var back := ParseMoFsm(Unmarshalled(arg, rest), unmarshalSubmit).value.value;
    IsdnReadsAs(moFsm.serviceCentreAddressDA);
    assert arg.smRpDa.bytes == IsdnAddress(moFsm.serviceCentreAddressDA);
    AddressReadsAsUnique(arg.smRpDa.bytes, back.serviceCentreAddressDA, moFsm.serviceCentreAddressDA);
    IsdnReadsAs(moFsm.msisdn);
    assert arg.smRpOa.bytes == IsdnAddress(moFsm.msisdn);
    AddressReadsAsUnique(arg.smRpOa.bytes, back.msisdn, moFsm.msisdn);
    assert back == moFsm;
  }

  /** Parsing an SRI-SM request whose addresses carry header 0x91 and converting back gives the same record. */
  lemma SriSmReencode(arg: RoutingInfoForSMArg, rest: Bytes)
    requires Len(arg.msisdn) > 0 && Data(arg.msisdn)[0] == 0x91
    requires Len(arg.serviceCentreAddress) > 0 && Data(arg.serviceCentreAddress)[0] == 0x91
    ensures ParseSriSm(Unmarshalled(arg, rest)).Success?
    ensures ConvertSriSmToRoutingInfoForSMArg(ParseSriSm(Unmarshalled(arg, rest)).value.value) == arg
  {
    IsdnAddressReencode(arg.msisdn);
    IsdnAddressReencode(arg.serviceCentreAddress);
  }

  /** As `SriSmReencode` for the response, whose IMSI must be present. */
  lemma SriSmRespReencode(res: RoutingInfoForSMRes, rest: Bytes)
    requires res.imsi.Buf?
    requires var n := res.locationInfoWithLMSI.networkNodeNumber; Len(n) > 0 && Data(n)[0] == 0x91
    ensures ParseSriSmResp(Unmarshalled(res, rest)).Success?
    ensures ConvertSriSmRespToRoutingInfoForSMRes(ParseSriSmResp(Unmarshalled(res, rest)).value.value) == res
  {
    IsdnAddressReencode(res.locationInfoWithLMSI.networkNodeNumber);
  }

  /**
   * Parsing an MT-FORWARD-SM whose SM-RP-DA is a primitive [0] IMSI, whose SM-RP-OA is
   * a primitive [4] address with header 0x91, whose flag element is the NULL or
   * absent, and whose TPDU the TPDU codec reproduces, and converting back, gives the
   * same record.
   */
  lemma MtFsmReencode<Tpdu>(arg: MTForwardSMArg, rest: Bytes, marshalTP: Tpdu -> SignalInfo, unmarshalDeliver: SignalInfo -> Tpdu)
    requires arg.smRpDa == RawValue(ClassContextSpecific, DaImsiTag, false, arg.smRpDa.bytes) && arg.smRpDa.bytes.Buf?
    requires arg.smRpOa == RawValue(ClassContextSpecific, OaServiceCentreAddressTag, false, arg.smRpOa.bytes)
    requires Len(arg.smRpOa.bytes) > 0 && Data(arg.smRpOa.bytes)[0] == 0x91
    requires arg.moreMessagesToSend == MoreMessagesNull || arg.moreMessagesToSend == ZeroRawValue
    requires marshalTP(unmarshalDeliver(arg.smRpUi)) == arg.smRpUi
    ensures ParseMtFsm(Unmarshalled(arg, rest), unmarshalDeliver).Success?
    ensures ConvertMtFsmToMTForwardSMArg(ParseMtFsm(Unmarshalled(arg, rest), unmarshalDeliver).value.value, marshalTP) == arg
  {
    var mtFsm := ParseMtFsm(Unmarshalled(arg, rest), unmarshalDeliver).value.value;
    assert ImsiReadsAs(Buf(Data(arg.smRpDa.bytes)), mtFsm.imsi);
    assert Utils.TbcdBytes(mtFsm.imsi) == arg.smRpDa.bytes;
    IsdnReadsAsReencode(arg.smRpOa.bytes, mtFsm.serviceCentreAddressOA);
    var back := ConvertMtFsmToMTForwardSMArg(mtFsm, marshalTP);
    assert back.smRpDa == arg.smRpDa;
    assert back.smRpOa == arg.smRpOa;
  }

  /** As `MtFsmReencode`, for MO-FORWARD-SM with a [4] address in SM-RP-DA and a [2] MSISDN in SM-RP-OA. */
  lemma MoFsmReencode<Tpdu>(arg: MOForwardSMArg, rest: Bytes, marshalTP: Tpdu -> SignalInfo, unmarshalSubmit: SignalInfo -> Tpdu)
    requires arg.smRpDa == RawValue(ClassContextSpecific, DaServiceCentreAddressTag, false, arg.smRpDa.bytes)
    requires Len(arg.smRpDa.bytes) > 0 && Data(arg.smRpDa.bytes)[0] == 0x91
    requires arg.smRpOa == RawValue(ClassContextSpecific, OaMsisdnTag, false, arg.smRpOa.bytes)
    requires Len(arg.smRpOa.bytes) > 0 && Data(arg.smRpOa.bytes)[0] == 0x91
    requires marshalTP(unmarshalSubmit(arg.smRpUi)) == arg.smRpUi
    ensures ParseMoFsm(Unmarshalled(arg, rest), unmarshalSubmit).Success?
    ensures ConvertMoFsmToMOForwardSMArg(ParseMoFsm(Unmarshalled(arg, rest), unmarshalSubmit).value.value, marshalTP) == arg
  {
    var moFsm := ParseMoFsm(Unmarshalled(arg, rest), unmarshalSubmit).value.value;
    IsdnReadsAsReencode(arg.smRpDa.bytes, moFsm.serviceCentreAddressDA);
    IsdnReadsAsReencode(arg.smRpOa.bytes, moFsm.msisdn);
    var back := ConvertMoFsmToMOForwardSMArg(moFsm, marshalTP);
    assert back.smRpDa == arg.smRpDa;
    assert back.smRpOa == arg.smRpOa;
  }
}
