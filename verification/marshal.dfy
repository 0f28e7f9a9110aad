/**
 * The conversions of `marshal.go` from the domain records to the MAP records that
 * are then DER-encoded. Every number is written as an international ISDN address,
 * except the IMSI, which has no header. A string that is not hex digits is not
 * reported: its TBCD octets are nil, so only the header is written.
 */
module Marshal {
  import opened Slices
  import opened Asn1
  import opened Hex
  import opened MapCommon
  import opened MapSm
  import GsmMap
  import Utils

  /** A digit string as an AddressString: header 0x91, then its TBCD octets when it has any. */
  function IsdnAddress(digits: string): (a: AddressString)
    ensures a.Buf? && |a.data| > 0 && a.data[0] == 0x91
    ensures AllHex(digits) ==> a.data[1..] == Utils.PackDigits(digits)
    ensures !AllHex(digits) ==> a == Buf([0x91])
    ensures DecodeAddressString(a) == AddressFields(ExtensionNo, AddressNatureInternational, NumberingPlanISDN, Buf(a.data[1..]))
  {
    InternationalIsdnHeaderValue();
    var a := EncodeAddressString(ExtensionNo, AddressNatureInternational, NumberingPlanISDN, Utils.TbcdBytes(digits));
    AddressStringRoundTrip(ExtensionNo, AddressNatureInternational, NumberingPlanISDN, Utils.TbcdBytes(digits));
    a
  }

  /** `convertSriSmToRoutingInfoForSMArg`. */
  function ConvertSriSmToRoutingInfoForSMArg(sriSm: GsmMap.SriSm): (arg: RoutingInfoForSMArg)
    ensures arg.smRpPri == sriSm.smRpPri
    ensures arg.msisdn.Buf? && arg.msisdn.data == [0x91] + (if AllHex(sriSm.msisdn) then Utils.PackDigits(sriSm.msisdn) else [])
    ensures arg.serviceCentreAddress.Buf? &&
      arg.serviceCentreAddress.data == [0x91] + (if AllHex(sriSm.serviceCentreAddress) then Utils.PackDigits(sriSm.serviceCentreAddress) else [])
  {
    var msisdn := IsdnAddress(sriSm.msisdn);
    var sca := IsdnAddress(sriSm.serviceCentreAddress);
    assert msisdn.data == [msisdn.data[0]] + msisdn.data[1..];
    assert sca.data == [sca.data[0]] + sca.data[1..];
    RoutingInfoForSMArg(msisdn, sriSm.smRpPri, sca)
  }

  /** `convertSriSmRespToRoutingInfoForSMRes`. */
  function ConvertSriSmRespToRoutingInfoForSMRes(sriSmResp: GsmMap.SriSmResp): (res: RoutingInfoForSMRes)
    ensures res.imsi.Buf? <==> AllHex(sriSmResp.imsi)
    ensures res.imsi.Buf? ==> res.imsi.data == Utils.PackDigits(sriSmResp.imsi)
    ensures var nnn := res.locationInfoWithLMSI.networkNodeNumber;
      nnn.Buf? && nnn.data == [0x91] +
        (if AllHex(sriSmResp.locationInfoWithLMSI.networkNodeNumber) then Utils.PackDigits(sriSmResp.locationInfoWithLMSI.networkNodeNumber) else [])
  {
    var msc := IsdnAddress(sriSmResp.locationInfoWithLMSI.networkNodeNumber);
    assert msc.data == [msc.data[0]] + msc.data[1..];
    RoutingInfoForSMRes(Utils.TbcdBytes(sriSmResp.imsi), LocationInfoWithLMSI(msc))
  }

  /** The moreMessagesToSend element: a universal NULL with empty contents. */
  const MoreMessagesNull: RawValue := RawValue(ClassUniversal, TagNull, false, Buf([]))

  /**
   * The MT conversion: the IMSI goes to SM-RP-DA as its [0] alternative, the
   * service-centre address to SM-RP-OA as its [4] alternative, and the flag becomes a
   * NULL element when set and stays the zero RawValue when not.
   */
  function ConvertMtFsmToMTForwardSMArg<Tpdu>(mtFsm: GsmMap.MtFsm<Tpdu>, marshalTP: Tpdu -> SignalInfo): (arg: MTForwardSMArg)
    ensures DaFromRaw(arg.smRpDa) == DaImsi(Buf(Data(Utils.TbcdBytes(mtFsm.imsi))))
    ensures OaFromRaw(arg.smRpOa) == OaServiceCentreAddress(IsdnAddress(mtFsm.serviceCentreAddressOA))
    ensures arg.smRpUi == marshalTP(mtFsm.tpdu)
    ensures mtFsm.moreMessagesToSend <==> arg.moreMessagesToSend.tag == TagNull
    ensures arg.moreMessagesToSend == if mtFsm.moreMessagesToSend then MoreMessagesNull else ZeroRawValue
  {
    var da := DaToRaw(DaImsi(Utils.TbcdBytes(mtFsm.imsi)));
    var oa := OaToRaw(OaServiceCentreAddress(IsdnAddress(mtFsm.serviceCentreAddressOA)));
    var more := if mtFsm.moreMessagesToSend then MoreMessagesNull else ZeroRawValue;
    MTForwardSMArg(da, oa, marshalTP(mtFsm.tpdu), more)
  }

  /**
   * The MO conversion: the service-centre address goes to SM-RP-DA as its [4]
   * alternative and the MSISDN to SM-RP-OA as its [2] alternative.
   */
  function ConvertMoFsmToMOForwardSMArg<Tpdu>(moFsm: GsmMap.MoFsm<Tpdu>, marshalTP: Tpdu -> SignalInfo): (arg: MOForwardSMArg)
    ensures DaFromRaw(arg.smRpDa) == DaServiceCentreAddress(IsdnAddress(moFsm.serviceCentreAddressDA))
    ensures OaFromRaw(arg.smRpOa) == OaMsisdn(IsdnAddress(moFsm.msisdn))
    ensures arg.smRpUi == marshalTP(moFsm.tpdu)
  {
    var da := DaToRaw(DaServiceCentreAddress(IsdnAddress(moFsm.serviceCentreAddressDA)));
    var oa := OaToRaw(OaMsisdn(IsdnAddress(moFsm.msisdn)));
    MOForwardSMArg(da, oa, marshalTP(moFsm.tpdu))
  }

  /** A string with a character outside 0-9, a-f, A-F is written as the bare header. */
  lemma InvalidDigitsHeaderOnly(sriSm: GsmMap.SriSm)
    requires !AllHex(sriSm.msisdn)
    ensures ConvertSriSmToRoutingInfoForSMArg(sriSm).msisdn == Buf([0x91])
  {
  }

  /** Empty strings are accepted and give header-only addresses. */
  lemma EmptyStringsHeaderOnly(smRpPri: bool)
    ensures ConvertSriSmToRoutingInfoForSMArg(GsmMap.SriSm("", smRpPri, "")) == RoutingInfoForSMArg(Buf([0x91]), smRpPri, Buf([0x91]))
  {
    assert Utils.PackDigits("") == [];
  }
}
