/**
 * Short-message data types of `asn1mapmodel/map-sm-datatypes.go`: the AddressString
 * header constants, the SEND-ROUTING-INFO-FOR-SM and FORWARD-SM argument records,
 * the SM-RP-DA / SM-RP-OA CHOICE types and the getters that read digit strings out
 * of them.
 */
module MapSm {
  import opened Slices
  import opened Asn1
  import opened MapCommon
  import Utils

  // ---------------------------------------------------------------------------
  // AddressString header constants
  // ---------------------------------------------------------------------------

  /** Bit 8 set: no extension. */
  const ExtensionNo: byte := 0x80

  /** Nature of address, bits 7-5. */
  const AddressNatureUnknown: byte := 0 << 4
  const AddressNatureInternational: byte := 1 << 4
  const AddressNatureNational: byte := 2 << 4
  const AddressNatureNetworkSpecific: byte := 3 << 4
  const AddressNatureSubscriber: byte := 4 << 4
  const AddressNatureReserved: byte := 5 << 4
  const AddressNatureAbbreviated: byte := 6 << 4
  const AddressNatureReservedExtension: byte := 7 << 4

  /** Numbering plan, bits 4-1. */
  const NumberingPlanUnknown: byte := 0x0
  const NumberingPlanISDN: byte := 0x1
  const NumberingPlanSpare1: byte := 0x2
  const NumberingPlanData: byte := 0x3
  const NumberingPlanTelex: byte := 0x4
  const NumberingPlanSpare2: byte := 0x5
  const NumberingPlanLandMobile: byte := 0x6
  const NumberingPlanSpare3: byte := 0x7
  const NumberingPlanNational: byte := 0x8
  const NumberingPlanPrivate: byte := 0x9
  const NumberingPlanReservedExtension: byte := 0xF

  const AddressNatures: seq<byte> := [AddressNatureUnknown, AddressNatureInternational, AddressNatureNational,
    AddressNatureNetworkSpecific, AddressNatureSubscriber, AddressNatureReserved, AddressNatureAbbreviated,
    AddressNatureReservedExtension]

  const NumberingPlans: seq<byte> := [NumberingPlanUnknown, NumberingPlanISDN, NumberingPlanSpare1, NumberingPlanData,
    NumberingPlanTelex, NumberingPlanSpare2, NumberingPlanLandMobile, NumberingPlanSpare3, NumberingPlanNational,
    NumberingPlanPrivate, NumberingPlanReservedExtension]

  /** Every nature-of-address value lies in bits 7-5, and the eight are distinct. */
  lemma AddressNaturesInBits()
    ensures forall i :: 0 <= i < |AddressNatures| ==> AddressNatures[i] & !NatureMask == 0 && AddressNatures[i] == (i as byte) << 4
  {
  }

  /** Every numbering plan value lies in bits 4-1. */
  lemma NumberingPlansInBits()
    ensures forall i :: 0 <= i < |NumberingPlans| ==> NumberingPlans[i] & !PlanMask == 0
  {
  }

  /** The header every address of this code base is written with. */
  const InternationalIsdnHeader: byte := ExtensionNo | AddressNatureInternational | NumberingPlanISDN

  /** No extension, international number, ISDN/telephony plan: the octet 0x91. */
  lemma InternationalIsdnHeaderValue()
    ensures InternationalIsdnHeader == 0x91
    ensures var f := DecodeAddressString(Slices.Buf([InternationalIsdnHeader]));
            f.extension == ExtensionNo && f.natureOfAddress == AddressNatureInternational && f.numberingPlan == NumberingPlanISDN
  {
  }

  // ---------------------------------------------------------------------------
  // SEND-ROUTING-INFO-FOR-SM
  // ---------------------------------------------------------------------------

  /** RoutingInfoForSM-Arg: MSISDN [0], sm-RP-PRI [1], serviceCentreAddress [2]. */
  datatype RoutingInfoForSMArg = RoutingInfoForSMArg(msisdn: ISDNAddressString, smRpPri: bool, serviceCentreAddress: AddressString)
  {
    /** `GetMsisdnString`: the digits after the MSISDN header, "" when the MSISDN is empty. */
    function GetMsisdnString(): (s: string)
      ensures Utils.CanonicalDigits(s)
      ensures Len(msisdn) == 0 ==> s == ""
      ensures Len(msisdn) > 0 ==> Utils.TbcdBytes(s) == Buf(Data(msisdn)[1..])
    {
      AddressDigits(msisdn)
    }

    /** `GetServiceCenterAddressString`: the digits after the service-centre address header. */
    function GetServiceCenterAddressString(): (s: string)
      ensures Utils.CanonicalDigits(s)
      ensures Len(serviceCentreAddress) == 0 ==> s == ""
      ensures Len(serviceCentreAddress) > 0 ==> Utils.TbcdBytes(s) == Buf(Data(serviceCentreAddress)[1..])
    {
      AddressDigits(serviceCentreAddress)
    }
  }

  /** LocationInfoWithLMSI: networkNode-Number [1]. */
  datatype LocationInfoWithLMSI = LocationInfoWithLMSI(networkNodeNumber: ISDNAddressString)

  /** RoutingInfoForSM-Res: the IMSI, then locationInfoWithLMSI [0]. */
  datatype RoutingInfoForSMRes = RoutingInfoForSMRes(imsi: IMSI, locationInfoWithLMSI: LocationInfoWithLMSI)
  {
    /** `GetImsiString`: the IMSI octets are TBCD digits with no header; "" when nil. */
    function GetImsiString(): (s: string)
      ensures Utils.CanonicalDigits(s)
      ensures imsi.Nil? ==> s == ""
      ensures imsi.Buf? ==> Utils.TbcdBytes(s) == imsi
    {
      ImsiDigits(imsi)
    }

    /** `GetNetworkNodeNumberString`: the digits after the network node number header. */
    function GetNetworkNodeNumberString(): (s: string)
      ensures Utils.CanonicalDigits(s)
      ensures Len(locationInfoWithLMSI.networkNodeNumber) == 0 ==> s == ""
      ensures Len(locationInfoWithLMSI.networkNodeNumber) > 0 ==>
        Utils.TbcdBytes(s) == Buf(Data(locationInfoWithLMSI.networkNodeNumber)[1..])
    {
      AddressDigits(locationInfoWithLMSI.networkNodeNumber)
    }
  }

  /** The digit string of an IMSI as the getters read it: its TBCD decode, "" when nil. */
  function ImsiDigits(imsi: IMSI): (s: string)
    ensures Utils.CanonicalDigits(s)
    ensures imsi.Nil? ==> s == ""
    ensures imsi.Buf? ==> Utils.TbcdBytes(s) == imsi
  {
    if imsi.Buf? then
      Utils.TbcdBytesRoundTrip(imsi.data);
      Utils.DecodeTBCDDigits(imsi).GetOr("")
    else
      Utils.DecodeTBCDDigits(imsi).GetOr("")
  }

  // ---------------------------------------------------------------------------
  // FORWARD-SM arguments
  // ---------------------------------------------------------------------------

  /**
   * MT-ForwardSM-Arg: SM-RP-DA and SM-RP-OA kept as undecoded elements, the TPDU,
   * and moreMessagesToSend, which holds a NULL when present and the zero RawValue
   * when absent.
   */
  datatype MTForwardSMArg = MTForwardSMArg(smRpDa: RawValue, smRpOa: RawValue, smRpUi: SignalInfo, moreMessagesToSend: RawValue)

  /** MO-ForwardSM-Arg: SM-RP-DA, SM-RP-OA and the TPDU. */
  datatype MOForwardSMArg = MOForwardSMArg(smRpDa: RawValue, smRpOa: RawValue, smRpUi: SignalInfo)

  // ---------------------------------------------------------------------------
  // SM-RP-DA and SM-RP-OA
  // ---------------------------------------------------------------------------

  /** Context-specific tags of the SM-RP-DA alternatives. */
  const DaImsiTag: nat := 0
  const DaLmsiTag: nat := 1
  const DaServiceCentreAddressTag: nat := 4
  const NoSmRpDaTag: nat := 5

  /** Context-specific tags of the SM-RP-OA alternatives. */
  const OaMsisdnTag: nat := 2
  const OaServiceCentreAddressTag: nat := 4
  const NoSmRpOaTag: nat := 5

  /**
   * SM-RP-DA as the decoder fills it: at most one alternative is present.
   * `DaNone` is the record with every field at its zero value, which is what an
   * element with a tag outside the table leaves behind.
   */
  datatype SmRpDa =
    | DaImsi(imsi: IMSI)
    | DaLmsi(lmsi: LMSI)
    | DaServiceCentreAddress(serviceCentreAddressDA: AddressString)
    | NoSmRpDa
    | DaNone
  {
    /** `GetImsiString`: the IMSI digits, "" when another alternative is present. */
    function GetImsiString(): (s: string)
      ensures Utils.CanonicalDigits(s)
      ensures DaImsi? && imsi.Nil? ==> s == ""
      ensures DaImsi? && imsi.Buf? ==> Utils.TbcdBytes(s) == imsi
      ensures !DaImsi? ==> s == ""
    {
      if DaImsi? then ImsiDigits(imsi) else ImsiDigits(Nil)
    }

    /** `GetServiceCentreAddressDAString`: the service-centre address digits, or "". */
    function GetServiceCentreAddressDAString(): (s: string)
      ensures Utils.CanonicalDigits(s)
      ensures DaServiceCentreAddress? && Len(serviceCentreAddressDA) == 0 ==> s == ""
      ensures DaServiceCentreAddress? && Len(serviceCentreAddressDA) > 0 ==>
        Utils.TbcdBytes(s) == Buf(Data(serviceCentreAddressDA)[1..])
      ensures !DaServiceCentreAddress? ==> s == ""
    {
      if DaServiceCentreAddress? then AddressDigits(serviceCentreAddressDA) else AddressDigits(Nil)
    }
  }

  /** SM-RP-OA as the decoder fills it; `OaNone` as for `DaNone`. */
  datatype SmRpOa =
    | OaMsisdn(msisdn: ISDNAddressString)
    | OaServiceCentreAddress(serviceCentreAddressOA: AddressString)
    | NoSmRpOa
    | OaNone
  {
    /** `GetMsisdnString`: the MSISDN digits, "" when another alternative is present. */
    function GetMsisdnString(): (s: string)
      ensures Utils.CanonicalDigits(s)
      ensures OaMsisdn? && Len(msisdn) == 0 ==> s == ""
      ensures OaMsisdn? && Len(msisdn) > 0 ==> Utils.TbcdBytes(s) == Buf(Data(msisdn)[1..])
      ensures !OaMsisdn? ==> s == ""
    {
      if OaMsisdn? then AddressDigits(msisdn) else AddressDigits(Nil)
    }

    /** `GetServiceCentreAddressOAString`: the service-centre address digits, or "". */
    function GetServiceCentreAddressOAString(): (s: string)
      ensures Utils.CanonicalDigits(s)
      ensures OaServiceCentreAddress? && Len(serviceCentreAddressOA) == 0 ==> s == ""
      ensures OaServiceCentreAddress? && Len(serviceCentreAddressOA) > 0 ==>
        Utils.TbcdBytes(s) == Buf(Data(serviceCentreAddressOA)[1..])
      ensures !OaServiceCentreAddress? ==> s == ""
    {
      if OaServiceCentreAddress? then AddressDigits(serviceCentreAddressOA) else AddressDigits(Nil)
    }
  }

  /**
   * Reading an SM-RP-DA element into the SMRPDA record: the fields are tried in
   * order and the one whose context-specific tag matches takes the element. The
   * octet-string alternatives must be primitive; the NULL alternative is a RawValue
   * and takes any form. The decoded contents are a fresh, non-nil slice.
   */
  function DaFromRaw(raw: RawValue): (da: SmRpDa)
    ensures da.DaNone? <==> raw.tagClass != ClassContextSpecific || raw.tag !in {DaImsiTag, DaLmsiTag, DaServiceCentreAddressTag, NoSmRpDaTag}
                              || (raw.tag != NoSmRpDaTag && raw.isCompound)
    ensures da.DaImsi? <==> raw.tagClass == ClassContextSpecific && raw.tag == DaImsiTag && !raw.isCompound
    ensures da.DaLmsi? <==> raw.tagClass == ClassContextSpecific && raw.tag == DaLmsiTag && !raw.isCompound
    ensures da.DaServiceCentreAddress? <==> raw.tagClass == ClassContextSpecific && raw.tag == DaServiceCentreAddressTag && !raw.isCompound
    ensures da.NoSmRpDa? <==> raw.tagClass == ClassContextSpecific && raw.tag == NoSmRpDaTag
    ensures da.DaImsi? ==> da.imsi == Buf(Data(raw.bytes))
    ensures da.DaLmsi? ==> da.lmsi == Buf(Data(raw.bytes))
    ensures da.DaServiceCentreAddress? ==> da.serviceCentreAddressDA == Buf(Data(raw.bytes))
  {
    if raw.tagClass != ClassContextSpecific then DaNone
    else if raw.tag == DaImsiTag && !raw.isCompound then DaImsi(Buf(Data(raw.bytes)))
    else if raw.tag == DaLmsiTag && !raw.isCompound then DaLmsi(Buf(Data(raw.bytes)))
    else if raw.tag == DaServiceCentreAddressTag && !raw.isCompound then DaServiceCentreAddress(Buf(Data(raw.bytes)))
    else if raw.tag == NoSmRpDaTag then NoSmRpDa
    else DaNone
  }

  /** Reading an SM-RP-OA element into the SMRPOA record, as for `DaFromRaw`. */
  function OaFromRaw(raw: RawValue): (oa: SmRpOa)
    ensures oa.OaNone? <==> raw.tagClass != ClassContextSpecific || raw.tag !in {OaMsisdnTag, OaServiceCentreAddressTag, NoSmRpOaTag}
                              || (raw.tag != NoSmRpOaTag && raw.isCompound)
    ensures oa.OaMsisdn? <==> raw.tagClass == ClassContextSpecific && raw.tag == OaMsisdnTag && !raw.isCompound
    ensures oa.OaServiceCentreAddress? <==> raw.tagClass == ClassContextSpecific && raw.tag == OaServiceCentreAddressTag && !raw.isCompound
    ensures oa.NoSmRpOa? <==> raw.tagClass == ClassContextSpecific && raw.tag == NoSmRpOaTag
    ensures oa.OaMsisdn? ==> oa.msisdn == Buf(Data(raw.bytes))
    ensures oa.OaServiceCentreAddress? ==> oa.serviceCentreAddressOA == Buf(Data(raw.bytes))
  {
    if raw.tagClass != ClassContextSpecific then OaNone
    else if raw.tag == OaMsisdnTag && !raw.isCompound then OaMsisdn(Buf(Data(raw.bytes)))
    else if raw.tag == OaServiceCentreAddressTag && !raw.isCompound then OaServiceCentreAddress(Buf(Data(raw.bytes)))
    else if raw.tag == NoSmRpOaTag then NoSmRpOa
    else OaNone
  }

  /** The element an SM-RP-DA alternative is written as: its tag, primitive, its octets. */
  function DaToRaw(da: SmRpDa): (raw: RawValue)
    requires !da.DaNone?
    ensures raw.tagClass == ClassContextSpecific && !raw.isCompound
    ensures DaFromRaw(raw) == NormaliseDa(da)
  {
    match da
    case DaImsi(imsi) => RawValue(ClassContextSpecific, DaImsiTag, false, imsi)
    case DaLmsi(lmsi) => RawValue(ClassContextSpecific, DaLmsiTag, false, lmsi)
    case DaServiceCentreAddress(a) => RawValue(ClassContextSpecific, DaServiceCentreAddressTag, false, a)
    case NoSmRpDa => RawValue(ClassContextSpecific, NoSmRpDaTag, false, Buf([]))
  }

  /** The element an SM-RP-OA alternative is written as. */
  function OaToRaw(oa: SmRpOa): (raw: RawValue)
    requires !oa.OaNone?
    ensures raw.tagClass == ClassContextSpecific && !raw.isCompound
    ensures OaFromRaw(raw) == NormaliseOa(oa)
  {
    match oa
    case OaMsisdn(msisdn) => RawValue(ClassContextSpecific, OaMsisdnTag, false, msisdn)
    case OaServiceCentreAddress(a) => RawValue(ClassContextSpecific, OaServiceCentreAddressTag, false, a)
    case NoSmRpOa => RawValue(ClassContextSpecific, NoSmRpOaTag, false, Buf([]))
  }

  /** A nil slice is written as an empty OCTET STRING and read back empty but non-nil. */
  function NonNil(b: Bytes): Bytes {
    Buf(Data(b))
  }

  function NormaliseDa(da: SmRpDa): SmRpDa {
    match da
    case DaImsi(imsi) => DaImsi(NonNil(imsi))
    case DaLmsi(lmsi) => DaLmsi(NonNil(lmsi))
    case DaServiceCentreAddress(a) => DaServiceCentreAddress(NonNil(a))
    case _ => da
  }

  function NormaliseOa(oa: SmRpOa): SmRpOa {
    match oa
    case OaMsisdn(msisdn) => OaMsisdn(NonNil(msisdn))
    case OaServiceCentreAddress(a) => OaServiceCentreAddress(NonNil(a))
    case _ => oa
  }

  /** Within each CHOICE the alternatives' tags are distinct, so writing one and reading back cannot pick another. */
  lemma ChoiceTagsDistinct()
    ensures |{DaImsiTag, DaLmsiTag, DaServiceCentreAddressTag, NoSmRpDaTag}| == 4
    ensures |{OaMsisdnTag, OaServiceCentreAddressTag, NoSmRpOaTag}| == 3
  {
  }

  /** Reading SM-RP-DA back never changes which alternative was written, nor its digits. */
  lemma DaGettersAfterWrite(da: SmRpDa)
    requires !da.DaNone?
    ensures DaFromRaw(DaToRaw(da)).GetImsiString() == da.GetImsiString()
    ensures DaFromRaw(DaToRaw(da)).GetServiceCentreAddressDAString() == da.GetServiceCentreAddressDAString()
  {
    assert DaFromRaw(DaToRaw(da)) == NormaliseDa(da);
    match da
    case DaImsi(imsi) => ImsiReadBack(imsi);
    case DaServiceCentreAddress(a) => AddressReadBack(a);
    case DaLmsi(lmsi) => assert NormaliseDa(da).DaLmsi?;
    case NoSmRpDa =>
  }

  /** An IMSI read back from an empty element is "", as the nil IMSI it was written from. */
  lemma ImsiReadBack(imsi: IMSI)
    ensures DaImsi(NonNil(imsi)).GetImsiString() == DaImsi(imsi).GetImsiString()
  {
    if imsi.Nil? {
      assert NonNil(imsi) == Buf([]);
      assert Utils.DecodeTBCDDigits(Buf([])) == Wrappers.Success("");
    }
  }

  /** An address read back from an empty element is "", as the nil address it was written from. */
  lemma AddressReadBack(a: AddressString)
    ensures DaServiceCentreAddress(NonNil(a)).GetServiceCentreAddressDAString() == DaServiceCentreAddress(a).GetServiceCentreAddressDAString()
  {
    if a.Nil? {
      assert Len(NonNil(a)) == 0;
    }
  }
}
