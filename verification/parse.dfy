/**
 * The field extraction of `parse.go`. The DER decode of the whole argument is
 * abstract: each parser starts from its outcome, an `Unmarshalled` record with the
 * bytes left after it, or a malformed encoding. For the FORWARD-SM operations the
 * SM-RP-DA and SM-RP-OA elements are read again as their CHOICE records, which
 * cannot fail once the outer decode succeeded; the bytes returned as left over are
 * those of the last of these inner reads, which are always empty.
 */
module Parse {
  import opened Wrappers
  import opened Slices
  import opened Asn1
  import opened MapCommon
  import opened MapSm
  import GsmMap
  import Utils

  /** The outer decode of the operation's argument failed; the result and rest are nil. */
  datatype ParseError = DecodeFailed

  /** A parsed domain record and the bytes returned beside it. */
  datatype Parsed<T> = Parsed(value: T, rest: Bytes)

  /**
   * What a getter reads from an AddressString: "" when empty, else the canonical
   * digits of the octets after the header (one string only, by
   * `Utils.CanonicalDigitsUnique`).
   */
  predicate AddressReadsAs(address: AddressString, s: string) {
    && Utils.CanonicalDigits(s)
    && (Len(address) == 0 ==> s == "")
    && (Len(address) > 0 ==> Utils.TbcdBytes(s) == Buf(Data(address)[1..]))
  }

  /** What a getter reads from an IMSI: "" when nil, else the canonical digits of all its octets. */
  predicate ImsiReadsAs(imsi: IMSI, s: string) {
    && Utils.CanonicalDigits(s)
    && (imsi.Nil? ==> s == "")
    && (imsi.Buf? ==> Utils.TbcdBytes(s) == imsi)
  }

  /** `AddressReadsAs` admits one string per address: the value of a field read through it is determined. */
  lemma AddressReadsAsUnique(address: AddressString, s1: string, s2: string)
    requires AddressReadsAs(address, s1) && AddressReadsAs(address, s2)
    ensures s1 == s2
  {
    if Len(address) > 0 {
      Utils.CanonicalDigitsUnique(s1, s2);
    }
  }

  /** As `AddressReadsAsUnique`, for `ImsiReadsAs`. */
  lemma ImsiReadsAsUnique(imsi: IMSI, s1: string, s2: string)
    requires ImsiReadsAs(imsi, s1) && ImsiReadsAs(imsi, s2)
    ensures s1 == s2
  {
    if imsi.Buf? {
      Utils.CanonicalDigitsUnique(s1, s2);
    }
  }

  /** An element with the given context-specific tag in primitive form. */
  predicate IsPrimitiveContext(raw: RawValue, tag: nat) {
    raw.tagClass == ClassContextSpecific && raw.tag == tag && !raw.isCompound
  }

  /** The IMSI `ParseMtFsm` reads from an SM-RP-DA element. */
  function DaImsiString(raw: RawValue): (s: string)
    ensures IsPrimitiveContext(raw, DaImsiTag) ==> ImsiReadsAs(Buf(Data(raw.bytes)), s)
    ensures !IsPrimitiveContext(raw, DaImsiTag) ==> s == ""
  {
    var da := DaFromRaw(raw);
    if IsPrimitiveContext(raw, DaImsiTag) then
      assert da == DaImsi(Buf(Data(raw.bytes)));
      da.GetImsiString()
    else
      assert !da.DaImsi?;
      da.GetImsiString()
  }

  /** The service-centre address `ParseMoFsm` reads from an SM-RP-DA element. */
  function DaServiceCentreAddressString(raw: RawValue): (s: string)
    ensures IsPrimitiveContext(raw, DaServiceCentreAddressTag) ==> AddressReadsAs(raw.bytes, s)
    ensures !IsPrimitiveContext(raw, DaServiceCentreAddressTag) ==> s == ""
  {
    var da := DaFromRaw(raw);
    if IsPrimitiveContext(raw, DaServiceCentreAddressTag) then
      assert da == DaServiceCentreAddress(Buf(Data(raw.bytes)));
      assert Data(da.serviceCentreAddressDA) == Data(raw.bytes);
      da.GetServiceCentreAddressDAString()
    else
      assert !da.DaServiceCentreAddress?;
      da.GetServiceCentreAddressDAString()
  }

  /** The MSISDN `ParseMoFsm` reads from an SM-RP-OA element. */
  function OaMsisdnString(raw: RawValue): (s: string)
    ensures IsPrimitiveContext(raw, OaMsisdnTag) ==> AddressReadsAs(raw.bytes, s)
    ensures !IsPrimitiveContext(raw, OaMsisdnTag) ==> s == ""
  {
    var oa := OaFromRaw(raw);
    if IsPrimitiveContext(raw, OaMsisdnTag) then
      assert oa == OaMsisdn(Buf(Data(raw.bytes)));
      assert Data(oa.msisdn) == Data(raw.bytes);
      oa.GetMsisdnString()
    else
      assert !oa.OaMsisdn?;
      oa.GetMsisdnString()
  }

  /** The service-centre address `ParseMtFsm` reads from an SM-RP-OA element. */
  function OaServiceCentreAddressString(raw: RawValue): (s: string)
    ensures IsPrimitiveContext(raw, OaServiceCentreAddressTag) ==> AddressReadsAs(raw.bytes, s)
    ensures !IsPrimitiveContext(raw, OaServiceCentreAddressTag) ==> s == ""
  {
    var oa := OaFromRaw(raw);
    if IsPrimitiveContext(raw, OaServiceCentreAddressTag) then
      assert oa == OaServiceCentreAddress(Buf(Data(raw.bytes)));
      assert Data(oa.serviceCentreAddressOA) == Data(raw.bytes);
      oa.GetServiceCentreAddressOAString()
    else
      assert !oa.OaServiceCentreAddress?;
      oa.GetServiceCentreAddressOAString()
  }

  /** `ParseSriSm`: both numbers through their getters, the priority flag as decoded. */
  function ParseSriSm(decoded: Unmarshalled<RoutingInfoForSMArg>): (r: Result<Parsed<GsmMap.SriSm>, ParseError>)
    ensures r.Failure? <==> decoded.MalformedEncoding?
    ensures r.Success? ==> r.value.rest == decoded.rest
    ensures r.Success? ==> r.value.value.smRpPri == decoded.record.smRpPri
    ensures r.Success? ==> AddressReadsAs(decoded.record.msisdn, r.value.value.msisdn)
    ensures r.Success? ==> AddressReadsAs(decoded.record.serviceCentreAddress, r.value.value.serviceCentreAddress)
  {
    match decoded
    case MalformedEncoding => Failure(DecodeFailed)
    case Unmarshalled(arg, rest) =>
      Success(Parsed(GsmMap.SriSm(arg.GetMsisdnString(), arg.smRpPri, arg.GetServiceCenterAddressString()), rest))
  }

  /** `ParseSriSmResp`: the IMSI read without a header, the network node number with one. */
  function ParseSriSmResp(decoded: Unmarshalled<RoutingInfoForSMRes>): (r: Result<Parsed<GsmMap.SriSmResp>, ParseError>)
    ensures r.Failure? <==> decoded.MalformedEncoding?
    ensures r.Success? ==> r.value.rest == decoded.rest
    ensures r.Success? ==> ImsiReadsAs(decoded.record.imsi, r.value.value.imsi)
    ensures r.Success? ==> AddressReadsAs(decoded.record.locationInfoWithLMSI.networkNodeNumber,
                                          r.value.value.locationInfoWithLMSI.networkNodeNumber)
  {
    match decoded
    case MalformedEncoding => Failure(DecodeFailed)
    case Unmarshalled(res, rest) =>
      var location := GsmMap.LocationInfoWithLMSI(res.GetNetworkNodeNumberString());
      Success(Parsed(GsmMap.SriSmResp(res.GetImsiString(), location), rest))
  }

  /**
   * `ParseMtFsm`: the IMSI from SM-RP-DA, the service-centre address from SM-RP-OA,
   * the TPDU through `unmarshalDeliver` whatever it makes of the octets, and the
   * flag set exactly when the element read for it has the NULL tag number.
   */
  function ParseMtFsm<Tpdu>(decoded: Unmarshalled<MTForwardSMArg>, unmarshalDeliver: SignalInfo -> Tpdu)
    : (r: Result<Parsed<GsmMap.MtFsm<Tpdu>>, ParseError>)
    ensures r.Failure? <==> decoded.MalformedEncoding?
    ensures r.Success? ==> r.value.rest == Buf([])
    ensures r.Success? ==> r.value.value.tpdu == unmarshalDeliver(decoded.record.smRpUi)
    ensures r.Success? ==> (r.value.value.moreMessagesToSend <==> decoded.record.moreMessagesToSend.tag == TagNull)
    ensures r.Success? ==>
      var da := decoded.record.smRpDa;
      && (IsPrimitiveContext(da, DaImsiTag) ==> ImsiReadsAs(Buf(Data(da.bytes)), r.value.value.imsi))
      && (!IsPrimitiveContext(da, DaImsiTag) ==> r.value.value.imsi == "")
    ensures r.Success? ==>
      var oa := decoded.record.smRpOa;
      && (IsPrimitiveContext(oa, OaServiceCentreAddressTag) ==> AddressReadsAs(oa.bytes, r.value.value.serviceCentreAddressOA))
      && (!IsPrimitiveContext(oa, OaServiceCentreAddressTag) ==> r.value.value.serviceCentreAddressOA == "")
  {
    match decoded
    case MalformedEncoding => Failure(DecodeFailed)
    case Unmarshalled(arg, _) =>
      var mtFsm := GsmMap.MtFsm(DaImsiString(arg.smRpDa), OaServiceCentreAddressString(arg.smRpOa),
                                unmarshalDeliver(arg.smRpUi), arg.moreMessagesToSend.tag == TagNull);
      Success(Parsed(mtFsm, Buf([])))
  }

  /**
   * `ParseMoFsm`: the service-centre address from SM-RP-DA, the MSISDN from
   * SM-RP-OA, and the TPDU through `unmarshalSubmit`.
   */
  function ParseMoFsm<Tpdu>(decoded: Unmarshalled<MOForwardSMArg>, unmarshalSubmit: SignalInfo -> Tpdu)
    : (r: Result<Parsed<GsmMap.MoFsm<Tpdu>>, ParseError>)
    ensures r.Failure? <==> decoded.MalformedEncoding?
    ensures r.Success? ==> r.value.rest == Buf([])
    ensures r.Success? ==> r.value.value.tpdu == unmarshalSubmit(decoded.record.smRpUi)
    ensures r.Success? ==>
      var da := decoded.record.smRpDa;
      && (IsPrimitiveContext(da, DaServiceCentreAddressTag) ==> AddressReadsAs(da.bytes, r.value.value.serviceCentreAddressDA))
      && (!IsPrimitiveContext(da, DaServiceCentreAddressTag) ==> r.value.value.serviceCentreAddressDA == "")
    ensures r.Success? ==>
      var oa := decoded.record.smRpOa;
      && (IsPrimitiveContext(oa, OaMsisdnTag) ==> AddressReadsAs(oa.bytes, r.value.value.msisdn))
      && (!IsPrimitiveContext(oa, OaMsisdnTag) ==> r.value.value.msisdn == "")
  {
    match decoded
    case MalformedEncoding => Failure(DecodeFailed)
    case Unmarshalled(arg, _) =>
      var moFsm := GsmMap.MoFsm(DaServiceCentreAddressString(arg.smRpDa), OaMsisdnString(arg.smRpOa), unmarshalSubmit(arg.smRpUi));
      Success(Parsed(moFsm, Buf([])))
  }

  /** The TPDU decoder decides only the TPDU: success and every other field are the same whichever one is used. */
  lemma MtTpduIndependent<T, U>(decoded: Unmarshalled<MTForwardSMArg>, deliver1: SignalInfo -> T, deliver2: SignalInfo -> U)
    ensures ParseMtFsm(decoded, deliver1).Success? == ParseMtFsm(decoded, deliver2).Success?
    ensures ParseMtFsm(decoded, deliver1).Success? ==>
      var p, q := ParseMtFsm(decoded, deliver1).value, ParseMtFsm(decoded, deliver2).value;
      && p.rest == q.rest && p.value.imsi == q.value.imsi
      && p.value.serviceCentreAddressOA == q.value.serviceCentreAddressOA
      && p.value.moreMessagesToSend == q.value.moreMessagesToSend
  {
  }

  /** As `MtTpduIndependent`, for MO-FORWARD-SM. */
  lemma MoTpduIndependent<T, U>(decoded: Unmarshalled<MOForwardSMArg>, submit1: SignalInfo -> T, submit2: SignalInfo -> U)
    ensures ParseMoFsm(decoded, submit1).Success? == ParseMoFsm(decoded, submit2).Success?
    ensures ParseMoFsm(decoded, submit1).Success? ==>
      var p, q := ParseMoFsm(decoded, submit1).value, ParseMoFsm(decoded, submit2).value;
      && p.rest == q.rest && p.value.serviceCentreAddressDA == q.value.serviceCentreAddressDA
      && p.value.msisdn == q.value.msisdn
  {
  }
}
