/**
 * General MAP data types of `asn1mapmodel/map-commondatatypes.go`: the octet-string
 * types, and the AddressString codec. An AddressString is one header octet (bit 8
 * the extension indicator, bits 7-5 the nature of address, bits 4-1 the numbering
 * plan) followed by the TBCD digits of the number.
 */
module MapCommon {
  import opened Slices
  import opened Wrappers
  import Utils

  /** AddressString: OCTET STRING, the header octet then TBCD digits. */
  type AddressString = Bytes

  type ISDNAddressString = AddressString

  type SignalInfo = Bytes

  /** IMSI: TBCD digits of MCC, MNC and MSIN, with no header octet. */
  type IMSI = Bytes

  type LMSI = Bytes

  /** The masks `DecodeAddressString` splits the header with. */
  const ExtensionMask: byte := 0x80
  const NatureMask: byte := 0x70
  const PlanMask: byte := 0x0F

  /** The four results of `DecodeAddressString`. */
  datatype AddressFields = AddressFields(extension: byte, natureOfAddress: byte, numberingPlan: byte, digits: Bytes)

  /**
   * `EncodeAddressString`: the header octet, then the digit octets. Only the
   * numbering plan is masked; the extension and nature are ORed in as given.
   */
  function EncodeAddressString(extension: byte, natureOfAddress: byte, numberingPlan: byte, digits: Bytes): (r: AddressString)
    ensures r.Buf? && |r.data| == 1 + Len(digits) && r.data[1..] == Data(digits)
    ensures r.data[0] & PlanMask == (extension | natureOfAddress | numberingPlan) & PlanMask
    ensures r.data[0] & !PlanMask == (extension | natureOfAddress) & !PlanMask
  {
    var firstOctet := extension | natureOfAddress | (numberingPlan & 0x0F);
    Buf([firstOctet] + Data(digits))
  }

  /**
   * `DecodeAddressString`: empty input gives zero fields and nil digits; otherwise
   * the three header fields and the octets after the header, which form an empty,
   * non-nil slice when there are none.
   */
  function DecodeAddressString(encoded: AddressString): (r: AddressFields)
    ensures Len(encoded) == 0 ==> r == AddressFields(0, 0, 0, Nil)
    ensures Len(encoded) > 0 ==> r.digits == Buf(Data(encoded)[1..])
    ensures r.extension & !ExtensionMask == 0 && r.natureOfAddress & !NatureMask == 0 && r.numberingPlan & !PlanMask == 0
    ensures Len(encoded) > 0 ==> r.extension | r.natureOfAddress | r.numberingPlan == Data(encoded)[0]
  {
    if Len(encoded) == 0 then AddressFields(0, 0, 0, Nil)
    else
      var firstOctet := Data(encoded)[0];
      var digits := if Len(encoded) > 1 then Buf(Data(encoded)[1..]) else assert Data(encoded)[1..] == []; Buf([]);
      AddressFields(firstOctet & 0x80, firstOctet & 0x70, firstOctet & 0x0F, digits)
  }

  /**
   * Decoding an encoded address gives back its parts when each header field lies in
   * its own bits; the digits come back non-nil even when they were nil.
   */
  lemma AddressStringRoundTrip(extension: byte, natureOfAddress: byte, numberingPlan: byte, digits: Bytes)
    requires extension == 0 || extension == ExtensionMask
    requires natureOfAddress & !NatureMask == 0
    requires numberingPlan & !PlanMask == 0
    ensures DecodeAddressString(EncodeAddressString(extension, natureOfAddress, numberingPlan, digits)) ==
      AddressFields(extension, natureOfAddress, numberingPlan, Buf(Data(digits)))
  {
    var h := (EncodeAddressString(extension, natureOfAddress, numberingPlan, digits)).data[0];
    assert h == extension | natureOfAddress | numberingPlan;
  }

  /** Re-encoding the decoded parts of a non-empty address gives the same octets. */
  lemma AddressStringReencode(encoded: AddressString)
    requires Len(encoded) > 0
    ensures var f := DecodeAddressString(encoded);
            EncodeAddressString(f.extension, f.natureOfAddress, f.numberingPlan, f.digits) == encoded
  {
    var f := DecodeAddressString(encoded);
    var r := EncodeAddressString(f.extension, f.natureOfAddress, f.numberingPlan, f.digits);
    assert r.data == [Data(encoded)[0]] + Data(encoded)[1..];
  }

  /**
   * The digit string of an address, as the getters read it: the TBCD decode of the
   * octets after the header, or "" for an empty address (whose digits are nil).
   * Otherwise it is the one canonical digit string (`Utils.CanonicalDigitsUnique`)
   * that packs into those octets.
   */
  function AddressDigits(address: AddressString): (s: string)
    ensures Utils.CanonicalDigits(s)
    ensures Len(address) == 0 ==> s == ""
    ensures Len(address) > 0 ==> Utils.TbcdBytes(s) == Buf(Data(address)[1..])
  {
    var digits := DecodeAddressString(address).digits;
    if digits.Buf? then
      Utils.TbcdBytesRoundTrip(digits.data);
      Utils.DecodeTBCDDigits(digits).GetOr("")
    else
      Utils.DecodeTBCDDigits(digits).GetOr("")
  }

  /** As `AddressDigits`, with the decoder's error kept: it fails exactly on an empty address. */
  function AddressDigitsOrError(address: AddressString): (r: Result<string, Utils.TbcdError>)
    ensures r.Failure? <==> Len(address) == 0
    ensures r.Success? ==> r.value == AddressDigits(address)
  {
    Utils.DecodeTBCDDigits(DecodeAddressString(address).digits)
  }

  /** The digits read from an address do not depend on its header octet. */
  lemma AddressDigitsIgnoreHeader(a: AddressString, b: AddressString)
    requires Len(a) > 0 && Len(b) > 0 && Data(a)[1..] == Data(b)[1..]
    ensures AddressDigits(a) == AddressDigits(b)
    ensures AddressDigitsOrError(a) == AddressDigitsOrError(b)
  {
    assert DecodeAddressString(a).digits == DecodeAddressString(b).digits;
  }
}
