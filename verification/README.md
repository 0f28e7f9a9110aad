# go-gsmmap core, modelled in Dafny

This project models the hand-written logic of go-gsmmap, a Go codec for the
Mobile Application Part (MAP, 3GPP TS 29.002) short-message and location
operations. It covers everything that sits above Go's reflective
`encoding/asn1` library:

- the TBCD digit codec (TBCD-STRING, section 17.7.8 of 3GPP TS 29.002) and its nibble swap;
- the GSN-Address octet codec: a 2-bit type and 6-bit length header, then 4 or 16 address octets;
- the AddressString header codec: the extension, nature-of-address and numbering-plan bits;
- the header constants;
- the field getters of the SEND-ROUTING-INFO-FOR-SM, FORWARD-SM, UPDATE-LOCATION and UPDATE-GPRS-LOCATION records;
- the SM-RP-DA / SM-RP-OA CHOICE read as a tag-to-alternative table;
- the MAP error-code name table (the MAP-Protocol localValues of section 17.5 of 3GPP TS 29.002);
- the facade conversions of `marshal.go` and `parse.go`. These are modelled at the level of the intermediate ASN.1 records.

## How the model is built

A Go byte slice is `Slices.Bytes = Nil | Buf(data)`, so that nil and empty stay distinct. The distinction matters:

- `DecodeTBCDDigits` rejects nil but accepts an empty slice;
- `DecodeAddressString` returns nil digits for an empty input, but an empty, non-nil slice for a header-only input.

Octets are `bv8`, because the source works with bit masks.

The DER layer is abstract. A parser starts from `Asn1.Unmarshalled<T>`: either the decoded record together with the bytes left over, or `MalformedEncoding`. The TPDU codec of the SMS library is passed in as function parameters.

Proof style:

- Pure code (the getters, conversions, parsers and the error table) becomes functions whose `ensures` state what the result means.
- The loops of `utils/utils.go` become methods proved against those functions:
  - `swapNibbles` fills an array in a loop;
  - `EncodeTBCDDigits` has an early-exit validation loop;
  - `BuildGSNAddress` allocates the result and copies into it.
- Each codec has its inverse and a round-trip lemma:
  - TBCD octets → digits → octets is exact;
  - digits → octets → digits is exact for the canonical strings (`Utils.CanonicalDigits`: lower-case hex digits, with no trailing 'f' when the length is even). Every decode returns one, and only one canonical string packs into given octets, so each getter's result is fixed by its octets;
  - GSN-Address build → parse is exact;
  - AddressString encode ↔ decode;
  - whole records: convert → parse, and parse → convert.

## Model

| member | source | states |
|---|---|---|
| Utils.SwapNibble | utils/utils.go:61 | the result's high nibble is the input's low nibble and vice versa |
| Utils.SwapNibbles | utils/utils.go:57-64 | the result has the input's length and every octet has its nibbles exchanged (equals `NibbleSwapped`) |
| Utils.SwapNibblesInvolution | utils/utils.go:57-64 | swapping twice gives the octets back |
| Utils.Padded | utils/utils.go:21-26 | the padded string has even length; its effect on the octets (a last high nibble 0xF) is stated by `PackDigits` |
| Utils.PackDigits | utils/utils.go:21-34 | ceil(\|s\|/2) octets; octet i holds digit 2i in bits 4-1 and digit 2i+1 (or the filler 0xF) in bits 8-5 |
| Utils.TbcdBytes | utils/utils.go:13-35 | the octets are non-nil exactly when every character is a hex digit, and then they are the TBCD packing `PackDigits` lays out |
| Utils.EncodeTBCDDigits | utils/utils.go:13-35 | fails iff some character is not in 0-9a-fA-F, reporting the first such character with nil octets; otherwise the octets are `PackDigits(s)` |
| Utils.DecodeTBCDDigits | utils/utils.go:39-53 | fails iff the input is nil; otherwise yields a canonical digit string (lower-case hex, no stray trailing 'f'), 2n digits less one when the last high nibble is the filler, digit 2k the low nibble and digit 2k+1 the high nibble of octet k |
| Utils.DecodedDigits | utils/utils.go:44-45 | what the swapped-and-hex-encoded octets spell, digit by digit, and that the last digit is 'f' iff the last octet carries the filler |
| Utils.DecodedFiller | utils/utils.go:48-50 | the last digit is 'f' exactly when the last octet's high nibble is 1111 |
| Utils.DecodedOctet | utils/utils.go:44-45 | the two digits octet k decodes to, low nibble first |
| Utils.TbcdBytesRoundTrip | utils/utils.go:13-53 | encode(decode(b)) == b for every non-nil b |
| Utils.RepackedOctets | utils/utils.go:13-53 | packing the digits read from b gives b again |
| Utils.TbcdDigitsRoundTrip | utils/utils.go:13-53 | decode(encode(s)) is the lower-case spelling of s, except that an even-length s ending in 'f'/'F' loses that digit |
| Utils.CanonicalDigitsRoundTrip | utils/utils.go:13-53 | decode(encode(s)) == s for lower-case hex s unless \|s\| is even and s ends in 'f' |
| Utils.CanonicalDigitsUnique | utils/utils.go:39-53 | two canonical digit strings with the same TBCD octets are equal, so the decode of given octets is the only canonical string packing into them |
| Utils.CanonicalDigitsDecode | utils/utils.go:39-53 | the canonical string that packs into given octets is what decoding those octets returns |
| Utils.ReadBackLength | utils/utils.go:48-50 | how many digits a round trip returns |
| Utils.ReadBackDigits | utils/utils.go:44-52 | the digits a round trip returns are a prefix of the lower-cased input |
| Utils.PackedDigitsAgree | utils/utils.go:28-45 | each digit read back equals the original digit, lower-cased |
| Utils.PackedDigitAgrees | utils/utils.go:28-45 | a digit read back from the nibble packed from c is c lower-cased |
| Utils.PackedFiller | utils/utils.go:21-26 | the packing ends with the filler nibble iff \|s\| is odd or s ends in 'f'/'F' |
| Utils.PackedLastNibble | utils/utils.go:21-34 | for even, non-empty s the last high nibble is the last digit's value |
| Utils.PackDigitsExample | utils/utils_test.go:17-18 | "123451234567890" packs to 21 43 15 32 54 76 98 f0 |
| Utils.PackedExample | utils/utils_test.go:17-18 | the octet-by-octet check behind the test vector |
| Utils.DecodeDigitsExample | utils/utils_test.go:34-40 | 21 43 15 32 54 76 98 f0 decodes to "123451234567890" |
| Utils.HeaderType | utils/utils.go:128 | the type is below 4 (bits 8-7) |
| Utils.HeaderLength | utils/utils.go:129 | the length is below 64 (bits 6-1) |
| Utils.GsnHeader | utils/utils.go:101 | the header's type and length fields read back as the type and the length masked to 6 bits |
| Utils.GsnAddress | utils/utils.go:96-106 | 1 + \|address\| octets: header 0x04 for IPv4 or 0x50 for IPv6, then the address |
| Utils.BuildGSNAddress | utils/utils.go:77-109 | an unparsable address gives nil and an error; otherwise the octets are `GsnAddress(ip)` |
| Utils.ParseGSNAddress | utils/utils.go:122-153 | a success has read the GSN-Address of the returned address off the front of the data |
| Utils.GsnAddressRoundTrip | utils/utils.go:77-153 | parsing a built address followed by any trailing octets gives the address back |
| Utils.ParseGSNAddressSucceeds | utils/utils.go:122-153 | parsing succeeds iff the data starts with the GSN-Address of some IPv4 or IPv6 address |
| Utils.ParseGSNAddressErrors | utils/utils.go:123-152 | the errors in check order: empty input, fewer than 1+len octets, type 0 with len≠4, type 1 with len≠16, types 2 and 3 |
| Hex.HexDigit | utils/utils.go:45 | the digit `hex.EncodeToString` writes for a nibble is lower-case hex |
| Hex.HexValue | utils/utils.go:28 | the nibble `hex.DecodeString` reads from a digit of either case is below 16 |
| Hex.Lower | utils/utils.go:48 | a same-length, character-by-character lower-casing |
| Hex.DigitOfValue | utils/utils.go:28-45 | writing the value of a digit gives the digit lower-cased |
| Hex.ValueOfDigit | utils/utils.go:28-45 | reading the digit written for a nibble gives the nibble |
| Hex.HighNibble | utils/utils.go:61 | bits 8-5, below 16 |
| Hex.LowNibble | utils/utils.go:61 | bits 4-1, below 16 |
| Hex.SameNibbles | utils/utils.go:61 | two octets with equal nibbles are equal |
| Hex.PairValue | utils/utils.go:28 | the octet of a digit pair has the first digit high and the second low |
| Hex.EncodeToString | utils/utils.go:45 | two lower-case digits per octet, high nibble first |
| Hex.DecodeString | utils/utils.go:28 | one octet per digit pair, equal to `PairValue` of the pair |
| Hex.SameValueDigit | utils/utils.go:44-52 | a lower-case digit with the value of c is c lower-cased |
| Hex.FillerDigit | utils/utils.go:48 | the digit written for a nibble is 'f' iff the nibble is 1111 |
| Hex.FillerValue | utils/utils.go:48 | a digit has value 1111 iff it is 'f' or 'F' |
| MapCommon.EncodeAddressString | asn1mapmodel/map-commondatatypes.go:20-23 | 1 + \|digits\| octets whose tail is the digits; the header is extension \| nature \| (plan & 0x0F), only the plan masked |
| MapCommon.DecodeAddressString | asn1mapmodel/map-commondatatypes.go:26-46 | empty input gives (0,0,0,nil); otherwise the digits are the non-nil tail, and the three fields lie in bits 8, 7-5 and 4-1 and OR back to the header |
| MapCommon.AddressStringRoundTrip | asn1mapmodel/map-commondatatypes.go:20-46 | decode(encode(e,n,p,d)) == (e,n,p,d) when each field lies in its own bits, with nil digits read back as empty |
| MapCommon.AddressStringReencode | asn1mapmodel/map-commondatatypes.go:20-46 | encode(decode(x)) == x for every non-empty x |
| MapCommon.AddressDigits | asn1mapmodel/map-sm-datatypes.go:77-85 | "" for an empty address; otherwise the one canonical digit string whose TBCD encoding is exactly the octets after the header |
| MapCommon.AddressDigitsOrError | asn1mapmodel/map-ms-datatypes.go:182-185 | fails exactly on an empty address; otherwise it agrees with `AddressDigits` |
| MapCommon.AddressDigitsIgnoreHeader | asn1mapmodel/map-sm-datatypes.go:77-94 | two addresses with the same octets after the header read as the same digits |
| MapSm.AddressNaturesInBits | asn1mapmodel/map-sm-datatypes.go:15-24 | nature constant i is i << 4, inside bits 7-5 |
| MapSm.NumberingPlansInBits | asn1mapmodel/map-sm-datatypes.go:27-39 | every numbering-plan constant lies in bits 4-1 |
| MapSm.InternationalIsdnHeaderValue | asn1mapmodel/map-sm-datatypes.go:11-29 | ExtensionNo \| AddressNatureInternational \| NumberingPlanISDN is 0x91, and it decodes to those three fields |
| MapSm.RoutingInfoForSMArg.GetMsisdnString | asn1mapmodel/map-sm-datatypes.go:77-80 | "" for an empty MSISDN; otherwise the canonical digits whose TBCD encoding is the octets after the header |
| MapSm.RoutingInfoForSMArg.GetServiceCenterAddressString | asn1mapmodel/map-sm-datatypes.go:82-85 | "" for an empty service-centre address; otherwise the canonical digits whose TBCD encoding is the octets after the header |
| MapSm.RoutingInfoForSMRes.GetImsiString | asn1mapmodel/map-sm-datatypes.go:87-89 | "" for a nil IMSI; otherwise the canonical digits whose TBCD encoding is the whole IMSI (no header skipped) |
| MapSm.RoutingInfoForSMRes.GetNetworkNodeNumberString | asn1mapmodel/map-sm-datatypes.go:91-94 | "" for an empty network node number; otherwise the canonical digits whose TBCD encoding is the octets after the header |
| MapSm.ImsiDigits | asn1mapmodel/map-sm-datatypes.go:147-149 | "" for nil; otherwise the canonical digits whose TBCD encoding is the IMSI |
| MapSm.SmRpDa.GetImsiString | asn1mapmodel/map-sm-datatypes.go:147-149 | for the [0] alternative the canonical digits whose TBCD encoding is the IMSI ("" when nil); "" for any other |
| MapSm.SmRpDa.GetServiceCentreAddressDAString | asn1mapmodel/map-sm-datatypes.go:151-154 | for the [4] alternative the canonical digits of the octets after the header ("" when empty); "" for any other |
| MapSm.SmRpOa.GetMsisdnString | asn1mapmodel/map-sm-datatypes.go:163-166 | for the [2] alternative the canonical digits of the octets after the header ("" when empty); "" for any other |
| MapSm.SmRpOa.GetServiceCentreAddressOAString | asn1mapmodel/map-sm-datatypes.go:168-171 | for the [4] alternative the canonical digits of the octets after the header ("" when empty); "" for any other |
| MapSm.DaFromRaw | asn1mapmodel/map-sm-datatypes.go:139-145 | the tag table: a context-specific primitive [0], [1] or [4] fills IMSI, LMSI or the service-centre address with the element's octets (non-nil), [5] in any form fills the NULL, and anything else fills nothing |
| MapSm.OaFromRaw | asn1mapmodel/map-sm-datatypes.go:156-161 | the tag table: primitive [2] fills the MSISDN, primitive [4] the service-centre address, [5] the NULL, anything else nothing |
| MapSm.DaToRaw | asn1mapmodel/map-sm-datatypes.go:139-145 | an alternative written as a primitive context-specific element reads back as itself, with nil octets read as empty |
| MapSm.OaToRaw | asn1mapmodel/map-sm-datatypes.go:156-161 | the same for SM-RP-OA |
| MapSm.ChoiceTagsDistinct | asn1mapmodel/map-sm-datatypes.go:141-160 | the four SM-RP-DA tags are distinct, and so are the three SM-RP-OA tags |
| MapSm.DaGettersAfterWrite | asn1mapmodel/map-sm-datatypes.go:139-154 | writing an SM-RP-DA alternative and reading it back leaves both getters unchanged |
| MapSm.ImsiReadBack | asn1mapmodel/map-sm-datatypes.go:147-149 | a nil IMSI and the empty IMSI it reads back as give the same digits |
| MapSm.AddressReadBack | asn1mapmodel/map-sm-datatypes.go:151-154 | a nil address and the empty address it reads back as give the same digits |
| MapMs.CapabilityBitPositions | asn1mapmodel/map-ms-datatypes.go:84-98 | the CAMEL phases are at bits 0..3 and the LCS capability sets at bits 0..4 |
| MapMs.NumberString | asn1mapmodel/map-ms-datatypes.go:182-190 | fails (nil input) exactly on a zero-length address; otherwise the canonical digits whose TBCD encoding is the octets after the header |
| MapMs.ImsiString | asn1mapmodel/map-ms-datatypes.go:100-102 | fails exactly on a nil IMSI; otherwise the canonical digits whose TBCD encoding is the IMSI |
| MapMs.UpdateLocationArg.GetImsiString | asn1mapmodel/map-ms-datatypes.go:100-102 | fails exactly on a nil IMSI; otherwise the canonical digits whose TBCD encoding is the IMSI |
| MapMs.UpdateLocationArg.GetMSCNumberString | asn1mapmodel/map-ms-datatypes.go:182-185 | fails exactly on an empty MSC number; otherwise the canonical digits of the octets after its header |
| MapMs.UpdateLocationArg.GetVLRNumberString | asn1mapmodel/map-ms-datatypes.go:187-190 | fails exactly on an empty VLR number; otherwise the canonical digits of the octets after its header |
| MapMs.UpdateGprsLocationArg.GetImsiString | asn1mapmodel/map-ms-datatypes.go:173-175 | fails exactly on a nil IMSI; otherwise the canonical digits whose TBCD encoding is the IMSI |
| MapMs.UpdateGprsLocationArg.GetSGSNNumberString | asn1mapmodel/map-ms-datatypes.go:177-180 | fails exactly on an empty SGSN number; otherwise the canonical digits of the octets after its header |
| MapMs.UpdateGprsLocationArg.GetSGSNAddressString | asn1mapmodel/map-ms-datatypes.go:192-194 | succeeds iff the SGSN address starts with the GSN-Address of some IP address, and then returns that address; otherwise fails with the same error `ParseGSNAddress` reports: too short for a header, data shorter than the announced length, a wrong IPv4 or IPv6 length, or an unknown address type |
| MapMs.UpdateLocationRes.GetHLRNumberString | asn1mapmodel/map-ms-datatypes.go:208-211 | fails exactly on an empty HLR number; otherwise the canonical digits of the octets after its header |
| MapMs.UpdateGprsLocationRes.GetHLRNumberString | asn1mapmodel/map-ms-datatypes.go:226-229 | fails exactly on an empty HLR number; otherwise the canonical digits of the octets after its header |
| MapMs.HeaderOnlyNumber | asn1mapmodel/map-ms-datatypes.go:182-185 | a header-only number reads as "" without error |
| MapMs.NumberStringIgnoresHeader | asn1mapmodel/map-ms-datatypes.go:182-190 | rewriting the header octet never changes a number getter's result |
| MapErrors.ErrorStrings | asn1mapmodel/map-errors.go:86-142 | the table has an entry for a code iff it lies in 1..72 and is not one of the blank positions of the enumeration |
| MapErrors.NamedCodesBelow | asn1mapmodel/map-errors.go:10-46 | the table's entries for codes up to 36 are exactly the declared ones |
| MapErrors.NamedCodesAbove | asn1mapmodel/map-errors.go:47-82 | the table's entries for codes above 36 are exactly the declared ones |
| MapErrors.GetErrorString | asn1mapmodel/map-errors.go:145-152 | the table's name when the table has an entry for the code, otherwise the fallback carrying the code |
| MapErrors.NamedErrorCodes | asn1mapmodel/map-errors.go:9-152 | an 8-bit code gets a name iff it lies in 1..72 and is not blank |
| MapErrors.UnnamedCodes | asn1mapmodel/map-errors.go:145-152 | code 0, the blank codes and codes above 72 give the fallback |
| MapErrors.AnchorNames | asn1mapmodel/map_errors_test.go:7-15 | 1 is UnknownSubscriber, 34 SystemFailure, 45 BusySubscriber |
| MapErrors.LastNames | asn1mapmodel/map-errors.go:81-82 | 71 is UnknownAlphabet and 72 UssdBusy |
| Marshal.IsdnAddress | marshal.go:28-36 | header 0x91, then the TBCD octets of valid digits, or nothing for invalid ones; it decodes as no-extension, international, ISDN |
| Marshal.ConvertSriSmToRoutingInfoForSMArg | marshal.go:25-44 | MSISDN and service-centre address are [0x91] ++ TBCD (empty on a TBCD error); SmRpPri is copied |
| Marshal.ConvertSriSmRespToRoutingInfoForSMRes | marshal.go:60-77 | the IMSI is the headerless TBCD octets (nil on error); the network node number is [0x91] ++ TBCD |
| Marshal.ConvertMtFsmToMTForwardSMArg | marshal.go:93-113 | SM-RP-DA reads as the [0] IMSI; SM-RP-OA reads as the [4] address; the TPDU is marshalled; the flag becomes the universal NULL iff set |
| Marshal.ConvertMoFsmToMOForwardSMArg | marshal.go:129-148 | SM-RP-DA reads as the [4] address; SM-RP-OA reads as the [2] MSISDN; the TPDU is marshalled |
| Marshal.InvalidDigitsHeaderOnly | marshal.go:28-33 | a non-hex MSISDN is written as the bare header [0x91] |
| Marshal.EmptyStringsHeaderOnly | marshal_test.go:81-92 | empty strings are accepted and give [0x91] addresses |
| Parse.DaImsiString | parse.go:52-72 | a primitive [0] element reads as the canonical digits of its octets (`ImsiReadsAs`); any other reads as "" |
| Parse.DaServiceCentreAddressString | parse.go:92-112 | a primitive [4] element reads as the canonical digits after its header (`AddressReadsAs`); any other reads as "" |
| Parse.OaMsisdnString | parse.go:102-113 | a primitive [2] element reads as the canonical digits after its header (`AddressReadsAs`); any other reads as "" |
| Parse.OaServiceCentreAddressString | parse.go:62-73 | a primitive [4] element reads as the canonical digits after its header (`AddressReadsAs`); any other reads as "" |
| Parse.AddressReadsAsUnique | parse.go:12-26 | at most one string is read from an AddressString, so each parsed number is determined by its octets |
| Parse.ImsiReadsAsUnique | parse.go:28-41 | at most one string is read from an IMSI |
| Parse.ParseSriSm | parse.go:12-26 | fails iff the decode failed; otherwise it returns the decoder's rest, copies SmRpPri, and reads each number as the canonical digits after its header (`AddressReadsAs`, which fixes one string) |
| Parse.ParseSriSmResp | parse.go:28-41 | fails iff the decode failed; otherwise it returns the decoder's rest, reads the IMSI as the canonical digits of all its octets and the node number as those after its header |
| Parse.ParseMtFsm | parse.go:44-81 | fails iff the outer decode failed; the rest is the empty remainder of the SM-RP-OA re-read; the IMSI comes from DA [0] and the address from OA [4], each as its canonical digits; the TPDU is decoded; the flag is set iff the element has tag NULL |
| Parse.ParseMoFsm | parse.go:84-118 | fails iff the outer decode failed; the rest is empty; the address comes from DA [4] and the MSISDN from OA [2], each as the canonical digits after its header; the TPDU is decoded |
| Parse.MtTpduIndependent | parse.go:74 | the TPDU decoder affects only the TPDU field, never success or the other fields |
| Parse.MoTpduIndependent | parse.go:115 | the same for ParseMoFsm |
| RoundTrip.IsdnDigitsRoundTrip | marshal_test.go:16-46 | a canonical digit string written as an ISDN address reads back unchanged |
| RoundTrip.IsdnAddressReencode | parse_test.go:47-56 | an address with header 0x91 is rewritten octet for octet from its digits |
| RoundTrip.IsdnReadsAsReencode | parse_test.go:47-56 | writing back whatever string is read from an address with header 0x91 gives the same address |
| RoundTrip.IsdnReadsAs | marshal.go:28-36 | the string a getter reads from the 0x91 address written from a canonical digit string is that string |
| RoundTrip.SriSmRoundTrip | marshal_test.go:16-46 | convert then parse gives back the SRI-SM request, and the decoder's rest |
| RoundTrip.SriSmRespRoundTrip | marshal_test.go:48-78 | convert then parse gives back the SRI-SM response |
| RoundTrip.MtFsmRoundTrip | parse_test.go:105-160 | convert then parse gives back the MT-FORWARD-SM, given a TPDU codec that round-trips; the rest is empty |
| RoundTrip.MoFsmRoundTrip | parse_test.go:162-228 | the same for MO-FORWARD-SM |
| RoundTrip.SriSmReencode | parse_test.go:47-56 | parse then convert reproduces a request whose addresses carry header 0x91 |
| RoundTrip.SriSmRespReencode | parse_test.go:90-100 | parse then convert reproduces a response with an IMSI and a 0x91 node number |
| RoundTrip.MtFsmReencode | parse.go:44-81 | parse then convert reproduces an MT argument with a primitive [0] IMSI, a [4] 0x91 address, and a NULL or absent flag |
| RoundTrip.MoFsmReencode | parse.go:84-118 | parse then convert reproduces an MO argument with a [4] and a [2] address, both 0x91 |

## Left out

- DER encoding and decoding by `encoding/asn1`, the `Marshal` methods (marshal.go:11-23, 46-58, 79-91, 115-127) and the `asn1.Unmarshal` calls of parse.go. These are a reflective library. The parsers start from its outcome (`Asn1.Unmarshalled`), and the conversions stop at the records it would encode.
- The TPDU codec (`MarshalTP`, `sms.UnmarshalDeliver`, `sms.UnmarshalSubmit`) is a foreign SMS library. It is passed in as function parameters, and its error is dropped as parse.go:74 and 115 drop it.
- `net.ParseIP`, `To4`, `To16` and `net.IP.String` are not modelled:
  - `Utils.BuildGSNAddress` takes the parsed address (`None` when `ParseIP` returns nil);
  - `Utils.ParseGSNAddress` and `MapMs.UpdateGprsLocationArg.GetSGSNAddressString` return the address family and octets rather than its text.
- `Utils.BuildGSNAddress` does not capture that `net.ParseIP` reads an IPv4-mapped IPv6 text as IPv4.
- The text of `fmt` errors and of the fallback message. Errors are tags (`Utils.TbcdError`, `Utils.GsnError`, `Parse.ParseError`), and the fallback is `MapErrors.Undefined(code)`.
- `Utils.EncodeTBCDDigits` does not model the `hex.DecodeString` error branch (utils/utils.go:29-31). Once the characters are checked and the string padded, it cannot fail.
- The inner SM-RP-DA/SM-RP-OA re-reads (parse.go:54-69):
  - They are modelled by `MapSm.DaFromRaw` / `MapSm.OaFromRaw`.
  - Go's decoder skips optional fields that do not match and accepts the wrapped element, so their error branches (parse.go:57-60, 66-69) cannot be reached from a successful outer decode. They are not modelled.
  - An element whose tag is outside the CHOICE fills no alternative, and its getter returns "".
- The getters of map-sm-datatypes.go are declared to return `string` but return the two results of `DecodeTBCDDigits`. They are modelled as its string component, which is "" on the nil error.
- The MT and MO conversions and records:
  - marshal.go:104-105 and 143-144 assign fields that `MTForwardSMArg` and `MOForwardSMArg` do not declare.
  - `MtFsm` and `MoFsm` are not declared; go-map.go declares only `Fsm`.
  - The model writes the values where parse.go reads them: the MT IMSI under DA [0] and the service-centre address under OA [4]; the MO address under DA [4] and the MSISDN under OA [2].
  - `GsmMap.MtFsm` and `GsmMap.MoFsm` carry the fields that marshal.go and parse.go use.
- `Utils.TbcdDigitsRoundTrip`: decode(encode(s)) is s only for canonical strings. An even-length string ending in 'f'/'F' loses that digit, and upper-case digits come back lower-case. The lemma states the exact result.
- `MapErrors.ErrorStrings`: the names are not proved pairwise distinct. The table is modelled as a partial function from code to name, entry by entry, and comparing the 55 string literals pairwise is too costly for the verifier.
- asn1mapmodel/map-er-datatypes.go holds only enumeration constants and unexported maps that nothing reads. It is not part of this model.
- The demonstration programs `mtfsm_example.go` and `sriSm_example.go` print and read the clock. They are not part of this model.
- The fields of the MAP records that the source leaves commented out (extension containers, optional indicators) are not modelled.
