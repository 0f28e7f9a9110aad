/**
 * The MAP error codes of `asn1mapmodel/map-errors.go`: the localValue of each
 * MAP-Protocol error (section 17.5 of 3GPP TS 29.002), numbered consecutively from 0
 * with blank positions for codes the package does not name, the table of their
 * names, and the lookup with its fallback for codes that have no name.
 */
module MapErrors {
  import opened Wrappers
  import opened Slices

  /** An error code; the enumeration numbers its positions 0, 1, 2, ... */
  type Error = int

  const ErrorUnknownSubscriber: Error := 1
  const ErrorUnknownMSC: Error := 3
  const ErrorUnidentifiedSubscriber: Error := 5
  const ErrorAbsentSubscriberSM: Error := 6
  const ErrorUnknownEquipment: Error := 7
  const ErrorRoamingNotAllowed: Error := 8
  const ErrorIllegalSubscriber: Error := 9
  const ErrorBearerServiceNotProvisioned: Error := 10
  const ErrorTeleserviceNotProvisioned: Error := 11
  const ErrorIllegalEquipment: Error := 12
  const ErrorCallBarred: Error := 13
  const ErrorForwardingViolation: Error := 14
  const ErrorCugReject: Error := 15
  const ErrorIllegalSSOperation: Error := 16
  const ErrorSsErrorStatus: Error := 17
  const ErrorSsNotAvailable: Error := 18
  const ErrorSsSubscriptionViolation: Error := 19
  const ErrorSsIncompatibility: Error := 20
  const ErrorFacilityNotSupported: Error := 21
  const ErrorOngoingGroupCall: Error := 22
  const ErrorNoHandoverNumberAvailable: Error := 25
  const ErrorSubsequentHandoverFailure: Error := 26
  const ErrorAbsentSubscriber: Error := 27
  const ErrorIncompatibleTerminal: Error := 28
  const ErrorShortTermDenial: Error := 29
  const ErrorLongTermDenial: Error := 30
  const ErrorSubscriberBusyForMTSMS: Error := 31
  const ErrorSmDeliveryFailure: Error := 32
  const ErrorMessageWaitingListFull: Error := 33
  const ErrorSystemFailure: Error := 34
  const ErrorDataMissing: Error := 35
  const ErrorUnexpectedDataValue: Error := 36
  const ErrorPwRegistrationFailure: Error := 37
  const ErrorNegativePWCheck: Error := 38
  const ErrorNoRoamingNumberAvailable: Error := 39
  const ErrorTargetCellOutsideGroupCallArea: Error := 42
  const ErrorNumberOfPWAttemptsViolation: Error := 43
  const ErrorNumberChanged: Error := 44
  const ErrorBusySubscriber: Error := 45
  const ErrorNoSubscriberReply: Error := 46
  const ErrorForwardingFailed: Error := 47
  const ErrorOrNotAllowed: Error := 48
  const ErrorAtiNotAllowed: Error := 49
  const ErrorNoGroupCallNumberAvailable: Error := 50
  const ErrorResourceLimitation: Error := 51
  const ErrorUnauthorizedRequestingNetwork: Error := 52
  const ErrorUnauthorizedLCSClient: Error := 53
  const ErrorPositionMethodFailure: Error := 54
  const ErrorUnknownOrUnreachableLCSClient: Error := 58
  const ErrorMmEventNotSupported: Error := 59
  const ErrorAtsiNotAllowed: Error := 60
  const ErrorAtmNotAllowed: Error := 61
  const ErrorInformationNotAvailable: Error := 62
  const ErrorUnknownAlphabet: Error := 71
  const ErrorUssdBusy: Error := 72

  /** The positions of the enumeration left blank (position 0 included). */
  predicate Blank(code: Error)
  {
    code == 0 || code == 2 || code == 4 || 23 <= code <= 24 || 40 <= code <= 41 || 55 <= code <= 57 || 63 <= code <= 70
  }

  /**
   * The `errorStrings` table as a partial function of the code: an entry exactly for
   * the codes the enumeration declares, 1..72 less the blanks.
   */
  function ErrorStrings(code: Error): (name: Option<string>)
    ensures name.Some? <==> 1 <= code <= 72 && !Blank(code)
  {
    if code <= 36 then
      NamedCodesBelow(code);
      ErrorTable(code)
    else
      NamedCodesAbove(code);
      ErrorTable(code)
  }

  /** The entries of the table, in the order the source lists them. */
  function ErrorTable(code: Error): Option<string>
  {
    if code == ErrorUnknownSubscriber then Some("UnknownSubscriber") else
    if code == ErrorUnknownMSC then Some("UnknownMSC") else
    if code == ErrorUnidentifiedSubscriber then Some("UnidentifiedSubscriber") else
    if code == ErrorAbsentSubscriberSM then Some("AbsentSubscriberSM") else
    if code == ErrorUnknownEquipment then Some("UnknownEquipment") else
    if code == ErrorRoamingNotAllowed then Some("RoamingNotAllowed") else
    if code == ErrorIllegalSubscriber then Some("IllegalSubscriber") else
    if code == ErrorBearerServiceNotProvisioned then Some("BearerServiceNotProvisioned") else
    if code == ErrorTeleserviceNotProvisioned then Some("TeleserviceNotProvisioned") else
    if code == ErrorIllegalEquipment then Some("IllegalEquipment") else
    if code == ErrorCallBarred then Some("CallBarred") else
    if code == ErrorForwardingViolation then Some("ForwardingViolation") else
    if code == ErrorCugReject then Some("CugReject") else
    if code == ErrorIllegalSSOperation then Some("IllegalSSOperation") else
    if code == ErrorSsErrorStatus then Some("SsErrorStatus") else
    if code == ErrorSsNotAvailable then Some("SsNotAvailable") else
    if code == ErrorSsSubscriptionViolation then Some("SsSubscriptionViolation") else
    if code == ErrorSsIncompatibility then Some("SsIncompatibility") else
    if code == ErrorFacilityNotSupported then Some("FacilityNotSupported") else
    if code == ErrorOngoingGroupCall then Some("OngoingGroupCall") else
    if code == ErrorNoHandoverNumberAvailable then Some("NoHandoverNumberAvailable") else
    if code == ErrorAbsentSubscriber then Some("AbsentSubscriber") else
    if code == ErrorSubscriberBusyForMTSMS then Some("SubscriberBusyForMTSMS") else
    if code == ErrorSmDeliveryFailure then Some("SmDeliveryFailure") else
    if code == ErrorMessageWaitingListFull then Some("MessageWaitingListFull") else
    if code == ErrorSystemFailure then Some("SystemFailure") else
    if code == ErrorDataMissing then Some("DataMissing") else
    if code == ErrorUnexpectedDataValue then Some("UnexpectedDataValue") else
    if code == ErrorPwRegistrationFailure then Some("PwRegistrationFailure") else
    if code == ErrorNegativePWCheck then Some("NegativePWCheck") else
    if code == ErrorNoRoamingNumberAvailable then Some("NoRoamingNumberAvailable") else
    if code == ErrorBusySubscriber then Some("BusySubscriber") else
    if code == ErrorNoSubscriberReply then Some("NoSubscriberReply") else
    if code == ErrorForwardingFailed then Some("ForwardingFailed") else
    if code == ErrorOrNotAllowed then Some("OrNotAllowed") else
    if code == ErrorAtiNotAllowed then Some("AtiNotAllowed") else
    if code == ErrorNoGroupCallNumberAvailable then Some("NoGroupCallNumberAvailable") else
    if code == ErrorResourceLimitation then Some("ResourceLimitation") else
    if code == ErrorUnauthorizedRequestingNetwork then Some("UnauthorizedRequestingNetwork") else
    if code == ErrorUnauthorizedLCSClient then Some("UnauthorizedLCSClient") else
    if code == ErrorPositionMethodFailure then Some("PositionMethodFailure") else
    if code == ErrorUnknownAlphabet then Some("UnknownAlphabet") else
    if code == ErrorUssdBusy then Some("UssdBusy") else
    if code == ErrorInformationNotAvailable then Some("InformationNotAvailable") else
    if code == ErrorAtmNotAllowed then Some("AtmNotAllowed") else
    if code == ErrorMmEventNotSupported then Some("MmEventNotSupported") else
    if code == ErrorAtsiNotAllowed then Some("AtsiNotAllowed") else
    if code == ErrorNumberOfPWAttemptsViolation then Some("NumberOfPWAttemptsViolation") else
    if code == ErrorNumberChanged then Some("NumberChanged") else
    if code == ErrorTargetCellOutsideGroupCallArea then Some("TargetCellOutsideGroupCallArea") else
    if code == ErrorUnknownOrUnreachableLCSClient then Some("UnknownOrUnreachableLCSClient") else
    if code == ErrorSubsequentHandoverFailure then Some("SubsequentHandoverFailure") else
    if code == ErrorLongTermDenial then Some("LongTermDenial") else
    if code == ErrorShortTermDenial then Some("ShortTermDenial") else
    if code == ErrorIncompatibleTerminal then Some("IncompatibleTerminal") else
    None
  }
  /** The table's entries up to code 36: every declared code and no other. */
  lemma NamedCodesBelow(code: Error)
    requires code <= 36
    ensures ErrorTable(code).Some? <==> 1 <= code && !Blank(code)
  {
  }

  /** The table's entries above code 36: every declared code and no other. */
  lemma NamedCodesAbove(code: Error)
    requires code > 36
    ensures ErrorTable(code).Some? <==> code <= 72 && !Blank(code)
  {
  }

  /** What `GetErrorString` gives: the name of a code, or the fallback message for it. */
  datatype ErrorText = Named(name: string) | Undefined(code: Error)

  /**
   * `GetErrorString`: the table's name for an 8-bit code, or the fallback carrying
   * the code when the table has no entry for it.
   */
  function GetErrorString(errCode: byte): (r: ErrorText)
    ensures r.Named? <==> ErrorStrings(errCode as int).Some?
    ensures r.Named? ==> ErrorStrings(errCode as int) == Some(r.name)
    ensures r.Undefined? ==> r.code == errCode as int
  {
    match ErrorStrings(errCode as int)
    case Some(name) => Named(name)
    case None => Undefined(errCode as int)
  }

  /** An 8-bit code has a name exactly when the enumeration declares it: 1..72 less the blanks. */
  lemma NamedErrorCodes(errCode: byte)
    ensures GetErrorString(errCode).Named? <==> 1 <= errCode as int <= 72 && !Blank(errCode as int)
  {
  }

  /** Code 0, the blank positions and every code above 72 fall back to the message for the code. */
  lemma UnnamedCodes(errCode: byte)
    requires Blank(errCode as int) || errCode as int > 72
    ensures GetErrorString(errCode) == Undefined(errCode as int)
  {
    NamedErrorCodes(errCode);
  }

  /** Named codes at the start of the table and in between. */
  lemma AnchorNames()
    ensures GetErrorString(1) == Named("UnknownSubscriber")
    ensures GetErrorString(34) == Named("SystemFailure")
    ensures GetErrorString(45) == Named("BusySubscriber")
  {
  }

  /** The last two codes, declared after the longest run of blanks. */
  lemma LastNames()
    ensures GetErrorString(71) == Named("UnknownAlphabet")
    ensures GetErrorString(72) == Named("UssdBusy")
  {
  }
}
