/**
 * The domain records of `go-map.go`: the plain-string view of the MAP operations
 * that callers build and read, with the TPDU left as an opaque type parameter.
 */
module GsmMap {
  /** SEND-ROUTING-INFO-FOR-SM request. */
  datatype SriSm = SriSm(msisdn: string, smRpPri: bool, serviceCentreAddress: string)

  datatype LocationInfoWithLMSI = LocationInfoWithLMSI(networkNodeNumber: string)

  /** SEND-ROUTING-INFO-FOR-SM response. */
  datatype SriSmResp = SriSmResp(imsi: string, locationInfoWithLMSI: LocationInfoWithLMSI)

  /** MT-FORWARD-SHORT-MESSAGE, carrying an SMS-DELIVER TPDU. */
  datatype MtFsm<Tpdu> = MtFsm(imsi: string, serviceCentreAddressOA: string, tpdu: Tpdu, moreMessagesToSend: bool)

  /** MO-FORWARD-SHORT-MESSAGE, carrying an SMS-SUBMIT TPDU. */
  datatype MoFsm<Tpdu> = MoFsm(serviceCentreAddressDA: string, msisdn: string, tpdu: Tpdu)
}
