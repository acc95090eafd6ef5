/** The records that the network functions keep in the shared store.
    Clock readings (CreatedAt, LastUpdated, EndTime, ...) and the UPF address are not part of the model. */
module Models {

  datatype Snssai = Snssai(sst: int, sd: string)

  datatype PduSession = PduSession(
    id: string, supi: string, snssai: Snssai, dnn: string, pduType: string,
    ueAddress: string, state: string, qfi: nat, ambrUl: nat, ambrDl: nat,
    chargingId: string, bsfBindingId: string)

  datatype PcfBinding = PcfBinding(
    bindingId: string, supi: string, dnn: string, snssai: Snssai,
    pcfAddress: string, ueAddress: string, pduSessionId: string)

  datatype ChargingSession = ChargingSession(
    chargingId: string, supi: string, pduSessionId: string, dnn: string, snssai: Snssai,
    chargingType: string, state: string, volumeUplink: nat, volumeDownlink: nat, grantedUnits: nat)

  datatype ChargingRecord = ChargingRecord(
    recordId: string, chargingId: string, supi: string, pduSessionId: string, dnn: string,
    snssai: Snssai, volumeUplink: nat, volumeDownlink: nat)

  datatype SliceCounters = SliceCounters(sst: int, sd: string, currentUes: int, currentSessions: int)

  datatype UeContext = UeContext(supi: string, allowedNssai: seq<Snssai>)

  const OK := 200
  const CREATED := 201
  const BAD_REQUEST := 400
  const FORBIDDEN := 403
  const NOT_FOUND := 404
  const SERVER_ERROR := 500

  /** What became of one call to another network function: it was carried out and answered,
      it never arrived, or it was carried out and its answer was lost. */
  datatype Fate = Served | Unreached | ReplyLost

  function OrDefault(text: string, default: string): string {
    if text == "" then default else text
  }

  /** n++ on a uint64. */
  function Next64(n: nat): nat {
    (n + 1) % 0x1_0000_0000_0000_0000
  }
}
