/**
 * The LMIC MAC library as the application sees it: a foreign collaborator
 * reduced to the state the application reads or changes. Radio, timing,
 * encryption and the event engine are not modelled; events are delivered
 * by calling the handler's `OnEvent` directly, and the fields the MAC
 * itself updates (the pending flag, the received frame) are set by the
 * environment between calls.
 */
module Lmic {
  import opened Wrappers
  import opened Payload

  /** One `LMIC_setTxData2(port, data, dlen, confirmed)` call. */
  datatype Uplink = Uplink(port: nat, data: seq<byte>, confirmed: nat)

  class Mac {
    /** `LMIC.opmode & OP_TXRXPEND`: a transmission or its receive windows are in progress. */
    var txrxPending: bool
    /** `LMIC.frame[LMIC.dataBeg ..]` limited to `LMIC.dataLen` bytes: the last downlink. */
    var rxData: seq<byte>
    /** Every uplink handed to the MAC, oldest first. */
    var uplinks: seq<Uplink>
    /** When `sendjob` is queued, the time it is due. */
    var sendjob: Option<int>
    /** The last `LMIC_setLinkCheckMode` argument since the reset. */
    var linkCheckMode: Option<int>

    /** `os_init(); LMIC_reset();`: no job queued, no pending or received data. */
    constructor Init()
      ensures !txrxPending && rxData == [] && uplinks == []
      ensures sendjob == None && linkCheckMode == None
    {
      txrxPending := false;
      rxData := [];
      uplinks := [];
      sendjob := None;
      linkCheckMode := None;
    }

    /** `LMIC_setTxData2`: the MAC takes a copy of the data for its next uplink. */
    method SetTxData2(port: nat, data: seq<byte>, confirmed: nat)
      modifies this
      ensures uplinks == old(uplinks) + [Uplink(port, data, confirmed)]
      ensures txrxPending == old(txrxPending) && rxData == old(rxData)
      ensures sendjob == old(sendjob) && linkCheckMode == old(linkCheckMode)
    {
      uplinks := uplinks + [Uplink(port, data, confirmed)];
    }

    /** `os_setTimedCallback(&sendjob, at, do_send)`: a queued job is moved, not duplicated. */
    method SetTimedCallback(at: int)
      modifies this
      ensures sendjob == Some(at)
      ensures uplinks == old(uplinks) && txrxPending == old(txrxPending)
      ensures rxData == old(rxData) && linkCheckMode == old(linkCheckMode)
    {
      sendjob := Some(at);
    }

    /** The scheduler takes a due job off its queue before running it. */
    method TakeSendjob()
      modifies this
      ensures sendjob == None
      ensures uplinks == old(uplinks) && txrxPending == old(txrxPending)
      ensures rxData == old(rxData) && linkCheckMode == old(linkCheckMode)
    {
      sendjob := None;
    }

    /** `LMIC_setLinkCheckMode(mode)`. */
    method SetLinkCheckMode(mode: int)
      modifies this
      ensures linkCheckMode == Some(mode)
      ensures uplinks == old(uplinks) && txrxPending == old(txrxPending)
      ensures rxData == old(rxData) && sendjob == old(sendjob)
    {
      linkCheckMode := Some(mode);
    }
  }
}
