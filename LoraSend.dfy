/**
 * `lora_send` (lora_send.cpp) in the configuration without a battery pin:
 * it builds the same "Fcnt=" payload as `do_send`, into a `mydata` buffer
 * of its own, from the counter its caller passes by value, and queues it
 * without consulting the MAC's pending flag.
 */
module LoraSend {
  import opened Payload
  import opened Lmic
  import opened LoRaWANHandler

  class LoraSender {
    /** The file's own `static uint8_t mydata[64]`. */
    const mydata: array<byte>
    /** The LMIC instance it queues on. */
    const mac: Mac

    constructor (mac: Mac)
      ensures this.mac == mac && fresh(mydata) && mydata.Length == MyDataSize
    {
      this.mac := mac;
      mydata := new byte[MyDataSize](_ => 0);
    }

    /**
     * `lora_send(txFrameCounter)`: exactly one uplink, on port 1,
     * unconfirmed, whose payload names the counter as given (it is not
     * incremented), of length `strlen(mydata)`.
     */
    method Send(txFrameCounter: uint32)
      requires mydata.Length == MyDataSize
      modifies mydata, mac
      ensures mac.uplinks == old(mac.uplinks) + [Uplink(1, FcntBytes(txFrameCounter), 0)]
      ensures mydata[..] == FcntBytes(txFrameCounter) + [0] + old(mydata[..])[|FcntBytes(txFrameCounter)| + 1..]
      ensures mac.txrxPending == old(mac.txrxPending) && mac.rxData == old(mac.rxData)
      ensures mac.sendjob == old(mac.sendjob) && mac.linkCheckMode == old(mac.linkCheckMode)
    {
      var text := FcntBytes(txFrameCounter);
      WriteCString(mydata, text);
      StrlenOfText(text, old(mydata[..])[|text| + 1..]);
      var len := Strlen(mydata[..]);
      assert mydata[..len] == text;
      mac.SetTxData2(1, mydata[..len], 0);
    }
  }
}
