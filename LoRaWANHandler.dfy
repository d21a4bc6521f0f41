/**
 * The application's LoRaWAN controller (LoRaWANHandler.cpp), configured
 * for over-the-air activation and without a battery pin: the single-flight
 * send guard `do_send`, the event dispatcher `onEvent`, and `setup`,
 * `start` and `runOnce`. The globals `txFrameCounter`, `rxFrameCounter`,
 * `mydata` and `sendjob` become the state of one `Handler` object; LMIC is
 * the `Mac` object it talks to; what goes to the status display, the OLED
 * and the serial hex dump is recorded in `outputs`.
 */
module LoRaWANHandler {
  import opened Wrappers
  import opened Text
  import opened Payload
  import opened Lmic

  /** The MAC events `onEvent` distinguishes; `Other` is any event its switch has no case for. */
  datatype Event =
    | ScanTimeout | BeaconFound | BeaconMissed | BeaconTracked
    | Joining | Joined | JoinFailed | RejoinFailed | TxComplete
    | LostTsync | Reset | RxComplete | LinkDead | LinkAlive
    | TxStart | TxCanceled | RxStart | JoinTxComplete
    | Other(code: nat)

  /** What the handler shows. */
  datatype Output =
    | Status(text: string)                  // displayHandler.printStatus
    | Error(text: string)                   // displayHandler.printError
    | Draw(x: int, y: int, text: string)    // display.drawString
    | ClearDisplay                          // display.clear
    | SerialHex(text: string)               // one "%02X " of the downlink dump

  // ------------------------------------------------------ event classes

  /** The events reported as errors: join or rejoin refused, link degraded, TX cancelled. */
  predicate IsErrorEvent(ev: Event)
  {
    ev.JoinFailed? || ev.RejoinFailed? || ev.LostTsync? || ev.Reset? || ev.LinkDead? || ev.TxCanceled?
  }

  /** The events reported as a status line. */
  predicate IsStatusEvent(ev: Event)
  {
    ev.Joining? || ev.LinkAlive? || ev.TxStart? || ev.JoinTxComplete?
  }

  /** The events that are only written to the serial log (or, for `RxStart`, not even that). */
  predicate IsLogOnly(ev: Event)
  {
    ev.ScanTimeout? || ev.BeaconFound? || ev.BeaconMissed? || ev.BeaconTracked? ||
    ev.RxComplete? || ev.RxStart? || ev.Other?
  }

  /** The single notifier call of the events whose case is only a report. */
  function Notice(ev: Event): Option<Output>
  {
    match ev
    case Joining => Some(Status("JOINING"))
    case JoinFailed => Some(Error("JOIN_FAILED"))
    case RejoinFailed => Some(Error("REJOIN_FAILED"))
    case LostTsync => Some(Error("LOST_TSYNC"))
    case Reset => Some(Error("RESET"))
    case LinkDead => Some(Error("LINK_DEAD"))
    case LinkAlive => Some(Status("LINK_ALIVE"))
    case TxStart => Some(Status("TXSTART"))
    case TxCanceled => Some(Error("TXCANCELED"))
    case JoinTxComplete => Some(Status("NO JOIN ACCEPTED"))
    case _ => None
  }

  /**
   * The dispatch is total and its classes do not overlap: every event is
   * `TxComplete`, `Joined`, an error, a status or log-only, and exactly the
   * error events report an error, exactly the status events a status.
   */
  lemma NoticeClasses(ev: Event)
    ensures (Notice(ev).Some? && Notice(ev).value.Error?) <==> IsErrorEvent(ev)
    ensures (Notice(ev).Some? && Notice(ev).value.Status?) <==> IsStatusEvent(ev)
    ensures Notice(ev).None? <==> (ev.TxComplete? || ev.Joined? || IsLogOnly(ev))
    ensures !(IsErrorEvent(ev) && IsStatusEvent(ev))
    ensures !(IsLogOnly(ev) && (IsErrorEvent(ev) || IsStatusEvent(ev)))
  {
  }

  /** Each reporting event has its own text: the notifier tells them apart. */
  lemma NoticeDistinct(a: Event, b: Event)
    requires Notice(a).Some? && Notice(a) == Notice(b)
    ensures a == b
  {
  }

  // --------------------------------------------- what TXCOMPLETE renders

  function Min(a: int, b: int): int { if a < b then a else b }

  /** The serial dump of a downlink: one "%02X " per byte, all of them. */
  function DumpOutputs(data: seq<byte>): seq<Output>
  {
    seq(|data|, i requires 0 <= i < |data| => SerialHex(Hex02(data[i]) + " "))
  }

  /** The OLED cells of a downlink: the first eight bytes at most, 16 pixels apart on row 36. */
  function CellOutputs(data: seq<byte>): seq<Output>
  {
    seq(Min(8, |data|), i requires 0 <= i < Min(8, |data|) => Draw(16 * i, 36, Hex02(data[i])))
  }

  /**
   * The dump shows every byte and the display the first min(8, dataLen),
   * the i-th at x = 16 * i; each hex pair reads back as its byte.
   */
  lemma DownlinkRendering(data: seq<byte>)
    ensures |DumpOutputs(data)| == |data|
    ensures forall i :: 0 <= i < |data| ==>
      DumpOutputs(data)[i].SerialHex? && ParseHex2(DumpOutputs(data)[i].text[..2]) == Some(data[i] as nat)
    ensures |CellOutputs(data)| == Min(8, |data|)
    ensures forall i :: 0 <= i < Min(8, |data|) ==>
      CellOutputs(data)[i].Draw? && CellOutputs(data)[i].x == 16 * i && CellOutputs(data)[i].y == 36 &&
      ParseHex2(CellOutputs(data)[i].text) == Some(data[i] as nat)
  {
  }

  /** The three summary lines drawn after every TXCOMPLETE. */
  function SummaryOutputs(tx: uint32, rx: uint32, dataLen: nat): seq<Output>
  {
    [ Draw(0, 0, "TXCOMPLETE"),
      Draw(0, 12, "TX cnt: " + FormatLong(tx)),
      Draw(0, 24, "RX cnt: " + FormatLong(rx) + " (" + Decimal(dataLen) + ")") ]
  }

  function TxCompleteOutputs(tx: uint32, rx: uint32, data: seq<byte>): seq<Output>
  {
    [ClearDisplay] + (if |data| != 0 then DumpOutputs(data) + CellOutputs(data) else []) +
    SummaryOutputs(tx, rx, |data|)
  }

  // ------------------------------------------------ session key after a join

  /**
   * The loop that writes a session key after EV_JOINED: `printHex2` of
   * every byte, with a '-' between neighbours. Each two-digit field reads
   * back as its key byte.
   */
  method KeyText(key: seq<byte>) returns (s: string)
    ensures |key| == 0 ==> s == []
    ensures |key| > 0 ==> |s| == 3 * |key| - 1
    ensures forall i :: 0 <= i < |key| ==> 3 * i + 2 <= |s| && ParseHex2(s[3 * i..3 * i + 2]) == Some(key[i] as nat)
    ensures forall i :: 0 < i < |key| ==> s[3 * i - 1] == '-'
  {
    s := [];
    for i := 0 to |key|
      invariant |s| == if i == 0 then 0 else 3 * i - 1
      invariant forall k :: 0 <= k < i ==> ParseHex2(s[3 * k..3 * k + 2]) == Some(key[k] as nat)
      invariant forall k :: 0 < k < i ==> s[3 * k - 1] == '-'
    {
      if i != 0 {
        s := s + "-";
      }
      PrintHex2Spec(key[i]);
      ghost var prev := s;
      s := s + PrintHex2(key[i]);
      assert s[3 * i..3 * i + 2] == PrintHex2(key[i]);
      assert forall k :: 0 <= k < i ==> s[3 * k..3 * k + 2] == prev[3 * k..3 * k + 2];
    }
  }

  // ------------------------------------------------------- uplink history

  /** The uplink `do_send` queues for a counter value: port 1, unconfirmed. */
  function FcntUplink(counter: uint32): Uplink
  {
    Uplink(1, FcntBytes(counter), 0)
  }

  /** The k-th uplink ever queued (counting from 1) carries Fcnt=k, modulo 2^32. */
  ghost predicate CountedUplinks(ups: seq<Uplink>)
  {
    forall i :: 0 <= i < |ups| ==> ups[i] == FcntUplink((i + 1) % TWO32)
  }

  /**
   * Until the counter wraps, no two uplinks of such a history carry the
   * same payload: no "Fcnt=" payload text repeats.
   */
  lemma UplinksDistinct(ups: seq<Uplink>)
    requires CountedUplinks(ups) && |ups| <= TWO32
    ensures forall i, j :: 0 <= i < j < |ups| ==> ups[i].data != ups[j].data
  {
    forall i, j | 0 <= i < j < |ups|
      ensures ups[i].data != ups[j].data
    {
      if ups[i].data == ups[j].data {
        FcntBytesInjective((i + 1) % TWO32, (j + 1) % TWO32);
        assert false;
      }
    }
  }

  // ------------------------------------------------------------ the handler

  class Handler {
    var txFrameCounter: uint32
    var rxFrameCounter: uint32
    /** `static uint8_t mydata[64]`. */
    const mydata: array<byte>
    /** The LMIC instance. */
    const mac: Mac
    /** `sec2osticks(TTN_TX_INTERVAL)`: the pause between an uplink's completion and the next. */
    const txIntervalTicks: nat
    /** Everything shown so far, oldest first. */
    var outputs: seq<Output>

    /**
     * The buffer has its size, and the MAC has been handed exactly the
     * uplinks `do_send` built, one per counter value, the last one
     * carrying the current `txFrameCounter`.
     */
    ghost predicate Valid()
      reads this, mac
    {
      mydata.Length == MyDataSize &&
      CountedUplinks(mac.uplinks) &&
      txFrameCounter == |mac.uplinks| % TWO32
    }

    /**
     * The globals' initial values and `setup()`: counters at 0, a zeroed
     * buffer, and the MAC after `os_init(); LMIC_reset();`.
     */
    constructor Setup(txIntervalTicks: nat)
      ensures Valid() && fresh(mac) && fresh(mydata)
      ensures mydata[..] == seq(MyDataSize, _ => 0)
      ensures txFrameCounter == 0 && rxFrameCounter == 0 && outputs == []
      ensures this.txIntervalTicks == txIntervalTicks
      ensures !mac.txrxPending && mac.rxData == [] && mac.uplinks == []
      ensures mac.sendjob == None && mac.linkCheckMode == None
    {
      txFrameCounter := 0;
      rxFrameCounter := 0;
      mydata := new byte[MyDataSize](_ => 0);
      mac := new Mac.Init();
      this.txIntervalTicks := txIntervalTicks;
      outputs := [];
    }

    /**
     * `do_send`: while a transmission is pending nothing happens;
     * otherwise the counter goes up by one and one uplink carrying its new
     * value is queued.
     */
    method DoSend()
      requires Valid()
      modifies this`txFrameCounter, mydata, mac
      ensures Valid()
      ensures old(mac.txrxPending) ==>
        txFrameCounter == old(txFrameCounter) && mac.uplinks == old(mac.uplinks) &&
        mydata[..] == old(mydata[..])
      ensures !old(mac.txrxPending) ==>
        txFrameCounter == Inc32(old(txFrameCounter)) &&
        mac.uplinks == old(mac.uplinks) + [FcntUplink(txFrameCounter)] &&
        mydata[..] == FcntBytes(txFrameCounter) + [0] + old(mydata[..])[|FcntBytes(txFrameCounter)| + 1..]
      ensures mac.txrxPending == old(mac.txrxPending) && mac.rxData == old(mac.rxData)
      ensures mac.sendjob == old(mac.sendjob) && mac.linkCheckMode == old(mac.linkCheckMode)
    {
      if mac.txrxPending {
        // OP_TXRXPEND: not sending
      } else {
        txFrameCounter := Inc32(txFrameCounter);
        var text := FcntBytes(txFrameCounter);
        WriteCString(mydata, text);
        StrlenOfText(text, old(mydata[..])[|text| + 1..]);
        var len := Strlen(mydata[..]);
        assert mydata[..len] == text;
        ghost var before := mac.uplinks;
        mac.SetTxData2(1, mydata[..len], 0);
        assert txFrameCounter == (|before| + 1) % TWO32;
        assert mac.uplinks == before + [FcntUplink((|before| + 1) % TWO32)];
      }
    }

    /** `LoRaWANHandler::start()`: one `do_send`. */
    method Start()
      requires Valid()
      modifies this`txFrameCounter, mydata, mac
      ensures Valid()
      ensures old(mac.txrxPending) ==>
        txFrameCounter == old(txFrameCounter) && mac.uplinks == old(mac.uplinks) &&
        mydata[..] == old(mydata[..])
      ensures !old(mac.txrxPending) ==>
        txFrameCounter == Inc32(old(txFrameCounter)) &&
        mac.uplinks == old(mac.uplinks) + [FcntUplink(txFrameCounter)] &&
        mydata[..] == FcntBytes(txFrameCounter) + [0] + old(mydata[..])[|FcntBytes(txFrameCounter)| + 1..]
      ensures mac.txrxPending == old(mac.txrxPending) && mac.rxData == old(mac.rxData)
      ensures mac.sendjob == old(mac.sendjob) && mac.linkCheckMode == old(mac.linkCheckMode)
    {
      DoSend();
    }

    /**
     * `runOnce()`, as far as the application is concerned: when `sendjob`
     * is due the scheduler takes it off its queue and runs `do_send`.
     */
    method RunOnce(now: int) returns (fired: bool)
      requires Valid()
      modifies this`txFrameCounter, mydata, mac
      ensures Valid()
      ensures fired == (old(mac.sendjob).Some? && old(mac.sendjob).value <= now)
      ensures fired ==> mac.sendjob == None
      ensures !fired ==> mac.sendjob == old(mac.sendjob)
      ensures (!fired || old(mac.txrxPending)) ==>
        txFrameCounter == old(txFrameCounter) && mac.uplinks == old(mac.uplinks) &&
        mydata[..] == old(mydata[..])
      ensures (fired && !old(mac.txrxPending)) ==>
        txFrameCounter == Inc32(old(txFrameCounter)) &&
        mac.uplinks == old(mac.uplinks) + [FcntUplink(txFrameCounter)] &&
        mydata[..] == FcntBytes(txFrameCounter) + [0] + old(mydata[..])[|FcntBytes(txFrameCounter)| + 1..]
      ensures mac.txrxPending == old(mac.txrxPending) && mac.rxData == old(mac.rxData)
      ensures mac.linkCheckMode == old(mac.linkCheckMode)
    {
      fired := mac.sendjob.Some? && mac.sendjob.value <= now;
      if fired {
        mac.TakeSendjob();
        DoSend();
      }
    }

    /**
     * `onEvent`: the switch over the MAC's events. Only TXCOMPLETE moves
     * a counter or schedules a send, only JOINED touches the link check,
     * and no event queues an uplink.
     */
    method OnEvent(ev: Event, now: int)
      requires Valid() && |mac.rxData| <= 255
      modifies this`rxFrameCounter, this`outputs, mac
      ensures Valid()
      ensures mac.uplinks == old(mac.uplinks)
      ensures mac.txrxPending == old(mac.txrxPending) && mac.rxData == old(mac.rxData)
      ensures ev.TxComplete? ==>
        rxFrameCounter == (if |mac.rxData| != 0 then Inc32(old(rxFrameCounter)) else old(rxFrameCounter)) &&
        mac.sendjob == Some(now + txIntervalTicks) &&
        outputs == old(outputs) + TxCompleteOutputs(txFrameCounter, rxFrameCounter, mac.rxData)
      ensures !ev.TxComplete? ==>
        rxFrameCounter == old(rxFrameCounter) && mac.sendjob == old(mac.sendjob)
      ensures ev.Joined? ==>
        mac.linkCheckMode == Some(0) && outputs == old(outputs) + [Draw(0, 12, "JOINED")]
      ensures !ev.Joined? ==> mac.linkCheckMode == old(mac.linkCheckMode)
      ensures Notice(ev).Some? ==> outputs == old(outputs) + [Notice(ev).value]
      ensures IsLogOnly(ev) ==> outputs == old(outputs)
    {
      match ev
      case ScanTimeout =>
      case BeaconFound =>
      case BeaconMissed =>
      case BeaconTracked =>
      case Joining =>
        outputs := outputs + [Status("JOINING")];
      case Joined =>
        outputs := outputs + [Draw(0, 12, "JOINED")];
        // link check validation is switched off after the join
        mac.SetLinkCheckMode(0);
      case JoinFailed =>
        outputs := outputs + [Error("JOIN_FAILED")];
      case RejoinFailed =>
        outputs := outputs + [Error("REJOIN_FAILED")];
      case TxComplete =>
        OnTxComplete(now);
      case LostTsync =>
        outputs := outputs + [Error("LOST_TSYNC")];
      case Reset =>
        outputs := outputs + [Error("RESET")];
      case RxComplete =>
      case LinkDead =>
        outputs := outputs + [Error("LINK_DEAD")];
      case LinkAlive =>
        outputs := outputs + [Status("LINK_ALIVE")];
      case TxStart =>
        outputs := outputs + [Status("TXSTART")];
      case TxCanceled =>
        outputs := outputs + [Error("TXCANCELED")];
      case RxStart =>
      case JoinTxComplete =>
        outputs := outputs + [Status("NO JOIN ACCEPTED")];
      case Other(_) =>
    }

    /** The EV_TXCOMPLETE case of `onEvent`. */
    method OnTxComplete(now: int)
      requires Valid() && |mac.rxData| <= 255
      modifies this`rxFrameCounter, this`outputs, mac
      ensures Valid()
      ensures mac.uplinks == old(mac.uplinks) && mac.linkCheckMode == old(mac.linkCheckMode)
      ensures mac.txrxPending == old(mac.txrxPending) && mac.rxData == old(mac.rxData)
      ensures rxFrameCounter == (if |mac.rxData| != 0 then Inc32(old(rxFrameCounter)) else old(rxFrameCounter))
      ensures mac.sendjob == Some(now + txIntervalTicks)
      ensures outputs == old(outputs) + TxCompleteOutputs(txFrameCounter, rxFrameCounter, mac.rxData)
    {
      outputs := outputs + [ClearDisplay];
      var data := mac.rxData;
      if |data| != 0 {
        rxFrameCounter := Inc32(rxFrameCounter);
        DumpDownlink(data);
        DrawDownlink(data);
      }
      outputs := outputs + SummaryOutputs(txFrameCounter, rxFrameCounter, |data|);
      // schedule the next transmission
      mac.SetTimedCallback(now + txIntervalTicks);
    }

    /** The serial loop over all `dataLen` received bytes. */
    method DumpDownlink(data: seq<byte>)
      modifies this`outputs
      ensures outputs == old(outputs) + DumpOutputs(data)
    {
      for i := 0 to |data|
        invariant outputs == old(outputs) + DumpOutputs(data[..i])
      {
        assert DumpOutputs(data[..i + 1]) == DumpOutputs(data[..i]) + [SerialHex(Hex02(data[i]) + " ")];
        outputs := outputs + [SerialHex(Hex02(data[i]) + " ")];
      }
      assert data[..|data|] == data;
    }

    /** The display loop over the first eight received bytes. */
    method DrawDownlink(data: seq<byte>)
      modifies this`outputs
      ensures outputs == old(outputs) + CellOutputs(data)
    {
      var i := 0;
      while i < 8 && i < |data|
        invariant 0 <= i <= Min(8, |data|)
        invariant outputs == old(outputs) + CellOutputs(data[..i])
      {
        assert CellOutputs(data[..i + 1]) == CellOutputs(data[..i]) + [Draw(i * 16, 36, Hex02(data[i]))];
        outputs := outputs + [Draw(i * 16, 36, Hex02(data[i]))];
        i := i + 1;
      }
      assert CellOutputs(data[..i]) == CellOutputs(data);
    }
  }
}
