/*
 * The HCI UART transport of the MSP430 port (HCITRANS.c): a 128-byte receive
 * ring filled by the UART interrupt and drained to the HCI driver, a 64-byte
 * transmit ring drained by the UART interrupt, RTS/CTS flow control kept in
 * a flag byte, and the glue to the eHCILL sleep protocol (pending control
 * byte, wake-up of a sleeping controller, acknowledgements).
 *
 * Each interrupt handler and each foreground routine is one atomic method.
 * Hardware registers appear only as inputs (UART busy, CTS level and edge)
 * and as ghost outputs: the RTS line, the bytes put on the wire, and the
 * callbacks made to the HCI driver.
 */
module HciTransport {
  import Ring
  import opened Wrappers
  import opened EHCILL

  const TransportId: nat := 1
  const RxBufferSize: nat := 128   // DEFAULT_INPUT_BUFFER_SIZE
  const TxBufferSize: nat := 64    // DEFAULT_OUTPUT_BUFFER_SIZE
  const XOffLimit: nat := 32       // XOFF_LIMIT
  const XOnLimit: nat := 128       // XON_LIMIT

  // UartContext.Flags bits (HCITRANS.c:67-74).
  const OpenStateFlag: bv8 := 0x01
  const HcillFlowOff: bv8 := 0x02
  const FlowEnabled: bv8 := 0x04
  const RxOverrun: bv8 := 0x08
  const TransmitEnabled: bv8 := 0x10
  const TxFlowEnabled: bv8 := 0x20
  const TxPrimed: bv8 := 0x40
  const RtsHigh: bv8 := 0x80

  predicate Has(flags: bv8, bit: bv8)
  {
    flags & bit != 0
  }

  /** The test of FLOW_ON: RTS is lowered only when receive flow is enabled and nothing forces it high. */
  function FlowOnLowersRts(flags: bv8): (r: bool)
    ensures r <==> Has(flags, FlowEnabled) && !Has(flags, RtsHigh) && !Has(flags, HcillFlowOff)
  {
    flags & (FlowEnabled | RtsHigh | HcillFlowOff) == FlowEnabled
  }

  /** The test LoadTransmitBuffer uses to start the transmitter. */
  function MustPrime(flags: bv8): (r: bool)
    ensures r <==> Has(flags, TransmitEnabled) && Has(flags, TxFlowEnabled) && !Has(flags, TxPrimed)
  {
    flags & (TransmitEnabled | TxFlowEnabled) == (TransmitEnabled | TxFlowEnabled) && flags & TxPrimed == 0
  }

  /** The eHCILL byte that carries an acknowledgement action. */
  function AckByte(a: Action): (b: bv8)
    requires a != NoAction
    ensures IsHcillCharacter(b)
  {
    if a == SendSleepAck then GoToSleepAck else WakeUpAck
  }

  /** The eHCILL state once a pending action (if any) has been confirmed. */
  function StateAfterPending(st: State, a: Action): State
  {
    if a != NoAction then AfterAction(st, a).1 else st
  }

  /** The state a host-initiated wake-up ends in, given the byte the controller answered with (if any). */
  function WakeOutcome(reply: Option<bv8>): (st: State)
    ensures st == Awake <==> reply == Some(WakeUpInd) || reply == Some(WakeUpAck)
    ensures st != Awake ==> st == HostInitWakeup
  {
    if reply == Some(WakeUpInd) || reply == Some(WakeUpAck) then Awake else HostInitWakeup
  }

  /** A wake-up started in HostInitWakeup ends as WakeOutcome says once the reply byte is processed. */
  lemma WakeReplyProcessed(b: bv8)
    ensures var r := Run(Start(HostInitWakeup), [b]);
            r.state == WakeOutcome(Some(b)) && r.action == NoAction
  {
    assert [b][1..] == [];
  }

  /** Bytes sent in two stretches reach the wire in the order the ring sent them. */
  lemma SentExtends(wire0: seq<bv8>, sent0: seq<bv8>, sent1: seq<bv8>, sent2: seq<bv8>)
    requires sent0 <= sent1 <= sent2
    ensures (wire0 + sent1[|sent0|..]) + sent2[|sent1|..] == wire0 + sent2[|sent0|..]
  {
    assert sent2[|sent0|..] == sent1[|sent0|..] + sent2[|sent1|..];
  }

  /** What the transport hands to the HCI driver's data callback. */
  datatype Delivery = Chunk(bytes: seq<bv8>) | Closed

  /** The command of HCITR_COMReconfigure. */
  datatype ReconfigureCommand =
    | ChangeParameters(baudRate: nat)
    | DisableUartTxRx(enable: bool)     // enable: ReconfigureData is non-NULL
    | OtherCommand

  /** HCITR_COMOpen's result: the transport ID, or HCITR_ERROR_UNABLE_TO_OPEN_TRANSPORT. */
  datatype OpenResult = Opened(id: nat) | UnableToOpenTransport

  /**
   * The tick difference WakupController computes (HCITRANS.c:438-443), on
   * 32-bit unsigned longs.
   */
  function ElapsedTicks(current: nat, previous: nat): (e: nat)
    requires current < 0x1_0000_0000 && previous < 0x1_0000_0000
    ensures e == (current - previous) % 0x1_0000_0000
  {
    var e := (current - previous) % 0x1_0000_0000;
    if e >= 0x8000_0000 then (current + (0xFFFF_FFFF - previous) + 1) % 0x1_0000_0000 else e
  }

  class Uart {
    const hcill: Machine
    const rxBuffer: array<bv8>
    const txBuffer: array<bv8>
    var rxBytesFree: nat
    var rxInIndex: nat
    var rxOutIndex: nat
    var txBytesFree: nat
    var txInIndex: nat
    var txOutIndex: nat
    var flags: bv8
    var hcillAction: Action
    var hcillByte: bv8
    var isOpen: bool               // HCITransportOpen
    var callbackRegistered: bool   // _COMDataCallback != NULL
    var ctsNegEdge: bool           // the CTS interrupt is armed for a falling edge
    ghost var rtsHigh: bool        // the RTS line: high stops the controller sending
    ghost var wire: seq<bv8>       // every byte written to the UART transmit register
    ghost var ringSent: seq<bv8>   // the bytes of wire that came out of the transmit ring
    ghost var delivered: seq<Delivery>

    ghost predicate Valid()
      reads this`rxBytesFree, this`rxInIndex, this`rxOutIndex, this`txBytesFree, this`txInIndex, this`txOutIndex
    {
      && rxBuffer.Length == RxBufferSize && txBuffer.Length == TxBufferSize
      && rxBytesFree <= RxBufferSize && rxOutIndex < RxBufferSize
      && rxInIndex == Ring.InIndex(rxOutIndex, RxBufferSize - rxBytesFree, RxBufferSize)
      && txBytesFree <= TxBufferSize && txOutIndex < TxBufferSize
      && txInIndex == Ring.InIndex(txOutIndex, TxBufferSize - txBytesFree, TxBufferSize)
    }

    /** The received bytes not yet handed to the HCI driver, oldest first. */
    ghost function RxContents(): seq<bv8>
      reads this`rxBytesFree, this`rxInIndex, this`rxOutIndex, this`txBytesFree, this`txInIndex, this`txOutIndex, rxBuffer
      requires Valid()
    {
      Ring.View(rxBuffer[..], rxOutIndex, RxBufferSize - rxBytesFree)
    }

    /** The bytes waiting in the transmit ring, oldest first. */
    ghost function TxContents(): seq<bv8>
      reads this`rxBytesFree, this`rxInIndex, this`rxOutIndex, this`txBytesFree, this`txInIndex, this`txOutIndex, txBuffer
      requires Valid()
    {
      Ring.View(txBuffer[..], txOutIndex, TxBufferSize - txBytesFree)
    }

    /** Everything ever given to the transmit ring: sent already, or still waiting. */
    ghost function Queued(): seq<bv8>
      reads this`rxBytesFree, this`rxInIndex, this`rxOutIndex, this`txBytesFree, this`txInIndex, this`txOutIndex, this`ringSent, txBuffer
      requires Valid()
    {
      ringSent + TxContents()
    }

    /** HCITR_RxBytesReady. */
    function RxBytesReady(): (n: nat)
      reads this, rxBuffer
      requires Valid()
      ensures isOpen ==> n == |RxContents()|
      ensures !isOpen ==> n == 0
    {
      if isOpen then RxBufferSize - rxBytesFree else 0
    }

    /** The zero-initialised static UartContext, before the first open. */
    constructor (machine: Machine)
      ensures Valid() && fresh(rxBuffer) && fresh(txBuffer) && hcill == machine
      ensures !isOpen && !callbackRegistered && flags == 0 && hcillAction == NoAction
      ensures RxContents() == [] && TxContents() == [] && wire == [] && ringSent == [] && delivered == []
    {
      hcill := machine;
      rxBuffer := new bv8[RxBufferSize](_ => 0);
      txBuffer := new bv8[TxBufferSize](_ => 0);
      rxBytesFree, rxInIndex, rxOutIndex := RxBufferSize, 0, 0;
      txBytesFree, txInIndex, txOutIndex := TxBufferSize, 0, 0;
      flags := 0;
      hcillAction, hcillByte := NoAction, 0;
      isOpen, callbackRegistered, ctsNegEdge := false, false, false;
      rtsHigh, wire, ringSent, delivered := true, [], [], [];
    }

    /** FLOW_ON. */
    method FlowOn()
      modifies this`rtsHigh
      ensures rtsHigh == if FlowOnLowersRts(flags) then false else old(rtsHigh)
    {
      if flags & (FlowEnabled | RtsHigh | HcillFlowOff) == FlowEnabled {
        rtsHigh := false;
      }
    }

    /** The receive branch of UartInterrupt, for received byte b. */
    method ReceiveInterrupt(b: bv8)
      requires Valid()
      modifies this`rxInIndex, this`rxBytesFree, this`flags, this`rtsHigh, rxBuffer
      ensures Valid()
      ensures old(rxBytesFree) > 0 ==>
                && RxContents() == old(RxContents()) + [b]
                && rxBytesFree == old(rxBytesFree) - 1
                && (if Has(old(flags), FlowEnabled) && rxBytesFree <= XOffLimit
                    then flags == old(flags) & !FlowEnabled && rtsHigh
                    else flags == old(flags) && rtsHigh == old(rtsHigh))
      ensures old(rxBytesFree) == 0 ==>
                && RxContents() == old(RxContents()) && rxBytesFree == 0
                && flags == (old(flags) | RxOverrun) & !FlowEnabled && rtsHigh
    {
      if rxBytesFree != 0 {
        StoreReceived(b);
        if Has(flags, FlowEnabled) && rxBytesFree <= XOffLimit {
          flags := flags & !FlowEnabled;
          rtsHigh := true;
        }
      } else {
        flags := flags | RxOverrun;
        flags := flags & !FlowEnabled;
        rtsHigh := true;
      }
    }

    /** The receive interrupt's data movement: b is stored in the in slot of the receive ring. */
    method StoreReceived(b: bv8)
      requires Valid() && rxBytesFree > 0
      modifies this`rxInIndex, this`rxBytesFree, rxBuffer
      ensures Valid() && rxOutIndex == old(rxOutIndex)
      ensures RxContents() == old(RxContents()) + [b]
      ensures rxBytesFree == old(rxBytesFree) - 1
    {
      ghost var count := RxBufferSize - rxBytesFree;
      ghost var before := rxBuffer[..];
      Ring.PushView(before, rxOutIndex, count, b);
      Ring.InIndexAfterPush(rxOutIndex, count, 1, RxBufferSize);
      rxBuffer[rxInIndex] := b;
      assert rxBuffer[..] == before[Ring.InIndex(rxOutIndex, count, RxBufferSize) := b];
      rxInIndex := rxInIndex + 1;
      rxBytesFree := rxBytesFree - 1;
      if rxInIndex >= RxBufferSize {
        rxInIndex := 0;
      }
    }

    /**
     * TxTransmit, which is also the whole transmit branch of UartInterrupt:
     * send the oldest queued byte if the controller allows it, else stop priming.
     */
    method TxTransmit()
      requires Valid()
      modifies this`txOutIndex, this`txBytesFree, this`flags, this`wire, this`ringSent
      ensures Valid() && txInIndex == old(txInIndex)
      ensures Has(old(flags), TxFlowEnabled) && old(txBytesFree) != TxBufferSize ==>
                && old(TxContents()) != []
                && wire == old(wire) + [old(TxContents())[0]]
                && ringSent == old(ringSent) + [old(TxContents())[0]]
                && TxContents() == old(TxContents())[1..]
                && txBytesFree == old(txBytesFree) + 1
                && flags == old(flags) | TxPrimed
      ensures !(Has(old(flags), TxFlowEnabled) && old(txBytesFree) != TxBufferSize) ==>
                && wire == old(wire) && ringSent == old(ringSent)
                && txBytesFree == old(txBytesFree) && txOutIndex == old(txOutIndex)
                && flags == old(flags) & !TxPrimed
      ensures Queued() == old(Queued())
    {
      if Has(flags, TxFlowEnabled) && txBytesFree != TxBufferSize {
        SendOldest();
        flags := flags | TxPrimed;
      } else {
        flags := flags & !TxPrimed;
      }
    }

    /** The transmit interrupt's data movement: the oldest byte of the ring goes onto the wire. */
    method SendOldest()
      requires Valid() && txBytesFree < TxBufferSize
      modifies this`txOutIndex, this`txBytesFree, this`wire, this`ringSent
      ensures Valid() && txInIndex == old(txInIndex)
      ensures old(TxContents()) != []
      ensures wire == old(wire) + [old(TxContents())[0]]
      ensures ringSent == old(ringSent) + [old(TxContents())[0]]
      ensures TxContents() == old(TxContents())[1..]
      ensures txBytesFree == old(txBytesFree) + 1
      ensures Queued() == old(Queued())
    {
      ghost var count := TxBufferSize - txBytesFree;
      ghost var held := TxContents();
      assert held == [held[0]] + held[1..];
      Ring.PopView(txBuffer[..], txOutIndex, count, 1);
      Ring.InIndexAfterPop(txOutIndex, count, 1, TxBufferSize);
      var b := txBuffer[txOutIndex];
      wire := wire + [b];
      ringSent := ringSent + [b];
      txBytesFree := txBytesFree + 1;
      txOutIndex := txOutIndex + 1;
      if txOutIndex >= TxBufferSize {
        txOutIndex := 0;
      }
    }

    /** LoadTransmitBuffer's copy step: chunk goes into the free slots after the in index. */
    method StoreChunk(chunk: seq<bv8>)
      requires Valid() && |chunk| <= txBytesFree && txInIndex + |chunk| <= TxBufferSize
      modifies txBuffer, this`txInIndex, this`txBytesFree
      ensures Valid() && txOutIndex == old(txOutIndex)
      ensures TxContents() == old(TxContents()) + chunk
      ensures Queued() == old(Queued()) + chunk
      ensures txBytesFree == old(txBytesFree) - |chunk|
    {
      ghost var held := TxBufferSize - txBytesFree;
      Ring.WriteView(txBuffer[..], txOutIndex, held, chunk);
      Ring.InIndexAfterPush(txOutIndex, held, |chunk|, TxBufferSize);
      Ring.CopyInto(txBuffer, txInIndex, chunk);
      txBytesFree := txBytesFree - |chunk|;
      txInIndex := txInIndex + |chunk|;
      if txInIndex >= TxBufferSize {
        txInIndex := 0;
      }
    }

    /**
     * LoadTransmitBuffer: append data to the transmit ring in chunks that fit
     * before the end of the buffer, starting the transmitter when it is idle.
     */
    method LoadTransmitBuffer(data: seq<bv8>)
      requires Valid()
      modifies txBuffer, this`txInIndex, this`txOutIndex, this`txBytesFree, this`flags, this`wire, this`ringSent
      ensures Valid()
      ensures Queued() == old(Queued()) + data
      ensures old(ringSent) <= ringSent && wire == old(wire) + ringSent[|old(ringSent)|..]
      ensures txBytesFree + |data| == old(txBytesFree) + (|ringSent| - |old(ringSent)|)
      ensures flags & !TxPrimed == old(flags) & !TxPrimed
    {
      var i := 0;
      while i < |data|
        invariant Valid() && i <= |data|
        invariant Queued() == old(Queued()) + data[..i]
        invariant old(ringSent) <= ringSent && wire == old(wire) + ringSent[|old(ringSent)|..]
        invariant txBytesFree + i == old(txBytesFree) + (|ringSent| - |old(ringSent)|)
        invariant flags & !TxPrimed == old(flags) & !TxPrimed
        decreases |data| - i
      {
        var count := LoadChunk(data[i..]);
        assert data[..i + count] == data[..i] + data[i..][..count];
        i := i + count;
      }
    }

    /**
     * One pass of LoadTransmitBuffer's loop: wait for a free slot, copy as
     * much of rest as fits before the end of the buffer, and prime the
     * transmitter if it is idle.
     */
    method LoadChunk(rest: seq<bv8>) returns (count: nat)
      requires Valid() && |rest| > 0
      modifies txBuffer, this`txInIndex, this`txOutIndex, this`txBytesFree, this`flags, this`wire, this`ringSent
      ensures Valid() && 0 < count <= |rest|
      ensures Queued() == old(Queued()) + rest[..count]
      ensures old(ringSent) <= ringSent && wire == old(wire) + ringSent[|old(ringSent)|..]
      ensures txBytesFree + count == old(txBytesFree) + (|ringSent| - |old(ringSent)|)
      ensures flags & !TxPrimed == old(flags) & !TxPrimed
    {
      ghost var wire0, sent0 := wire, ringSent;
      WaitForRoom();
      ghost var wire1, sent1 := wire, ringSent;
      count := TxBufferSize - txInIndex;
      count := if txBytesFree < count then txBytesFree else count;
      count := if count > |rest| then |rest| else count;
      StoreChunk(rest[..count]);
      PrimeIfIdle();
      SentExtends(wire0, sent0, sent1, ringSent);
    }

    /** The spin on TxBytesFree: when the ring is full, the transmit interrupt sends its oldest byte. */
    method WaitForRoom()
      requires Valid()
      modifies this`txOutIndex, this`txBytesFree, this`wire, this`ringSent
      ensures Valid() && txInIndex == old(txInIndex) && txBytesFree > 0
      ensures Queued() == old(Queued())
      ensures old(ringSent) <= ringSent && wire == old(wire) + ringSent[|old(ringSent)|..]
      ensures txBytesFree == old(txBytesFree) + (|ringSent| - |old(ringSent)|)
    {
      if txBytesFree == 0 {
        SendOldest();
      }
    }

    /** The tail of LoadTransmitBuffer's loop: start the transmitter if no byte is in flight. */
    method PrimeIfIdle()
      requires Valid()
      modifies this`txOutIndex, this`txBytesFree, this`flags, this`wire, this`ringSent
      ensures Valid() && Queued() == old(Queued())
      ensures old(ringSent) <= ringSent && wire == old(wire) + ringSent[|old(ringSent)|..]
      ensures txBytesFree == old(txBytesFree) + (|ringSent| - |old(ringSent)|)
      ensures flags & !TxPrimed == old(flags) & !TxPrimed
    {
      if MustPrime(flags) {
        ghost var held := TxContents();
        TxTransmit();
        if ringSent != old(ringSent) {
          assert held == [held[0]] + held[1..];
        }
      }
    }

    /** SentHCILLCharacter: a control byte has gone out, so confirm its action. */
    method SentHcillCharacter(a: Action)
      modifies hcill
      ensures hcill.state == AfterAction(old(hcill.state), a).1 && hcill.lock == old(hcill.lock)
    {
      var _ := hcill.ActionTaken(a);
    }

    /** RxProcess's data movement: the k oldest received bytes, stored before the end of the buffer, are removed. */
    method TakeChunk(k: nat) returns (chunk: seq<bv8>)
      requires Valid() && 0 < k <= RxBufferSize - rxBytesFree && rxOutIndex + k <= RxBufferSize
      modifies this`rxOutIndex, this`rxBytesFree
      ensures Valid() && rxInIndex == old(rxInIndex)
      ensures chunk == old(RxContents())[..k] && RxContents() == old(RxContents())[k..]
      ensures rxBytesFree == old(rxBytesFree) + k
    {
      Ring.ChunkView(rxBuffer[..], rxOutIndex, RxBufferSize - rxBytesFree, k);
      Ring.PopView(rxBuffer[..], rxOutIndex, RxBufferSize - rxBytesFree, k);
      Ring.InIndexAfterPop(rxOutIndex, RxBufferSize - rxBytesFree, k, RxBufferSize);
      chunk := rxBuffer[rxOutIndex..rxOutIndex + k];
      rxOutIndex := rxOutIndex + k;
      if rxOutIndex >= RxBufferSize {
        rxOutIndex := 0;
      }
      rxBytesFree := rxBytesFree + k;
    }

    /**
     * RxProcess: hand the oldest contiguous run of received bytes to the HCI
     * driver; when nothing is buffered, send a pending eHCILL byte if the
     * UART is idle.
     */
    method RxProcess(uartBusy: bool)
      requires Valid()
      modifies this`rxOutIndex, this`rxBytesFree, this`flags, this`rtsHigh, this`delivered, this`wire,
               this`hcillAction, hcill
      ensures Valid() && rxInIndex == old(rxInIndex)
      ensures flags == old(flags) && rtsHigh == old(rtsHigh)
      ensures old(rxBytesFree) != RxBufferSize ==>
                var k := if RxBufferSize - old(rxOutIndex) < |old(RxContents())|
                         then RxBufferSize - old(rxOutIndex) else |old(RxContents())|;
                && 0 < k
                && (callbackRegistered ==> delivered == old(delivered) + [Chunk(old(RxContents())[..k])])
                && (!callbackRegistered ==> delivered == old(delivered))
                && RxContents() == old(RxContents())[k..]
                && rxBytesFree == old(rxBytesFree) + k
                && wire == old(wire) && hcillAction == old(hcillAction) && hcill.state == old(hcill.state)
      ensures old(rxBytesFree) == RxBufferSize ==>
                && RxContents() == old(RxContents()) && delivered == old(delivered)
                && (if old(hcillAction) != NoAction && !uartBusy
                    then && wire == old(wire) + [hcillByte] && hcillAction == NoAction
                         && hcill.state == AfterAction(old(hcill.state), old(hcillAction)).1
                    else wire == old(wire) && hcillAction == old(hcillAction) && hcill.state == old(hcill.state))
      ensures hcill.lock == old(hcill.lock)
    {
      var count := RxBufferSize - rxBytesFree;
      if count != 0 {
        var maxWrite := RxBufferSize - rxOutIndex;
        count := if maxWrite < count then maxWrite else count;
        var chunk := TakeChunk(count);
        if callbackRegistered {
          delivered := delivered + [Chunk(chunk)];
        }
        // The XON test: RxBytesFree never exceeds RxBufferSize == XON_LIMIT, so it never passes.
        var reenable := !Has(flags, FlowEnabled) && rxBytesFree > XOnLimit;
        flags := if reenable then flags | FlowEnabled else flags;
        rtsHigh := if reenable && FlowOnLowersRts(flags) then false else rtsHigh;
      } else {
        if hcillAction != NoAction && !uartBusy {
          wire := wire + [hcillByte];
          SentHcillCharacter(hcillAction);
          hcillAction := NoAction;
        }
      }
    }

    /** HCITR_COMProcess. */
    method ComProcess(id: nat, uartBusy: bool)
      requires Valid()
      modifies this`rxOutIndex, this`rxBytesFree, this`flags, this`rtsHigh, this`delivered, this`wire,
               this`hcillAction, hcill
      ensures Valid()
      ensures !(id == TransportId && isOpen) ==>
                RxContents() == old(RxContents()) && delivered == old(delivered) && wire == old(wire)
                && hcill.state == old(hcill.state)
      ensures id == TransportId && isOpen && callbackRegistered ==>
                || (delivered == old(delivered) && RxContents() == old(RxContents()) == [])
                || (&& |delivered| == |old(delivered)| + 1 && delivered[..|old(delivered)|] == old(delivered)
                    && delivered[|old(delivered)|].Chunk? && delivered[|old(delivered)|].bytes != []
                    && delivered[|old(delivered)|].bytes + RxContents() == old(RxContents()))
    {
      if id == TransportId && isOpen {
        RxProcess(uartBusy);
      }
    }

    /**
     * HCITR_InvalidStart_Callback: a byte the HCI driver could not parse as a
     * packet start is offered to the eHCILL state machine; a requested
     * acknowledgement is sent at once when the UART is idle, else stored.
     */
    method InvalidStartCallback(id: nat, data: bv8, uartBusy: bool)
      requires Valid()
      modifies this`flags, this`rtsHigh, this`wire, this`hcillAction, this`hcillByte, hcill
      ensures Valid() && hcill.lock == old(hcill.lock) && old(wire) <= wire
      ensures !(id == TransportId && isOpen) ==>
                && flags == old(flags) && wire == old(wire) && hcillAction == old(hcillAction)
                && hcill.state == old(hcill.state)
      ensures id == TransportId && isOpen ==>
                var r := Run(Start(old(hcill.state)), [data]);
                && (r.action == NoAction ==>
                      hcill.state == r.state && flags == old(flags) && wire == old(wire)
                      && hcillAction == old(hcillAction) && hcillByte == old(hcillByte))
                && (r.action == SendSleepAck ==> flags == old(flags) | HcillFlowOff && rtsHigh)
                && (r.action == SendWakeupAck ==> flags == old(flags))
                && (r.action != NoAction && !uartBusy ==>
                      && wire == old(wire) + [AckByte(r.action)] && hcillAction == NoAction && hcillByte == 0
                      && hcill.state == (if r.action == SendSleepAck then Sleep else Awake))
                && (r.action != NoAction && uartBusy ==>
                      && wire == old(wire) && hcill.state == r.state
                      && hcillAction == r.action && hcillByte == AckByte(r.action))
    {
      if id == TransportId && isOpen {
        ghost var r := Run(Start(hcill.state), [data]);
        assert [data][1..] == [];
        RequestedActionIsAccepted(hcill.state, [data]);
        var action, processed := hcill.ProcessCharacters([data], 0);
        if processed != 0 {
          AnswerHcill(action, uartBusy);
        }
      }
    }

    /**
     * The tail of InvalidStartCallback once a byte was consumed: answer a
     * requested acknowledgement now, or park it for the transmit interrupt
     * when the UART is busy.
     */
    method AnswerHcill(action: Action, uartBusy: bool)
      modifies this`flags, this`rtsHigh, this`wire, this`hcillAction, this`hcillByte, hcill
      ensures hcill.lock == old(hcill.lock)
      ensures action == NoAction ==>
                hcill.state == old(hcill.state) && flags == old(flags) && wire == old(wire)
                && hcillAction == old(hcillAction) && hcillByte == old(hcillByte)
      ensures action == SendSleepAck ==> flags == old(flags) | HcillFlowOff && rtsHigh
      ensures action == SendWakeupAck ==> flags == old(flags)
      ensures action != NoAction && !uartBusy ==>
                && wire == old(wire) + [AckByte(action)] && hcillAction == NoAction && hcillByte == 0
                && hcill.state == AfterAction(old(hcill.state), action).1
      ensures action != NoAction && uartBusy ==>
                && wire == old(wire) && hcill.state == old(hcill.state)
                && hcillAction == action && hcillByte == AckByte(action)
    {
      var sendByte := false;
      var b: bv8 := 0;
      match action {
        case SendSleepAck =>
          flags := flags | HcillFlowOff;
          rtsHigh := true;   // FLOW_OFF
          b := GoToSleepAck;
          sendByte := true;
        case SendWakeupAck =>
          b := WakeUpAck;
          sendByte := true;
        case NoAction =>
      }
      var a := action;
      if sendByte {
        if !uartBusy {
          wire := wire + [b];
          SentHcillCharacter(a);
          a := NoAction;
          b := 0;
        }
        hcillAction := a;
        hcillByte := b;
      } else {
        SentHcillCharacter(a);
      }
    }

    /**
     * WakupController: from Sleep, queue WAKE_UP_IND, release the eHCILL hold
     * on RTS and wait for the controller.  The bounded wait is replaced by its
     * outcome: the byte the controller answered with, if any, processed as
     * the HCI driver hands it back through InvalidStartCallback.
     */
    method WakeupController(reply: Option<bv8>, uartBusy: bool)
      requires Valid()
      modifies txBuffer, this`txInIndex, this`txOutIndex, this`txBytesFree, this`flags, this`wire, this`ringSent,
               this`rtsHigh, this`hcillAction, this`hcillByte, hcill
      ensures Valid() && hcill.lock == old(hcill.lock) && hcillAction == old(hcillAction)
      ensures old(wire) <= wire
      ensures !(isOpen && old(hcill.state) == Sleep) ==>
                Queued() == old(Queued()) && hcill.state == old(hcill.state) && wire == old(wire)
      ensures isOpen && old(hcill.state) == Sleep ==>
                && Queued() == old(Queued()) + [WakeUpInd]
                && hcill.state == WakeOutcome(reply)
                && !Has(flags, HcillFlowOff)
    {
      if isOpen {
        var woke := hcill.HostInitiatedWakeup();
        if woke == 1 {
          SendWakeup(reply, uartBusy);
        }
      }
    }

    /**
     * WakeupController once HCILL_HostInitiatedWakeup has left Sleep: queue
     * HCILL_WAKE_UP_IND, release the receive flow and process the reply.
     */
    method SendWakeup(reply: Option<bv8>, uartBusy: bool)
      requires Valid() && isOpen && hcill.state == HostInitWakeup
      modifies txBuffer, this`txInIndex, this`txOutIndex, this`txBytesFree, this`flags, this`wire, this`ringSent,
               this`rtsHigh, this`hcillAction, this`hcillByte, hcill
      ensures Valid() && hcill.lock == old(hcill.lock) && hcillAction == old(hcillAction)
      ensures old(wire) <= wire
      ensures Queued() == old(Queued()) + [WakeUpInd]
      ensures hcill.state == WakeOutcome(reply)
      ensures !Has(flags, HcillFlowOff)
    {
      LoadTransmitBuffer([WakeUpInd]);
      flags := flags & !HcillFlowOff;
      FlowOn();
      if reply.Some? {
        WakeReplyProcessed(reply.value);
        InvalidStartCallback(TransportId, reply.value, uartBusy);
      }
    }

    /**
     * The first half of HCITR_COMWrite, taken when the controller sleeps or a
     * control byte is pending: the pending byte is sent and confirmed, then a
     * controller still asleep is woken.  The result says whether the eHCILL
     * machine is now Awake.
     */
    method PrepareWrite(wakeReply: Option<bv8>, uartBusy: bool) returns (awake: bool)
      requires Valid()
      modifies txBuffer, this`txInIndex, this`txOutIndex, this`txBytesFree, this`flags, this`wire, this`ringSent,
               this`rtsHigh, this`hcillAction, this`hcillByte, hcill
      ensures Valid() && hcill.lock == old(hcill.lock) && hcillAction == NoAction
      ensures awake <==> hcill.state == Awake
      ensures old(hcillAction) != NoAction ==> |wire| > |old(wire)| && wire[|old(wire)|] == old(hcillByte)
      ensures old(hcillAction) == NoAction ==> old(wire) <= wire
      ensures var woken := isOpen && StateAfterPending(old(hcill.state), old(hcillAction)) == Sleep;
              && (woken ==> hcill.state == WakeOutcome(wakeReply))
              && (!woken ==> hcill.state == StateAfterPending(old(hcill.state), old(hcillAction)))
              && Queued() == old(Queued()) + (if woken then [WakeUpInd] else [])
    {
      if hcillAction != NoAction {
        wire := wire + [hcillByte];
        SentHcillCharacter(hcillAction);
        hcillAction := NoAction;
      }
      ghost var w := wire;
      if hcill.state == Sleep {
        WakeupController(wakeReply, uartBusy);
      }
      assert w <= wire;
      awake := hcill.state == Awake;
    }

    /**
     * HCITR_COMWrite.  Before queueing, a pending eHCILL byte is sent and a
     * sleeping controller is woken; if it does not wake, nothing is queued.
     * The result is 0 on every path: the error code set when the controller
     * stays asleep is overwritten before the return.
     */
    method ComWrite(id: nat, data: seq<bv8>, wakeReply: Option<bv8>, uartBusy: bool) returns (r: int)
      requires Valid()
      modifies txBuffer, this`txInIndex, this`txOutIndex, this`txBytesFree, this`flags, this`wire, this`ringSent,
               this`rtsHigh, this`hcillAction, this`hcillByte, hcill
      ensures Valid() && hcill.lock == old(hcill.lock)
      ensures r == 0
      ensures !(id == TransportId && isOpen && |data| > 0) ==>
                Queued() == old(Queued()) && wire == old(wire) && hcill.state == old(hcill.state)
      ensures id == TransportId && isOpen && |data| > 0 && old(hcill.state) != Sleep && old(hcillAction) == NoAction ==>
                Queued() == old(Queued()) + data && hcill.state == old(hcill.state)
      ensures id == TransportId && isOpen && |data| > 0 && (old(hcill.state) == Sleep || old(hcillAction) != NoAction) ==>
                var woken := StateAfterPending(old(hcill.state), old(hcillAction)) == Sleep;
                && hcillAction == NoAction
                && (old(hcillAction) != NoAction ==> |wire| > |old(wire)| && wire[|old(wire)|] == old(hcillByte))
                && (woken ==> hcill.state == WakeOutcome(wakeReply))
                && (!woken ==> hcill.state == StateAfterPending(old(hcill.state), old(hcillAction)))
                && Queued() == old(Queued()) + (if woken then [WakeUpInd] else [])
                                             + (if hcill.state == Awake then data else [])
    {
      r := 0;
      if id == TransportId && isOpen && |data| > 0 {
        var length := |data|;
        if hcill.state == Sleep || hcillAction != NoAction {
          var awake := PrepareWrite(wakeReply, uartBusy);
          if !awake {
            // HCITR_ERROR_WRITING_TO_PORT, with nothing queued
            length := 0;
          }
          ghost var w := wire;
          LoadTransmitBuffer(data[..length]);
          assert w <= wire;
        } else {
          LoadTransmitBuffer(data[..length]);
        }
        assert data[..|data|] == data;
        r := 0;
      }
    }

    /** The memset of UartContext reaches the two ring buffers. */
    method ClearBuffers()
      modifies rxBuffer, txBuffer
      ensures forall i :: 0 <= i < rxBuffer.Length ==> rxBuffer[i] == 0
      ensures forall i :: 0 <= i < txBuffer.Length ==> txBuffer[i] == 0
    {
      forall i | 0 <= i < rxBuffer.Length {
        rxBuffer[i] := 0;
      }
      forall i | 0 <= i < txBuffer.Length {
        txBuffer[i] := 0;
      }
    }

    /**
     * HCITR_COMOpen: refuses a second open; otherwise clears the context,
     * sets the ring sizes, enables receive flow, follows CTS for transmit
     * flow and enables the transmitter.  ctsHigh is the level BT_CTS_READ sees.
     */
    method ComOpen(hasDriverInformation: bool, hasCallback: bool, ctsHigh: bool) returns (r: OpenResult)
      requires Valid()
      modifies this, rxBuffer, txBuffer
      ensures Valid()
      ensures r == Opened(TransportId) <==> !old(isOpen) && hasDriverInformation && hasCallback
      ensures r != Opened(TransportId) ==> r == UnableToOpenTransport && unchanged(this)
      ensures r == Opened(TransportId) ==> Opening(ctsHigh) && wire == old(wire) && delivered == old(delivered)
    {
      if !isOpen && hasDriverInformation && hasCallback {
        OpenContext(ctsHigh);
        r := Opened(TransportId);
      } else {
        r := UnableToOpenTransport;
      }
    }

    /** The state HCITR_COMOpen leaves behind, for CTS at level ctsHigh. */
    ghost predicate Opening(ctsHigh: bool)
      reads this, rxBuffer, txBuffer
    {
      && Valid() && isOpen && callbackRegistered
      && rxBytesFree == RxBufferSize && txBytesFree == TxBufferSize
      && rxInIndex == 0 && rxOutIndex == 0 && txInIndex == 0 && txOutIndex == 0
      && RxContents() == [] && TxContents() == []
      && flags == FlowEnabled | TransmitEnabled | (if ctsHigh then 0 else TxFlowEnabled)
      && hcillAction == NoAction && !rtsHigh && ctsNegEdge == ctsHigh
    }

    /** The successful path of HCITR_COMOpen. */
    method OpenContext(ctsHigh: bool)
      requires Valid()
      modifies this, rxBuffer, txBuffer
      ensures Opening(ctsHigh)
      ensures wire == old(wire) && delivered == old(delivered)
    {
      callbackRegistered := true;
      ResetRings();
      hcillAction, hcillByte := NoAction, 0;
      SetOpenFlags(ctsHigh);
      isOpen := true;
    }

    /** The memset of UartContext and the ring sizes HCITR_COMOpen sets: both rings empty. */
    method ResetRings()
      modifies rxBuffer, txBuffer, this`rxBytesFree, this`rxInIndex, this`rxOutIndex,
               this`txBytesFree, this`txInIndex, this`txOutIndex
      requires rxBuffer.Length == RxBufferSize && txBuffer.Length == TxBufferSize
      ensures Valid() && RxContents() == [] && TxContents() == []
      ensures rxBytesFree == RxBufferSize && txBytesFree == TxBufferSize
      ensures rxInIndex == 0 && rxOutIndex == 0 && txInIndex == 0 && txOutIndex == 0
    {
      ClearBuffers();
      rxBytesFree, rxInIndex, rxOutIndex := RxBufferSize, 0, 0;
      txBytesFree, txInIndex, txOutIndex := TxBufferSize, 0, 0;
    }

    /** The flow-control set-up of HCITR_COMOpen, starting from the cleared flag byte. */
    method SetOpenFlags(ctsHigh: bool)
      modifies this`flags, this`rtsHigh, this`ctsNegEdge
      ensures flags == FlowEnabled | TransmitEnabled | (if ctsHigh then 0 else TxFlowEnabled)
      ensures !rtsHigh && ctsNegEdge == ctsHigh
    {
      flags := 0;
      rtsHigh := true;   // FLOW_OFF
      flags := flags & !TxFlowEnabled;
      flags := flags | FlowEnabled;
      FlowOn();
      if ctsHigh {
        flags := flags & !TxFlowEnabled;
        ctsNegEdge := true;
      } else {
        flags := flags | TxFlowEnabled;
        ctsNegEdge := false;
      }
      flags := flags & !TxPrimed;
      flags := flags | TransmitEnabled;
    }

    /** HCITR_COMClose: its last act is the close callback (length 0, NULL data). */
    method ComClose(id: nat)
      modifies this`flags, this`isOpen, this`callbackRegistered, this`delivered
      ensures !(id == TransportId && old(isOpen)) ==>
                flags == old(flags) && isOpen == old(isOpen) && delivered == old(delivered)
                && callbackRegistered == old(callbackRegistered)
      ensures id == TransportId && old(isOpen) ==>
                && flags == 0 && !isOpen && !callbackRegistered
                && delivered == old(delivered) + (if old(callbackRegistered) then [Closed] else [])
    {
      if id == TransportId && isOpen {
        flags := 0;
        var hadCallback := callbackRegistered;
        isOpen := false;
        callbackRegistered := false;
        if hadCallback {
          delivered := delivered + [Closed];
        }
      }
    }

    /** DisableTransmitter. */
    method DisableTransmitter()
      modifies this`flags
      ensures flags == old(flags) & !TransmitEnabled
    {
      flags := flags & !TransmitEnabled;
    }

    /** EnableTransmitter: a transmitter allowed by CTS is restarted at once. */
    method EnableTransmitter()
      requires Valid()
      modifies this`txOutIndex, this`txBytesFree, this`flags, this`wire, this`ringSent
      ensures Valid() && Queued() == old(Queued())
      ensures Has(flags, TransmitEnabled)
      ensures flags & !TxPrimed == (old(flags) | TransmitEnabled) & !TxPrimed
      ensures !Has(old(flags), TxFlowEnabled) ==> flags == old(flags) | TransmitEnabled && wire == old(wire)
    {
      flags := flags | TransmitEnabled;
      if Has(flags, TxFlowEnabled) {
        TxTransmit();
      }
    }

    /** The HCI_COMM_DRIVER_DISABLE_UART_TX_RX command of HCITR_COMReconfigure (transport ID 0). */
    method DisableUartTxRx(enable: bool)
      requires Valid()
      modifies this`txOutIndex, this`txBytesFree, this`flags, this`wire, this`ringSent, this`rtsHigh
      ensures Valid() && Queued() == old(Queued())
      ensures enable ==> !Has(flags, RtsHigh) && Has(flags, TransmitEnabled)
                         && rtsHigh == (old(rtsHigh) && !FlowOnLowersRts(flags))
      ensures !enable ==> flags == (old(flags) | RtsHigh) & !TransmitEnabled && rtsHigh && wire == old(wire)
    {
      if enable {
        flags := flags & !RtsHigh;
        EnableTransmitter();
        FlowOn();
      } else {
        rtsHigh := true;   // FLOW_OFF
        flags := flags | RtsHigh;
        DisableTransmitter();
      }
    }

    /**
     * HCITR_COMReconfigure: a parameter change on the open transport is
     * bracketed by a global disable and enable; a global (ID 0) command
     * disables or enables the UART.  The baud-rate change itself is hardware.
     */
    method ComReconfigure(id: nat, data: Option<ReconfigureCommand>)
      requires Valid()
      modifies this`txOutIndex, this`txBytesFree, this`flags, this`wire, this`ringSent, this`rtsHigh
      ensures Valid() && Queued() == old(Queued())
      ensures !(isOpen && data.Some? && ((id == TransportId && data.value.ChangeParameters?)
                                          || (id == 0 && data.value.DisableUartTxRx?))) ==>
                flags == old(flags) && rtsHigh == old(rtsHigh) && wire == old(wire)
      ensures isOpen && id == TransportId && data.Some? && data.value.ChangeParameters? ==>
                !Has(flags, RtsHigh) && Has(flags, TransmitEnabled)
      ensures isOpen && id == 0 && data.Some? && data.value.DisableUartTxRx? && !data.value.enable ==>
                Has(flags, RtsHigh) && !Has(flags, TransmitEnabled) && rtsHigh
      ensures isOpen && id == 0 && data.Some? && data.value.DisableUartTxRx? && data.value.enable ==>
                !Has(flags, RtsHigh) && Has(flags, TransmitEnabled)
    {
      if id == TransportId && isOpen && data.Some? && data.value.ChangeParameters? {
        DisableUartTxRx(false);
        DisableUartTxRx(true);
      }
      if data.Some? && id == 0 && isOpen {
        if data.value.DisableUartTxRx? {
          DisableUartTxRx(data.value.enable);
        }
      }
    }

    /**
     * CtsInterrupt: a falling edge (CTS low) is handled by CtsFallingEdge, a
     * rising edge by CtsRisingEdge; the interrupt is re-armed for the
     * opposite edge.  The result asks the ISR to leave low-power mode.
     */
    method CtsInterrupt() returns (r: int)
      requires Valid()
      modifies this`ctsNegEdge, this`txOutIndex, this`txBytesFree, this`flags, this`wire, this`ringSent,
               this`rtsHigh, hcill
      ensures Valid() && Queued() == old(Queued()) && hcill.lock == old(hcill.lock)
      ensures ctsNegEdge == !old(ctsNegEdge)
      ensures old(ctsNegEdge) ==> r == 0 && Has(flags, TxFlowEnabled) && hcill.state == old(hcill.state)
      ensures !old(ctsNegEdge) ==>
                && flags == old(flags) & !TxFlowEnabled & !TxPrimed && wire == old(wire)
                && (r == 1 <==> old(hcill.state) == Sleep)
                && (r == 1 ==> hcill.state == ControllerInitWakeup)
                && (r != 1 ==> r == 0 && hcill.state == old(hcill.state))
    {
      if ctsNegEdge {
        ctsNegEdge := false;
        CtsFallingEdge();
        r := 0;
      } else {
        ctsNegEdge := true;
        r := CtsRisingEdge();
      }
    }

    /**
     * CTS went low: the controller accepts data again, so transmit flow is
     * enabled and a waiting transmit ring is restarted; during a
     * controller-initiated wake-up the eHCILL hold on RTS is released.
     */
    method CtsFallingEdge()
      requires Valid()
      modifies this`txOutIndex, this`txBytesFree, this`flags, this`wire, this`ringSent, this`rtsHigh
      ensures Valid() && Queued() == old(Queued())
      ensures Has(flags, TxFlowEnabled)
      ensures Has(old(flags), TransmitEnabled) && old(TxContents()) != [] ==>
                wire == old(wire) + [old(TxContents())[0]] && TxContents() == old(TxContents())[1..]
      ensures !(Has(old(flags), TransmitEnabled) && old(TxContents()) != []) ==> wire == old(wire)
      ensures hcill.state == ControllerInitWakeup ==> !Has(flags, HcillFlowOff) && rtsHigh == (old(rtsHigh) && !FlowOnLowersRts(flags))
      ensures hcill.state != ControllerInitWakeup ==> rtsHigh == old(rtsHigh) && Has(flags, HcillFlowOff) == Has(old(flags), HcillFlowOff)
    {
      EnableTxFlow();
      ReleaseHcillHold();
    }

    /** Transmit flow is back: set the flag and restart a waiting transmit ring. */
    method EnableTxFlow()
      requires Valid()
      modifies this`txOutIndex, this`txBytesFree, this`flags, this`wire, this`ringSent
      ensures Valid() && Queued() == old(Queued())
      ensures Has(flags, TxFlowEnabled) && Has(flags, HcillFlowOff) == Has(old(flags), HcillFlowOff)
      ensures Has(old(flags), TransmitEnabled) && old(TxContents()) != [] ==>
                wire == old(wire) + [old(TxContents())[0]] && TxContents() == old(TxContents())[1..]
      ensures !(Has(old(flags), TransmitEnabled) && old(TxContents()) != []) ==> wire == old(wire)
    {
      ghost var held := TxContents();
      flags := flags | TxFlowEnabled;
      if Has(flags, TransmitEnabled) && txBytesFree != TxBufferSize {
        TxTransmit();
        assert held == [held[0]] + held[1..];
      }
    }

    /** During a controller-initiated wake-up, clear the eHCILL hold on receive flow and lower RTS if flow control then allows it. */
    method ReleaseHcillHold()
      modifies this`flags, this`rtsHigh
      ensures Has(flags, TxFlowEnabled) == Has(old(flags), TxFlowEnabled)
      ensures hcill.state == ControllerInitWakeup ==>
                !Has(flags, HcillFlowOff) && rtsHigh == (old(rtsHigh) && !FlowOnLowersRts(flags))
      ensures hcill.state != ControllerInitWakeup ==> flags == old(flags) && rtsHigh == old(rtsHigh)
    {
      if hcill.state == ControllerInitWakeup {
        flags := flags & !HcillFlowOff;
        FlowOn();
      }
    }

    /**
     * CTS went high: transmission stops; a controller that is not awake is
     * asked to move to ControllerInitWakeup, and the result is 1 when it did.
     */
    method CtsRisingEdge() returns (r: int)
      modifies this`flags, hcill
      ensures hcill.lock == old(hcill.lock)
      ensures flags == old(flags) & !TxFlowEnabled & !TxPrimed
      ensures r == 1 <==> old(hcill.state) == Sleep
      ensures r == 1 ==> hcill.state == ControllerInitWakeup
      ensures r != 1 ==> r == 0 && hcill.state == old(hcill.state)
    {
      r := 0;
      flags := flags & !TxFlowEnabled;
      flags := flags & !TxPrimed;
      if hcill.state != Awake {
        var w := hcill.ControllerInitiatedWakeup();
        if w == 1 {
          r := 1;
        }
      }
    }
  }
}
