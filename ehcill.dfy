/*
 * TI's eHCILL sleep protocol (EHCILL.c / EHCILL.h): the host side of the
 * four one-byte control messages exchanged with the controller over the HCI
 * UART, the state machine they drive, the power lock that keeps the MCU out
 * of low-power mode, and the configuration commands sent to the controller.
 */
module EHCILL {

  // Control bytes of the eHCILL protocol (EHCILL.h:26-29).
  const GoToSleepInd: bv8 := 0x30
  const GoToSleepAck: bv8 := 0x31
  const WakeUpInd: bv8 := 0x32
  const WakeUpAck: bv8 := 0x33

  /** HCILL_State_t (EHCILL.h:33-40). */
  datatype State = Awake | WaitSendSleepAck | HostInitWakeup | ControllerInitWakeup | Sleep

  /** HCILL_Action_Request_t (EHCILL.h:44-49): what the caller must send next. */
  datatype Action = NoAction | SendSleepAck | SendWakeupAck

  /** IsHCILLCharacter: the byte is one of the four eHCILL control bytes. */
  predicate IsHcillCharacter(c: bv8)
    ensures IsHcillCharacter(c) <==> 0x30 <= c <= 0x33
  {
    c == GoToSleepInd || c == GoToSleepAck || c == WakeUpInd || c == WakeUpAck
  }

  // ---------------------------------------------------------------------
  // Specification of HCILL_Process_Characters: one step per byte.
  // ---------------------------------------------------------------------

  /** The values the processing loop carries: state, ret_val, bytes credited, Done. */
  datatype Scan = Scan(state: State, action: Action, counted: nat, done: bool)

  /** The effect of one byte on the loop's values (the switch of EHCILL.c:340-438). */
  function Step(s: Scan, b: bv8): Scan
  {
    if b == GoToSleepInd then
      if s.state == Awake then s.(state := WaitSendSleepAck, action := SendSleepAck, counted := s.counted + 1)
      else s.(counted := s.counted + 1)
    else if b == WakeUpInd then
      if s.state == HostInitWakeup then s.(state := Awake, action := NoAction, counted := s.counted + 1)
      else if s.state == ControllerInitWakeup then s.(action := SendWakeupAck, counted := s.counted + 1)
      else s.(counted := s.counted + 1)
    else if b == WakeUpAck then
      s.(state := Awake, action := NoAction, counted := s.counted + 1, done := true)
    else
      // GO_TO_SLEEP_ACK and every other byte end the scan without being credited
      s.(done := true)
  }

  /** The loop's values after running over bs, stopping as soon as Done is set. */
  function Run(s: Scan, bs: seq<bv8>): Scan
    decreases |bs|
  {
    if |bs| == 0 || s.done then s else Run(Step(s, bs[0]), bs[1..])
  }

  /** The scan HCILL_Process_Characters starts from in state st. */
  function Start(st: State): Scan
  {
    Scan(st, NoAction, 0, false)
  }

  /** Length of the leading run of bytes that are credited and let the scan go on (0x30 and 0x32). */
  function LeadingIndications(bs: seq<bv8>): (k: nat)
    ensures k <= |bs|
    ensures forall i :: 0 <= i < k ==> bs[i] == GoToSleepInd || bs[i] == WakeUpInd
    ensures k < |bs| ==> bs[k] != GoToSleepInd && bs[k] != WakeUpInd
  {
    if |bs| == 0 || (bs[0] != GoToSleepInd && bs[0] != WakeUpInd) then 0
    else 1 + LeadingIndications(bs[1..])
  }

  /**
   * The scan credits the leading 0x30/0x32 bytes, plus the byte that stops it
   * when that byte is WAKE_UP_ACK; it stops early exactly when such a byte
   * exists, and a WAKE_UP_ACK leaves the machine Awake with nothing to send.
   */
  lemma {:induction false} RunCounts(s: Scan, bs: seq<bv8>)
    requires !s.done
    ensures var k := LeadingIndications(bs);
            var r := Run(s, bs);
            && r.counted == s.counted + k + (if k < |bs| && bs[k] == WakeUpAck then 1 else 0)
            && r.done == (k < |bs|)
            && (k < |bs| && bs[k] == WakeUpAck ==> r.state == Awake && r.action == NoAction)
    decreases |bs|
  {
    if |bs| > 0 {
      if bs[0] == GoToSleepInd || bs[0] == WakeUpInd {
        RunCounts(Step(s, bs[0]), bs[1..]);
      }
    }
  }

  /** An action the scan requests always matches the state it leaves the machine in. */
  predicate ActionConsistent(st: State, a: Action)
  {
    (a == SendSleepAck ==> st == WaitSendSleepAck) && (a == SendWakeupAck ==> st == ControllerInitWakeup)
  }

  lemma {:induction false} RunKeepsActionConsistent(s: Scan, bs: seq<bv8>)
    requires ActionConsistent(s.state, s.action)
    ensures ActionConsistent(Run(s, bs).state, Run(s, bs).action)
    decreases |bs|
  {
    if |bs| > 0 && !s.done {
      RunKeepsActionConsistent(Step(s, bs[0]), bs[1..]);
    }
  }

  /** HCILL_ActionTaken as a function of the state: (transition happened, next state). */
  function AfterAction(st: State, a: Action): (r: (bool, State))
    ensures r.0 <==> a != NoAction && ActionConsistent(st, a)
    ensures !r.0 ==> r.1 == st
    ensures r.0 && a == SendSleepAck ==> r.1 == Sleep
    ensures r.0 && a == SendWakeupAck ==> r.1 == Awake
  {
    match a
    case SendSleepAck => if st == WaitSendSleepAck then (true, Sleep) else (false, st)
    case SendWakeupAck => if st == ControllerInitWakeup then (true, Awake) else (false, st)
    case NoAction => (false, st)
  }

  /**
   * The two-phase handshake closes: whatever action the byte processor
   * requests, confirming it with HCILL_ActionTaken (once the byte is sent)
   * performs the transition and returns 1.
   */
  lemma RequestedActionIsAccepted(st: State, bs: seq<bv8>)
    ensures var r := Run(Start(st), bs);
            r.action != NoAction ==> AfterAction(r.state, r.action).0
  {
    RunKeepsActionConsistent(Start(st), bs);
  }

  // ---------------------------------------------------------------------
  // The power lock.
  // ---------------------------------------------------------------------

  /** HCILL_Power_Unlock: one step down, never below zero. */
  function Unlocked(lock: nat): nat
  {
    if lock != 0 then lock - 1 else lock
  }

  /** n successive unlocks. */
  function UnlockedTimes(lock: nat, n: nat): nat
  {
    if n == 0 then lock else UnlockedTimes(Unlocked(lock), n - 1)
  }

  /** n calls of HCILL_Power_Unlock subtract n from the lock, stopping at zero. */
  lemma {:induction false} UnlockedTimesSaturates(lock: nat, n: nat)
    ensures UnlockedTimes(lock, n) == if lock >= n then lock - n else 0
    decreases n
  {
    if n > 0 {
      UnlockedTimesSaturates(Unlocked(lock), n - 1);
    }
  }

  /** HCILL_Decrement_Power_Lock: decrementing by count has the effect of count calls of HCILL_Power_Unlock. */
  function DecrementedLock(lock: nat, count: nat): (r: nat)
    ensures r == UnlockedTimes(lock, count)
    ensures r <= lock
  {
    UnlockedTimesSaturates(lock, count);
    if lock >= count then lock - count else 0
  }

  /** The condition under which Main.c's idle hook lets the MCU enter low-power mode. */
  predicate LowPowerAllowed(stackIdle: bool, st: State, lockCount: nat)
  {
    stackIdle && st == Sleep && lockCount == 0
  }

  /** Bytes from the controller never put the machine to sleep: only a sent sleep acknowledgement does. */
  lemma {:induction false} RunNeverSleeps(s: Scan, bs: seq<bv8>)
    requires s.state != Sleep
    ensures Run(s, bs).state != Sleep
    decreases |bs|
  {
    if |bs| > 0 && !s.done {
      RunNeverSleeps(Step(s, bs[0]), bs[1..]);
    }
  }

  /**
   * Low-power mode is reached only through HCILL_ActionTaken confirming a
   * sent GO_TO_SLEEP_ACK: from any other state, neither the bytes the
   * controller sends nor any other confirmed action allow it.
   */
  lemma LowPowerNeedsSleepAck(stackIdle: bool, st: State, bs: seq<bv8>, lockCount: nat, a: Action)
    requires st != Sleep
    ensures !LowPowerAllowed(stackIdle, Run(Start(st), bs).state, lockCount)
    ensures LowPowerAllowed(stackIdle, AfterAction(st, a).1, lockCount) ==> st == WaitSendSleepAck && a == SendSleepAck
  {
    RunNeverSleeps(Start(st), bs);
  }

  // ---------------------------------------------------------------------
  // The state machine object (the module globals HCILL_State, HCILL_Lock).
  // ---------------------------------------------------------------------

  class Machine {
    var state: State
    var lock: nat

    /** The static initialisers of EHCILL.c: Awake, no lock held. */
    constructor ()
      ensures state == Awake && lock == 0
    {
      state := Awake;
      lock := 0;
    }

    /** HCILL_Init. */
    method Init()
      modifies this
      ensures state == Awake && lock == 0
    {
      state := Awake;
      lock := 0;
    }

    /** HCILL_Power_Lock. */
    method PowerLock()
      modifies this
      ensures lock == old(lock) + 1 && state == old(state)
    {
      lock := lock + 1;
    }

    /** HCILL_Power_Unlock. */
    method PowerUnlock()
      modifies this
      ensures lock == Unlocked(old(lock)) && state == old(state)
      ensures old(lock) != 0 ==> lock == old(lock) - 1
      ensures old(lock) == 0 ==> lock == 0
    {
      if lock != 0 {
        lock := lock - 1;
      }
    }

    /** HCILL_Decrement_Power_Lock. */
    method DecrementPowerLock(count: nat)
      modifies this
      ensures lock == DecrementedLock(old(lock), count) && state == old(state)
      ensures lock == UnlockedTimes(old(lock), count)
    {
      if lock >= count {
        lock := lock - count;
      } else {
        lock := 0;
      }
    }

    /** HCILL_ControllerInitWakeup: only from Sleep. */
    method ControllerInitiatedWakeup() returns (r: int)
      modifies this
      ensures lock == old(lock)
      ensures r == 1 <==> old(state) == Sleep
      ensures r == 1 ==> state == ControllerInitWakeup
      ensures r != 1 ==> r == 0 && state == old(state)
    {
      r := 0;
      if state == Sleep {
        state := ControllerInitWakeup;
        r := 1;
      }
    }

    /** HCILL_HostInitWakeup: only from Sleep. */
    method HostInitiatedWakeup() returns (r: int)
      modifies this
      ensures lock == old(lock)
      ensures r == 1 <==> old(state) == Sleep
      ensures r == 1 ==> state == HostInitWakeup
      ensures r != 1 ==> r == 0 && state == old(state)
    {
      r := 0;
      if state == Sleep {
        state := HostInitWakeup;
        r := 1;
      }
    }

    /**
     * HCILL_Process_Characters over buffer (Count = |buffer|).  processed is
     * the caller's counter *Processed on entry; the new value is returned.
     */
    method ProcessCharacters(buffer: seq<bv8>, processed: nat) returns (action: Action, processedOut: nat)
      modifies this
      ensures lock == old(lock)
      ensures !(|buffer| > 0 && IsHcillCharacter(buffer[0])) ==>
                action == NoAction && processedOut == processed && state == old(state)
      ensures |buffer| > 0 && IsHcillCharacter(buffer[0]) ==>
                var r := Run(Start(old(state)), buffer);
                state == r.state && action == r.action && processedOut == processed + r.counted
    {
      action := NoAction;
      processedOut := processed;
      if |buffer| > 0 && IsHcillCharacter(buffer[0]) {
        var done := false;
        var index := 0;
        while index < |buffer| && !done
          invariant 0 <= index <= |buffer|
          invariant processedOut >= processed && lock == old(lock)
          invariant Run(Scan(state, action, processedOut - processed, done), buffer[index..])
                    == Run(Start(old(state)), buffer)
        {
          var b := buffer[index];
          if b == GoToSleepInd {
            if state == Awake {
              state := WaitSendSleepAck;
              action := SendSleepAck;
            }
            processedOut := processedOut + 1;
          } else if b == GoToSleepAck {
            done := true;
          } else if b == WakeUpInd {
            if state == HostInitWakeup {
              state := Awake;
              action := NoAction;
            } else if state == ControllerInitWakeup {
              action := SendWakeupAck;
            }
            processedOut := processedOut + 1;
          } else if b == WakeUpAck {
            state := Awake;
            action := NoAction;
            processedOut := processedOut + 1;
            done := true;
          } else {
            done := true;
          }
          index := index + 1;
        }
      }
    }

    /** HCILL_ActionTaken: completes a requested transition once its byte has gone out. */
    method ActionTaken(a: Action) returns (r: int)
      modifies this
      ensures lock == old(lock)
      ensures (r == 1, state) == AfterAction(old(state), a)
      ensures r == 0 || r == 1
    {
      r := 0;
      match a
      case SendSleepAck =>
        if state == WaitSendSleepAck {
          state := Sleep;
          r := 1;
        }
      case SendWakeupAck =>
        if state == ControllerInitWakeup {
          state := Awake;
          r := 1;
        }
      case NoAction =>
    }
  }

  // ---------------------------------------------------------------------
  // HCILL_Configure.
  // ---------------------------------------------------------------------

  const MinInactivityTimeout: nat := 10
  const MinRetransmitTimeout: nat := 10
  const CtsPulseWidthUs: bv8 := 0xFF

  /** What HCI_Send_Raw_Command hands back: its result, and the returned length and first byte. */
  datatype RawReply = RawReply(result: int, length: nat, first: bv8)

  /** The two vendor commands HCILL_Configure may send (timeouts in milliseconds, before conversion to frames). */
  datatype ConfigCommand =
    | HcillParameters(inactivityMs: nat, retransmitMs: nat, ctsPulseUs: bv8)   // OCF 0x12B, 5 parameter bytes
    | SleepModeConfigurations(parameters: seq<bv8>)                          // OCF 0x10C, 9 parameter bytes

  /** HCILL_Configure's return value: a code, or BTPS_ERROR_INVALID_BLUETOOTH_STACK_ID. */
  datatype ConfigStatus = InvalidStackId | Code(value: int)

  /** The value ret_val takes after one command (EHCILL.c:157-166, 187-196). */
  function ReplyStatus(reply: RawReply): (s: int)
    ensures reply.result != 0 ==> s == reply.result
    ensures reply.result == 0 && reply.length == 1 ==> s == -(reply.first as int) && s <= 0
    ensures reply.result == 0 && reply.length != 1 ==> s == -1
    ensures s == 0 <==> reply.result == 0 && reply.length == 1 && reply.first == 0
  {
    if reply.result != 0 then reply.result
    else if reply.length == 1 then (if reply.first != 0 then -(reply.first as int) else 0)
    else -1
  }

  /** A timeout raised to at least the given minimum. */
  function AtLeast(t: nat, min: nat): (r: nat)
    ensures r >= min && r >= t && (r == t || r == min)
  {
    if t < min then min else t
  }

  /**
   * HCILL_Configure, with the two command replies and the outcome of the two
   * buffer allocations as inputs.  Returns the status and the commands sent.
   */
  function Configure(stackId: nat, inactivityMs: nat, retransmitMs: nat, deepSleep: bool,
                     buffersAllocated: bool, first: RawReply, second: RawReply): (r: (ConfigStatus, seq<ConfigCommand>))
    ensures stackId == 0 <==> r.0 == InvalidStackId
    ensures stackId == 0 || !buffersAllocated ==> |r.1| == 0
    ensures stackId != 0 && !buffersAllocated ==> r.0 == Code(0)
    ensures (|r.1| > 0 && r.1[0].HcillParameters?) <==>
              stackId != 0 && buffersAllocated && inactivityMs != 0 && retransmitMs != 0
    ensures forall i :: 0 <= i < |r.1| && r.1[i].HcillParameters? ==>
              r.1[i].inactivityMs == AtLeast(inactivityMs, MinInactivityTimeout) &&
              r.1[i].retransmitMs == AtLeast(retransmitMs, MinRetransmitTimeout) &&
              r.1[i].inactivityMs >= 10 && r.1[i].retransmitMs >= 10
    ensures forall i :: 0 <= i < |r.1| && r.1[i].SleepModeConfigurations? ==>
              r.1[i].parameters == SleepModeParameters(deepSleep)
    ensures forall i :: 0 < i < |r.1| ==> r.1[i].SleepModeConfigurations?
    ensures |r.1| > 0 && r.1[|r.1| - 1].SleepModeConfigurations? ==> r.0 == Code(ReplyStatus(second))
    ensures |r.1| <= 2
    ensures stackId != 0 && buffersAllocated && (inactivityMs == 0 || retransmitMs == 0 || ReplyStatus(first) >= 0) ==>
              |r.1| > 0 && r.1[|r.1| - 1] == SleepModeConfigurations(SleepModeParameters(deepSleep))
    ensures stackId != 0 && buffersAllocated && inactivityMs != 0 && retransmitMs != 0 && ReplyStatus(first) < 0 ==>
              r == (Code(ReplyStatus(first)), [HcillParameters(AtLeast(inactivityMs, MinInactivityTimeout),
                                                               AtLeast(retransmitMs, MinRetransmitTimeout), CtsPulseWidthUs)])
  {
    if stackId == 0 then (InvalidStackId, [])
    else if !buffersAllocated then (Code(0), [])
    else
      var sendFirst := inactivityMs != 0 && retransmitMs != 0;
      var cmd1 := HcillParameters(AtLeast(inactivityMs, MinInactivityTimeout),
                                  AtLeast(retransmitMs, MinRetransmitTimeout), CtsPulseWidthUs);
      var ret1 := if sendFirst then ReplyStatus(first) else 0;
      var sent1 := if sendFirst then [cmd1] else [];
      if ret1 >= 0 then (Code(ReplyStatus(second)), sent1 + [SleepModeConfigurations(SleepModeParameters(deepSleep))])
      else (Code(ret1), sent1)
  }

  /** The nine parameter bytes of HCI_VS_Sleep_Mode_Configurations (EHCILL.c:176-183). */
  function SleepModeParameters(deepSleep: bool): (p: seq<bv8>)
    ensures |p| == 9 && p[0] == 1 && (p[1] == 1 <==> deepSleep)
  {
    [1, if deepSleep then 1 else 0, 0, 0xFF, 0xFF, 0xFF, 0xFF, 0, 0]
  }
}
