/*
 * The vendor hooks of the CC256x port (BTPSVEND.c): the replay of a patch
 * table of HCI command packets into the controller after its first reset,
 * and the flag that remembers whether the vendor commands were issued.
 *
 * A patch table is a run of records, each an HCI command packet as the UART
 * transport frames it (Bluetooth Core v4.0, Vol 4 Part A, section 2): the
 * indicator 0x01, the two opcode bytes in little-endian order, the
 * parameter length, then the parameters.  HCI_Send_Raw_Command is outside
 * the model: the commands it is given are appended to a log, and its
 * replies come from an oracle indexed by the number of commands sent.
 */
module Vendor {
  import opened Wrappers

  /** Size of the buffer the parameters are copied into before sending (BTPSVEND.c:276). */
  const TempBufferSize: nat := 260

  /** The packet indicator of an HCI command on the UART transport. */
  const CommandIndicator: Byte := 0x01

  /** An unsigned char. */
  type Byte = x: int | 0 <= x < 256

  /**
   * The opcode bytes of a record split into OGF and OCF (BTPSVEND.c:140-141):
   * the OCF is the low 10 bits of the little-endian opcode, the OGF the high
   * 6 (Bluetooth Core v4.0, Vol 2 Part E, section 5.4.1).  The shifts and
   * masks of the source are written as the divisions and remainders they
   * compute on unsigned values.
   */
  function DecodeOpcode(low: Byte, high: Byte): (r: (int, int))
    ensures 0 <= r.0 < 64 && 0 <= r.1 < 1024
  {
    (high / 4, low + (high % 4) * 256)
  }

  /** The two opcode bytes of a command, low byte first. */
  function EncodeOpcode(ogf: int, ocf: int): (r: (Byte, Byte))
    requires 0 <= ogf < 64 && 0 <= ocf < 1024
  {
    (ocf % 256, ogf * 4 + ocf / 256)
  }

  /** Splitting the opcode bytes and joining them again gives back the bytes. */
  lemma OpcodeBytesRoundTrip(low: Byte, high: Byte)
    ensures var (ogf, ocf) := DecodeOpcode(low, high);
            EncodeOpcode(ogf, ocf) == (low, high)
  {
  }

  /** An OGF and OCF that fit their fields come back unchanged from the opcode bytes. */
  lemma OpcodeFieldsRoundTrip(ogf: int, ocf: int)
    requires 0 <= ogf < 64 && 0 <= ocf < 1024
    ensures var (low, high) := EncodeOpcode(ogf, ocf);
            DecodeOpcode(low, high) == (ogf, ocf)
  {
  }

  /** What HCI_Send_Raw_Command is asked to send. */
  datatype Command = Command(ogf: int, ocf: int, parameters: seq<Byte>)

  /** What HCI_Send_Raw_Command reports: its result, the command status, and ReturnBuffer[0]. */
  datatype Reply = Reply(result: int, status: Byte, returned: Byte)

  /** The test of BTPSVEND.c:149: a negative result, a non-zero status or a non-zero first return byte fail the download. */
  predicate Accepted(r: Reply)
  {
    r.result >= 0 && r.status == 0 && r.returned == 0
  }

  lemma AfterTwice(a: seq<Command>, b: seq<Command>, o: Outcome)
    ensures After(a, After(b, o)) == After(a + b, o)
  {
    assert a + (b + o.sent) == (a + b) + o.sent;
  }

  lemma Regroup(a: seq<Command>, b: seq<Command>, c: seq<Command>)
    ensures (a + b) + c == a + (b + c)
  {
  }

  /** The k replies from the n-th on all accept their command. */
  predicate AcceptedFrom(replies: nat -> Reply, n: nat, k: int)
  {
    forall i :: n <= i < n + k ==> Accepted(replies(i))
  }

  /** The commands a replay sent, in order, and its verdict. */
  datatype Outcome = Outcome(sent: seq<Command>, ok: bool)

  /** A replay that first sent the commands done. */
  function After(done: seq<Command>, o: Outcome): Outcome
  {
    Outcome(done + o.sent, o.ok)
  }

  /**
   * The remaining length after a record with count parameters, or None when
   * the record does not fit in what is left of the table.
   */
  function RemainingAfter(len: nat, count: Byte): (r: Option<nat>)
    ensures r.Some? <==> 4 + count <= len
    ensures r.Some? ==> r.value + 4 + count == len && r.value < len
  {
    if 4 + count <= len then Some(len - (4 + count)) else None
  }

  /**
   * The loop of Download_Patch over the table t, the n-th command getting
   * reply replies(n): an empty rest or a record that does not start with the
   * indicator ends the walk successfully; a record is decoded, sent, and
   * either fails the walk or is skipped over.  A record that runs past the
   * end of the table fails the walk before anything of it is sent.
   */
  function Replay(t: seq<Byte>, replies: nat -> Reply, n: nat): Outcome
    decreases |t|
  {
    if |t| == 0 || t[0] != CommandIndicator then Outcome([], true)
    else if |t| < 4 || RemainingAfter(|t|, t[3]).None? then Outcome([], false)
    else if !Accepted(replies(n)) then Outcome([RecordCommand(t)], false)
    else After([RecordCommand(t)], Replay(t[4 + t[3]..], replies, n + 1))
  }

  /** The command of the record at the head of t: the decoded opcode and the parameters. */
  function RecordCommand(t: seq<Byte>): Command
    requires |t| >= 4 && 4 + t[3] <= |t|
  {
    var (ogf, ocf) := DecodeOpcode(t[1], t[2]);
    Command(ogf, ocf, t[4..4 + t[3]])
  }

  /** Replay at a complete record: it is sent, and the walk goes on past it if the reply accepts it. */
  lemma ReplayAtRecord(t: seq<Byte>, replies: nat -> Reply, n: nat)
    requires |t| >= 4 && t[0] == CommandIndicator && 4 + t[3] <= |t|
    ensures Replay(t, replies, n)
            == if Accepted(replies(n)) then After([RecordCommand(t)], Replay(t[4 + t[3]..], replies, n + 1))
               else Outcome([RecordCommand(t)], false)
  {
  }

  /** Replay of the rest of a table from cursor on, case by case, as Download_Patch's loop reads it. */
  lemma ReplayAtCursor(table: seq<Byte>, cursor: nat, replies: nat -> Reply, n: nat)
    requires cursor < |table|
    ensures var t := table[cursor..];
            var o := Replay(t, replies, n);
            && (table[cursor] != CommandIndicator ==> o == Outcome([], true))
            && (table[cursor] == CommandIndicator && (|t| < 4 || |t| < 4 + t[3] as int) ==> o == Outcome([], false))
            && (table[cursor] == CommandIndicator && |t| >= 4 && |t| >= 4 + t[3] as int ==>
                  o == if Accepted(replies(n)) then After([RecordCommand(t)], Replay(table[cursor + 4 + t[3]..], replies, n + 1))
                       else Outcome([RecordCommand(t)], false))
  {
    var t := table[cursor..];
    if |t| >= 4 && |t| >= 4 + t[3] as int {
      assert t[4 + t[3]..] == table[cursor + 4 + t[3]..];
    }
  }

  // ------------------------------------------------------------- tables

  /** A command whose fields fit a patch record. */
  predicate Encodable(c: Command)
  {
    0 <= c.ogf < 64 && 0 <= c.ocf < 1024 && |c.parameters| <= 255
  }

  predicate AllEncodable(cs: seq<Command>)
  {
    forall i :: 0 <= i < |cs| ==> Encodable(cs[i])
  }

  /** The patch record of a command. */
  function EncodeRecord(c: Command): (r: seq<Byte>)
    requires Encodable(c)
  {
    [CommandIndicator, EncodeOpcode(c.ogf, c.ocf).0, EncodeOpcode(c.ogf, c.ocf).1, |c.parameters|] + c.parameters
  }



  /** The patch table of a list of commands, record after record. */
  function EncodeTable(cs: seq<Command>): seq<Byte>
    requires AllEncodable(cs)
  {
    if |cs| == 0 then [] else EncodeRecord(cs[0]) + EncodeTable(cs[1..])
  }

  /** Replaying the table of some commands sends exactly those commands when each is accepted. */
  lemma {:induction false} ReplayEncoded(cs: seq<Command>, replies: nat -> Reply, n: nat)
    requires AllEncodable(cs)
    requires AcceptedFrom(replies, n, |cs|)
    ensures Replay(EncodeTable(cs), replies, n) == Outcome(cs, true)
  {
    if |cs| > 0 {
      var c := cs[0];
      var r := EncodeRecord(c);
      var t := EncodeTable(cs);
      ReplayRecord(c, EncodeTable(cs[1..]), replies, n);
      ReplayEncoded(cs[1..], replies, n + 1);
      assert [c] + cs[1..] == cs;
    }
  }

  /**
   * Replaying the table of some commands stops at the first one refused:
   * every command up to and including it is sent, and the walk fails.
   */
  lemma {:induction false} ReplayStopsAtRefusal(cs: seq<Command>, replies: nat -> Reply, n: nat, k: nat)
    requires AllEncodable(cs)
    requires k < |cs| && !Accepted(replies(n + k))
    requires AcceptedFrom(replies, n, k)
    ensures Replay(EncodeTable(cs), replies, n) == Outcome(cs[..k + 1], false)
  {
    if k > 0 {
      assert AcceptedFrom(replies, n + 1, k - 1);
      assert n + 1 + (k - 1) == n + k;
      TableHead(cs);
      ReplayStopsAtRefusal(cs[1..], replies, n + 1, k - 1);
      RefusalLater(cs, replies, n, k);
    } else {
      RefusalFirst(cs, replies, n);
    }
  }

  /** The first command of a table refused: it alone is sent. */
  lemma RefusalFirst(cs: seq<Command>, replies: nat -> Reply, n: nat)
    requires AllEncodable(cs) && |cs| > 0 && !Accepted(replies(n))
    ensures Replay(EncodeTable(cs), replies, n) == Outcome(cs[..1], false)
  {
    TableHead(cs);
    ReplayRecord(cs[0], EncodeTable(cs[1..]), replies, n);
    assert cs[..1] == [cs[0]];
  }

  /** The first command of a table accepted, and the walk of the others failing at their k-th. */
  lemma RefusalLater(cs: seq<Command>, replies: nat -> Reply, n: nat, k: nat)
    requires AllEncodable(cs) && 0 < k < |cs| && Accepted(replies(n))
    requires AllEncodable(cs[1..]) && Replay(EncodeTable(cs[1..]), replies, n + 1) == Outcome(cs[1..][..k], false)
    ensures Replay(EncodeTable(cs), replies, n) == Outcome(cs[..k + 1], false)
  {
    TableHead(cs);
    AcceptedRecord(cs[0], EncodeTable(cs[1..]), cs[1..][..k], replies, n);
    assert cs[..k + 1] == [cs[0]] + cs[1..][..k];
  }

  /** A non-empty table is the record of its first command in front of the table of the others. */
  lemma TableHead(cs: seq<Command>)
    requires AllEncodable(cs) && |cs| > 0
    ensures Encodable(cs[0]) && AllEncodable(cs[1..])
    ensures EncodeTable(cs) == EncodeRecord(cs[0]) + EncodeTable(cs[1..])
  {
  }

  /** An accepted record in front of a table whose walk fails adds its command to the failed walk. */
  lemma AcceptedRecord(c: Command, more: seq<Byte>, rest: seq<Command>, replies: nat -> Reply, n: nat)
    requires Encodable(c) && Accepted(replies(n))
    requires Replay(more, replies, n + 1) == Outcome(rest, false)
    ensures Replay(EncodeRecord(c) + more, replies, n) == Outcome([c] + rest, false)
  {
    ReplayRecord(c, more, replies, n);
  }

  /** One record in front of the rest of a table. */
  lemma ReplayRecord(c: Command, more: seq<Byte>, replies: nat -> Reply, n: nat)
    requires Encodable(c)
    ensures Replay(EncodeRecord(c) + more, replies, n)
            == if Accepted(replies(n)) then After([c], Replay(more, replies, n + 1)) else Outcome([c], false)
  {
    var r := EncodeRecord(c);
    var t := r + more;
    OpcodeFieldsRoundTrip(c.ogf, c.ocf);
    assert t[..|r|] == r;
    assert t[4..4 + t[3]] == c.parameters;
    assert t[|t| - |more|..] == more;
  }

  /** A walk that succeeded had every command accepted; one that failed had all but its last accepted. */
  lemma {:induction false} ReplayAccepted(t: seq<Byte>, replies: nat -> Reply, n: nat)
    decreases |t|
    ensures var o := Replay(t, replies, n);
            AcceptedFrom(replies, n, |o.sent| - (if o.ok then 0 else 1))
  {
    if |t| > 0 && t[0] == CommandIndicator && |t| >= 4 && RemainingAfter(|t|, t[3]).Some? && Accepted(replies(n)) {
      var rest := RemainingAfter(|t|, t[3]).value;
      ReplayAccepted(t[|t| - rest..], replies, n + 1);

    }
  }

  /** The walk never sends more records than the table can hold. */
  lemma {:induction false} ReplayBounded(t: seq<Byte>, replies: nat -> Reply, n: nat)
    decreases |t|
    ensures 4 * |Replay(t, replies, n).sent| <= |t|
  {
    if |t| > 0 && t[0] == CommandIndicator && |t| >= 4 && RemainingAfter(|t|, t[3]).Some? && Accepted(replies(n)) {
      ReplayBounded(t[|t| - RemainingAfter(|t|, t[3]).value..], replies, n + 1);
    }
  }

  // --------------------------------------------- the record length, as written

  /**
   * BTPSVEND.c:160 as written: PatchLen is an unsigned int, 16 bits on the
   * MSP430, so subtracting a record longer than what is left wraps around.
   */
  function PatchLenAfter(patchLen: nat, count: Byte): (r: nat)
    requires patchLen <= 0xFFFF
    ensures r <= 0xFFFF
    ensures 4 + count <= patchLen ==> r == patchLen - (4 + count)
  {
    (patchLen - (4 + count)) % 0x1_0000
  }

  /** The byte at offset i from the start of the table: the table itself, then whatever memory follows it. */
  function MemoryAt(t: seq<Byte>, beyond: nat -> Byte, i: nat): (b: Byte)
    ensures i < |t| ==> b == t[i]
  {
    if i < |t| then t[i] else beyond(i - |t|)
  }

  /** MovePatchBytes as written: k bytes from offset from, read without regard to where the table ends. */
  function MemoryRead(t: seq<Byte>, beyond: nat -> Byte, from: nat, k: nat): (bs: seq<Byte>)
    ensures |bs| == k
    ensures from + k <= |t| ==> bs == t[from..from + k]
  {
    var bs := seq<Byte>(k, i requires 0 <= i < k => MemoryAt(t, beyond, from + i));
    assert forall i :: 0 <= i < k ==> bs[i] == MemoryAt(t, beyond, from + i);
    bs
  }

  /**
   * One pass of the loop of Download_Patch as written (BTPSVEND.c:127-163),
   * at offset at of the table with patchLen bytes left: the header and the
   * parameters are read whether or not they lie in the table, the command
   * is sent, and PatchLen drops by the record length on 16 bits.  Returns
   * the command sent (None at a bad marker, which ends the loop) and the
   * PatchLen that follows.
   */
  function StepAsWritten(t: seq<Byte>, beyond: nat -> Byte, at: nat, patchLen: nat): (r: (Option<Command>, nat))
    requires patchLen <= 0xFFFF
    ensures r.1 <= 0xFFFF
    ensures r.0.None? <==> MemoryAt(t, beyond, at) != CommandIndicator
    ensures r.0.None? ==> r.1 == 0
    ensures r.0.Some? ==> |r.0.value.parameters| == MemoryAt(t, beyond, at + 3)
  {
    var header := MemoryRead(t, beyond, at, 4);
    if header[0] != CommandIndicator then (None, 0)
    else
      var (ogf, ocf) := DecodeOpcode(header[1], header[2]);
      (Some(Command(ogf, ocf, MemoryRead(t, beyond, at + 4, header[3]))), PatchLenAfter(patchLen, header[3]))
  }

  /**
   * On a record that fits in the table, the pass as written and the walk of
   * the model agree: the same command is sent and the same length is left.
   */
  lemma StepAsWrittenAgrees(t: seq<Byte>, beyond: nat -> Byte)
    requires |t| <= 0xFFFF && |t| >= 4 && t[0] == CommandIndicator && 4 + t[3] <= |t|
    ensures StepAsWritten(t, beyond, 0, |t|) == (Some(RecordCommand(t)), RemainingAfter(|t|, t[3]).value)
  {
    assert MemoryRead(t, beyond, 0, 4) == t[..4];
  }

  /**
   * A 6-byte table whose one record announces 5 parameters: as written, the
   * record is sent with three bytes read from past the end of the table, and
   * the remaining length wraps to 0xFFFD, so the loop goes on reading past
   * the table; the walk of the model fails the record without sending it.
   */
  lemma TruncatedRecordWraps(replies: nat -> Reply, beyond: nat -> Byte)
    ensures PatchLenAfter(6, 5) == 0xFFFD && PatchLenAfter(6, 5) > 6
    ensures StepAsWritten([0x01, 0x01, 0xFC, 0x05, 0x00, 0x00], beyond, 0, 6)
            == (Some(Command(63, 1, [0x00, 0x00, beyond(0), beyond(1), beyond(2)])), 0xFFFD)
    ensures Replay([0x01, 0x01, 0xFC, 0x05, 0x00, 0x00], replies, 0) == Outcome([], false)
  {
    var t: seq<Byte> := [0x01, 0x01, 0xFC, 0x05, 0x00, 0x00];
    assert MemoryRead(t, beyond, 0, 4) == [0x01, 0x01, 0xFC, 0x05];
    assert MemoryRead(t, beyond, 4, 5) == [0x00, 0x00, beyond(0), beyond(1), beyond(2)];
  }

  /** The table of a patch and where it sits in memory (BasePatchPointer, 0 for NULL). */
  datatype Patch = Patch(address: nat, bytes: seq<Byte>)

  /** Download_Patch: invalid parameters fail before anything is sent; otherwise the table is replayed. */
  function DownloadFn(stackId: nat, p: Patch, replies: nat -> Reply, n: nat): (o: Outcome)
    ensures stackId == 0 || |p.bytes| == 0 || p.address == 0 ==> o == Outcome([], false)
  {
    if stackId == 0 || |p.bytes| == 0 || p.address == 0 then Outcome([], false)
    else Replay(p.bytes, replies, n)
  }

  /**
   * HCI_VS_InitializeAfterHCIReset: with valid identifiers and both buffers
   * allocated, the base patch is downloaded, then, when low-energy support
   * is built in, the low-energy patch.
   */
  function AfterResetFn(driverId: nat, stackId: nat, returnAllocated: bool, tempAllocated: bool,
                        base: Patch, lowEnergyPatch: Patch, lowEnergy: bool,
                        replies: nat -> Reply, n: nat): Outcome
  {
    if driverId == 0 || stackId == 0 || !returnAllocated || !tempAllocated then Outcome([], false)
    else
      var b := DownloadFn(stackId, base, replies, n);
      if !b.ok then b
      else if !lowEnergy then Outcome(b.sent, true)
      else After(b.sent, DownloadFn(stackId, lowEnergyPatch, replies, n + |b.sent|))
  }

  /** The low-energy patch is sent only when the base patch went through. */
  lemma LowEnergyPatchNeedsBase(driverId: nat, stackId: nat, returnAllocated: bool, tempAllocated: bool,
                                base: Patch, lowEnergyPatch: Patch, lowEnergy: bool,
                                replies: nat -> Reply, n: nat)
    requires driverId != 0 && stackId != 0 && returnAllocated && tempAllocated
    requires !DownloadFn(stackId, base, replies, n).ok
    ensures AfterResetFn(driverId, stackId, returnAllocated, tempAllocated, base, lowEnergyPatch, lowEnergy, replies, n)
            == DownloadFn(stackId, base, replies, n)
  {
  }

  /** Initialisation succeeds only if every command sent on its way was accepted. */
  lemma AfterResetAccepted(driverId: nat, stackId: nat, returnAllocated: bool, tempAllocated: bool,
                           base: Patch, lowEnergyPatch: Patch, lowEnergy: bool,
                           replies: nat -> Reply, n: nat)
    ensures var o := AfterResetFn(driverId, stackId, returnAllocated, tempAllocated, base, lowEnergyPatch, lowEnergy, replies, n);
            o.ok ==> AcceptedFrom(replies, n, |o.sent|)
  {
    ReplayAccepted(base.bytes, replies, n);
    var b := DownloadFn(stackId, base, replies, n);
    ReplayAccepted(lowEnergyPatch.bytes, replies, n + |b.sent|);
    var o := AfterResetFn(driverId, stackId, returnAllocated, tempAllocated, base, lowEnergyPatch, lowEnergy, replies, n);
    if o.ok && lowEnergy {
      var l := DownloadFn(stackId, lowEnergyPatch, replies, n + |b.sent|);
      assert |o.sent| == |b.sent| + |l.sent|;
    }
  }

  /**
   * The vendor layer: the flag VendorCommandsIssued, the patch tables, the
   * buffer the parameters pass through, and the commands sent so far.
   */
  class Patcher {
    const replies: nat -> Reply
    const base: Patch
    const lowEnergyPatch: Patch
    const lowEnergy: bool             // built with __SUPPORT_LOW_ENERGY__
    const temp: array<Byte>            // TempBuf
    var commandsIssued: bool          // VendorCommandsIssued
    var sent: seq<Command>            // every command given to HCI_Send_Raw_Command

    predicate Valid()
    {
      temp.Length == TempBufferSize
    }

    /** The module as the C runtime leaves it: the flag clear and nothing sent. */
    constructor(replies: nat -> Reply, base: Patch, lowEnergyPatch: Patch, lowEnergy: bool)
      requires |base.bytes| <= 0xFFFF && |lowEnergyPatch.bytes| <= 0xFFFF
      ensures Valid() && fresh(temp)
      ensures this.replies == replies && this.base == base && this.lowEnergyPatch == lowEnergyPatch
      ensures this.lowEnergy == lowEnergy
      ensures !commandsIssued && sent == []
    {
      this.replies := replies;
      this.base := base;
      this.lowEnergyPatch := lowEnergyPatch;
      this.lowEnergy := lowEnergy;
      temp := new Byte[TempBufferSize];
      commandsIssued := false;
      sent := [];
    }

    /** HCI_VS_InitializeBeforeHCIOpen: the vendor commands are still to be issued. */
    method InitializeBeforeHciOpen() returns (ok: bool)
      modifies this`commandsIssued
      ensures ok && !commandsIssued
    {
      commandsIssued := false;
      ok := true;
    }

    /** HCI_VS_InitializeBeforeHCIReset: from the first reset on, the vendor commands count as issued. */
    method InitializeBeforeHciReset(driverId: nat, stackId: nat) returns (ok: bool)
      modifies this`commandsIssued
      ensures ok && commandsIssued
    {
      if !commandsIssued {
        commandsIssued := true;
      }
      ok := true;
    }

    /**
     * MovePatchBytes: copy length bytes of the table, from cursor on, into
     * the buffer at dest; with nothing to copy the byte at dest is cleared.
     */
    method MovePatchBytes(dest: nat, table: seq<Byte>, cursor: nat, length: nat)
      requires Valid() && dest < temp.Length && dest + length <= temp.Length && cursor + length <= |table|
      modifies temp
      ensures length > 0 ==> temp[..] == old(temp[..dest]) + table[cursor..cursor + length] + old(temp[dest + length..])
      ensures length == 0 ==> temp[..] == old(temp[..])[dest := 0]
    {
      if length == 0 {
        temp[dest] := 0;
        return;
      }
      var k := 0;
      while k < length
        invariant 0 <= k <= length
        invariant temp[..dest] == old(temp[..dest]) && temp[dest + length..] == old(temp[dest + length..])
        invariant temp[dest..dest + k] == table[cursor..cursor + k]
        invariant forall i :: dest + k <= i < dest + length ==> temp[i] == old(temp[i])
      {
        temp[dest + k] := table[cursor + k];
        k := k + 1;
      }
      assert temp[..] == temp[..dest] + temp[dest..dest + length] + temp[dest + length..];
    }

    /** HCI_Send_Raw_Command, as far as the patcher sees it: the command is sent and the next reply comes back. */
    method SendRawCommand(c: Command) returns (r: Reply)
      modifies this`sent
      ensures sent == old(sent) + [c] && r == replies(|old(sent)|)
    {
      r := replies(|sent|);
      sent := sent + [c];
    }

    /**
     * One pass of Download_Patch's loop over the record at cursor, with
     * patchLen bytes left: either the walk stops (a bad marker, a record cut
     * short, a refused command) with verdict ok, or it goes on with next
     * bytes left.
     */
    method PatchStep(table: seq<Byte>, cursor: nat, patchLen: nat) returns (next: nat, ok: bool, stop: bool, ghost step: seq<Command>)
      requires Valid() && 0 < patchLen && cursor + patchLen == |table|
      modifies this`sent, temp
      ensures sent == old(sent) + step
      ensures stop ==> Replay(table[cursor..], replies, |old(sent)|) == Outcome(step, ok)
      ensures !stop ==> next < patchLen
                        && Replay(table[cursor..], replies, |old(sent)|)
                           == After(step, Replay(table[|table| - next..], replies, |sent|))
    {
      ReplayAtCursor(table, cursor, replies, |sent|);
      var header := if patchLen < 4 then patchLen else 4;
      MovePatchBytes(0, table, cursor, header);
      if temp[0] != CommandIndicator {
        return 0, true, true, [];
      }
      if header < 4 || patchLen < 4 + temp[3] as int {
        // a record cut short by the end of the table
        return 0, false, true, [];
      }
      assert temp[..4] == table[cursor..cursor + 4];
      next, ok, stop := SendRecord(table, cursor, patchLen);
      step := [RecordCommand(table[cursor..])];
    }

    /**
     * The rest of a pass, once the four header bytes of a complete record
     * sit at the start of the buffer: the parameters are copied after them,
     * the command is sent, and the walk stops if the reply refuses it.
     */
    method SendRecord(table: seq<Byte>, cursor: nat, patchLen: nat) returns (next: nat, ok: bool, stop: bool)
      requires Valid() && 4 <= patchLen && cursor + patchLen == |table|
      requires 4 + table[cursor + 3] <= patchLen
      requires temp[..4] == table[cursor..cursor + 4]
      modifies this`sent, temp
      ensures sent == old(sent) + [RecordCommand(table[cursor..])]
      ensures ok == Accepted(replies(|old(sent)|)) && stop == !ok
      ensures next == if ok then patchLen - (4 + table[cursor + 3] as int) else 0
    {
      assert temp[1] == table[cursor + 1] && temp[2] == table[cursor + 2] && temp[3] == table[cursor + 3];
      var low, high, count := temp[1], temp[2], temp[3] as int;
      MovePatchBytes(4, table, cursor + 4, count);
      var (ogf, ocf) := DecodeOpcode(low, high);
      var c := Command(ogf, ocf, temp[4..4 + count]);
      assert table[cursor..][4..4 + count] == table[cursor + 4..cursor + 4 + count];
      var reply := SendRawCommand(c);
      if reply.result < 0 || reply.status != 0 || reply.returned != 0 {
        return 0, false, true;
      }
      return patchLen - (count + 4), true, false;
    }

    /** Download_Patch. */
    method DownloadPatch(stackId: nat, p: Patch) returns (ok: bool)
      requires Valid() && |p.bytes| <= 0xFFFF
      modifies this`sent, temp
      ensures var o := DownloadFn(stackId, p, replies, |old(sent)|);
              sent == old(sent) + o.sent && ok == o.ok
    {
      if stackId == 0 || |p.bytes| == 0 || p.address == 0 {
        return false;
      }
      ghost var n0 := |sent|;
      ghost var done: seq<Command> := [];
      var table := p.bytes;
      var patchLen: nat := |table|;
      var cursor: nat := 0;
      while patchLen != 0
        invariant cursor + patchLen == |table|
        invariant sent == old(sent) + done && n0 == |old(sent)|
        invariant Replay(table, replies, n0) == After(done, Replay(table[cursor..], replies, |sent|))
        decreases patchLen
      {
        var next, stepOk, stop, step := PatchStep(table, cursor, patchLen);
        AfterTwice(done, step, if stop then Outcome([], stepOk) else Replay(table[|table| - next..], replies, |sent|));
        Regroup(old(sent), done, step);
        done := done + step;
        if stop {
          assert After(step, Outcome([], stepOk)) == Outcome(step, stepOk);
          return stepOk;
        }
        cursor := |table| - next;
        patchLen := next;
      }
      assert table[cursor..] == [];
      ok := true;
    }

    /** HCI_VS_InitializeAfterHCIReset. */
    method InitializeAfterHciReset(driverId: nat, stackId: nat, returnAllocated: bool, tempAllocated: bool)
      returns (ok: bool)
      requires Valid() && |base.bytes| <= 0xFFFF && |lowEnergyPatch.bytes| <= 0xFFFF
      modifies this`sent, temp
      ensures var o := AfterResetFn(driverId, stackId, returnAllocated, tempAllocated, base, lowEnergyPatch,
                                    lowEnergy, replies, |old(sent)|);
              sent == old(sent) + o.sent && ok == o.ok
    {
      if driverId != 0 && stackId != 0 {
        if returnAllocated {
          if tempAllocated {
            ok := DownloadPatch(stackId, base);
            if ok {
              if lowEnergy {
                ok := DownloadPatch(stackId, lowEnergyPatch);
              } else {
                ok := true;
              }
            }
          } else {
            ok := false;
          }
        } else {
          ok := false;
        }
      } else {
        ok := false;
      }
    }
  }
}
