/*
 * The SPP-over-LE data path of the demo application (SPPLEDemo.c): each
 * connected device owns a receive and a transmit data buffer (rings with an
 * in index, an out index and a free count), a count of transmit credits
 * granted by the peer, and the two client configuration descriptors that
 * say whether the peer accepts notifications of data and of credits.
 *
 * GATT_Handle_Value_Notification is a call into the Bluetooth stack: the
 * model records every notification in a log and takes the stack's answer
 * for the k-th logged notification from the oracle notifyResult(k).
 */
module SppLe {
  import Ring
  import opened Wrappers

  function Min(a: nat, b: nat): (m: nat)
    ensures m <= a && m <= b && (m == a || m == b)
  {
    if a < b then a else b
  }

  /** A data buffer seen as its contents, oldest byte first, and its size. */
  datatype Queue = Queue(contents: seq<bv8>, size: nat)

  predicate Fits(q: Queue)
  {
    |q.contents| <= q.size
  }

  /**
   * What AddDataToBuffer does to a buffer: as much of data as there is room
   * for is appended, and the count appended is returned.
   */
  function Added(q: Queue, data: seq<bv8>): (r: (Queue, nat))
    requires Fits(q)
    ensures r.0.size == q.size && Fits(r.0)
    ensures r.1 <= |data| && r.0.contents == q.contents + data[..r.1]
    ensures r.1 == |data| <==> |data| <= q.size - |q.contents|
    ensures r.1 < |data| ==> |r.0.contents| == q.size
  {
    var n := Min(|data|, q.size - |q.contents|);
    (Queue(q.contents + data[..n], q.size), n)
  }

  /**
   * What RemoveDataFromBuffer does to a buffer: the oldest bytes, up to
   * length of them, are taken out and returned.
   */
  function Removed(q: Queue, length: nat): (r: (Queue, seq<bv8>))
    requires Fits(q)
    ensures r.0.size == q.size && Fits(r.0)
    ensures r.1 + r.0.contents == q.contents
    ensures |r.1| <= length && (|r.1| == length || r.0.contents == [])
  {
    var n := Min(length, |q.contents|);
    (Queue(q.contents[n..], q.size), q.contents[..n])
  }

  /** Bytes added to a buffer come out again unchanged, after the bytes already held. */
  lemma RemoveAfterAdd(q: Queue, data: seq<bv8>)
    requires Fits(q)
    ensures var (q1, n) := Added(q, data);
            Removed(q1, |q.contents| + n) == (Queue([], q.size), q.contents + data[..n])
  {
    var (q1, n) := Added(q, data);
    assert |q1.contents| == |q.contents| + n;
    assert q1.contents[..|q1.contents|] == q1.contents;
    assert q1.contents[|q1.contents|..] == [];
  }

  /**
   * A second removal with what is left of the length finds nothing: one
   * RemoveDataFromBuffer call already takes everything it can.
   */
  lemma RemovedDrains(q: Queue, length: nat)
    requires Fits(q)
    ensures var (q1, taken) := Removed(q, length);
            Removed(q1, length - |taken|).1 == []
  {
  }

  class DataBuffer {
    const buffer: array<bv8>   // Buffer[SPPLE_DATA_CREDITS]
    var inIndex: nat
    var outIndex: nat
    var bytesFree: nat
    var bufferSize: nat

    ghost predicate Valid()
      reads this
    {
      && bufferSize == buffer.Length && 0 < bufferSize
      && bytesFree <= bufferSize && outIndex < bufferSize && inIndex < bufferSize
      && inIndex == Ring.InIndex(outIndex, bufferSize - bytesFree, bufferSize)
    }

    /** The bytes held, oldest first. */
    ghost function Contents(): (c: seq<bv8>)
      reads this, buffer
      requires Valid()
      ensures |c| == bufferSize - bytesFree
    {
      Ring.View(buffer[..], outIndex, bufferSize - bytesFree)
    }

    ghost function Snapshot(): (q: Queue)
      reads this, buffer
      requires Valid()
      ensures Fits(q) && q.size == bufferSize && |q.contents| == bufferSize - bytesFree
    {
      Queue(Contents(), bufferSize)
    }

    /** A buffer of credits bytes, as InitializeBuffer leaves it. */
    constructor (credits: nat)
      requires credits > 0
      ensures Valid() && fresh(buffer) && buffer.Length == credits
      ensures Snapshot() == Queue([], credits)
    {
      buffer := new bv8[credits](_ => 0);
      bufferSize, bytesFree := credits, credits;
      inIndex, outIndex := 0, 0;
    }

    /** InitializeBuffer: the buffer is emptied and its size set to the whole array. */
    method InitializeBuffer()
      requires buffer.Length > 0
      modifies this
      ensures bufferSize == buffer.Length && bytesFree == buffer.Length && inIndex == 0 && outIndex == 0
      ensures Valid() && Snapshot() == Queue([], buffer.Length)
    {
      bufferSize := buffer.Length;
      bytesFree := buffer.Length;
      inIndex := 0;
      outIndex := 0;
    }

    /** One pass of AddDataToBuffer's loop: copy a chunk that fits before the end of the array. */
    method Store(chunk: seq<bv8>)
      requires Valid() && |chunk| <= bytesFree && inIndex + |chunk| <= bufferSize
      modifies this`inIndex, this`bytesFree, buffer
      ensures Valid() && outIndex == old(outIndex) && bufferSize == old(bufferSize)
      ensures Contents() == old(Contents()) + chunk
      ensures bytesFree == old(bytesFree) - |chunk|
    {
      ghost var held, at, b0 := bufferSize - bytesFree, inIndex, buffer[..];
      Ring.WriteView(b0, outIndex, held, chunk);
      Ring.InIndexAfterPush(outIndex, held, |chunk|, bufferSize);
      Ring.CopyInto(buffer, inIndex, chunk);
      inIndex := inIndex + |chunk|;
      bytesFree := bytesFree - |chunk|;
      if inIndex >= bufferSize {
        inIndex := 0;
      }
      assert inIndex == Ring.Advance(at, |chunk|, bufferSize);
      assert Valid();
      assert Contents() == Ring.View(Ring.Splice(b0, at, chunk), outIndex, held + |chunk|);
    }

    /**
     * AddDataToBuffer: copy data in at the in index, wrapping at the end of
     * the array, until it is all in or the buffer is full.
     */
    method AddDataToBuffer(data: seq<bv8>) returns (added: nat)
      requires Valid()
      modifies this`inIndex, this`bytesFree, buffer
      ensures Valid() && outIndex == old(outIndex) && bufferSize == old(bufferSize)
      ensures (Snapshot(), added) == Added(old(Snapshot()), data)
    {
      ghost var q0 := Snapshot();
      added := 0;
      if |data| > 0 {
        while added < |data|
          invariant Valid() && outIndex == old(outIndex) && bufferSize == old(bufferSize)
          invariant added <= |data| && bytesFree + added == old(bytesFree)
          invariant Contents() == old(Contents()) + data[..added]
          decreases |data| - added
        {
          var count := bufferSize - inIndex;
          count := if bytesFree < count then bytesFree else count;
          count := if count > |data| - added then |data| - added else count;
          if count == 0 {
            break;
          }
          Store(data[added..added + count]);
          assert data[..added + count] == data[..added] + data[added..added + count];
          added := added + count;
        }
        assert added == Min(|data|, old(bytesFree));
      }
      assert Snapshot() == Queue(q0.contents + data[..added], q0.size);
      assert Added(q0, data) == (Queue(q0.contents + data[..added], q0.size), added);
    }

    /** One pass of RemoveDataFromBuffer's loop: the k oldest bytes, stored before the end of the array, are taken. */
    method Take(k: nat) returns (chunk: seq<bv8>)
      requires Valid() && k <= bufferSize - bytesFree && outIndex + k <= bufferSize
      modifies this`outIndex, this`bytesFree
      ensures Valid() && inIndex == old(inIndex) && bufferSize == old(bufferSize)
      ensures chunk == old(Contents())[..k] && Contents() == old(Contents())[k..]
      ensures bytesFree == old(bytesFree) + k
    {
      ghost var held, out, b := bufferSize - bytesFree, outIndex, buffer[..];
      Ring.ChunkView(b, out, held, k);
      Ring.PopView(b, out, held, k);
      Ring.InIndexAfterPop(out, held, k, bufferSize);
      chunk := buffer[outIndex..outIndex + k];
      outIndex := outIndex + k;
      bytesFree := bytesFree + k;
      if outIndex >= bufferSize {
        outIndex := 0;
      }
      assert outIndex == Ring.Advance(out, k, bufferSize);
      assert Valid();
      assert Contents() == Ring.View(b, outIndex, held - k);
    }

    /**
     * RemoveDataFromBuffer: take up to bufferLength of the oldest bytes,
     * copying them out when the caller gave a buffer (copy) and discarding
     * them otherwise.
     */
    method RemoveDataFromBuffer(bufferLength: nat, copy: bool) returns (removed: nat, bytes: seq<bv8>)
      requires Valid()
      modifies this`outIndex, this`bytesFree
      ensures Valid() && inIndex == old(inIndex) && bufferSize == old(bufferSize)
      ensures var (q, taken) := Removed(old(Snapshot()), bufferLength);
              Snapshot() == q && removed == |taken| && bytes == (if copy then taken else [])
    {
      ghost var held := Contents();
      removed, bytes := 0, [];
      if bufferLength > 0 {
        var remaining: nat := bufferLength;
        while remaining > 0
          invariant Valid() && inIndex == old(inIndex) && bufferSize == old(bufferSize)
          invariant removed + remaining == bufferLength && bytesFree == old(bytesFree) + removed
          invariant removed <= |held| && Contents() == held[removed..]
          invariant bytes == if copy then held[..removed] else []
          decreases remaining
        {
          var count := bufferSize - bytesFree;
          if count == 0 {
            break;
          }
          var maxRemove := bufferSize - outIndex;
          maxRemove := if maxRemove > remaining then remaining else maxRemove;
          count := if count > maxRemove then maxRemove else count;
          var chunk := Take(count);
          if copy {
            assert held[..removed + count] == held[..removed] + chunk;
            bytes := bytes + chunk;
          }
          removed := removed + count;
          remaining := remaining - count;
        }
      }
      assert removed == Min(bufferLength, |held|);
    }
  }

  /** A notification sent to the peer through GATT_Handle_Value_Notification. */
  datatype Notification =
    | TxData(offered: seq<bv8>, result: int)   // on the Tx characteristic; result is the stack's answer
    | RxCredits(credits: nat)                  // on the Rx Credits characteristic

  /**
   * The bytes the stack took from a notification: its non-negative answer,
   * never more than it was offered.  A negative answer is an error.
   */
  function Accepted(n: Notification): (k: nat)
    ensures n.TxData? ==> k <= |n.offered|
    ensures n.RxCredits? || n.result <= 0 ==> k == 0
  {
    if n.TxData? && n.result >= 0 then Min(n.result, |n.offered|) else 0
  }

  /** All data bytes that reached the peer through the notifications of log, in order. */
  function Sent(log: seq<Notification>): (s: seq<bv8>)
    ensures |s| == TotalAccepted(log)
  {
    if log == [] then [] else
    var n := log[0];
    (if n.TxData? then n.offered[..Accepted(n)] else []) + Sent(log[1..])
  }

  function TotalAccepted(log: seq<Notification>): nat
  {
    if log == [] then 0 else Accepted(log[0]) + TotalAccepted(log[1..])
  }

  /**
   * The credit accounting of a run of notifications: starting from credits,
   * every data notification offers at least one byte and at most
   * min(limit, credits left) bytes, and the credits drop by what the stack
   * took.  None when some notification breaks the cap.
   */
  function Spend(credits: nat, log: seq<Notification>, limit: nat): (r: Option<nat>)
    ensures r.Some? ==> r.value + TotalAccepted(log) == credits
  {
    if log == [] then Some(credits)
    else if log[0].RxCredits? then Spend(credits, log[1..], limit)
    else if 0 < |log[0].offered| <= Min(limit, credits) then Spend(credits - Accepted(log[0]), log[1..], limit)
    else None
  }

  lemma {:induction false} SentAppend(log: seq<Notification>, n: Notification)
    ensures Sent(log + [n]) == Sent(log) + Sent([n])
  {
    if log != [] {
      assert (log + [n])[1..] == log[1..] + [n];
      SentAppend(log[1..], n);
    }
  }

  lemma {:induction false} SpendAppend(credits: nat, log: seq<Notification>, n: Notification, limit: nat)
    requires Spend(credits, log, limit).Some?
    ensures Spend(credits, log + [n], limit) == Spend(Spend(credits, log, limit).value, [n], limit)
  {
    if log != [] {
      assert (log + [n])[1..] == log[1..] + [n];
      if log[0].RxCredits? {
        SpendAppend(credits, log[1..], n, limit);
      } else {
        SpendAppend(credits - Accepted(log[0]), log[1..], n, limit);
      }
    }
  }

  lemma SpendOne(credits: nat, n: Notification, limit: nat)
    requires n.TxData? && 0 < |n.offered| <= Min(limit, credits)
    ensures Spend(credits, [n], limit) == Some(credits - Accepted(n))
  {
    assert [n][1..] == [];
  }

  lemma SentOne(n: Notification)
    requires n.TxData?
    ensures Sent([n]) == n.offered[..Accepted(n)]
  {
    assert [n][1..] == [];
  }

  /** The answer of SPPLEReadData. */
  datatype ReadResult =
    | BytesRead(count: nat, data: seq<bv8>)   // the returned count, and the bytes written to the caller's buffer
    | InvalidParameter                        // BTPS_ERROR_INVALID_PARAMETER

  /** One connected device: its data buffers, transmit credits and notification settings. */
  class Device {
    const dataBufferLength: nat       // SPPLE_DATA_BUFFER_LENGTH
    const receive: DataBuffer
    const transmit: DataBuffer
    const notifyResult: nat -> int    // the stack's answer to the k-th notification
    var transmitCredits: nat
    var rxCreditNotify: bool          // Rx_Credit_Client_Configuration_Descriptor enables notifications
    var txNotify: bool                // Tx_Client_Configuration_Descriptor enables notifications
    var notifications: seq<Notification>

    ghost predicate Valid()
      reads receive, transmit
    {
      && receive != transmit && receive.buffer != transmit.buffer
      && receive.Valid() && transmit.Valid()
      && receive.buffer.Length == dataBufferLength && transmit.buffer.Length == dataBufferLength
    }

    /** A device entry with both buffers initialised and no credits. */
    constructor (length: nat, results: nat -> int)
      requires length > 0
      ensures Valid() && fresh(receive) && fresh(transmit) && fresh(receive.buffer) && fresh(transmit.buffer)
      ensures dataBufferLength == length && notifyResult == results
      ensures receive.Snapshot() == Queue([], length) && transmit.Snapshot() == Queue([], length)
      ensures transmitCredits == 0 && !rxCreditNotify && !txNotify && notifications == []
    {
      dataBufferLength := length;
      receive := new DataBuffer(length);
      transmit := new DataBuffer(length);
      notifyResult := results;
      transmitCredits := 0;
      rxCreditNotify, txNotify := false, false;
      notifications := [];
    }

    /** SPPLESendCredits: grant count credits to the peer, if it asked for credit notifications. */
    method SendCredits(count: nat)
      modifies this`notifications
      ensures notifications == old(notifications) + (if count > 0 && rxCreditNotify then [RxCredits(count)] else [])
    {
      if count > 0 && rxCreditNotify {
        notifications := notifications + [RxCredits(count)];
      }
    }

    /**
     * SPPLEReadData: drain up to bufferLength bytes of the receive buffer
     * into the caller's buffer and credit the peer with what was read.  The
     * source keeps the count of the last removal rather than the sum; the
     * count returned is still the number of bytes read, because the first
     * removal already takes all it can.
     */
    method ReadData(bufferLength: nat, hasBuffer: bool) returns (r: ReadResult)
      requires Valid()
      modifies receive, this`notifications
      ensures Valid()
      ensures bufferLength == 0 || !hasBuffer ==>
                r == InvalidParameter && receive.Snapshot() == old(receive.Snapshot())
                && notifications == old(notifications)
      ensures bufferLength > 0 && hasBuffer ==>
                var (q, taken) := Removed(old(receive.Snapshot()), bufferLength);
                r == BytesRead(|taken|, taken) && receive.Snapshot() == q
                && notifications == old(notifications) + (if |taken| > 0 && rxCreditNotify then [RxCredits(|taken|)] else [])
    {
      if bufferLength == 0 || !hasBuffer {
        return InvalidParameter;
      }
      ghost var held := receive.Contents();
      var done := false;
      var total: nat := 0;
      var remaining: nat := bufferLength;
      var got: seq<bv8> := [];
      while !done
        invariant Valid() && notifications == old(notifications)
        invariant receive.bufferSize == old(receive.bufferSize)
        invariant total == bufferLength - remaining && total <= |held|
        invariant got == held[..total] && receive.Contents() == held[total..]
        invariant total > 0 || done ==> remaining == 0 || receive.Contents() == []
        decreases remaining, !done
      {
        var length, chunk := receive.RemoveDataFromBuffer(remaining, true);
        if length > 0 {
          assert held[..total + length] == held[..total] + chunk;
          remaining := remaining - length;
          got := got + chunk;
          total := length;
        } else {
          done := true;
        }
      }
      SendCredits(total);
      r := BytesRead(total, got);
    }

    /**
     * The refill step of SPPLESendData: queued bytes first, up to maxLength
     * of them; when nothing is queued, the next maxLength bytes of the
     * caller's data.  Nothing to send leaves everything as it was.
     */
    method NextChunk(maxLength: nat, rest: seq<bv8>, ghost log0: seq<Notification>, ghost stream: seq<bv8>)
      returns (pending: seq<bv8>, rest': seq<bv8>)
      requires Valid() && maxLength > 0 && Unsent(log0, [], rest, stream)
      modifies transmit
      ensures Valid() && transmit.bufferSize == old(transmit.bufferSize)
      ensures Unsent(log0, pending, rest', stream)
      ensures |pending| <= maxLength
      ensures pending == [] ==> rest' == rest == [] && transmit.Snapshot() == old(transmit.Snapshot())
      ensures transmit.Contents() == old(transmit.Contents())[Min(|old(transmit.Contents())|, maxLength)..]
    {
      ghost var sent := Sent(notifications[|log0|..]);
      ghost var before := transmit.Contents();
      assert sent + [] + before + rest == stream;
      if transmit.bytesFree != transmit.bufferSize {
        var _, taken := transmit.RemoveDataFromBuffer(maxLength, true);
        pending, rest' := taken, rest;
        assert pending + transmit.Contents() == before;
      } else if |rest| > 0 {
        var count := Min(|rest|, maxLength);
        pending, rest' := rest[..count], rest[count..];
        assert before == [] && rest == pending + rest';
      } else {
        pending, rest' := [], rest;
      }
      ghost var after := transmit.Contents();
      Regroup(sent, pending, after, rest', before, rest, stream);
    }

    static lemma Regroup(sent: seq<bv8>, pending: seq<bv8>, after: seq<bv8>, rest': seq<bv8>,
                         before: seq<bv8>, rest: seq<bv8>, stream: seq<bv8>)
      requires pending + after + rest' == before + rest && sent + [] + before + rest == stream
      ensures sent + pending + after + rest' == stream
    {
      assert sent + [] == sent;
      assert sent + pending + after + rest' == sent + (pending + after + rest');
      assert sent + before + rest == sent + (before + rest);
    }

    /**
     * SPPLESendData.  With no transmit credits the data is appended to the
     * transmit buffer and the answer says whether all of it fitted.  With
     * credits, queued bytes and then the caller's data go out in
     * notifications of at most min(SPPLE_DATA_BUFFER_LENGTH, credits) bytes,
     * and the credits drop by what the stack took; the bytes that reach the
     * peer are a prefix of the queued bytes followed by the data.
     *
     * The source retries a failed or empty notification without bound; the
     * model stops after attempts notifications.
     */
    method SendData(data: seq<bv8>, attempts: nat) returns (dataSent: bool)
      requires Valid()
      modifies transmit, transmit.buffer, this`transmitCredits, this`notifications
      ensures Valid()
      ensures old(notifications) <= notifications
      ensures Spend(old(transmitCredits), notifications[|old(notifications)|..], dataBufferLength) == Some(transmitCredits)
      ensures Sent(notifications[|old(notifications)|..]) <= old(transmit.Contents()) + data
      ensures old(transmitCredits) == 0 ==>
                var (q, added) := Added(old(transmit.Snapshot()), data);
                transmit.Snapshot() == q && dataSent == (added == |data|) && notifications == old(notifications)
      ensures old(transmitCredits) > 0 && !txNotify ==>
                && notifications == old(notifications) && transmitCredits == old(transmitCredits) && !dataSent
                && transmit.Contents()
                   == old(transmit.Contents())[Min(|old(transmit.Contents())|, Min(dataBufferLength, old(transmitCredits)))..]
    {
      ghost var log0 := notifications;
      ghost var stream := transmit.Contents() + data;
      var credits0: nat := transmitCredits;
      dataSent := false;
      var done := false;
      var pending: seq<bv8> := [];   // SPPLEBuffer[TransmitIndex..TransmitIndex + SPPLEBufferLength]
      var rest := data;              // Data[..DataLength]
      var tries: nat := attempts;
      while !done
        invariant Valid() && transmit.bufferSize == old(transmit.bufferSize)
        invariant Accounted(log0, credits0) && |pending| <= transmitCredits
        invariant !done ==> Unsent(log0, pending, rest, stream)
        invariant done ==> Sent(notifications[|log0|..]) <= stream
        invariant credits0 == 0 ==> notifications == log0
        invariant credits0 == 0 && !done ==> rest == data && transmit.Snapshot() == old(transmit.Snapshot())
        invariant credits0 == 0 && done ==>
                    var (q, added) := Added(old(transmit.Snapshot()), data);
                    transmit.Snapshot() == q && dataSent == (added == |data|)
        invariant credits0 > 0 && !txNotify ==> notifications == log0 && transmitCredits == credits0 && !dataSent
        invariant credits0 > 0 && !txNotify && !done ==> pending == [] && transmit.Contents() == old(transmit.Contents())
        invariant credits0 > 0 && !txNotify && done ==>
                    transmit.Contents() == old(transmit.Contents())[Min(|old(transmit.Contents())|, Min(dataBufferLength, credits0))..]
        decreases tries, !done
      {
        if transmitCredits > 0 {
          pending, rest, tries, dataSent, done := CreditPass(pending, rest, tries, dataSent, log0, credits0, stream);
        } else {
          dataSent := QueueRest(rest, log0, stream);
          done := true;
        }
      }
    }

    /** The credit accounting of the notifications made since log0, starting from credits0. */
    ghost predicate Accounted(log0: seq<Notification>, credits0: nat)
      reads this`notifications, this`transmitCredits
    {
      log0 <= notifications && Spend(credits0, notifications[|log0|..], dataBufferLength) == Some(transmitCredits)
    }

    /**
     * Nothing of stream is lost yet: it is what was sent since log0, then the
     * bytes pending in SPPLEBuffer, the queued bytes and the caller's rest.
     */
    ghost predicate Unsent(log0: seq<Notification>, pending: seq<bv8>, rest: seq<bv8>, stream: seq<bv8>)
      reads this`notifications, receive, transmit, transmit.buffer
      requires Valid()
    {
      log0 <= notifications && Sent(notifications[|log0|..]) + pending + transmit.Contents() + rest == stream
    }

    /**
     * The no-credit branch of SPPLESendData: queue what is left of the data
     * and report whether all of it fitted.
     */
    method QueueRest(rest: seq<bv8>, ghost log0: seq<Notification>, ghost stream: seq<bv8>) returns (dataSent: bool)
      requires Valid() && Unsent(log0, [], rest, stream)
      modifies transmit, transmit.buffer
      ensures Valid() && transmit.bufferSize == old(transmit.bufferSize)
      ensures var (q, added) := Added(old(transmit.Snapshot()), rest);
              transmit.Snapshot() == q && dataSent == (added == |rest|)
      ensures Sent(notifications[|log0|..]) <= stream
    {
      ghost var sent := Sent(notifications[|log0|..]);
      ghost var before := transmit.Contents();
      var added := transmit.AddDataToBuffer(rest);
      dataSent := added == |rest|;
      assert stream == sent + (before + rest);
    }

    /**
     * One pass of SPPLESendData's loop while there are credits: refill
     * SPPLEBuffer when it is empty, then notify the next chunk, capped at
     * min(SPPLE_DATA_BUFFER_LENGTH, credits).  The loop ends when there is
     * nothing left to send, when the peer has not enabled notifications
     * (the bytes taken into SPPLEBuffer are then dropped), or when the
     * attempts run out.
     */
    method CreditPass(pending: seq<bv8>, rest: seq<bv8>, tries: nat, dataSent: bool,
                      ghost log0: seq<Notification>, ghost credits0: nat, ghost stream: seq<bv8>)
      returns (pending': seq<bv8>, rest': seq<bv8>, tries': nat, dataSent': bool, done: bool)
      requires Valid() && transmitCredits > 0
      requires Accounted(log0, credits0) && |pending| <= transmitCredits
      requires Unsent(log0, pending, rest, stream)
      modifies transmit, this`transmitCredits, this`notifications
      ensures Valid() && transmit.bufferSize == old(transmit.bufferSize)
      ensures Accounted(log0, credits0) && |pending'| <= transmitCredits
      ensures tries' <= tries
      ensures !done ==> Unsent(log0, pending', rest', stream) && tries' < tries
      ensures done ==> Sent(notifications[|log0|..]) <= stream
      ensures !txNotify ==>
                done && notifications == old(notifications) && transmitCredits == old(transmitCredits) && dataSent' == dataSent
      ensures pending == [] ==>
                transmit.Contents()
                == old(transmit.Contents())[Min(|old(transmit.Contents())|, Min(dataBufferLength, old(transmitCredits)))..]
    {
      var maxLength := Min(dataBufferLength, transmitCredits);
      if |pending| == 0 {
        pending', rest', tries', dataSent', done := RefillPass(maxLength, rest, tries, dataSent, log0, credits0, stream);
      } else {
        rest' := rest;
        pending', tries', dataSent', done := SendPending(pending, Min(|pending|, maxLength), rest, tries, dataSent,
                                                         log0, credits0, stream);
      }
    }

    /**
     * A pass that starts with SPPLEBuffer empty: refill it with at most
     * maxLength bytes, then notify them, unless there is nothing to send.
     */
    method RefillPass(maxLength: nat, rest: seq<bv8>, tries: nat, dataSent: bool,
                      ghost log0: seq<Notification>, ghost credits0: nat, ghost stream: seq<bv8>)
      returns (pending': seq<bv8>, rest': seq<bv8>, tries': nat, dataSent': bool, done: bool)
      requires Valid() && transmitCredits > 0 && maxLength == Min(dataBufferLength, transmitCredits)
      requires Accounted(log0, credits0) && Unsent(log0, [], rest, stream)
      modifies transmit, this`transmitCredits, this`notifications
      ensures Valid() && transmit.bufferSize == old(transmit.bufferSize)
      ensures Accounted(log0, credits0) && |pending'| <= transmitCredits
      ensures tries' <= tries
      ensures !done ==> Unsent(log0, pending', rest', stream) && tries' < tries
      ensures done ==> Sent(notifications[|log0|..]) <= stream
      ensures !txNotify ==>
                done && notifications == old(notifications) && transmitCredits == old(transmitCredits) && dataSent' == dataSent
      ensures transmit.Contents() == old(transmit.Contents())[Min(|old(transmit.Contents())|, maxLength)..]
    {
      pending', rest' := NextChunk(maxLength, rest, log0, stream);
      tries', dataSent', done := tries, dataSent, pending' == [];
      if done {
        assert Sent(notifications[|log0|..]) + transmit.Contents() == stream;
      } else {
        pending', tries', dataSent', done := SendPending(pending', |pending'|, rest', tries, dataSent, log0, credits0, stream);
      }
    }

    /**
     * The rest of a pass with bytes pending: notify count of them, or leave
     * the loop, dropping them, when the peer has not enabled notifications
     * or the attempts have run out.
     */
    method SendPending(pending: seq<bv8>, count: nat, rest: seq<bv8>, tries: nat, dataSent: bool,
                       ghost log0: seq<Notification>, ghost credits0: nat, ghost stream: seq<bv8>)
      returns (pending': seq<bv8>, tries': nat, dataSent': bool, done: bool)
      requires Valid() && 0 < count <= |pending| <= transmitCredits && count <= dataBufferLength
      requires Accounted(log0, credits0) && Unsent(log0, pending, rest, stream)
      modifies this`transmitCredits, this`notifications
      ensures Valid() && Accounted(log0, credits0) && |pending'| <= transmitCredits
      ensures tries' <= tries
      ensures !done ==> Unsent(log0, pending', rest, stream) && tries' < tries
      ensures done ==> Sent(notifications[|log0|..]) <= stream
      ensures !txNotify ==>
                done && notifications == old(notifications) && transmitCredits == old(transmitCredits) && dataSent' == dataSent
    {
      if !txNotify || tries == 0 {
        PendingLost(notifications[|log0|..], pending, transmit.Contents() + rest, stream);
        return pending, tries, dataSent, true;
      }
      dataSent', pending' := Notify(pending, count, rest, log0, credits0, stream);
      tries', done := tries - 1, false;
    }

    /**
     * One data notification of SPPLESendData's loop: count bytes from the
     * front of pending are offered, and the credits drop by what the stack
     * took.  The re-queueing branch of the source (no credits left while
     * bytes are still pending) cannot be taken: pending never holds more
     * bytes than there are credits.
     */
    method Notify(pending: seq<bv8>, count: nat, rest: seq<bv8>,
                  ghost log0: seq<Notification>, ghost credits0: nat, ghost stream: seq<bv8>)
      returns (ok: bool, pending': seq<bv8>)
      requires Valid() && 0 < count <= |pending| <= transmitCredits && count <= dataBufferLength
      requires Accounted(log0, credits0) && Unsent(log0, pending, rest, stream)
      modifies this`transmitCredits, this`notifications
      ensures notifications == old(notifications) + [TxData(pending[..count], notifyResult(|old(notifications)|))]
      ensures ok == (notifyResult(|old(notifications)|) >= 0)
      ensures Valid() && Accounted(log0, credits0) && Unsent(log0, pending', rest, stream)
      ensures |pending'| <= transmitCredits
    {
      var n := TxData(pending[..count], notifyResult(|notifications|));
      AppendNotification(notifications[|log0|..], n, credits0, transmitCredits, dataBufferLength, pending, count);
      assert (notifications + [n])[|log0|..] == notifications[|log0|..] + [n];
      ghost var tail := transmit.Contents() + rest;
      assert Sent(notifications[|log0|..]) + pending + tail == stream;
      notifications := notifications + [n];
      transmitCredits := transmitCredits - Accepted(n);
      ok := n.result >= 0;
      pending' := pending[Accepted(n)..];
      assert Sent(notifications[|log0|..]) + pending' + tail == stream;
    }

    /** A data notification of count bytes from the front of pending, appended to a run of notifications. */
    static lemma AppendNotification(run: seq<Notification>, n: Notification, credits0: nat, credits: nat, limit: nat,
                                    pending: seq<bv8>, count: nat)
      requires Spend(credits0, run, limit) == Some(credits)
      requires 0 < count <= |pending| <= credits && count <= limit && n.TxData? && n.offered == pending[..count]
      ensures Spend(credits0, run + [n], limit) == Some(credits - Accepted(n))
      ensures Sent(run + [n]) + pending[Accepted(n)..] == Sent(run) + pending
    {
      SpendAppend(credits0, run, n, limit);
      SpendOne(credits, n, limit);
      SentAppend(run, n);
      SentOne(n);
      var k := Accepted(n);
      assert n.offered[..k] == pending[..k];
      assert pending == pending[..k] + pending[k..];
      assert Sent(run) + pending[..k] + pending[k..] == Sent(run) + (pending[..k] + pending[k..]);
    }

    /** Leaving the loop with bytes pending drops them, so what was sent stays a prefix of the stream. */
    static lemma PendingLost(sent: seq<Notification>, pending: seq<bv8>, tail: seq<bv8>, stream: seq<bv8>)
      requires Sent(sent) + pending + tail == stream
      ensures Sent(sent) <= stream
    {
      assert stream == Sent(sent) + (pending + tail);
    }
  }
}
