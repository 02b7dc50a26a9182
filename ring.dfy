/*
 * The circular byte buffers of the firmware: the UART receive and transmit
 * rings of HCITRANS.c and the SPP-over-LE data buffers of SPPLEDemo.c all keep
 * an out index (oldest byte), an in index (next free slot) and a free count,
 * and wrap both indices to 0 when they reach the buffer size.  This module
 * gives the abstract contents of such a ring and the facts the three users
 * need about pushing and popping.
 */
module Ring {

  /** Position of the i-th oldest byte of a ring of capacity n whose oldest byte is at out. */
  function Slot(out: nat, i: nat, n: nat): (p: nat)
    requires out < n && i <= n
    ensures i < n ==> p < n
  {
    if out + i < n then out + i else out + i - n
  }

  /** The in index of a ring holding count bytes starting at out (it equals out when full). */
  function InIndex(out: nat, count: nat, n: nat): nat
    requires out < n && count <= n
  {
    Slot(out, count, n)
  }

  /** Index after moving k slots past idx, with the firmware's `if (idx >= size) idx = 0` wrap. */
  function Advance(idx: nat, k: nat, n: nat): (r: nat)
    requires idx < n && idx + k <= n
    ensures r < n
  {
    if idx + k >= n then 0 else idx + k
  }

  /** The bytes held by a ring, oldest first. */
  ghost function View<T>(buf: seq<T>, out: nat, count: nat): (v: seq<T>)
    requires out < |buf| && count <= |buf|
    ensures |v| == count
  {
    seq(count, i requires 0 <= i < count => buf[Slot(out, i, |buf|)])
  }

  /** buf with its slots at..at+|data|-1 overwritten by data (a memcpy into the buffer). */
  function Splice<T>(buf: seq<T>, at: nat, data: seq<T>): (r: seq<T>)
    requires at + |data| <= |buf|
    ensures |r| == |buf|
    ensures forall j :: 0 <= j < |data| ==> r[at + j] == data[j]
    ensures forall j :: 0 <= j < |buf| && !(at <= j < at + |data|) ==> r[j] == buf[j]
  {
    buf[..at] + data + buf[at + |data|..]
  }

  /** Storing b in the in slot of a ring that is not full appends b to the contents. */
  lemma {:induction false} PushView<T>(buf: seq<T>, out: nat, count: nat, b: T)
    requires out < |buf| && count < |buf|
    ensures View(buf[InIndex(out, count, |buf|) := b], out, count + 1) == View(buf, out, count) + [b]
  {
    var n := |buf|;
    var nb := buf[InIndex(out, count, n) := b];
    var lhs := View(nb, out, count + 1);
    var rhs := View(buf, out, count) + [b];
    forall i | 0 <= i < count + 1
      ensures lhs[i] == rhs[i]
    {
      if i < count {
        assert Slot(out, i, n) != Slot(out, count, n);
      }
    }
  }

  /** Copying data into the free slots after the in index appends it to the contents. */
  lemma {:induction false} WriteView<T>(buf: seq<T>, out: nat, count: nat, data: seq<T>)
    requires out < |buf| && count + |data| <= |buf|
    requires InIndex(out, count, |buf|) + |data| <= |buf|
    ensures View(Splice(buf, InIndex(out, count, |buf|), data), out, count + |data|)
            == View(buf, out, count) + data
  {
    var n := |buf|;
    var at := InIndex(out, count, n);
    var nb := Splice(buf, at, data);
    var lhs := View(nb, out, count + |data|);
    var rhs := View(buf, out, count) + data;
    forall i | 0 <= i < count + |data|
      ensures lhs[i] == rhs[i]
    {
      if i < count {
        var p := Slot(out, i, n);
        assert !(at <= p < at + |data|);
      } else {
        assert Slot(out, i, n) == at + (i - count);
      }
    }
  }

  /** Removing the k oldest bytes, all stored before the end of the buffer, drops them from the front. */
  lemma {:induction false} PopView<T>(buf: seq<T>, out: nat, count: nat, k: nat)
    requires out < |buf| && k <= count <= |buf| && out + k <= |buf|
    ensures View(buf, Advance(out, k, |buf|), count - k) == View(buf, out, count)[k..]
  {
    var n := |buf|;
    var lhs := View(buf, Advance(out, k, n), count - k);
    var rhs := View(buf, out, count)[k..];
    forall i | 0 <= i < count - k
      ensures lhs[i] == rhs[i]
    {
      assert Slot(Advance(out, k, n), i, n) == Slot(out, k + i, n);
    }
  }

  /** The k oldest bytes, when stored before the end of the buffer, are one contiguous slice. */
  lemma {:induction false} ChunkView<T>(buf: seq<T>, out: nat, count: nat, k: nat)
    requires out < |buf| && k <= count <= |buf| && out + k <= |buf|
    ensures View(buf, out, count)[..k] == buf[out..out + k]
  {
    var v := View(buf, out, count);
    forall i | 0 <= i < k
      ensures v[..k][i] == buf[out..out + k][i]
    {
      assert Slot(out, i, |buf|) == out + i;
    }
  }

  /** The in index moves with the contents: after a push of k bytes and after a pop of k bytes. */
  lemma InIndexAfterPush(out: nat, count: nat, k: nat, n: nat)
    requires out < n && count + k <= n && InIndex(out, count, n) + k <= n
    ensures Advance(InIndex(out, count, n), k, n) == InIndex(out, count + k, n)
  {
  }

  lemma InIndexAfterPop(out: nat, count: nat, k: nat, n: nat)
    requires out < n && k <= count <= n && out + k <= n
    ensures InIndex(Advance(out, k, n), count - k, n) == InIndex(out, count, n)
  {
  }

  /** BTPS_MemCopy into a ring's storage: data is written at slots at..at+|data|-1. */
  method CopyInto<T>(a: array<T>, at: nat, data: seq<T>)
    requires at + |data| <= a.Length
    modifies a
    ensures a[..] == Splice(old(a[..]), at, data)
  {
    forall j | 0 <= j < |data| {
      a[at + j] := data[j];
    }
  }
}
