/*
 * The demo application's table of BR/EDR link keys (LinkKeyInfo in
 * SPPLEDemo.c): MAX_SUPPORTED_LINK_KEYS slots, each a device address and the
 * link key created for it; a slot whose address is all zero is free.  Three
 * places touch it: DeleteLinkKey, and the link-key request and link-key
 * creation cases of the GAP event callback.
 */
module LinkKeys {
  import opened Wrappers

  const MaxSupportedLinkKeys: nat := 1

  type BdAddr = a: seq<bv8> | |a| == 6 witness [0, 0, 0, 0, 0, 0]
  type LinkKey = k: seq<bv8> | |k| == 16 witness [0, 0, 0, 0, 0, 0, 0, 0, 0, 0, 0, 0, 0, 0, 0, 0]

  const NullAddress: BdAddr := [0, 0, 0, 0, 0, 0]
  const NullKey: LinkKey := [0, 0, 0, 0, 0, 0, 0, 0, 0, 0, 0, 0, 0, 0, 0, 0]

  /** LinkKeyInfo_t. */
  datatype Entry = Entry(address: BdAddr, key: LinkKey)

  /** A slot cleared by BTPS_MemInitialize. */
  const Cleared := Entry(NullAddress, NullKey)

  /** The first slot at or after from whose address is addr, as the COMPARE_BD_ADDR scans find it. */
  function FindFrom(table: seq<Entry>, addr: BdAddr, from: nat): (r: Option<nat>)
    requires from <= |table|
    ensures r.Some? ==> from <= r.value < |table| && table[r.value].address == addr
    ensures r.Some? ==> forall j :: from <= j < r.value ==> table[j].address != addr
    ensures r.None? ==> forall j :: from <= j < |table| ==> table[j].address != addr
    decreases |table| - from
  {
    if from == |table| then None
    else if table[from].address == addr then Some(from)
    else FindFrom(table, addr, from + 1)
  }

  function Find(table: seq<Entry>, addr: BdAddr): Option<nat>
  {
    FindFrom(table, addr, 0)
  }

  /** The key the link-key request answers with: that of the first slot holding addr. */
  function Lookup(table: seq<Entry>, addr: BdAddr): (r: Option<LinkKey>)
    ensures r.Some? <==> exists i :: 0 <= i < |table| && table[i].address == addr
  {
    match Find(table, addr)
    case Some(i) => Some(table[i].key)
    case None => None
  }

  /** Where link-key creation stores: the slot already holding addr, else the first free slot. */
  function StoreSlot(table: seq<Entry>, addr: BdAddr): (r: Option<nat>)
    ensures r.Some? ==> r.value < |table| && table[r.value].address in {addr, NullAddress}
    ensures r.None? <==> forall j :: 0 <= j < |table| ==> table[j].address != addr && table[j].address != NullAddress
  {
    var m := Find(table, addr);
    if m.Some? then m else Find(table, NullAddress)
  }

  /** The table after the link-key creation event for addr; unchanged when the table is full. */
  function Created(table: seq<Entry>, addr: BdAddr, key: LinkKey): (t: seq<Entry>)
    ensures |t| == |table|
    ensures StoreSlot(table, addr).None? ==> t == table
  {
    match StoreSlot(table, addr)
    case Some(i) => table[i := Entry(addr, key)]
    case None => table
  }

  /**
   * The table after DeleteLinkKey(addr): the all-zero address clears every
   * slot; any other address frees the first slot holding it (its key bytes
   * stay where they were).
   */
  function Deleted(table: seq<Entry>, addr: BdAddr): (t: seq<Entry>)
    ensures |t| == |table|
  {
    if addr == NullAddress then seq(|table|, _ => Cleared)
    else
      match Find(table, addr)
      case Some(i) => table[i := table[i].(address := NullAddress)]
      case None => table
  }

  /** No device address is stored in two slots. */
  predicate Unique(table: seq<Entry>)
  {
    forall i, j :: 0 <= i < j < |table| && table[i].address != NullAddress ==> table[i].address != table[j].address
  }

  /** After a successful creation, a request for the same address answers with the new key. */
  lemma LookupAfterCreated(table: seq<Entry>, addr: BdAddr, key: LinkKey)
    requires StoreSlot(table, addr).Some?
    ensures Lookup(Created(table, addr, key), addr) == Some(key)
  {
    var i := StoreSlot(table, addr).value;
    var t := Created(table, addr, key);
    assert t == table[i := Entry(addr, key)];
    if Find(table, addr).None? {
      assert forall j :: 0 <= j < i ==> t[j].address != addr;
    }
    assert t[i].address == addr;
    var f := Find(t, addr);
    assert f.Some? && f.value <= i;
    assert f.value == i;
  }

  /** Creation for one address leaves what a request finds for any other address unchanged. */
  lemma LookupOtherAfterCreated(table: seq<Entry>, addr: BdAddr, key: LinkKey, other: BdAddr)
    requires other != addr && other != NullAddress
    ensures Lookup(Created(table, addr, key), other) == Lookup(table, other)
  {
    var t := Created(table, addr, key);
    forall j | 0 <= j < |table|
      ensures (t[j].address == other) == (table[j].address == other)
      ensures t[j].address == other ==> t[j] == table[j]
    {
    }
    LookupSame(table, t, other);
  }

  /** Two tables that agree on which slots hold addr, and on those slots, answer a request alike. */
  lemma LookupSame(a: seq<Entry>, b: seq<Entry>, addr: BdAddr)
    requires |a| == |b|
    requires forall j :: 0 <= j < |a| ==> (a[j].address == addr) == (b[j].address == addr)
    requires forall j :: 0 <= j < |a| && a[j].address == addr ==> a[j] == b[j]
    ensures Lookup(a, addr) == Lookup(b, addr)
  {
    var fa, fb := Find(a, addr), Find(b, addr);
    if fa.Some? && fb.Some? {
      assert fa.value == fb.value;
    }
  }

  /** Creation keeps addresses unique. */
  lemma CreatedKeepsUnique(table: seq<Entry>, addr: BdAddr, key: LinkKey)
    requires Unique(table)
    ensures Unique(Created(table, addr, key))
  {
    var t := Created(table, addr, key);
    match StoreSlot(table, addr)
    case None =>
    case Some(i) =>
      if table[i].address != addr {
        assert forall j :: 0 <= j < |table| ==> table[j].address != addr;
      }
      forall p, q | 0 <= p < q < |t| && t[p].address != NullAddress
        ensures t[p].address != t[q].address
      {
        if p != i && q != i {
          assert t[p] == table[p] && t[q] == table[q];
        }
      }
  }

  /**
   * Deleting an address forgets it, provided addresses are unique; deleting
   * the all-zero address forgets every device.
   */
  lemma LookupAfterDeleted(table: seq<Entry>, addr: BdAddr, other: BdAddr)
    requires Unique(table) && other != NullAddress
    requires addr == NullAddress || other == addr
    ensures Lookup(Deleted(table, addr), other) == None
  {
    var t := Deleted(table, addr);
    if addr != NullAddress {
      match Find(table, addr)
      case None =>
      case Some(i) =>
        forall j | 0 <= j < |t|
          ensures t[j].address != addr
        {
          if j != i {
            assert t[j] == table[j];
            if j > i {
              assert table[i].address != NullAddress;
            }
          }
        }
    }
  }

  /** Deletion keeps addresses unique. */
  lemma DeletedKeepsUnique(table: seq<Entry>, addr: BdAddr)
    requires Unique(table)
    ensures Unique(Deleted(table, addr))
  {
    var t := Deleted(table, addr);
    if addr != NullAddress {
      match Find(table, addr)
      case None =>
      case Some(i) =>
        forall p, q | 0 <= p < q < |t| && t[p].address != NullAddress
          ensures t[p].address != t[q].address
        {
          assert p != i;
          if q != i {
            assert t[p] == table[p] && t[q] == table[q];
          }
        }
    }
  }

  /** Deleting one address leaves what a request finds for any other address unchanged. */
  lemma LookupOtherAfterDeleted(table: seq<Entry>, addr: BdAddr, other: BdAddr)
    requires addr != NullAddress && other != addr && other != NullAddress
    ensures Lookup(Deleted(table, addr), other) == Lookup(table, other)
  {
    var t := Deleted(table, addr);
    forall j | 0 <= j < |table|
      ensures (t[j].address == other) == (table[j].address == other)
      ensures t[j].address == other ==> t[j] == table[j]
    {
    }
    LookupSame(table, t, other);
  }

  class LinkKeyTable {
    const slots: array<Entry>   // LinkKeyInfo[MAX_SUPPORTED_LINK_KEYS]

    /** The table has its fixed size, and no device address sits in two slots. */
    ghost predicate Valid()
      reads slots
    {
      slots.Length == MaxSupportedLinkKeys && Unique(slots[..])
    }

    /** The zero-initialised static table. */
    constructor ()
      ensures Valid() && fresh(slots)
      ensures forall i :: 0 <= i < slots.Length ==> slots[i] == Cleared
    {
      slots := new Entry[MaxSupportedLinkKeys](_ => Cleared);
    }

    /**
     * DeleteLinkKey, after the controller has been told to delete the key
     * (hciResult is what HCI_Delete_Stored_Link_Key returned).  The value
     * returned is hciResult when every key is deleted, but for a single
     * address it is the loop index: the slot that held it, or the table size.
     */
    method DeleteLinkKey(addr: BdAddr, hciResult: int) returns (r: int)
      requires Valid()
      modifies slots
      ensures Valid()
      ensures slots[..] == Deleted(old(slots[..]), addr)
      ensures addr != NullAddress ==> Lookup(slots[..], addr) == None
      ensures addr == NullAddress ==> forall i :: 0 <= i < slots.Length ==> slots[i] == Cleared
      ensures addr == NullAddress ==> r == hciResult
      ensures addr != NullAddress ==> r == match Find(old(slots[..]), addr) case Some(i) => i case None => slots.Length
    {
      r := hciResult;
      if addr == NullAddress {
        forall i | 0 <= i < slots.Length {
          slots[i] := Cleared;
        }
      } else {
        r := 0;
        while r < slots.Length
          invariant 0 <= r <= slots.Length && slots[..] == old(slots[..])
          invariant forall j :: 0 <= j < r ==> slots[j].address != addr
        {
          if slots[r].address == addr {
            slots[r] := slots[r].(address := NullAddress);
            break;
          }
          r := r + 1;
        }
      }
      DeletedKeepsUnique(old(slots[..]), addr);
      if addr != NullAddress {
        LookupAfterDeleted(old(slots[..]), addr, addr);
      }
    }

    /**
     * The atLinkKeyRequest case: the response carries the key of the first
     * slot holding the remote address, or no key (data length 0).
     */
    method LinkKeyRequest(remote: BdAddr) returns (reply: Option<LinkKey>)
      requires Valid()
      ensures reply == Lookup(slots[..], remote)
    {
      reply := None;
      var index := 0;
      while index < slots.Length
        invariant 0 <= index <= slots.Length
        invariant forall j :: 0 <= j < index ==> slots[j].address != remote
      {
        if slots[index].address == remote {
          reply := Some(slots[index].key);
          break;
        }
        index := index + 1;
      }
    }

    /**
     * The atLinkKeyCreation case: store the new key over the slot already
     * holding the remote address, else in the first free slot; when the
     * table is full nothing is stored.
     */
    method LinkKeyCreation(remote: BdAddr, key: LinkKey) returns (stored: bool)
      requires Valid()
      modifies slots
      ensures Valid()
      ensures slots[..] == Created(old(slots[..]), remote, key)
      ensures stored == StoreSlot(old(slots[..]), remote).Some?
      ensures stored ==> Lookup(slots[..], remote) == Some(key)
    {
      var index := 0;
      var result := -1;
      while index < slots.Length
        invariant 0 <= index <= slots.Length
        invariant forall j :: 0 <= j < index ==> slots[j].address != remote
        invariant forall j :: 0 <= j < index && (result == -1 || j < result) ==> slots[j].address != NullAddress
        invariant result != -1 ==> 0 <= result < index && slots[result].address == NullAddress
      {
        if slots[index].address == remote {
          break;
        } else if result == -1 && slots[index].address == NullAddress {
          result := index;
        }
        index := index + 1;
      }
      if index == slots.Length {
        index := result;
      }
      if index != -1 {
        slots[index] := Entry(remote, key);
        stored := true;
      } else {
        stored := false;
      }
      CreatedKeepsUnique(old(slots[..]), remote, key);
      if stored {
        LookupAfterCreated(old(slots[..]), remote, key);
      }
    }
  }
}
