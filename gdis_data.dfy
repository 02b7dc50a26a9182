/*
 * The data of the GATT discovery engine (GDIS.c) and the pure decisions it
 * makes: 16-bit handle arithmetic, UUID comparison, the service filter, the
 * key-unique lists the engine keeps, where the next service page starts,
 * which handle range a descriptor request covers, and how a resolved
 * service is flattened into one indication.
 *
 * The firmware runs on an MSP430, where `int` and `unsigned int` are 16 bits
 * wide: a difference of two Word_t handles is promoted to unsigned int and
 * so is taken modulo 2^16.  Sub16 and Add16 model that arithmetic.
 */
module GattData {
  import opened Wrappers

  /** Word_t: an attribute handle or any other 16-bit unsigned value. */
  type Word = x: int | 0 <= x <= 0xFFFF

  const LastHandle: Word := 0xFFFF

  /** Word_t addition, wrapping at 2^16. */
  function Add16(a: Word, b: Word): (r: Word)
    ensures a + b <= 0xFFFF ==> r == a + b
    ensures a + b > 0xFFFF ==> r == a + b - 0x1_0000
  {
    (a + b) % 0x1_0000
  }

  /** Word_t subtraction as a 16-bit unsigned int, wrapping below 0. */
  function Sub16(a: Word, b: Word): (r: Word)
    ensures b <= a ==> r == a - b
    ensures a < b ==> r == a - b + 0x1_0000
  {
    (a - b) % 0x1_0000
  }

  // ---------------------------------------------------------------- UUIDs

  /** The sixteen bytes of a 128-bit UUID, most significant first. */
  type Bytes16 = s: seq<bv8> | |s| == 16 witness BaseUuid

  /** GATT_UUID_t: a 16-bit or a 128-bit UUID. */
  datatype Uuid = Uuid16(short: bv16) | Uuid128(long: Bytes16)

  /** The Bluetooth Base UUID 00000000-0000-1000-8000-00805F9B34FB (Core v4.0, Vol 3 Part B, section 2.5.1). */
  const BaseUuid: seq<bv8> := [0x00, 0x00, 0x00, 0x00, 0x00, 0x00, 0x10, 0x00,
                               0x80, 0x00, 0x00, 0x80, 0x5F, 0x9B, 0x34, 0xFB]

  /** The 128-bit form of a 16-bit UUID: the base UUID with the short value in its bytes 2 and 3. */
  function Widen(u: bv16): Bytes16
  {
    BaseUuid[2 := (u >> 8) as bv8][3 := (u & 0xFF) as bv8]
  }

  /** The 128-bit value a UUID stands for, whatever its size. */
  function Canonical(u: Uuid): Bytes16
  {
    match u
    case Uuid16(s) => Widen(s)
    case Uuid128(l) => l
  }

  lemma WidenInjective(a: bv16, b: bv16)
    ensures Widen(a) == Widen(b) ==> a == b
  {
    if Widen(a) == Widen(b) {
      assert (a >> 8) as bv8 == (b >> 8) as bv8 && (a & 0xFF) as bv8 == (b & 0xFF) as bv8 by {
        assert Widen(a)[2] == Widen(b)[2] && Widen(a)[3] == Widen(b)[3];
      }
      ByteSplit(a);
      ByteSplit(b);
    }
  }

  /** A 16-bit value is its high byte shifted up, or-ed with its low byte. */
  lemma ByteSplit(u: bv16)
    ensures ((((u >> 8) as bv8) as bv16) << 8) | (((u & 0xFF) as bv8) as bv16) == u
  {
  }

  /**
   * CompareServiceUUID: UUIDs of the same size are compared directly; a
   * 16-bit and a 128-bit UUID are compared after widening the short one.
   */
  function SameUuid(a: Uuid, b: Uuid): (r: bool)
    ensures r <==> Canonical(a) == Canonical(b)
  {
    match (a, b)
    case (Uuid16(x), Uuid16(y)) => WidenInjective(x, y); x == y
    case (Uuid128(x), Uuid128(y)) => x == y
    case (Uuid128(x), Uuid16(y)) => x == Widen(y)
    case (Uuid16(x), Uuid128(y)) => y == Widen(x)
  }

  /** One entry of the filter matches uuid, searching from index i on. */
  function MatchesFrom(filter: seq<Uuid>, uuid: Uuid, i: nat): (r: bool)
    decreases |filter| - i
    ensures r <==> exists k :: i <= k < |filter| && SameUuid(filter[k], uuid)
  {
    if i >= |filter| then false else SameUuid(filter[i], uuid) || MatchesFrom(filter, uuid, i + 1)
  }

  /**
   * CompareServiceToServiceList: with no filter every service is wanted,
   * otherwise exactly the services whose UUID matches a filter entry.
   */
  function ServiceWanted(filter: seq<Uuid>, uuid: Uuid): (r: bool)
    ensures |filter| == 0 ==> r
    ensures |filter| > 0 ==> (r <==> exists k :: 0 <= k < |filter| && Canonical(filter[k]) == Canonical(uuid))
  {
    |filter| == 0 || MatchesFrom(filter, uuid, 0)
  }

  // ------------------------------------------------------- key-unique lists

  /** The list already holds an entry with key k. */
  predicate HasKey<T>(list: seq<T>, key: T -> int, k: int)
  {
    exists i :: 0 <= i < |list| && key(list[i]) == k
  }

  /** No two entries of the list share a key. */
  predicate KeysUnique<T>(list: seq<T>, key: T -> int)
  {
    forall i, j :: 0 <= i < j < |list| ==> key(list[i]) != key(list[j])
  }

  /**
   * BSC_AddGenericListEntry as its comments describe it: x is appended at
   * the end unless an entry with the same key is present; the flag says
   * whether it was added.
   */
  function Append<T>(list: seq<T>, x: T, key: T -> int): (r: (seq<T>, bool))
  {
    if HasKey(list, key, key(x)) then (list, false) else (list + [x], true)
  }

  /** After Append the key is present, the old entries are kept in order, and unique keys stay unique. */
  lemma AppendProperties<T>(list: seq<T>, x: T, key: T -> int)
    ensures var r := Append(list, x, key);
            && HasKey(r.0, key, key(x))
            && r.0[..|list|] == list
            && |r.0| == |list| + (if r.1 then 1 else 0)
            && (r.1 ==> r.0[|list|] == x)
            && (r.1 <==> !HasKey(list, key, key(x)))
            && (KeysUnique(list, key) ==> KeysUnique(r.0, key))
  {
    var r := Append(list, x, key);
    if r.1 {
      assert r.0[|list|] == x;
    }
  }

  /** The index of the first entry with key k (the Search…Entry lookups). */
  function Find<T>(list: seq<T>, key: T -> int, k: int): (r: Option<nat>)
    ensures r.None? <==> !HasKey(list, key, k)
    ensures r.Some? ==> r.value < |list| && key(list[r.value]) == k
                        && forall j :: 0 <= j < r.value ==> key(list[j]) != k
  {
    if |list| == 0 then None
    else if key(list[0]) == k then Some(0)
    else
      match Find(list[1..], key, k)
      case None => (assert forall i :: 1 <= i < |list| ==> list[i] == list[1..][i - 1]; None)
      case Some(i) => Some(i + 1)
  }

  // ------------------------------------------------------------ entities

  /** GDISDescriptorInfo_t (and GDIS_Characteristic_Descriptor_Information_t). */
  datatype Descriptor = Descriptor(uuid: Uuid, handle: Word)

  /** GDISCharacteristicInfo_t: handle is the characteristic value handle. */
  datatype Characteristic = Characteristic(
    uuid: Uuid, handle: Word, properties: bv8, descriptorCount: nat, descriptors: seq<Descriptor>)

  /** GDISServiceInfo_t. */
  datatype Service = Service(
    uuid: Uuid, startHandle: Word, endHandle: Word, outstandingRequestHandle: Word,
    characteristicCount: nat, descriptorCount: nat, characteristics: seq<Characteristic>)

  function DescriptorKey(d: Descriptor): int { d.handle }
  function CharacteristicKey(c: Characteristic): int { c.handle }
  function ServiceKey(s: Service): int { s.startHandle }

  /** Total of the per-characteristic descriptor counts. */
  function TotalDescriptors(cs: seq<Characteristic>): nat
  {
    if |cs| == 0 then 0 else TotalDescriptors(cs[..|cs| - 1]) + cs[|cs| - 1].descriptorCount
  }

  /** The counters of a characteristic agree with its descriptor list. */
  predicate CharacteristicWellFormed(c: Characteristic)
  {
    c.descriptorCount == |c.descriptors|
  }

  /** The counters of a service agree with its lists. */
  predicate ServiceWellFormed(s: Service)
  {
    && s.characteristicCount == |s.characteristics|
    && s.descriptorCount == TotalDescriptors(s.characteristics)
    && forall i :: 0 <= i < |s.characteristics| ==> CharacteristicWellFormed(s.characteristics[i])
  }

  /** Every service of a discovery list is well formed. */
  predicate ServicesWellFormed(services: seq<Service>)
  {
    forall i :: 0 <= i < |services| ==> ServiceWellFormed(services[i])
  }

  /** A service entry as the service response creates it: no characteristics yet. */
  function NewService(uuid: Uuid, start: Word, end: Word): (s: Service)
    ensures ServiceWellFormed(s) && s.characteristics == []
  {
    Service(uuid, start, end, 0, 0, 0, [])
  }

  /** Adding one characteristic (with no descriptors yet) to a service, counting it if it was added. */
  function AddCharacteristic(s: Service, c: Characteristic): (r: Service)
    requires c.descriptors == [] && c.descriptorCount == 0
    ensures ServiceWellFormed(s) ==> ServiceWellFormed(r)
    ensures r.characteristics == Append(s.characteristics, c, CharacteristicKey).0
    ensures r.descriptorCount == s.descriptorCount
  {
    var (cs, added) := Append(s.characteristics, c, CharacteristicKey);
    if added then
      TotalDescriptorsSnoc(s.characteristics, c);
      s.(characteristics := cs, characteristicCount := s.characteristicCount + 1)
    else s
  }

  lemma TotalDescriptorsSnoc(cs: seq<Characteristic>, c: Characteristic)
    ensures TotalDescriptors(cs + [c]) == TotalDescriptors(cs) + c.descriptorCount
  {
    assert (cs + [c])[..|cs|] == cs;
  }

  /** Changing the descriptor count of characteristic i by one changes the total by one. */
  lemma {:induction false} TotalDescriptorsBump(cs: seq<Characteristic>, i: nat, c: Characteristic)
    requires i < |cs| && c.descriptorCount == cs[i].descriptorCount + 1
    ensures TotalDescriptors(cs[i := c]) == TotalDescriptors(cs) + 1
    decreases |cs|
  {
    var n := |cs|;
    var cs' := cs[i := c];
    if i == n - 1 {
      assert cs'[..n - 1] == cs[..n - 1];
    } else {
      assert cs'[..n - 1] == cs[..n - 1][i := c];
      TotalDescriptorsBump(cs[..n - 1], i, c);
    }
  }

  /**
   * Adding one descriptor to characteristic i of a service: both counters
   * go up only when the list accepted it.
   */
  function AddDescriptor(s: Service, i: nat, d: Descriptor): (r: Service)
    requires i < |s.characteristics|
    ensures ServiceWellFormed(s) ==> ServiceWellFormed(r)
    ensures |r.characteristics| == |s.characteristics|
    ensures forall j :: 0 <= j < |s.characteristics| && j != i ==> r.characteristics[j] == s.characteristics[j]
    ensures r.characteristics[i].handle == s.characteristics[i].handle
    ensures r.characteristics[i].descriptors == Append(s.characteristics[i].descriptors, d, DescriptorKey).0
    ensures r.(characteristics := s.characteristics, descriptorCount := s.descriptorCount) == s
  {
    var c := s.characteristics[i];
    var (ds, added) := Append(c.descriptors, d, DescriptorKey);
    if added then
      var c' := c.(descriptors := ds, descriptorCount := c.descriptorCount + 1);
      TotalDescriptorsBump(s.characteristics, i, c');
      s.(characteristics := s.characteristics[i := c'], descriptorCount := s.descriptorCount + 1)
    else s
  }

  // ----------------------------------------------------- service paging

  /** One entry of a service discovery response (GATT_Service_Information_t). */
  datatype ServiceEntry = ServiceEntry(uuid: Uuid, start: Word, end: Word)

  /**
   * Where the next Discover All Primary Services request starts: one past
   * the end of the last entry whose end is not 0xFFFF, or 0xFFFF (no more
   * requests) when there is none.
   */
  function ResumeHandle(entries: seq<ServiceEntry>): (h: Word)
    ensures (forall i :: 0 <= i < |entries| ==> entries[i].end == LastHandle) ==> h == LastHandle
    ensures forall i :: 0 <= i < |entries| && entries[i].end != LastHandle
                        && (forall j :: i < j < |entries| ==> entries[j].end == LastHandle)
                        ==> h == entries[i].end + 1
  {
    if |entries| == 0 then LastHandle
    else
      var last := entries[|entries| - 1];
      if last.end != LastHandle then last.end + 1
      else
        assert forall i :: 0 <= i < |entries| - 1 ==> entries[..|entries| - 1][i] == entries[i];
        ResumeHandle(entries[..|entries| - 1])
  }

  /**
   * The extra page: when a response ends with a service reaching 0xFFFF but
   * the entry before it ends below 0xFFFE, another request is issued from
   * one past that entry, although the whole handle range has been seen.
   */
  lemma ExtraServicePage(entries: seq<ServiceEntry>)
    requires |entries| >= 2 && entries[|entries| - 1].end == LastHandle
    requires entries[|entries| - 2].end < 0xFFFE
    ensures ResumeHandle(entries) == entries[|entries| - 2].end + 1 != LastHandle
  {
    var prefix := entries[..|entries| - 1];
    assert prefix[|prefix| - 1] == entries[|entries| - 2];
    assert ResumeHandle(entries) == ResumeHandle(prefix);
  }

  // --------------------------------------------------- descriptor ranges

  /** The handle that bounds characteristic j's descriptors in the walk: one past its last possible descriptor. */
  function WalkBound(cs: seq<Characteristic>, end: Word, j: nat): Word
    requires j < |cs|
  {
    if j + 1 < |cs| then Sub16(cs[j + 1].handle, 1)
    else if end != LastHandle then Add16(end, 1)
    else LastHandle
  }

  /**
   * The first descriptor request for characteristic j, as the walk in
   * CharacteristicDescriptorDiscoveryRequest computes it, or None when the
   * walk skips the characteristic.
   */
  function WalkRange(cs: seq<Characteristic>, end: Word, j: nat): Option<(Word, Word)>
    requires j < |cs|
  {
    var c := cs[j].handle;
    var bound := WalkBound(cs, end, j);
    if Sub16(bound, c) > 1 || (bound == LastHandle && Sub16(bound, c) >= 1)
    then Some((Add16(c, 1), Sub16(bound, 1)))
    else None
  }

  /**
   * The follow-up request after a descriptor page for characteristic j that
   * ended just before handle h, or None.
   */
  function ContinuationRange(cs: seq<Characteristic>, end: Word, j: nat, h: Word): Option<(Word, Word)>
    requires j < |cs|
  {
    if h != 0 && h < LastHandle then
      var bound := if j + 1 < |cs| then Sub16(cs[j + 1].handle, 1) else end;
      if Sub16(bound, h) > 1 then Some((h, Sub16(bound, 1))) else None
    else None
  }

  /** With a next characteristic at N > C, the walk requests exactly [C+1, N-2], and only when it is not empty. */
  lemma WalkRangeBeforeNext(cs: seq<Characteristic>, end: Word, j: nat)
    requires j + 1 < |cs| && cs[j].handle < cs[j + 1].handle
    ensures var c, n := cs[j].handle, cs[j + 1].handle;
            && (WalkRange(cs, end, j).Some? <==> c + 1 <= n - 2)
            && (WalkRange(cs, end, j).Some? ==> WalkRange(cs, end, j).value.0 == c + 1
                                                && WalkRange(cs, end, j).value.1 == n - 2)
  {
  }

  /**
   * For the last characteristic C of a service ending at E < 0xFFFF, the
   * walk requests [C+1, E] when C < E; when E is 0xFFFE it issues that
   * request even for C == E, where the range is inverted.
   */
  lemma WalkRangeLast(cs: seq<Characteristic>, end: Word, j: nat)
    requires j + 1 == |cs| && cs[j].handle <= end < LastHandle
    ensures var c := cs[j].handle;
            && (WalkRange(cs, end, j).Some? <==> c < end || end == 0xFFFE)
            && (WalkRange(cs, end, j).Some? ==> WalkRange(cs, end, j).value.0 == c + 1
                                                && WalkRange(cs, end, j).value.1 == end)
  {
  }

  /** For the last characteristic C of a service ending at 0xFFFF, the walk requests [C+1, 0xFFFE]: handle 0xFFFF is never searched. */
  lemma WalkRangeLastAtTop(cs: seq<Characteristic>, j: nat)
    requires j + 1 == |cs|
    ensures var c := cs[j].handle;
            && (WalkRange(cs, LastHandle, j).Some? <==> c < LastHandle)
            && (WalkRange(cs, LastHandle, j).Some? ==> WalkRange(cs, LastHandle, j).value.0 == c + 1
                                                       && WalkRange(cs, LastHandle, j).value.1 == 0xFFFE)
  {
  }

  /**
   * A continuation before a next characteristic N, from h <= N-1, asks for
   * [h, N-2] only when at least two handles remain: a single remaining handle
   * N-2 is never searched.
   */
  lemma ContinuationBeforeNext(cs: seq<Characteristic>, end: Word, j: nat, h: Word)
    requires j + 1 < |cs| && 0 < h < LastHandle && h + 1 <= cs[j + 1].handle
    ensures var n := cs[j + 1].handle;
            && (ContinuationRange(cs, end, j, h).Some? <==> h + 2 < n)
            && (ContinuationRange(cs, end, j, h).Some? ==> ContinuationRange(cs, end, j, h).value.0 == h
                                                           && ContinuationRange(cs, end, j, h).value.1 == n - 2)
  {
  }

  /**
   * For the last characteristic, a continuation from h <= E asks for
   * [h, E-1]: unlike the first request, it never reaches the service's end
   * handle E, and it asks nothing when fewer than three handles remain.
   */
  lemma ContinuationLast(cs: seq<Characteristic>, end: Word, j: nat, h: Word)
    requires j + 1 == |cs| && 0 < h < LastHandle && h <= end
    ensures ContinuationRange(cs, end, j, h).Some? <==> h + 1 < end
    ensures ContinuationRange(cs, end, j, h).Some? ==> ContinuationRange(cs, end, j, h).value.0 == h
                                                       && ContinuationRange(cs, end, j, h).value.1 == end - 1
  {
  }

  /**
   * For the last characteristic of a service ending at E < 0xFFFE, a page
   * whose last descriptor sits at E leaves h == E+1; the 16-bit test
   * E - (E+1) == 0xFFFF > 1 then passes, and the continuation asks for the
   * inverted range [E+1, E-1].
   */
  lemma ContinuationPastEnd(cs: seq<Characteristic>, end: Word, j: nat)
    requires j + 1 == |cs| && 0 < end < 0xFFFE
    ensures ContinuationRange(cs, end, j, end + 1) == Some((end + 1, end - 1))
  {
  }

  /**
   * The asymmetry: for the last characteristic C of a service ending at
   * E < 0xFFFF, the first request covers the end handle E but no
   * continuation ever does, whether it starts at or before E or, after a
   * page that reached E, at E+1.
   */
  lemma {:induction false} LastHandleOnlyInFirstRequest(cs: seq<Characteristic>, end: Word, j: nat, h: Word)
    requires j + 1 == |cs| && cs[j].handle < end < LastHandle && 0 < h < LastHandle && h <= end + 1
    ensures WalkRange(cs, end, j).Some? && WalkRange(cs, end, j).value.1 == end
    ensures ContinuationRange(cs, end, j, h).Some? ==> ContinuationRange(cs, end, j, h).value.1 < end
  {
    WalkRangeLast(cs, end, j);
    if h <= end {
      ContinuationLast(cs, end, j, h);
    } else {
      ContinuationPastEnd(cs, end, j);
    }
  }

  // ------------------------------------------------------ descriptor walk

  /** The requests a descriptor walk issues, and where it stopped. */
  datatype Walk = Walk(ranges: seq<(Word, Word)>, issued: Option<nat>, transaction: int)

  /**
   * The walk over characteristics j.. of CharacteristicDescriptorDiscoveryRequest:
   * each characteristic with a range gets a request; the first request the
   * GATT layer accepts (a positive transaction ID, from the oracle gatt
   * indexed by the number of calls made so far, n) ends the walk.
   */
  function WalkFrom(cs: seq<Characteristic>, end: Word, j: nat, gatt: nat -> int, n: nat): (w: Walk)
    decreases |cs| - j
    ensures w.issued.Some? ==> j <= w.issued.value < |cs| && w.transaction > 0
  {
    if j >= |cs| then Walk([], None, 0)
    else
      match WalkRange(cs, end, j)
      case None => WalkFrom(cs, end, j + 1, gatt, n)
      case Some(rg) =>
        if gatt(n) > 0 then Walk([rg], Some(j), gatt(n))
        else
          Prepend([rg], WalkFrom(cs, end, j + 1, gatt, n + 1))
  }

  /**
   * What a walk did: every request but an accepted last one was refused by
   * the GATT client, an accepted request is the range of the characteristic
   * the walk stopped at, and a walk that stopped nowhere has no transaction.
   */
  lemma WalkFromFacts(cs: seq<Characteristic>, end: Word, j: nat, gatt: nat -> int, n: nat)
    ensures var w := WalkFrom(cs, end, j, gatt, n);
            && (w.issued.Some? ==> && |w.ranges| > 0 && w.transaction == gatt(n + |w.ranges| - 1)
                                   && WalkRange(cs, end, w.issued.value) == Some(w.ranges[|w.ranges| - 1]))
            && (w.issued.None? ==> w.transaction == 0)
            && (forall k :: n <= k < n + |w.ranges| - (if w.issued.Some? then 1 else 0) ==> gatt(k) <= 0)
  {
    WalkFromOutcome(cs, end, j, gatt, n);
    WalkFromRefusals(cs, end, j, gatt, n);
  }

  /** The accepted request of a walk is its last range, the one of the characteristic it stopped at. */
  lemma WalkFromOutcome(cs: seq<Characteristic>, end: Word, j: nat, gatt: nat -> int, n: nat)
    ensures var w := WalkFrom(cs, end, j, gatt, n);
            && (w.issued.Some? ==> && |w.ranges| > 0 && w.transaction == gatt(n + |w.ranges| - 1)
                                   && WalkRange(cs, end, w.issued.value) == Some(w.ranges[|w.ranges| - 1]))
            && (w.issued.None? ==> w.transaction == 0)
  {
    WalkFromTransaction(cs, end, j, gatt, n);
    WalkFromLastRange(cs, end, j, gatt, n);
  }

  /** The transaction of a walk is the GATT result of its last request, and 0 when it issued nothing. */
  lemma {:induction false} WalkFromTransaction(cs: seq<Characteristic>, end: Word, j: nat, gatt: nat -> int, n: nat)
    decreases |cs| - j
    ensures var w := WalkFrom(cs, end, j, gatt, n);
            && (w.issued.Some? ==> |w.ranges| > 0 && w.transaction == gatt(n + |w.ranges| - 1))
            && (w.issued.None? ==> w.transaction == 0)
  {
    if j < |cs| {
      WalkFromStep(cs, end, j, gatt, n);
      if WalkRange(cs, end, j).None? {
        WalkFromTransaction(cs, end, j + 1, gatt, n);
      } else if gatt(n) <= 0 {
        WalkFromTransaction(cs, end, j + 1, gatt, n + 1);
      }
    }
  }

  /** The last range of an issued walk is the range of the characteristic it stopped at. */
  lemma {:induction false} WalkFromLastRange(cs: seq<Characteristic>, end: Word, j: nat, gatt: nat -> int, n: nat)
    decreases |cs| - j
    ensures var w := WalkFrom(cs, end, j, gatt, n);
            w.issued.Some? ==> |w.ranges| > 0 && WalkRange(cs, end, w.issued.value) == Some(w.ranges[|w.ranges| - 1])
  {
    if j < |cs| {
      WalkFromStep(cs, end, j, gatt, n);
      if WalkRange(cs, end, j).None? {
        WalkFromLastRange(cs, end, j + 1, gatt, n);
      } else if gatt(n) <= 0 {
        WalkFromLastRange(cs, end, j + 1, gatt, n + 1);
        var rest := WalkFrom(cs, end, j + 1, gatt, n + 1);
        if rest.issued.Some? {
          assert Prepend([WalkRange(cs, end, j).value], rest).ranges[|rest.ranges|] == rest.ranges[|rest.ranges| - 1];
        }
      }
    }
  }

  /** Every request of a walk before the accepted one was refused. */
  lemma {:induction false} WalkFromRefusals(cs: seq<Characteristic>, end: Word, j: nat, gatt: nat -> int, n: nat)
    decreases |cs| - j
    ensures var w := WalkFrom(cs, end, j, gatt, n);
            forall k :: n <= k < n + |w.ranges| - (if w.issued.Some? then 1 else 0) ==> gatt(k) <= 0
  {
    if j < |cs| {
      match WalkRange(cs, end, j)
      case None => WalkFromRefusals(cs, end, j + 1, gatt, n);
      case Some(rg) =>
        if gatt(n) <= 0 {
          WalkFromRefusals(cs, end, j + 1, gatt, n + 1);
        }
    }
  }

  /** One step of the walk: a skipped characteristic, an accepted request, or a refused one followed by the rest. */
  lemma WalkFromStep(cs: seq<Characteristic>, end: Word, j: nat, gatt: nat -> int, n: nat)
    requires j < |cs|
    ensures WalkRange(cs, end, j).None? ==> WalkFrom(cs, end, j, gatt, n) == WalkFrom(cs, end, j + 1, gatt, n)
    ensures WalkRange(cs, end, j).Some? && gatt(n) > 0 ==>
              WalkFrom(cs, end, j, gatt, n) == Walk([WalkRange(cs, end, j).value], Some(j), gatt(n))
    ensures WalkRange(cs, end, j).Some? && gatt(n) <= 0 ==>
              WalkFrom(cs, end, j, gatt, n) == Prepend([WalkRange(cs, end, j).value], WalkFrom(cs, end, j + 1, gatt, n + 1))
  {
  }

  /** A walk preceded by requests that were refused. */
  function Prepend(refused: seq<(Word, Word)>, w: Walk): Walk
  {
    Walk(refused + w.ranges, w.issued, w.transaction)
  }

  lemma PrependTwice(a: seq<(Word, Word)>, b: seq<(Word, Word)>, w: Walk)
    ensures Prepend(a, Prepend(b, w)) == Prepend(a + b, w)
  {
    assert a + (b + w.ranges) == (a + b) + w.ranges;
  }

  /**
   * The whole of CharacteristicDescriptorDiscoveryRequest: a continuation for
   * characteristic cur ending before h, else the walk from the characteristic
   * after cur (or from the first when there is no current one).
   */
  function DescriptorPlan(cs: seq<Characteristic>, end: Word, cur: Option<nat>, h: Word, gatt: nat -> int, n: nat): (w: Walk)
    requires cur.Some? ==> cur.value < |cs|
    ensures w.issued.Some? ==> w.issued.value < |cs| && w.transaction > 0
  {
    var cont := if cur.Some? then ContinuationRange(cs, end, cur.value, h) else None;
    if cont.Some? && gatt(n) > 0 then Walk([cont.value], cur, gatt(n))
    else
      var skip := if cont.Some? then 1 else 0;
      var start := if cur.Some? then cur.value + 1 else 0;
      var rest := WalkFrom(cs, end, start, gatt, n + skip);
      Walk((if cont.Some? then [cont.value] else []) + rest.ranges, rest.issued, rest.transaction)
  }

  /**
   * A service ending at 20 with characteristic values at 10 and 12:
   * handle 11 is the second characteristic's declaration, so the first one
   * rightly gets no request, and the second gets [13, 20].
   */
  lemma TwoCharacteristicExample(u: Uuid)
    ensures var cs := [Characteristic(u, 10, 0, 0, []), Characteristic(u, 12, 0, 0, [])];
            WalkRange(cs, 20, 0) == None && WalkRange(cs, 20, 1) == Some((13, 20))
  {
  }

  // ------------------------------------------------------------ flattening

  /** GDIS_Characteristic_Information_t: descriptorList is the index of its first descriptor in the flat array, if any. */
  datatype CharacteristicInformation = CharacteristicInformation(
    uuid: Uuid, handle: Word, properties: bv8, numberOfDescriptors: nat, descriptorList: Option<nat>)

  /** The event buffer: the characteristic array followed by all descriptors. */
  datatype FlatList = FlatList(characteristics: seq<CharacteristicInformation>, descriptors: seq<Descriptor>)

  /** All descriptor lists of cs, in characteristic order. */
  function AllDescriptors(cs: seq<Characteristic>): seq<Descriptor>
  {
    if |cs| == 0 then [] else AllDescriptors(cs[..|cs| - 1]) + cs[|cs| - 1].descriptors
  }

  /** What characteristic c becomes in the event when its descriptors start at offset. */
  function Flattened(c: Characteristic, offset: nat): CharacteristicInformation
  {
    CharacteristicInformation(c.uuid, c.handle, c.properties, c.descriptorCount,
                              if |c.descriptors| == 0 then None else Some(offset))
  }

  /** The array FormatAndDispatchDiscoveryCallback builds. */
  function Flatten(cs: seq<Characteristic>): (f: FlatList)
    ensures |f.characteristics| == |cs| && f.descriptors == AllDescriptors(cs)
  {
    if |cs| == 0 then FlatList([], [])
    else
      var prev := Flatten(cs[..|cs| - 1]);
      var c := cs[|cs| - 1];
      FlatList(prev.characteristics + [Flattened(c, |prev.descriptors|)], prev.descriptors + c.descriptors)
  }

  /** With well-formed counters, the descriptors fill exactly the DescriptorCount entries allocated for them. */
  lemma {:induction false} AllDescriptorsCount(cs: seq<Characteristic>)
    requires forall i :: 0 <= i < |cs| ==> CharacteristicWellFormed(cs[i])
    ensures |AllDescriptors(cs)| == TotalDescriptors(cs)
  {
    if |cs| > 0 {
      AllDescriptorsCount(cs[..|cs| - 1]);
    }
  }

  /**
   * Each characteristic of the flattened array keeps its identity and count
   * and points at its own descriptors, in order, inside the shared array.
   */
  lemma {:induction false} FlattenPlacesDescriptors(cs: seq<Characteristic>, i: nat)
    requires i < |cs|
    ensures var f := Flatten(cs);
            var off := |AllDescriptors(cs[..i])|;
            && f.characteristics[i] == Flattened(cs[i], off)
            && off + |cs[i].descriptors| <= |f.descriptors|
            && f.descriptors[off..off + |cs[i].descriptors|] == cs[i].descriptors
    decreases |cs|
  {
    var n := |cs|;
    var prefix := cs[..n - 1];
    var prev := Flatten(prefix);
    var f := Flatten(cs);
    assert f.characteristics == prev.characteristics + [Flattened(cs[n - 1], |prev.descriptors|)];
    assert f.descriptors == prev.descriptors + cs[n - 1].descriptors;
    if i < n - 1 {
      FlattenPlacesDescriptors(prefix, i);
      assert prefix[..i] == cs[..i];
      assert prefix[i] == cs[i];
      var off := |AllDescriptors(cs[..i])|;
      assert f.characteristics[i] == prev.characteristics[i];
      assert f.descriptors[off..off + |cs[i].descriptors|] == prev.descriptors[off..off + |cs[i].descriptors|];
    } else {
      assert cs[..i] == prefix;
      assert f.descriptors[|prev.descriptors|..] == cs[i].descriptors;
    }
  }
}
