/*
 * GDIS.c performed step by step: the discovery engine of one Bluetooth stack
 * updates its discovery list in place, calls the GATT client and the
 * application's callback.  Every routine is proved to reach the state that
 * its specification in GattContext describes.
 */
module GattDiscovery {
  import opened Wrappers
  import opened GattData
  import opened GattContext

  /** CompareServiceToServiceList: the loop over the filter, stopping at the first match. */
  method CompareServiceToServiceList(filter: seq<Uuid>, uuid: Uuid) returns (wanted: bool)
    ensures wanted == ServiceWanted(filter, uuid)
  {
    if |filter| > 0 {
      wanted := false;
      var i := 0;
      while i < |filter| && !wanted
        invariant 0 <= i <= |filter|
        invariant wanted <==> exists k :: 0 <= k < i && SameUuid(filter[k], uuid)
      {
        if SameUuid(filter[i], uuid) {
          wanted := true;
        }
        i := i + 1;
      }
      assert wanted == MatchesFrom(filter, uuid, 0);
    } else {
      wanted := true;
    }
  }

  /**
   * The buffer FormatAndDispatchDiscoveryCallback fills: the characteristics
   * in list order, each pointing at the first of its descriptors, which
   * follow one another after all characteristics.
   */
  method FlattenCharacteristics(cs: seq<Characteristic>) returns (f: FlatList)
    ensures f == Flatten(cs)
  {
    var chars: seq<CharacteristicInformation> := [];
    var descs: seq<Descriptor> := [];
    var i := 0;
    while i < |cs|
      invariant 0 <= i <= |cs|
      invariant FlatList(chars, descs) == Flatten(cs[..i])
    {
      var c := cs[i];
      var first: Option<nat> := None;
      ghost var before := descs;
      var k := 0;
      while k < |c.descriptors|
        invariant 0 <= k <= |c.descriptors|
        invariant descs == before + c.descriptors[..k]
        invariant first == if k == 0 then None else Some(|before|)
      {
        if first.None? {
          first := Some(|descs|);
        }
        descs := descs + [c.descriptors[k]];
        k := k + 1;
      }
      assert c.descriptors[..k] == c.descriptors;
      chars := chars + [CharacteristicInformation(c.uuid, c.handle, c.properties, c.descriptorCount, first)];
      assert cs[..i + 1][..i] == cs[..i];
      i := i + 1;
    }
    assert cs[..i] == cs;
    f := FlatList(chars, descs);
  }

  /**
   * The loop of the service discovery response: each wanted entry is added
   * to the services, and the handle the next page would start from is kept.
   */
  method CollectServices(services: seq<Service>, filter: seq<Uuid>, entries: seq<ServiceEntry>)
    returns (services': seq<Service>, handle: Word)
    ensures services' == AddServices(services, filter, entries)
    ensures handle == ResumeHandle(entries)
  {
    services' := services;
    handle := LastHandle;
    var i := 0;
    while i < |entries|
      invariant 0 <= i <= |entries|
      invariant handle == ResumeHandle(entries[..i])
      invariant services' == AddServices(services, filter, entries[..i])
    {
      var e := entries[i];
      if e.end != LastHandle {
        handle := e.end + 1;
      }
      var wanted := CompareServiceToServiceList(filter, e.uuid);
      if wanted {
        services' := Append(services', NewService(e.uuid, e.start, e.end), ServiceKey).0;
      }
      assert entries[..i + 1][..i] == entries[..i];
      i := i + 1;
    }
    assert entries[..i] == entries;
  }

  /** The discovery context of one Bluetooth stack. */
  class Engine {
    const stack: Module
    /** Results of GATT client calls, by call number. */
    const gatt: nat -> int
    /** Whether the event buffer for an indication can be allocated, by event number. */
    const memory: nat -> bool

    var discoveries: map<nat, DiscoveryInfo>
    var requests: seq<Request>
    var events: seq<Event>

    function Snapshot(): Context
      reads this
    {
      Context(discoveries, requests, events)
    }

    function Env(): Environment
    {
      Environment(gatt, memory)
    }

    constructor(stack: Module, gatt: nat -> int, memory: nat -> bool)
      ensures this.stack == stack && this.gatt == gatt && this.memory == memory
      ensures Snapshot() == Context(map[], [], [])
    {
      this.stack := stack;
      this.gatt := gatt;
      this.memory := memory;
      discoveries := map[];
      requests := [];
      events := [];
    }

    /** One call into the GATT client; its result comes from the oracle. */
    method Issue(req: Request) returns (r: int)
      modifies this`requests
      ensures requests == old(requests) + [req] && r == gatt(|old(requests)|)
    {
      r := gatt(|requests|);
      requests := requests + [req];
    }

    /** FormatAndDispatchDiscoveryCompleteCallback. */
    method DispatchComplete(conn: nat, status: bv8)
      modifies this`discoveries, this`events
      ensures Snapshot() == CompleteFn(old(Snapshot()), conn, status)
    {
      if conn in discoveries {
        discoveries := discoveries - {conn};
        events := events + [DiscoveryComplete(conn, status)];
      }
    }

    /** FormatAndDispatchDiscoveryCallback on the head service. */
    method DispatchIndication(conn: nat)
      requires conn in discoveries && |discoveries[conn].services| > 0
      modifies this`discoveries, this`events
      ensures Snapshot() == DispatchIndicationFn(old(Snapshot()), Env(), conn)
    {
      var d := discoveries[conn];
      var s := d.services[0];
      discoveries := discoveries[conn := d.(services := d.services[1..])];
      var list: Option<FlatList> := None;
      if memory(|events|) {
        var f := FlattenCharacteristics(s.characteristics);
        list := Some(f);
      }
      events := events + [DiscoveryIndication(conn, ServiceInformation(s.uuid, s.startHandle, s.endHandle),
                                              s.characteristicCount, list)];
    }

    /** CharacteristicDiscoveryRequest on the head service. */
    method CharacteristicRequest(conn: nat, start: Word)
      requires conn in discoveries && |discoveries[conn].services| > 0
      modifies this`discoveries, this`requests
      ensures Snapshot() == CharacteristicRequestFn(old(Snapshot()), Env(), conn, start)
    {
      var d := discoveries[conn];
      var r := Issue(DiscoverCharacteristics(conn, start, d.services[0].endHandle));
      if r > 0 {
        discoveries := discoveries[conn := d.(transactionId := r)];
      }
    }

    /** The walk of CharacteristicDescriptorDiscoveryRequest over characteristics j0.. of cs. */
    method DescriptorWalk(conn: nat, cs: seq<Characteristic>, end: Word, j0: nat)
      returns (issued: bool, at: nat, transaction: nat, ghost done: seq<(Word, Word)>)
      requires j0 <= |cs|
      modifies this`requests
      ensures var w := WalkFrom(cs, end, j0, gatt, |old(requests)|);
              && requests == old(requests) + DescriptorRequests(conn, w.ranges)
              && done == w.ranges
              && issued == w.issued.Some?
              && (issued ==> at == w.issued.value && transaction == w.transaction)
    {
      ghost var w0 := WalkFrom(cs, end, j0, gatt, |requests|);
      issued, at, transaction, done := false, 0, 0, [];
      var j := j0;
      while j < |cs| && !issued
        invariant j0 <= j <= |cs|
        invariant requests == old(requests) + DescriptorRequests(conn, done)
        invariant !issued ==> w0 == Prepend(done, WalkFrom(cs, end, j, gatt, |requests|))
        invariant issued ==> w0 == Walk(done, Some(at), transaction)
        decreases |cs| - j
      {
        WalkFromStep(cs, end, j, gatt, |requests|);
        ghost var n := |requests|;
        var r := WalkOne(conn, cs, end, j);
        if r.Some? {
          var rg := WalkRange(cs, end, j).value;
          DescriptorRequestsAppend(conn, done, [rg]);
          if r.value > 0 {
            PrependTwice(done, [rg], Walk([], Some(j), r.value));
            issued, at, transaction := true, j, r.value;
          } else {
            PrependTwice(done, [rg], WalkFrom(cs, end, j + 1, gatt, |requests|));
          }
          done := done + [rg];
        }
        j := j + 1;
      }
    }

    /** One characteristic of the walk: its request, if it has a range, and the GATT result. */
    method WalkOne(conn: nat, cs: seq<Characteristic>, end: Word, j: nat) returns (r: Option<int>)
      requires j < |cs|
      modifies this`requests
      ensures WalkRange(cs, end, j).None? ==> r.None? && requests == old(requests)
      ensures WalkRange(cs, end, j).Some? ==>
                var rg := WalkRange(cs, end, j).value;
                r == Some(gatt(|old(requests)|)) && requests == old(requests) + [DiscoverDescriptors(conn, rg.0, rg.1)]
    {
      r := None;
      match WalkRange(cs, end, j) {
        case None =>
        case Some(rg) =>
          var t := Issue(DiscoverDescriptors(conn, rg.0, rg.1));
          r := Some(t);
      }
    }

    /** CharacteristicDescriptorDiscoveryRequest on the head service. */
    method DescriptorRequest(conn: nat, cur: Option<nat>, h: Word) returns (issued: bool)
      requires conn in discoveries && |discoveries[conn].services| > 0
      requires cur.Some? ==> cur.value < |discoveries[conn].services[0].characteristics|
      modifies this`discoveries, this`requests
      ensures (Snapshot(), issued) == DescriptorRequestFn(old(Snapshot()), Env(), conn, cur, h)
    {
      var d := discoveries[conn];
      var s := d.services[0];
      var cs := s.characteristics;
      issued := false;
      var at: nat := 0;
      var transaction: nat := 0;
      ghost var first: seq<(Word, Word)> := [];
      ghost var plan := DescriptorPlan(cs, s.endHandle, cur, h, gatt, |requests|);
      if cur.Some? {
        match ContinuationRange(cs, s.endHandle, cur.value, h) {
          case None =>
          case Some(rg) =>
            var r := Issue(DiscoverDescriptors(conn, rg.0, rg.1));
            first := [rg];
            assert DescriptorRequests(conn, first) == [DiscoverDescriptors(conn, rg.0, rg.1)];
            if r > 0 {
              issued, at, transaction := true, cur.value, r;
            }
        }
      }
      if !issued {
        var start := if cur.Some? then cur.value + 1 else 0;
        ghost var rest;
        issued, at, transaction, rest := DescriptorWalk(conn, cs, s.endHandle, start);
        DescriptorRequestsAppend(conn, first, rest);
      }
      assert requests == old(requests) + DescriptorRequests(conn, plan.ranges);
      assert issued == plan.issued.Some?;
      assert issued ==> at == plan.issued.value && transaction == plan.transaction;
      if issued {
        discoveries := discoveries[conn := d.(transactionId := transaction,
                                              services := d.services[0 := s.(outstandingRequestHandle := cs[at].handle)])];
      }
    }

    /** ServiceDiscoveryStateMachine. */
    method StateMachine(conn: nat)
      requires conn in discoveries
      modifies this`discoveries, this`requests, this`events
      ensures Snapshot() == StateMachineFn(old(Snapshot()), Env(), conn)
    {
      var d := discoveries[conn];
      var moveToNextService := false;
      match d.state {
        case ServiceDiscovery =>
          discoveries := discoveries[conn := d.(state := CharacteristicDiscovery)];
          moveToNextService := true;
        case CharacteristicDiscovery =>
          discoveries := discoveries[conn := d.(state := DescriptorDiscovery)];
          if |d.services| > 0 {
            var issued := DescriptorRequest(conn, None, 0);
            if !issued {
              DispatchIndication(conn);
              moveToNextService := true;
            }
          } else {
            DispatchComplete(conn, StatusSuccess);
          }
        case DescriptorDiscovery =>
          if |d.services| > 0 {
            DispatchIndication(conn);
            moveToNextService := true;
          } else {
            DispatchComplete(conn, StatusSuccess);
          }
        case IncludeDiscovery =>
      }
      if moveToNextService {
        var next := discoveries[conn];
        if |next.services| > 0 {
          discoveries := discoveries[conn := next.(state := CharacteristicDiscovery)];
          CharacteristicRequest(conn, next.services[0].startHandle);
        } else {
          DispatchComplete(conn, StatusSuccess);
        }
      }
    }

    /** GATT_ClientEventCallback, error response. */
    method OnErrorResponse(conn: nat, kind: ErrorKind, code: bv8)
      modifies this`discoveries, this`requests, this`events
      ensures Snapshot() == ErrorResponseFn(old(Snapshot()), Env(), conn, kind, code)
    {
      if conn in discoveries {
        if kind == ErrorResponse {
          if code == AttributeNotFound {
            StateMachine(conn);
          } else {
            DispatchComplete(conn, StatusResponseError);
          }
        } else {
          DispatchComplete(conn, StatusResponseTimeout);
        }
      }
    }

    /** GATT_ClientEventCallback, service discovery response. */
    method OnServiceResponse(conn: nat, entries: seq<ServiceEntry>)
      modifies this`discoveries, this`requests, this`events
      ensures Snapshot() == ServiceResponseFn(old(Snapshot()), Env(), conn, entries)
    {
      if conn in discoveries {
        var d := discoveries[conn];
        var services, handle := CollectServices(d.services, d.filter, entries);
        discoveries := discoveries[conn := d.(services := services)];
        if handle != LastHandle {
          var r := Issue(DiscoverServices(conn, handle, LastHandle));
          if r > 0 {
            discoveries := discoveries[conn := discoveries[conn].(transactionId := r)];
          } else {
            DispatchComplete(conn, StatusUnknownError);
          }
        } else {
          StateMachine(conn);
        }
      }
    }

    /** GATT_ClientEventCallback, characteristic discovery response. */
    method OnCharacteristicResponse(conn: nat, entries: seq<CharacteristicEntry>)
      modifies this`discoveries, this`requests, this`events
      ensures Snapshot() == CharacteristicResponseFn(old(Snapshot()), Env(), conn, entries)
    {
      if conn in discoveries && |discoveries[conn].services| > 0 {
        var d := discoveries[conn];
        var s := d.services[0];
        var handle := s.endHandle;
        var i := 0;
        while i < |entries|
          invariant 0 <= i <= |entries|
          invariant s == AddCharacteristics(d.services[0], entries[..i])
          invariant handle == LastValueHandle(d.services[0].endHandle, entries[..i])
        {
          var e := entries[i];
          handle := e.valueHandle;
          s := AddCharacteristic(s, Characteristic(e.uuid, e.valueHandle, e.properties, 0, []));
          assert entries[..i + 1][..i] == entries[..i];
          i := i + 1;
        }
        assert entries[..i] == entries;
        discoveries := discoveries[conn := d.(services := d.services[0 := s])];
        if handle < s.endHandle {
          CharacteristicRequest(conn, handle + 1);
        } else {
          StateMachine(conn);
        }
      }
    }

    /** GATT_ClientEventCallback, characteristic descriptor discovery response. */
    method OnDescriptorResponse(conn: nat, descs: seq<Descriptor>)
      modifies this`discoveries, this`requests, this`events
      ensures Snapshot() == DescriptorResponseFn(old(Snapshot()), Env(), conn, descs)
    {
      if conn in discoveries && |discoveries[conn].services| > 0 {
        var d := discoveries[conn];
        var s := d.services[0];
        match Find(s.characteristics, CharacteristicKey, s.outstandingRequestHandle) {
          case None =>
          case Some(c) =>
            var handle: Word := 0;
            var i := 0;
            while i < |descs|
              invariant 0 <= i <= |descs|
              invariant c < |s.characteristics|
              invariant s == AddDescriptors(d.services[0], c, descs[..i])
              invariant handle == NextAfter(descs[..i])
            {
              handle := descs[i].handle;
              if handle < LastHandle {
                handle := handle + 1;
              }
              s := AddDescriptor(s, c, descs[i]);
              assert descs[..i + 1][..i] == descs[..i];
              i := i + 1;
            }
            assert descs[..i] == descs;
            discoveries := discoveries[conn := d.(services := d.services[0 := s])];
            var issued := DescriptorRequest(conn, Some(c), handle);
            if !issued {
              StateMachine(conn);
            }
        }
      }
    }

    /** GATT_Connection_Event_Callback on a disconnection. */
    method OnDisconnection(conn: nat)
      modifies this`discoveries, this`events
      ensures Snapshot() == DisconnectionFn(old(Snapshot()), conn)
    {
      DispatchComplete(conn, StatusDeviceDisconnected);
    }

    /** GDIS_Service_Discovery_Start (ConfigureServiceDiscoveryByUUID inlined). */
    method Start(conn: nat, filter: seq<Uuid>, hasCallback: bool, uuidsAllocated: bool, entryAllocated: bool)
      returns (ret: int)
      modifies this`discoveries, this`requests
      ensures (Snapshot(), ret) == StartFn(old(Snapshot()), Env(), stack, conn, filter, hasCallback, uuidsAllocated, entryAllocated)
    {
      if !(stack.initialized && stack.stackId != 0 && conn != 0 && hasCallback) {
        return ErrorInvalidParameter;
      }
      if !stack.contextPresent {
        return ErrorNotInitialized;
      }
      if conn in discoveries {
        return ErrorServiceDiscoveryOutstanding;
      }
      if |filter| > 0 && !uuidsAllocated {
        return ErrorInsufficientResources;
      }
      ret := Issue(DiscoverServices(conn, 1, LastHandle));
      if ret > 0 {
        if entryAllocated {
          discoveries := discoveries[conn := DiscoveryInfo(conn, ret, ServiceDiscovery, [], filter)];
          ret := 0;
        } else {
          var _ := Issue(CancelTransaction(ret));
          ret := ErrorInsufficientResources;
        }
      }
    }

    /** GDIS_Service_Discovery_Stop. */
    method Stop(conn: nat) returns (ret: int)
      modifies this`discoveries, this`requests
      ensures (Snapshot(), ret) == StopFn(old(Snapshot()), stack, conn)
    {
      if !(stack.initialized && stack.stackId != 0 && conn != 0) {
        return ErrorInvalidParameter;
      }
      if !stack.contextPresent {
        return ErrorNotInitialized;
      }
      if conn in discoveries {
        var d := discoveries[conn];
        discoveries := discoveries - {conn};
        var _ := Issue(CancelTransaction(d.transactionId));
        ret := 0;
      } else {
        ret := ErrorInvalidParameter;
      }
    }
  }
}
