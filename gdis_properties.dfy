/*
 * What the discovery engine promises, proved over the transitions of
 * GattContext: every transition keeps the context consistent and only
 * extends the logs, completion is reported once, callbacks for unknown
 * connections do nothing, the service filter decides what is kept, the
 * indication buffer is exactly as large as allocated, and the start/stop
 * pair behaves as GDISAPI.h describes, with the quirks GDIS.c has.
 */
module GattProperties {
  import opened Wrappers
  import opened GattData
  import opened GattContext

  // ---------------------------------------------------- consistency lemmas

  lemma SetDiscoveryValid(ctx: Context, conn: nat, d: DiscoveryInfo)
    requires ContextValid(ctx) && DiscoveryValid(conn, d)
    ensures ContextValid(SetDiscovery(ctx, conn, d))
  {
  }

  /** Completion keeps the context consistent and only appends to the event log. */
  lemma CompleteValid(ctx: Context, conn: nat, status: bv8)
    requires ContextValid(ctx)
    ensures ContextValid(CompleteFn(ctx, conn, status)) && LogsExtend(ctx, CompleteFn(ctx, conn, status))
  {
  }

  lemma DispatchIndicationValid(ctx: Context, env: Environment, conn: nat)
    requires ContextValid(ctx) && conn in ctx.discoveries && |ctx.discoveries[conn].services| > 0
    ensures var r := DispatchIndicationFn(ctx, env, conn);
            ContextValid(r) && LogsExtend(ctx, r) && conn in r.discoveries
  {
    var d := ctx.discoveries[conn];
    assert forall i :: 0 <= i < |d.services| - 1 ==> d.services[1..][i] == d.services[i + 1];
  }

  lemma CharacteristicRequestValid(ctx: Context, env: Environment, conn: nat, start: Word)
    requires ContextValid(ctx) && conn in ctx.discoveries && |ctx.discoveries[conn].services| > 0
    ensures var r := CharacteristicRequestFn(ctx, env, conn, start);
            ContextValid(r) && LogsExtend(ctx, r) && conn in r.discoveries
  {
  }

  lemma DescriptorRequestValid(ctx: Context, env: Environment, conn: nat, cur: Option<nat>, h: Word)
    requires ContextValid(ctx) && conn in ctx.discoveries && |ctx.discoveries[conn].services| > 0
    requires cur.Some? ==> cur.value < |ctx.discoveries[conn].services[0].characteristics|
    ensures var r := DescriptorRequestFn(ctx, env, conn, cur, h).0;
            ContextValid(r) && LogsExtend(ctx, r)
  {
    var r := DescriptorRequestFn(ctx, env, conn, cur, h).0;
    var d, d' := ctx.discoveries[conn], r.discoveries[conn];
    assert forall i :: 1 <= i < |d.services| ==> d'.services[i] == d'.services[1..][i - 1] == d.services[i];
  }

  lemma MoveToNextServiceValid(ctx: Context, env: Environment, conn: nat)
    requires ContextValid(ctx) && conn in ctx.discoveries
    ensures var r := MoveToNextServiceFn(ctx, env, conn);
            ContextValid(r) && LogsExtend(ctx, r)
  {
    if |ctx.discoveries[conn].services| > 0 {
      var ctx1 := SetState(ctx, conn, CharacteristicDiscovery);
      SetDiscoveryValid(ctx, conn, ctx1.discoveries[conn]);
      CharacteristicRequestValid(ctx1, env, conn, ctx.discoveries[conn].services[0].startHandle);
    } else {
      CompleteValid(ctx, conn, StatusSuccess);
    }
  }

  /** ServiceDiscoveryStateMachine keeps the context consistent and only extends the logs. */
  lemma {:induction false} StateMachineValid(ctx: Context, env: Environment, conn: nat)
    requires ContextValid(ctx) && conn in ctx.discoveries
    ensures var r := StateMachineFn(ctx, env, conn);
            ContextValid(r) && LogsExtend(ctx, r)
  {
    var d := ctx.discoveries[conn];
    match d.state
    case ServiceDiscovery =>
      var ctx1 := SetState(ctx, conn, CharacteristicDiscovery);
      SetDiscoveryValid(ctx, conn, ctx1.discoveries[conn]);
      MoveToNextServiceValid(ctx1, env, conn);
    case CharacteristicDiscovery =>
      var ctx1 := SetState(ctx, conn, DescriptorDiscovery);
      SetDiscoveryValid(ctx, conn, ctx1.discoveries[conn]);
      if |d.services| > 0 {
        var (ctx2, issued) := DescriptorRequestFn(ctx1, env, conn, None, 0);
        DescriptorRequestValid(ctx1, env, conn, None, 0);
        if !issued {
          DispatchIndicationValid(ctx2, env, conn);
          MoveToNextServiceValid(DispatchIndicationFn(ctx2, env, conn), env, conn);
        }
      } else {
        CompleteValid(ctx1, conn, StatusSuccess);
      }
    case DescriptorDiscovery =>
      if |d.services| > 0 {
        DispatchIndicationValid(ctx, env, conn);
        MoveToNextServiceValid(DispatchIndicationFn(ctx, env, conn), env, conn);
      } else {
        CompleteValid(ctx, conn, StatusSuccess);
      }
    case IncludeDiscovery =>
  }

  /** An error response keeps the context consistent and only extends the logs. */
  lemma ErrorResponseValid(ctx: Context, env: Environment, conn: nat, kind: ErrorKind, code: bv8)
    requires ContextValid(ctx)
    ensures var r := ErrorResponseFn(ctx, env, conn, kind, code);
            ContextValid(r) && LogsExtend(ctx, r)
  {
    if conn in ctx.discoveries && kind == ErrorResponse && code == AttributeNotFound {
      StateMachineValid(ctx, env, conn);
    }
  }

  /** Every service in the list after a response is well formed when every one before it was. */
  lemma {:induction false} AddServicesValid(services: seq<Service>, filter: seq<Uuid>, entries: seq<ServiceEntry>)
    requires ServicesWellFormed(services)
    ensures ServicesWellFormed(AddServices(services, filter, entries))
  {
    if |entries| > 0 {
      var front := entries[..|entries| - 1];
      var e := entries[|entries| - 1];
      var prev := AddServices(services, filter, front);
      AddServicesValid(services, filter, front);
      if ServiceWanted(filter, e.uuid) {
        var x := NewService(e.uuid, e.start, e.end);
        if !HasKey(prev, ServiceKey, ServiceKey(x)) {
          assert AddServices(services, filter, entries) == prev + [x];
        }
      }
    }
  }

  /** A service response keeps the context consistent and only extends the logs. */
  lemma ServiceResponseValid(ctx: Context, env: Environment, conn: nat, entries: seq<ServiceEntry>)
    requires ContextValid(ctx)
    ensures var r := ServiceResponseFn(ctx, env, conn, entries);
            ContextValid(r) && LogsExtend(ctx, r)
  {
    if conn in ctx.discoveries {
      var d := ctx.discoveries[conn];
      assert DiscoveryValid(conn, d);
      AddServicesValid(d.services, d.filter, entries);
      var d' := d.(services := AddServices(d.services, d.filter, entries));
      assert DiscoveryValid(conn, d');
      var ctx1 := SetDiscovery(ctx, conn, d');
      SetDiscoveryValid(ctx, conn, d');
      if ResumeHandle(entries) != LastHandle {
        var ctx2 := ctx1.(requests := ctx1.requests + [DiscoverServices(conn, ResumeHandle(entries), LastHandle)]);
        CompleteValid(ctx2, conn, StatusUnknownError);
      } else {
        StateMachineValid(ctx1, env, conn);
      }
    }
  }

  /** The head service stays well formed through a characteristic response. */
  lemma {:induction false} AddCharacteristicsValid(s: Service, entries: seq<CharacteristicEntry>)
    requires ServiceWellFormed(s)
    ensures ServiceWellFormed(AddCharacteristics(s, entries))
    ensures AddCharacteristics(s, entries).endHandle == s.endHandle
  {
    if |entries| > 0 {
      AddCharacteristicsValid(s, entries[..|entries| - 1]);
    }
  }

  lemma ReplaceHeadValid(ctx: Context, conn: nat, s: Service)
    requires ContextValid(ctx) && conn in ctx.discoveries && |ctx.discoveries[conn].services| > 0
    requires ServiceWellFormed(s)
    ensures var d := ctx.discoveries[conn];
            ContextValid(SetDiscovery(ctx, conn, d.(services := d.services[0 := s])))
  {
  }

  /** A characteristic response keeps the context consistent and only extends the logs. */
  lemma CharacteristicResponseValid(ctx: Context, env: Environment, conn: nat, entries: seq<CharacteristicEntry>)
    requires ContextValid(ctx)
    ensures var r := CharacteristicResponseFn(ctx, env, conn, entries);
            ContextValid(r) && LogsExtend(ctx, r)
  {
    if conn in ctx.discoveries && |ctx.discoveries[conn].services| > 0 {
      var d := ctx.discoveries[conn];
      var s := AddCharacteristics(d.services[0], entries);
      AddCharacteristicsValid(d.services[0], entries);
      ReplaceHeadValid(ctx, conn, s);
      var ctx1 := SetDiscovery(ctx, conn, d.(services := d.services[0 := s]));
      var h := LastValueHandle(s.endHandle, entries);
      if h < s.endHandle {
        CharacteristicRequestValid(ctx1, env, conn, h + 1);
      } else {
        StateMachineValid(ctx1, env, conn);
      }
    }
  }

  /** The head service stays well formed through a descriptor response. */
  lemma {:induction false} AddDescriptorsValid(s: Service, i: nat, descs: seq<Descriptor>)
    requires i < |s.characteristics| && ServiceWellFormed(s)
    ensures ServiceWellFormed(AddDescriptors(s, i, descs))
  {
    if |descs| > 0 {
      AddDescriptorsValid(s, i, descs[..|descs| - 1]);
    }
  }

  /** A descriptor response keeps the context consistent and only extends the logs. */
  lemma DescriptorResponseValid(ctx: Context, env: Environment, conn: nat, descs: seq<Descriptor>)
    requires ContextValid(ctx)
    ensures var r := DescriptorResponseFn(ctx, env, conn, descs);
            ContextValid(r) && LogsExtend(ctx, r)
  {
    if conn in ctx.discoveries && |ctx.discoveries[conn].services| > 0 {
      var d := ctx.discoveries[conn];
      var s := d.services[0];
      match Find(s.characteristics, CharacteristicKey, s.outstandingRequestHandle)
      case None =>
      case Some(i) =>
        AddDescriptorsValid(s, i, descs);
        ReplaceHeadValid(ctx, conn, AddDescriptors(s, i, descs));
        var ctx1 := SetDiscovery(ctx, conn, d.(services := d.services[0 := AddDescriptors(s, i, descs)]));
        var (ctx2, issued) := DescriptorRequestFn(ctx1, env, conn, Some(i), NextAfter(descs));
        DescriptorRequestValid(ctx1, env, conn, Some(i), NextAfter(descs));
        if !issued {
          StateMachineValid(ctx2, env, conn);
        }
    }
  }

  /** Starting a discovery keeps the context consistent and only extends the logs. */
  lemma StartValid(ctx: Context, env: Environment, m: Module, conn: nat, filter: seq<Uuid>,
                   hasCallback: bool, uuidsAllocated: bool, entryAllocated: bool)
    requires ContextValid(ctx)
    ensures var r := StartFn(ctx, env, m, conn, filter, hasCallback, uuidsAllocated, entryAllocated).0;
            ContextValid(r) && LogsExtend(ctx, r)
  {
  }

  /** Stopping a discovery keeps the context consistent and only extends the logs. */
  lemma StopValid(ctx: Context, m: Module, conn: nat)
    requires ContextValid(ctx)
    ensures ContextValid(StopFn(ctx, m, conn).0) && LogsExtend(ctx, StopFn(ctx, m, conn).0)
  {
  }

  // ------------------------------------------------------------- completion

  /** Completion is reported at most once: a second completion for the same connection changes nothing. */
  lemma CompleteOnce(ctx: Context, conn: nat, s1: bv8, s2: bv8)
    ensures CompleteFn(CompleteFn(ctx, conn, s1), conn, s2) == CompleteFn(ctx, conn, s1)
  {
  }

  /** Every callback ignores a connection without a discovery in progress. */
  lemma UnknownConnectionIgnored(ctx: Context, env: Environment, conn: nat)
    requires conn !in ctx.discoveries
    ensures forall kind, code :: ErrorResponseFn(ctx, env, conn, kind, code) == ctx
    ensures forall entries :: ServiceResponseFn(ctx, env, conn, entries) == ctx
    ensures forall entries :: CharacteristicResponseFn(ctx, env, conn, entries) == ctx
    ensures forall descs :: DescriptorResponseFn(ctx, env, conn, descs) == ctx
    ensures DisconnectionFn(ctx, conn) == ctx
  {
  }

  /**
   * An error response other than Attribute Not Found ends the discovery with
   * Response Error, and any other failure with Response Timeout.
   */
  lemma ErrorStatus(ctx: Context, env: Environment, conn: nat, kind: ErrorKind, code: bv8)
    requires conn in ctx.discoveries && !(kind == ErrorResponse && code == AttributeNotFound)
    ensures var r := ErrorResponseFn(ctx, env, conn, kind, code);
            && conn !in r.discoveries && r.requests == ctx.requests
            && r.events == ctx.events + [DiscoveryComplete(conn, if kind == ErrorResponse then StatusResponseError else StatusResponseTimeout)]
  {
  }

  // ------------------------------------------------------------ the filter

  /** s is the service that a wanted entry of the response creates. */
  predicate FromWantedEntry(s: Service, filter: seq<Uuid>, entries: seq<ServiceEntry>)
  {
    exists e :: e in entries && ServiceWanted(filter, e.uuid) && s == NewService(e.uuid, e.start, e.end)
  }

  /**
   * After a service response the list keeps its old entries in order and
   * holds the start handle of every wanted entry; every added service comes
   * from a wanted entry, and start handles stay unique.
   */
  lemma {:induction false} AddServicesContents(services: seq<Service>, filter: seq<Uuid>, entries: seq<ServiceEntry>)
    ensures var r := AddServices(services, filter, entries);
            && services <= r
            && (forall e :: e in entries && ServiceWanted(filter, e.uuid) ==> HasKey(r, ServiceKey, e.start))
            && (forall k :: |services| <= k < |r| ==> FromWantedEntry(r[k], filter, entries))
            && (KeysUnique(services, ServiceKey) ==> KeysUnique(r, ServiceKey))
  {
    if |entries| > 0 {
      var front := entries[..|entries| - 1];
      var e := entries[|entries| - 1];
      var prev := AddServices(services, filter, front);
      AddServicesContents(services, filter, front);
      forall s | FromWantedEntry(s, filter, front)
        ensures FromWantedEntry(s, filter, entries)
      {
        var x :| x in front && ServiceWanted(filter, x.uuid) && s == NewService(x.uuid, x.start, x.end);
        assert x in entries;
      }
      if ServiceWanted(filter, e.uuid) {
        var added := NewService(e.uuid, e.start, e.end);
        AppendProperties(prev, added, ServiceKey);
        if !HasKey(prev, ServiceKey, e.start) {
          var r := prev + [added];
          assert AddServices(services, filter, entries) == r;
          assert FromWantedEntry(added, filter, entries) by {
            assert e in entries;
          }
          HasKeyExtend(prev, [added], ServiceKey);
        }
      }
    }
  }

  /** A key present in a list is present in any extension of it. */
  lemma HasKeyExtend<T>(list: seq<T>, more: seq<T>, key: T -> int)
    ensures forall k :: HasKey(list, key, k) ==> HasKey(list + more, key, k)
  {
    forall k | HasKey(list, key, k)
      ensures HasKey(list + more, key, k)
    {
      var i :| 0 <= i < |list| && key(list[i]) == k;
      assert (list + more)[i] == list[i];
    }
  }

  /** A service whose UUID matches no filter entry is never added. */
  lemma UnwantedServiceSkipped(services: seq<Service>, filter: seq<Uuid>, entries: seq<ServiceEntry>, u: Uuid)
    requires |filter| > 0 && forall k :: 0 <= k < |filter| ==> Canonical(filter[k]) != Canonical(u)
    ensures forall k :: |services| <= k < |AddServices(services, filter, entries)| ==>
              AddServices(services, filter, entries)[k].uuid != u
  {
    AddServicesContents(services, filter, entries);
  }

  // ------------------------------------------------------------ indication

  /**
   * The indication for a well-formed service carries as many characteristics
   * and descriptors as FormatAndDispatchDiscoveryCallback allocates room for.
   */
  lemma IndicationFitsAllocation(s: Service)
    requires ServiceWellFormed(s)
    ensures |Flatten(s.characteristics).characteristics| == s.characteristicCount
    ensures |Flatten(s.characteristics).descriptors| == s.descriptorCount
  {
    AllDescriptorsCount(s.characteristics);
  }

  /** An indication is dispatched even when its buffer cannot be allocated, with no list. */
  lemma IndicationWithoutBuffer(ctx: Context, env: Environment, conn: nat)
    requires conn in ctx.discoveries && |ctx.discoveries[conn].services| > 0
    requires !env.memory(|ctx.events|)
    ensures var r := DispatchIndicationFn(ctx, env, conn);
            var s := ctx.discoveries[conn].services[0];
            r.events == ctx.events + [DiscoveryIndication(conn, ServiceInformation(s.uuid, s.startHandle, s.endHandle), s.characteristicCount, None)]
  {
  }

  // -------------------------------------------------- paging and stalling

  /**
   * The extra page at engine level: a response whose last service ends at
   * 0xFFFF, after one ending below 0xFFFE, is followed by another Discover
   * Services request when the GATT client accepts it.
   */
  lemma ExtraPageRequested(ctx: Context, env: Environment, conn: nat, entries: seq<ServiceEntry>)
    requires conn in ctx.discoveries && |entries| >= 2
    requires entries[|entries| - 1].end == LastHandle && entries[|entries| - 2].end < 0xFFFE
    requires env.gatt(|ctx.requests|) > 0
    ensures var r := ServiceResponseFn(ctx, env, conn, entries);
            && r.requests == ctx.requests + [DiscoverServices(conn, entries[|entries| - 2].end + 1, LastHandle)]
            && r.events == ctx.events && conn in r.discoveries
  {
    ExtraServicePage(entries);
  }

  /**
   * A descriptor response while the head service's outstanding request
   * handle names no characteristic changes nothing: no request is made and
   * no event is delivered, so the discovery stalls.
   */
  lemma DescriptorResponseStalls(ctx: Context, env: Environment, conn: nat, descs: seq<Descriptor>)
    requires conn in ctx.discoveries && |ctx.discoveries[conn].services| > 0
    requires var s := ctx.discoveries[conn].services[0];
             forall i :: 0 <= i < |s.characteristics| ==> s.characteristics[i].handle != s.outstandingRequestHandle
    ensures DescriptorResponseFn(ctx, env, conn, descs) == ctx
  {
  }

  // ------------------------------------------------------------ start/stop

  /** Start refuses invalid parameters, a missing context and a second discovery on a connection. */
  lemma StartErrors(ctx: Context, env: Environment, m: Module, conn: nat, filter: seq<Uuid>,
                    hasCallback: bool, uuidsAllocated: bool, entryAllocated: bool)
    ensures var (r, ret) := StartFn(ctx, env, m, conn, filter, hasCallback, uuidsAllocated, entryAllocated);
            && (!(m.initialized && m.stackId != 0 && conn != 0 && hasCallback) ==> ret == ErrorInvalidParameter && r == ctx)
            && (m.initialized && m.stackId != 0 && conn != 0 && hasCallback && !m.contextPresent ==> ret == ErrorNotInitialized && r == ctx)
            && ((m.initialized && m.stackId != 0 && conn != 0 && hasCallback && m.contextPresent && conn in ctx.discoveries)
                ==> ret == ErrorServiceDiscoveryOutstanding && r == ctx)
            && (ret != 0 ==> r.discoveries == ctx.discoveries)
            && r.events == ctx.events
  {
  }

  /**
   * A successful start files a fresh discovery in the service state under the
   * transaction the GATT client returned; Stop then removes it, cancels that
   * transaction and returns 0.
   */
  lemma StartThenStop(ctx: Context, env: Environment, m: Module, conn: nat, filter: seq<Uuid>, uuidsAllocated: bool)
    requires m.initialized && m.stackId != 0 && conn != 0 && m.contextPresent && conn !in ctx.discoveries
    requires |filter| > 0 ==> uuidsAllocated
    requires env.gatt(|ctx.requests|) > 0
    ensures var (started, ret) := StartFn(ctx, env, m, conn, filter, true, uuidsAllocated, true);
            var t := env.gatt(|ctx.requests|);
            && ret == 0
            && started.discoveries == ctx.discoveries[conn := DiscoveryInfo(conn, t, ServiceDiscovery, [], filter)]
            && var (stopped, ret') := StopFn(started, m, conn);
               && ret' == 0 && stopped.discoveries == ctx.discoveries
               && stopped.requests == ctx.requests + [DiscoverServices(conn, 1, LastHandle), CancelTransaction(t)]
  {
    var (started, ret) := StartFn(ctx, env, m, conn, filter, true, uuidsAllocated, true);
    assert started.discoveries - {conn} == ctx.discoveries;
  }

  /**
   * Start returns 0, the success code, without filing a discovery when the
   * GATT client returns 0 instead of a transaction ID: no discovery is then
   * in progress and no event will ever be delivered for it.
   */
  lemma StartZeroWithoutDiscovery(ctx: Context, env: Environment, m: Module, conn: nat, filter: seq<Uuid>,
                                  uuidsAllocated: bool, entryAllocated: bool)
    requires m.initialized && m.stackId != 0 && conn != 0 && m.contextPresent && conn !in ctx.discoveries
    requires |filter| > 0 ==> uuidsAllocated
    requires env.gatt(|ctx.requests|) == 0
    ensures var (r, ret) := StartFn(ctx, env, m, conn, filter, true, uuidsAllocated, entryAllocated);
            ret == 0 && conn !in r.discoveries
  {
  }

  /** A failed entry allocation cancels the transaction just started. */
  lemma StartCancelsOnAllocationFailure(ctx: Context, env: Environment, m: Module, conn: nat, filter: seq<Uuid>, uuidsAllocated: bool)
    requires m.initialized && m.stackId != 0 && conn != 0 && m.contextPresent && conn !in ctx.discoveries
    requires |filter| > 0 ==> uuidsAllocated
    requires env.gatt(|ctx.requests|) > 0
    ensures var (r, ret) := StartFn(ctx, env, m, conn, filter, true, uuidsAllocated, false);
            && ret == ErrorInsufficientResources && r.discoveries == ctx.discoveries
            && r.requests == ctx.requests + [DiscoverServices(conn, 1, LastHandle), CancelTransaction(env.gatt(|ctx.requests|))]
  {
  }

  /** Stop returns 0 exactly when a discovery was in progress for the connection (with valid parameters), and none remains. */
  lemma StopOutcome(ctx: Context, m: Module, conn: nat)
    requires m.initialized && m.stackId != 0 && conn != 0 && m.contextPresent
    ensures var (r, ret) := StopFn(ctx, m, conn);
            && (ret == 0 <==> conn in ctx.discoveries)
            && (ret != 0 ==> ret == ErrorInvalidParameter && r == ctx)
            && conn !in r.discoveries && r.events == ctx.events
  {
  }
}
