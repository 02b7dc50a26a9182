/*
 * The GATT discovery engine of GDIS.c as transitions of its context: the
 * discovery entries kept per connection, the log of requests made to the GATT
 * client, and the log of events delivered to the application's callback.
 *
 * Each function here is the specification of one routine of GDIS.c; the
 * class in gdis.dfy performs the same routine step by step and is proved to
 * reach the state the function describes.  The GATT client's results are an
 * oracle indexed by the number of calls made so far, and the allocation of an
 * event buffer an oracle indexed by the number of events delivered so far.
 */
module GattContext {
  import opened Wrappers
  import opened GattData

  /** GDISAPI.h return codes. */
  const ErrorInvalidParameter: int := -1000
  const ErrorNotInitialized: int := -1001
  const ErrorInvalidBluetoothStackId: int := -1002
  const ErrorInsufficientResources: int := -1003
  const ErrorServiceDiscoveryOutstanding: int := -1009

  /** GDISAPI.h discovery-complete statuses. */
  const StatusSuccess: bv8 := 0x00
  const StatusResponseError: bv8 := 0x01
  const StatusResponseTimeout: bv8 := 0x02
  const StatusDeviceDisconnected: bv8 := 0x03
  const StatusUnknownError: bv8 := 0x04

  /** The ATT Attribute Not Found error code (Core v4.0, Vol 3 Part F, section 3.4.1.1). */
  const AttributeNotFound: bv8 := 0x0A

  /** GDISSearchState_t; the include state is declared but never entered. */
  datatype SearchState = ServiceDiscovery | IncludeDiscovery | CharacteristicDiscovery | DescriptorDiscovery

  /** GDISDiscoveryInfo_t without the callback pointer: the callback is the event log. */
  datatype DiscoveryInfo = DiscoveryInfo(
    connectionId: nat, transactionId: nat, state: SearchState, services: seq<Service>, filter: seq<Uuid>)

  /** A call into the GATT client. */
  datatype Request =
    | DiscoverServices(connectionId: nat, start: Word, end: Word)
    | DiscoverCharacteristics(connectionId: nat, start: Word, end: Word)
    | DiscoverDescriptors(connectionId: nat, start: Word, end: Word)
    | CancelTransaction(transactionId: nat)

  /** GATT_Service_Information_t as carried by an indication. */
  datatype ServiceInformation = ServiceInformation(uuid: Uuid, start: Word, end: Word)

  /** GDIS_Event_Data_t: the two events the callback receives. */
  datatype Event =
    | DiscoveryIndication(connectionId: nat, service: ServiceInformation, numberOfCharacteristics: nat, list: Option<FlatList>)
    | DiscoveryComplete(connectionId: nat, status: bv8)

  /** GDISContext_t with its surroundings: the discoveries by connection and the two logs. */
  datatype Context = Context(discoveries: map<nat, DiscoveryInfo>, requests: seq<Request>, events: seq<Event>)

  /** What the engine cannot see: GATT call results by call number, event-buffer allocations by event number. */
  datatype Environment = Environment(gatt: nat -> int, memory: nat -> bool)

  /** retErrorResponse, or any other kind of failed request (a timeout). */
  datatype ErrorKind = ErrorResponse | OtherError

  /** GATT_Characteristic_Entry_t, reduced to the fields the engine keeps. */
  datatype CharacteristicEntry = CharacteristicEntry(uuid: Uuid, valueHandle: Word, properties: bv8)

  /** Every discovery is filed under its own connection and its services' counters are consistent. */
  predicate DiscoveryValid(conn: nat, d: DiscoveryInfo)
  {
    d.connectionId == conn && ServicesWellFormed(d.services)
  }

  predicate ContextValid(ctx: Context)
  {
    forall c :: c in ctx.discoveries ==> DiscoveryValid(c, ctx.discoveries[c])
  }

  /** The logs of ctx are extended, never rewritten, on the way to ctx'. */
  predicate LogsExtend(ctx: Context, ctx': Context)
  {
    ctx.requests <= ctx'.requests && ctx.events <= ctx'.events
  }

  function SetDiscovery(ctx: Context, conn: nat, d: DiscoveryInfo): Context
  {
    ctx.(discoveries := ctx.discoveries[conn := d])
  }

  function SetState(ctx: Context, conn: nat, st: SearchState): Context
    requires conn in ctx.discoveries
  {
    SetDiscovery(ctx, conn, ctx.discoveries[conn].(state := st))
  }

  // ------------------------------------------------------------ completion

  /**
   * FormatAndDispatchDiscoveryCompleteCallback: a discovery in progress is
   * removed and its completion reported once; for any other connection
   * nothing happens.
   */
  function CompleteFn(ctx: Context, conn: nat, status: bv8): (r: Context)
    ensures conn !in r.discoveries && r.requests == ctx.requests
    ensures conn in ctx.discoveries ==> r.events == ctx.events + [DiscoveryComplete(conn, status)]
                                        && r.discoveries == ctx.discoveries - {conn}
    ensures conn !in ctx.discoveries ==> r == ctx
  {
    if conn in ctx.discoveries then
      ctx.(discoveries := ctx.discoveries - {conn}, events := ctx.events + [DiscoveryComplete(conn, status)])
    else ctx
  }

  // ------------------------------------------------------------ indication

  /** The indication for a resolved service; the list is absent when its buffer could not be allocated. */
  function IndicationFor(conn: nat, s: Service, bufferAllocated: bool): Event
  {
    DiscoveryIndication(conn, ServiceInformation(s.uuid, s.startHandle, s.endHandle), s.characteristicCount,
                        if bufferAllocated then Some(Flatten(s.characteristics)) else None)
  }

  /** FormatAndDispatchDiscoveryCallback: the head service leaves the list and is reported. */
  function DispatchIndicationFn(ctx: Context, env: Environment, conn: nat): Context
    requires conn in ctx.discoveries && |ctx.discoveries[conn].services| > 0
  {
    var d := ctx.discoveries[conn];
    ctx.(discoveries := ctx.discoveries[conn := d.(services := d.services[1..])],
         events := ctx.events + [IndicationFor(conn, d.services[0], env.memory(|ctx.events|))])
  }

  // -------------------------------------------------------------- requests

  /** CharacteristicDiscoveryRequest: ask for the head service's characteristics from start on. */
  function CharacteristicRequestFn(ctx: Context, env: Environment, conn: nat, start: Word): Context
    requires conn in ctx.discoveries && |ctx.discoveries[conn].services| > 0
  {
    var d := ctx.discoveries[conn];
    var r := env.gatt(|ctx.requests|);
    var ctx1 := ctx.(requests := ctx.requests + [DiscoverCharacteristics(conn, start, d.services[0].endHandle)]);
    if r > 0 then SetDiscovery(ctx1, conn, d.(transactionId := r)) else ctx1
  }

  /** One descriptor request per range. */
  function DescriptorRequests(conn: nat, ranges: seq<(Word, Word)>): (rs: seq<Request>)
    ensures |rs| == |ranges|
  {
    seq(|ranges|, i requires 0 <= i < |ranges| => DiscoverDescriptors(conn, ranges[i].0, ranges[i].1))
  }

  lemma DescriptorRequestsAppend(conn: nat, a: seq<(Word, Word)>, b: seq<(Word, Word)>)
    ensures DescriptorRequests(conn, a + b) == DescriptorRequests(conn, a) + DescriptorRequests(conn, b)
  {
  }

  /**
   * CharacteristicDescriptorDiscoveryRequest on the head service: the
   * requests of the descriptor plan are made and, when one is accepted, its
   * transaction and the characteristic it is for are remembered.
   */
  function DescriptorRequestFn(ctx: Context, env: Environment, conn: nat, cur: Option<nat>, h: Word): (r: (Context, bool))
    requires conn in ctx.discoveries && |ctx.discoveries[conn].services| > 0
    requires cur.Some? ==> cur.value < |ctx.discoveries[conn].services[0].characteristics|
    ensures conn in r.0.discoveries && r.0.events == ctx.events
    ensures var d, d' := ctx.discoveries[conn], r.0.discoveries[conn];
            && |d'.services| == |d.services| && d'.services[1..] == d.services[1..]
            && d'.services[0] == d.services[0].(outstandingRequestHandle := d'.services[0].outstandingRequestHandle)
            && d'.state == d.state && d'.filter == d.filter && d'.connectionId == d.connectionId
    ensures r.0.discoveries == ctx.discoveries[conn := r.0.discoveries[conn]]
  {
    var d := ctx.discoveries[conn];
    var s := d.services[0];
    var plan := DescriptorPlan(s.characteristics, s.endHandle, cur, h, env.gatt, |ctx.requests|);
    var ctx1 := ctx.(requests := ctx.requests + DescriptorRequests(conn, plan.ranges));
    if plan.issued.Some? then
      var s' := s.(outstandingRequestHandle := s.characteristics[plan.issued.value].handle);
      (SetDiscovery(ctx1, conn, d.(transactionId := plan.transaction, services := d.services[0 := s'])), true)
    else (ctx1, false)
  }

  // --------------------------------------------------------- state machine

  /** The tail of ServiceDiscoveryStateMachine: characteristic discovery on the next service, or completion. */
  function MoveToNextServiceFn(ctx: Context, env: Environment, conn: nat): Context
    requires conn in ctx.discoveries
  {
    var d := ctx.discoveries[conn];
    if |d.services| > 0 then
      CharacteristicRequestFn(SetState(ctx, conn, CharacteristicDiscovery), env, conn, d.services[0].startHandle)
    else CompleteFn(ctx, conn, StatusSuccess)
  }

  /** ServiceDiscoveryStateMachine. */
  function StateMachineFn(ctx: Context, env: Environment, conn: nat): Context
    requires conn in ctx.discoveries
  {
    var d := ctx.discoveries[conn];
    match d.state
    case ServiceDiscovery => MoveToNextServiceFn(SetState(ctx, conn, CharacteristicDiscovery), env, conn)
    case CharacteristicDiscovery =>
      var ctx1 := SetState(ctx, conn, DescriptorDiscovery);
      if |d.services| > 0 then
        var (ctx2, issued) := DescriptorRequestFn(ctx1, env, conn, None, 0);
        if issued then ctx2 else MoveToNextServiceFn(DispatchIndicationFn(ctx2, env, conn), env, conn)
      else CompleteFn(ctx1, conn, StatusSuccess)
    case DescriptorDiscovery =>
      if |d.services| > 0 then MoveToNextServiceFn(DispatchIndicationFn(ctx, env, conn), env, conn)
      else CompleteFn(ctx, conn, StatusSuccess)
    case IncludeDiscovery => ctx
  }

  // -------------------------------------------------------- GATT responses

  /** The error-response case of GATT_ClientEventCallback. */
  function ErrorResponseFn(ctx: Context, env: Environment, conn: nat, kind: ErrorKind, code: bv8): Context
  {
    if conn !in ctx.discoveries then ctx
    else if kind == ErrorResponse then
      if code == AttributeNotFound then StateMachineFn(ctx, env, conn)
      else CompleteFn(ctx, conn, StatusResponseError)
    else CompleteFn(ctx, conn, StatusResponseTimeout)
  }

  /** The services list after a response: each wanted entry is appended unless its start handle is already listed. */
  function AddServices(services: seq<Service>, filter: seq<Uuid>, entries: seq<ServiceEntry>): seq<Service>
  {
    if |entries| == 0 then services
    else
      var prev := AddServices(services, filter, entries[..|entries| - 1]);
      var e := entries[|entries| - 1];
      if ServiceWanted(filter, e.uuid) then Append(prev, NewService(e.uuid, e.start, e.end), ServiceKey).0 else prev
  }

  /** The service-discovery-response case of GATT_ClientEventCallback. */
  function ServiceResponseFn(ctx: Context, env: Environment, conn: nat, entries: seq<ServiceEntry>): Context
  {
    if conn !in ctx.discoveries then ctx
    else
      var d := ctx.discoveries[conn];
      var ctx1 := SetDiscovery(ctx, conn, d.(services := AddServices(d.services, d.filter, entries)));
      var h := ResumeHandle(entries);
      if h != LastHandle then
        var r := env.gatt(|ctx1.requests|);
        var ctx2 := ctx1.(requests := ctx1.requests + [DiscoverServices(conn, h, LastHandle)]);
        if r > 0 then SetDiscovery(ctx2, conn, ctx2.discoveries[conn].(transactionId := r))
        else CompleteFn(ctx2, conn, StatusUnknownError)
      else StateMachineFn(ctx1, env, conn)
  }

  /** The head service after a characteristic response. */
  function AddCharacteristics(s: Service, entries: seq<CharacteristicEntry>): Service
  {
    if |entries| == 0 then s
    else
      var e := entries[|entries| - 1];
      AddCharacteristic(AddCharacteristics(s, entries[..|entries| - 1]), Characteristic(e.uuid, e.valueHandle, e.properties, 0, []))
  }

  /** The handle the characteristic response ends at: the last value handle, or the service end when empty. */
  function LastValueHandle(end: Word, entries: seq<CharacteristicEntry>): Word
  {
    if |entries| == 0 then end else entries[|entries| - 1].valueHandle
  }

  /** The characteristic-discovery-response case of GATT_ClientEventCallback. */
  function CharacteristicResponseFn(ctx: Context, env: Environment, conn: nat, entries: seq<CharacteristicEntry>): Context
  {
    if conn !in ctx.discoveries || |ctx.discoveries[conn].services| == 0 then ctx
    else
      var d := ctx.discoveries[conn];
      var s := AddCharacteristics(d.services[0], entries);
      var ctx1 := SetDiscovery(ctx, conn, d.(services := d.services[0 := s]));
      var h := LastValueHandle(s.endHandle, entries);
      if h < s.endHandle then CharacteristicRequestFn(ctx1, env, conn, h + 1)
      else StateMachineFn(ctx1, env, conn)
  }

  /** Characteristic i of the head service after a descriptor response. */
  function AddDescriptors(s: Service, i: nat, descs: seq<Descriptor>): (r: Service)
    requires i < |s.characteristics|
    ensures |r.characteristics| == |s.characteristics|
    ensures r.characteristics[i].handle == s.characteristics[i].handle
    ensures r.(characteristics := s.characteristics, descriptorCount := s.descriptorCount) == s
  {
    if |descs| == 0 then s
    else AddDescriptor(AddDescriptors(s, i, descs[..|descs| - 1]), i, descs[|descs| - 1])
  }

  /** Where a descriptor response leaves off: one past its last handle (not past 0xFFFF), or 0 when empty. */
  function NextAfter(descs: seq<Descriptor>): Word
  {
    if |descs| == 0 then 0
    else
      var h := descs[|descs| - 1].handle;
      if h < LastHandle then h + 1 else h
  }

  /**
   * The descriptor-discovery-response case of GATT_ClientEventCallback; a
   * response for a characteristic that cannot be found changes nothing.
   */
  function DescriptorResponseFn(ctx: Context, env: Environment, conn: nat, descs: seq<Descriptor>): Context
  {
    if conn !in ctx.discoveries || |ctx.discoveries[conn].services| == 0 then ctx
    else
      var d := ctx.discoveries[conn];
      var s := d.services[0];
      match Find(s.characteristics, CharacteristicKey, s.outstandingRequestHandle)
      case None => ctx
      case Some(i) =>
        var ctx1 := SetDiscovery(ctx, conn, d.(services := d.services[0 := AddDescriptors(s, i, descs)]));
        var (ctx2, issued) := DescriptorRequestFn(ctx1, env, conn, Some(i), NextAfter(descs));
        if issued then ctx2 else StateMachineFn(ctx2, env, conn)
  }

  /** GATT_Connection_Event_Callback on a disconnection. */
  function DisconnectionFn(ctx: Context, conn: nat): Context
  {
    CompleteFn(ctx, conn, StatusDeviceDisconnected)
  }

  // ------------------------------------------------------------ start/stop

  /** The state of the module around a call: initialised, stack ID, and whether the stack has a context. */
  datatype Module = Module(initialized: bool, stackId: nat, contextPresent: bool)

  /**
   * GDIS_Service_Discovery_Start.  uuidsAllocated and entryAllocated are the
   * outcomes of its two allocations; a GATT result that is not positive is
   * returned as it is.
   */
  function StartFn(ctx: Context, env: Environment, m: Module, conn: nat, filter: seq<Uuid>,
                   hasCallback: bool, uuidsAllocated: bool, entryAllocated: bool): (r: (Context, int))
  {
    if !(m.initialized && m.stackId != 0 && conn != 0 && hasCallback) then (ctx, ErrorInvalidParameter)
    else if !m.contextPresent then (ctx, ErrorNotInitialized)
    else if conn in ctx.discoveries then (ctx, ErrorServiceDiscoveryOutstanding)
    else if |filter| > 0 && !uuidsAllocated then (ctx, ErrorInsufficientResources)
    else
      var t := env.gatt(|ctx.requests|);
      var ctx1 := ctx.(requests := ctx.requests + [DiscoverServices(conn, 1, LastHandle)]);
      if t > 0 then
        if entryAllocated then (SetDiscovery(ctx1, conn, DiscoveryInfo(conn, t, ServiceDiscovery, [], filter)), 0)
        else (ctx1.(requests := ctx1.requests + [CancelTransaction(t)]), ErrorInsufficientResources)
      else (ctx1, t)
  }

  /** GDIS_Service_Discovery_Stop. */
  function StopFn(ctx: Context, m: Module, conn: nat): (r: (Context, int))
  {
    if !(m.initialized && m.stackId != 0 && conn != 0) then (ctx, ErrorInvalidParameter)
    else if !m.contextPresent then (ctx, ErrorNotInitialized)
    else if conn in ctx.discoveries then
      (ctx.(discoveries := ctx.discoveries - {conn},
            requests := ctx.requests + [CancelTransaction(ctx.discoveries[conn].transactionId)]), 0)
    else (ctx, ErrorInvalidParameter)
  }
}
