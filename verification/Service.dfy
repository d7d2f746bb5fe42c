/** The local service's command state machine over the applier (internal/service/service.go). The
    control plane and the optional adapter are cut at their interfaces: what they answer to one
    command is a parameter of that command. */
module Service {
  import opened Text
  import opened Control
  import A = Applier

  datatype PathState = PathDisconnected | PathDirect

  datatype Joined = Joined(networkId: Id, virtualIPv4: string, configGeneration: int)

  datatype Status = Status(networkId: Id, virtualIPv4: string, path: PathState, configGeneration: int)

  const Idle := Status("", "", PathDisconnected, 0)

  datatype Code =
    | Internal | NotStarted | InvalidRequest
    | AlreadyJoined | NotJoined | WrongNetwork
    | ControlFailed | AdapterFailed

  datatype Response = Success(status: Status) | Failure(code: Code)

  datatype Request =
    | GetStatus
    | Join(wellFormed: bool)
    | JoinRoom(wellFormed: bool)
    | RoomMembers
    | Leave(networkId: Id)
    | Connect(networkId: Id)
    | Disconnect(networkId: Id)
    | OtherRequest

  /** The environment during one command: whether its context is already cancelled, when it is cancelled
      while the data plane is being driven, the control plane's answers (`snapshot` by network), and the adapter's. */
  datatype Env = Env(cancelled: bool, interrupted: bool, lost: A.Lost, joinResult: Option<Joined>,
                     snapshot: Id -> Option<Snapshot>, leaveOk: bool, hasAdapter: bool, disconnectOk: bool)

  /** The control plane answers with a snapshot of the network it was asked for. */
  ghost predicate NamesNetworks(env: Env) {
    forall id :: env.snapshot(id).Some? ==> env.snapshot(id).value.networkId == id
  }

  // ---------------------------------------------------------------- what decides

  /** A state of a run. */
  datatype Moment = Moment(started: bool, joined: Option<Joined>, status: Status, plane: A.Moment)

  /** The control plane's answer to a join can be used. */
  ghost predicate Complete(env: Env, result: Joined) {
    !Blank(result.networkId) && !Blank(result.virtualIPv4) && env.snapshot(result.networkId).Some?
  }

  /** Asked for the network that is joined. */
  ghost predicate Right(m: Moment, networkId: Id) { m.joined.Some? && networkId == m.joined.value.networkId }

  /** The optional adapter refuses to disconnect. */
  ghost predicate Stuck(env: Env, m: Moment) {
    m.status.path != PathDisconnected && env.hasAdapter && !env.disconnectOk
  }

  ghost function Fetch(env: Env, networkId: Id): Option<A.Command> {
    if env.snapshot(networkId).None? then None
    else Some(A.DoApply(env.interrupted, env.lost, env.snapshot(networkId).value))
  }

  /** What the data plane is told to do. */
  ghost function Issued(env: Env, request: Request, m: Moment): Option<A.Command> {
    match request
    case Join(wellFormed) => JoinIssued(env, wellFormed, m)
    case JoinRoom(wellFormed) => JoinIssued(env, wellFormed, m)
    case Leave(n) => if Right(m, n) && !Stuck(env, m) then Some(A.DoClear(env.interrupted, env.lost.forward)) else None
    case Connect(n) => if Right(m, n) then Fetch(env, n) else None
    case Disconnect(n) => if Right(m, n) then Some(A.DoClear(env.interrupted, env.lost.forward)) else None
    case _ => None
  }

  ghost function JoinIssued(env: Env, wellFormed: bool, m: Moment): Option<A.Command> {
    if m.joined.None? && wellFormed && env.joinResult.Some? && Complete(env, env.joinResult.value)
    then Fetch(env, env.joinResult.value.networkId) else None
  }

  /** The data plane was told to and did. */
  ghost predicate Works(p: A.Plant, c: Option<A.Command>, m: Moment) {
    c.Some? && A.OutcomeOf(p, c.value, m.plane) == A.NoError
  }

  /** The data plane did what it was told, and nothing if it was told nothing. */
  ghost predicate Obeys(p: A.Plant, c: Option<A.Command>, before: A.Moment, after: A.Moment) {
    if c.None? then after == before else A.Follows(p, c.value, A.OutcomeOf(p, c.value, before), before, after)
  }

  lemma ToldNothing(p: A.Plant, m: A.Moment)
    ensures Obeys(p, None, m, m)
  {
  }

  ghost function FinishReply(p: A.Plant, env: Env, result: Joined, m: Moment): Response {
    if !Complete(env, result) then Failure(ControlFailed)
    else if !Works(p, Fetch(env, result.networkId), m) then Failure(AdapterFailed)
    else if m.joined.Some? then Failure(AlreadyJoined)
    else Success(Status(result.networkId, result.virtualIPv4, PathDisconnected, result.configGeneration))
  }

  ghost function JoinReply(p: A.Plant, env: Env, wellFormed: bool, m: Moment): Response {
    if m.joined.Some? then Failure(AlreadyJoined)
    else if !wellFormed then Failure(InvalidRequest)
    else if env.joinResult.None? then Failure(ControlFailed)
    else FinishReply(p, env, env.joinResult.value, m)
  }

  ghost function LeaveReply(p: A.Plant, env: Env, networkId: Id, m: Moment): Response {
    if m.joined.None? then Failure(NotJoined)
    else if !Right(m, networkId) then Failure(WrongNetwork)
    else if !Works(p, Issued(env, Leave(networkId), m), m) then Failure(AdapterFailed)
    else if !env.leaveOk then Failure(ControlFailed)
    else Success(Idle)
  }

  /** Connecting and disconnecting. */
  ghost function SwitchReply(p: A.Plant, env: Env, networkId: Id, m: Moment, c: Option<A.Command>, path: PathState):
    Response
  {
    if m.joined.None? then Failure(NotJoined)
    else if !Right(m, networkId) then Failure(WrongNetwork)
    else if !Works(p, c, m) then Failure(AdapterFailed)
    else Success(m.status.(path := path))
  }

  /** The answer to a request, from the state before it and the calls that fail. */
  ghost function Reply(p: A.Plant, env: Env, request: Request, m: Moment): Response {
    if env.cancelled then Failure(Internal)
    else if !m.started then Failure(NotStarted)
    else match request
      case GetStatus => Success(m.status)
      case Join(wellFormed) => JoinReply(p, env, wellFormed, m)
      case JoinRoom(wellFormed) => JoinReply(p, env, wellFormed, m)
      case RoomMembers =>
        if m.joined.None? then Failure(NotJoined)
        else if env.snapshot(m.joined.value.networkId).None? then Failure(ControlFailed) else Success(m.status)
      case Leave(n) => LeaveReply(p, env, n, m)
      case Connect(n) => SwitchReply(p, env, n, m, Issued(env, request, m), PathDirect)
      case Disconnect(n) => SwitchReply(p, env, n, m, Issued(env, request, m), PathDisconnected)
      case OtherRequest => Failure(InvalidRequest)
  }

  /** The state after a request. */
  ghost predicate Served(p: A.Plant, env: Env, request: Request, r: Response, before: Moment, after: Moment) {
    && r == Reply(p, env, request, before)
    && after.started == before.started
    && (r.Failure? ==> after.joined == before.joined && after.status == before.status)
    && (r.Success? ==>
          && after.status == r.status
          && after.joined == (if request.Join? || request.JoinRoom? then env.joinResult
                              else if request.Leave? then None else before.joined))
    && Obeys(p, if env.cancelled || !before.started then None else Issued(env, request, before), before.plane,
             after.plane)
  }

  class Service {
    const applier: A.Applier
    var started: bool
    var joined: Option<Joined>
    var status: Status
    /** Set when shutting down could not clear what was applied. */
    ghost var cleanupFailed: bool
    /** Set when the applier was given a snapshot of another network than the joined one. */
    ghost var misnamed: bool

    /** Joined and status name the same network; only a started service is joined; and as long as nothing
        that cleans up or compensates has failed, a service that is not joined has nothing applied and one that
        is joined has nothing of another network applied. */
    ghost predicate Valid()
      reads this, applier, applier.adapter, applier.routes, applier.routes.backend
    {
      && applier.Valid()
      && (joined.Some? ==> started && joined.value.networkId != "" && status.networkId == joined.value.networkId)
      && (joined.None? ==> status.networkId == "" && status.path == PathDisconnected)
      && (!applier.broken && !cleanupFailed && joined.None? ==> !applier.state.applied)
      && (!applier.broken && !cleanupFailed && !misnamed && joined.Some? && applier.state.applied ==>
            applier.state.networkId == joined.value.networkId)
    }

    /** What success promises of a snapshot: one of its generation is in force, and it is this one unless that
        generation was in force already. */
    twostate predicate Installed(s: Snapshot)
      reads applier
    {
      && applier.source.Some? && A.InForce(applier.options, applier.source.value, applier.state)
      && applier.generation == applier.source.value.generation == s.generation > 0
      && (old(applier.generation) != s.generation ==> applier.source == Some(s))
    }

    /** A join of `result` whose snapshot has the generation that is in force. */
    ghost predicate SkipsTo(env: Env, result: Joined)
      reads applier
    {
      && !Blank(result.networkId) && !Blank(result.virtualIPv4) && !env.interrupted
      && env.snapshot(result.networkId).Some?
      && env.snapshot(result.networkId).value.generation == applier.generation > 0
    }

    constructor (applier: A.Applier)
      requires applier.Valid() && !applier.state.applied
      ensures Valid() && this.applier == applier && !started && joined == None && !cleanupFailed && !misnamed
    {
      this.applier := applier;
      started, joined, status, cleanupFailed, misnamed := false, None, Idle, false, false;
    }

    ghost function Footprint(): set<object> { {this} + applier.Footprint() }

    ghost function Now(): Moment
      reads this, applier, applier.adapter, applier.routes, applier.routes.backend
    {
      Moment(started, joined, status, applier.Now())
    }

    /** `identityOk` says that a usable identity could be loaded. */
    method Start(cancelled: bool, identityOk: bool) returns (ok: bool)
      requires Valid()
      modifies this
      ensures Valid() && (ok <==> old(started) || (identityOk && !cancelled))
      ensures ok ==> started
      ensures joined == old(joined) && cleanupFailed == old(cleanupFailed) && misnamed == old(misnamed)
      ensures !ok || old(started) ==> unchanged(this)
    {
      hide A.Applier.Valid, A.InForce;
      if started { return true; }
      if !identityOk || cancelled { return false; }
      started := true;
      status := Idle;
      ok := true;
    }

    method Shutdown(interrupted: bool, lost: bool) returns (ok: bool)
      requires Valid()
      modifies Footprint()
      ensures Valid() && !started && joined == None && status == (if old(started) then Idle else old(status))
      ensures ok && old(started) ==> !applier.state.applied
      ensures !old(started) ==> ok
      ensures cleanupFailed == (old(cleanupFailed) || !ok) && misnamed == old(misnamed)
      ensures ok <==> !old(started) || Works(applier.Site(), Some(A.DoClear(interrupted, lost)), old(Now()))
      ensures Obeys(applier.Site(), if old(started) then Some(A.DoClear(interrupted, lost)) else None,
                    old(applier.Now()), applier.Now())
      ensures interrupted && old(started) ==>
                !ok && applier.state == old(applier.state) && applier.generation == old(applier.generation)
    {
      hide A.Applier.Valid, A.InForce;
      if !started { return true; }
      var e := applier.Clear(interrupted, lost);
      started, joined, status := false, None, Idle;
      ok := e == A.NoError;
      cleanupFailed := cleanupFailed || !ok;
    }

    /** Has the data plane apply a snapshot. */
    method Put(env: Env, s: Snapshot) returns (e: A.Error)
      requires applier.Valid()
      modifies applier.Footprint()
      ensures applier.Valid() && (old(applier.broken) ==> applier.broken)
      ensures e == A.OutcomeOf(applier.Site(), A.DoApply(env.interrupted, env.lost, s), old(applier.Now()))
      ensures A.Follows(applier.Site(), A.DoApply(env.interrupted, env.lost, s), e, old(applier.Now()), applier.Now())
      ensures e == A.NoError ==> Installed(s) && applier.state.applied
      ensures e == A.NoError ==>
                (applier.state.networkId == s.networkId <==>
                   s.generation != old(applier.generation) || old(applier.state.networkId) == s.networkId)
      ensures e == A.NoError && s.generation == old(applier.generation) ==> applier.state == old(applier.state)
      ensures e != A.NoError ==> applier.state == old(applier.state)
      ensures !env.interrupted && 0 < s.generation == old(applier.generation) ==> e == A.NoError
    {
      hide A.Applier.Valid, A.InForce, A.ApplyOutcome, A.Follows, A.Tidy;
      ghost var undone;
      e, undone := applier.Apply(env.interrupted, env.lost, s);
      applier.LogOfValid();
    }

    /** What is left to do once the control plane has accepted a join. `late` marks its already-joined branch. */
    method FinishJoin(env: Env, result: Joined) returns (r: Response, ghost late: bool)
      requires Valid() && started
      modifies Footprint()
      ensures Valid() && started && cleanupFailed == old(cleanupFailed)
      ensures misnamed ==> old(misnamed) || !NamesNetworks(env) || late
      ensures late <==> r == Failure(AlreadyJoined)
      ensures late ==> old(joined).Some?
      ensures r.Success? ==>
                && joined == Some(result) && r.status == status
                && status == Status(result.networkId, result.virtualIPv4, PathDisconnected, result.configGeneration)
                && env.snapshot(result.networkId).Some? && Installed(env.snapshot(result.networkId).value)
      ensures old(SkipsTo(env, result)) && old(joined) == None ==> r.Success? && applier.state == old(applier.state)
      ensures r.Failure? ==> joined == old(joined) && status == old(status)
      // what it answers, and what it tells the data plane
      ensures r.Failure? ==> r.code in {ControlFailed, AdapterFailed, AlreadyJoined}
      ensures r == FinishReply(applier.Site(), env, result, old(Now()))
      ensures Obeys(applier.Site(), if Complete(env, result) then Fetch(env, result.networkId) else None,
                    old(applier.Now()), applier.Now())
    {
      hide A.Applier.Valid, A.InForce, Blank, A.OutcomeOf, A.Follows;
      late := false;
      BlankText();
      if Blank(result.networkId) || Blank(result.virtualIPv4) { return Failure(ControlFailed), false; }
      var s := env.snapshot(result.networkId);
      if s.None? { return Failure(ControlFailed), false; }
      misnamed := misnamed || s.value.networkId != result.networkId;
      var e := Put(env, s.value);
      if e != A.NoError { return Failure(AdapterFailed), false; }
      if joined.Some? {
        misnamed := misnamed || joined.value.networkId != result.networkId;
        return Failure(AlreadyJoined), true;
      }
      joined := Some(result);
      status := Status(result.networkId, result.virtualIPv4, PathDisconnected, result.configGeneration);
      r := Success(status);
    }

    method DoJoin(env: Env, wellFormed: bool) returns (r: Response, ghost late: bool)
      requires Valid() && started
      modifies Footprint()
      ensures Valid() && started && !late && cleanupFailed == old(cleanupFailed)
      ensures misnamed ==> old(misnamed) || !NamesNetworks(env)
      ensures r.Success? ==>
                && old(joined) == None && joined == env.joinResult && joined.Some?
                && status == Status(joined.value.networkId, joined.value.virtualIPv4, PathDisconnected,
                                    joined.value.configGeneration)
                && env.snapshot(joined.value.networkId).Some? && Installed(env.snapshot(joined.value.networkId).value)
      ensures old(joined) == None && wellFormed && env.joinResult.Some? && old(SkipsTo(env, env.joinResult.value)) ==>
                r.Success? && applier.state == old(applier.state)
      ensures r.Failure? ==> joined == old(joined) && status == old(status)
      ensures r == Failure(AlreadyJoined) <==> old(joined).Some?
      ensures r.Failure? ==> r.code in {ControlFailed, AdapterFailed, AlreadyJoined, InvalidRequest}
      ensures r == Failure(InvalidRequest) <==> old(joined).None? && !wellFormed
      ensures r == JoinReply(applier.Site(), env, wellFormed, old(Now())) && (r.Success? ==> r.status == status)
      ensures Obeys(applier.Site(), JoinIssued(env, wellFormed, old(Now())), old(applier.Now()), applier.Now())
    {
      hide A.Applier.Valid, A.InForce, Blank, A.OutcomeOf, A.Follows;
      late := false;
      if joined.Some? { return Failure(AlreadyJoined), false; }
      if !wellFormed { return Failure(InvalidRequest), false; }
      if env.joinResult.None? { return Failure(ControlFailed), false; }
      r, late := FinishJoin(env, env.joinResult.value);
    }

    method DoLeave(env: Env, networkId: Id) returns (r: Response)
      requires Valid() && started
      modifies Footprint()
      ensures Valid() && started && cleanupFailed == old(cleanupFailed) && misnamed == old(misnamed)
      ensures r.Success? ==> joined == None && status == Status("", "", PathDisconnected, 0) && !applier.state.applied
      ensures r.Failure? ==> joined == old(joined) && status == old(status)
      ensures r == Failure(NotJoined) <==> old(joined).None?
      ensures r == Failure(WrongNetwork) <==> old(joined).Some? && networkId != old(joined).value.networkId
      // an adapter that does not disconnect stops it; the control plane is asked last, with nothing left applied
      ensures (&& old(joined).Some? && networkId == old(joined).value.networkId
               && old(status).path != PathDisconnected && env.hasAdapter && !env.disconnectOk)
              ==> r == Failure(AdapterFailed) && applier.state == old(applier.state)
      ensures (&& old(joined).Some? && networkId == old(joined).value.networkId
               && (old(status).path == PathDisconnected || !env.hasAdapter || env.disconnectOk))
              ==> (env.interrupted ==> r == Failure(AdapterFailed))
                  && (!env.interrupted && !old(applier.state.applied) ==> r != Failure(AdapterFailed))
      ensures r == Failure(ControlFailed) ==> !env.leaveOk && !applier.state.applied
      ensures r.Success? ==> env.leaveOk
      ensures r in {Success(Idle), Failure(NotJoined), Failure(WrongNetwork), Failure(AdapterFailed),
                    Failure(ControlFailed)}
      ensures r == LeaveReply(applier.Site(), env, networkId, old(Now()))
      ensures Obeys(applier.Site(), Issued(env, Leave(networkId), old(Now())), old(applier.Now()), applier.Now())
    {
      hide A.Applier.Valid, A.InForce, A.ClearOutcome, A.Follows;
      if joined.None? { return Failure(NotJoined); }
      if networkId != joined.value.networkId { return Failure(WrongNetwork); }
      if status.path != PathDisconnected && env.hasAdapter && !env.disconnectOk { return Failure(AdapterFailed); }
      var e := applier.Clear(env.interrupted, env.lost.forward);
      if e != A.NoError { return Failure(AdapterFailed); }
      if !env.leaveOk { return Failure(ControlFailed); }
      joined, status := None, Idle;
      r := Success(status);
    }

    method DoConnect(env: Env, networkId: Id) returns (r: Response)
      requires Valid() && started
      modifies Footprint()
      ensures Valid() && started && joined == old(joined) && cleanupFailed == old(cleanupFailed)
      ensures misnamed ==> old(misnamed) || !NamesNetworks(env)
      ensures r.Success? ==>
                && joined.Some? && joined.value.networkId == networkId
                && status == old(status).(path := PathDirect) && r.status == status
                && env.snapshot(networkId).Some? && Installed(env.snapshot(networkId).value)
      ensures r.Failure? ==> status == old(status)
      ensures r == Failure(NotJoined) <==> joined.None?
      ensures r == Failure(WrongNetwork) <==> joined.Some? && networkId != joined.value.networkId
      ensures r in {Success(status), Failure(NotJoined), Failure(WrongNetwork), Failure(AdapterFailed)}
      ensures r == SwitchReply(applier.Site(), env, networkId, old(Now()), Issued(env, Connect(networkId), old(Now())),
                               PathDirect)
      ensures Obeys(applier.Site(), Issued(env, Connect(networkId), old(Now())), old(applier.Now()), applier.Now())
    {
      hide A.Applier.Valid, A.InForce, A.OutcomeOf, A.Follows;
      if joined.None? { return Failure(NotJoined); }
      if networkId != joined.value.networkId { return Failure(WrongNetwork); }
      var s := env.snapshot(networkId);
      if s.None? { return Failure(AdapterFailed); }
      misnamed := misnamed || s.value.networkId != networkId;
      var e := Put(env, s.value);
      if e != A.NoError { return Failure(AdapterFailed); }
      status := status.(path := PathDirect);
      r := Success(status);
    }

    method DoDisconnect(env: Env, networkId: Id) returns (r: Response)
      requires Valid() && started
      modifies Footprint()
      ensures Valid() && started && joined == old(joined)
      ensures cleanupFailed == old(cleanupFailed) && misnamed == old(misnamed)
      ensures r.Success? ==>
                && joined.Some? && joined.value.networkId == networkId
                && status == old(status).(path := PathDisconnected) && r.status == status
                && !applier.state.applied && applier.generation == 0
      ensures r.Failure? ==> status == old(status)
      ensures r == Failure(NotJoined) <==> joined.None?
      ensures r == Failure(WrongNetwork) <==> joined.Some? && networkId != joined.value.networkId
      ensures r in {Success(status), Failure(NotJoined), Failure(WrongNetwork), Failure(AdapterFailed)}
      ensures r == SwitchReply(applier.Site(), env, networkId, old(Now()),
                               Issued(env, Disconnect(networkId), old(Now())), PathDisconnected)
      ensures Obeys(applier.Site(), Issued(env, Disconnect(networkId), old(Now())), old(applier.Now()), applier.Now())
    {
      hide A.Applier.Valid, A.InForce, A.ClearOutcome, A.Follows;
      if joined.None? { return Failure(NotJoined); }
      if networkId != joined.value.networkId { return Failure(WrongNetwork); }
      var e := applier.Clear(env.interrupted, env.lost.forward);
      if e != A.NoError { return Failure(AdapterFailed); }
      status := status.(path := PathDisconnected);
      r := Success(status);
    }

    /** One command. The already-joined branch of FinishJoin is never taken from here. */
    method Handle(env: Env, request: Request) returns (r: Response, ghost late: bool)
      requires Valid()
      modifies Footprint()
      ensures Valid() && started == old(started) && !late && cleanupFailed == old(cleanupFailed)
      ensures misnamed ==> old(misnamed) || !NamesNetworks(env)
      ensures request.Connect? && r.Success? ==>
                env.snapshot(request.networkId).Some? && Installed(env.snapshot(request.networkId).value)
      ensures request.Disconnect? && r.Success? ==> !applier.state.applied
      ensures request.GetStatus? && !env.cancelled && started ==> r == Success(status)
      ensures r == Failure(Internal) <==> env.cancelled
      ensures r == Failure(NotStarted) <==> !env.cancelled && !started
      ensures request.OtherRequest? && !env.cancelled && started ==> r == Failure(InvalidRequest)
      ensures request.RoomMembers? && !env.cancelled && started ==>
                && (r == Failure(NotJoined) <==> joined.None?) && (r.Success? ==> r.status == status)
                && (joined.Some? ==> (r.Success? <==> env.snapshot(joined.value.networkId).Some?))
      ensures r.Failure? ==> joined == old(joined) && status == old(status)
      ensures Served(applier.Site(), env, request, r, old(Now()), Now())
    {
      hide A.Applier.Valid, A.InForce, JoinIssued, JoinReply, LeaveReply, SwitchReply, Obeys;
      late := false;
      ToldNothing(applier.Site(), applier.Now());
      if env.cancelled { return Failure(Internal), false; }
      if !started { return Failure(NotStarted), false; }
      match request {
        case GetStatus => r := Success(status);
        case Join(wellFormed) => r, late := DoJoin(env, wellFormed);
        case JoinRoom(wellFormed) => r, late := DoJoin(env, wellFormed);
        case RoomMembers =>
          r := if joined.None? then Failure(NotJoined)
               else if env.snapshot(joined.value.networkId).None? then Failure(ControlFailed) else Success(status);
        case Leave(n) => r := DoLeave(env, n);
        case Connect(n) => r := DoConnect(env, n);
        case Disconnect(n) => r := DoDisconnect(env, n);
        case OtherRequest => r := Failure(InvalidRequest);
      }
    }
  }

  lemma BlankText()
    ensures Blank("")
  {
  }

  datatype Event =
    | Command(env: Env, request: Request)
    | Boot(cancelled: bool, identityOk: bool)
    | Halt(interrupted: bool, lost: bool)

  ghost predicate AllNamed(events: seq<Event>) {
    forall i | 0 <= i < |events| :: events[i].Command? ==> NamesNetworks(events[i].env)
  }

  datatype Result = Answered(response: Response) | Booted(ok: bool) | Halted(ok: bool)

  /** What an event answers and does. */
  ghost predicate Follows(p: A.Plant, e: Event, result: Result, before: Moment, after: Moment) {
    match e
    case Command(env, request) => result.Answered? && Served(p, env, request, result.response, before, after)
    case Boot(cancelled, identityOk) =>
      && result == Booted(before.started || (identityOk && !cancelled))
      && after.plane == before.plane && after.joined == before.joined && after.started == result.ok
      && (before.started || !result.ok ==> after == before)
    case Halt(interrupted, lost) =>
      var clear := if before.started then Some(A.DoClear(interrupted, lost)) else None;
      && result == Halted(clear.None? || Works(p, clear, before))
      && after.joined == None && !after.started
      && after.status == (if before.started then Idle else before.status)
      && Obeys(p, clear, before.plane, after.plane)
  }

  method Do(service: Service, e: Event) returns (result: Result, ghost late: bool)
    requires service.Valid()
    modifies service.Footprint()
    ensures service.Valid() && !late
    ensures service.misnamed ==> old(service.misnamed) || (e.Command? && !NamesNetworks(e.env))
    ensures Follows(service.applier.Site(), e, result, old(service.Now()), service.Now())
  {
    hide A.Applier.Valid, A.InForce, NamesNetworks, Served, Obeys, Works;
    late := false;
    match e {
      case Command(env, request) =>
        var r;
        r, late := service.Handle(env, request);
        result := Answered(r);
      case Boot(cancelled, identityOk) =>
        var ok := service.Start(cancelled, identityOk);
        result := Booted(ok);
      case Halt(interrupted, lost) =>
        var ok := service.Shutdown(interrupted, lost);
        result := Halted(ok);
    }
  }

  /** Any run of commands, starts and shutdowns over any failing data plane. `moments` are the states before each event
      and at the end: each answer and the state after it follow from the event, the state before it and the calls that
      fail. */
  method Run(service: Service, events: seq<Event>)
    returns (results: seq<Result>, ghost moments: seq<Moment>, ghost lateJoin: bool)
    requires service.Valid() && !service.misnamed
    modifies service.Footprint()
    ensures service.Valid() && !lateJoin
    ensures |results| == |events| && |moments| == |events| + 1
    ensures moments[0] == old(service.Now()) && moments[|events|] == service.Now()
    ensures forall i, j | 0 <= i < |events| && j == i + 1 ::
              Follows(service.applier.Site(), events[i], results[i], moments[i], moments[j])
    ensures service.joined.Some? ==> service.status.networkId == service.joined.value.networkId
    ensures !service.applier.broken && !service.cleanupFailed && service.joined.None? ==> !service.applier.state.applied
    ensures (&& AllNamed(events) && !service.applier.broken && !service.cleanupFailed
             && service.joined.Some? && service.applier.state.applied) ==>
              service.applier.state.networkId == service.joined.value.networkId
  {
    hide A.Applier.Valid, A.InForce, NamesNetworks, Follows, Service.Now;
    results, moments, lateJoin := [], [service.Now()], false;
    for n := 0 to |events|
      invariant service.Valid() && !lateJoin
      invariant AllNamed(events) ==> !service.misnamed
      invariant |results| == n && |moments| == n + 1
      invariant moments[0] == old(service.Now()) && moments[n] == service.Now()
      invariant forall i, j | 0 <= i < n && j == i + 1 ::
                  Follows(service.applier.Site(), events[i], results[i], moments[i], moments[j])
    {
      var r, late := Do(service, events[n]);
      lateJoin := lateJoin || late;
      results, moments := results + [r], moments + [service.Now()];
    }
  }

  /** Disconnecting and connecting again succeeds exactly when clearing does and the answered snapshot can be applied
      to an empty data plane. It then is in force, also at the generation that was. */
  method Reconnect(service: Service, off: Env, on: Env, networkId: Id) returns (ok: bool)
    requires service.Valid() && service.started
    modifies service.Footprint()
    ensures service.Valid()
    ensures ok ==>
              && on.snapshot(networkId).Some? && service.applier.generation == on.snapshot(networkId).value.generation
              && A.InForce(service.applier.options, on.snapshot(networkId).value, service.applier.state)
    ensures var m := old(service.Now());
            ok <==>
            && Right(m, networkId) && on.snapshot(networkId).Some?
            && A.ClearOutcome(service.applier.Site(), m.plane, off.interrupted, off.lost.forward) == A.NoError
            && A.ApplyOutcome(service.applier.Site(), A.Emptied(m.plane), on.interrupted, on.lost,
                              on.snapshot(networkId).value) == A.NoError
  {
    hide A.Applier.Valid, A.InForce, A.ClearOutcome, A.ApplyOutcome, A.Emptied, A.Tidy;
    var r := service.DoDisconnect(off, networkId);
    if r.Failure? { return false; }
    r := service.DoConnect(on, networkId);
    ok := r.Success?;
    if ok { assert service.applier.source == on.snapshot(networkId); }
  }

  /** The condition on cleanups is needed. A service that has `b.generation` of some network applied is shut down
      with a cancelled context, which clears nothing, started again, and joined to another network whose
      snapshot has that generation: the join succeeds and the old network's data plane stays. */
  method JoinOverLeftovers(service: Service, env: Env, b: Snapshot) returns (r: Response)
    requires service.Valid() && service.started && service.applier.state.applied
    requires b.generation == service.applier.generation > 0 && b.networkId != service.applier.state.networkId
    requires env.joinResult.Some? && env.joinResult.value.networkId == b.networkId && !env.interrupted
    requires !Blank(b.networkId) && !Blank(env.joinResult.value.virtualIPv4) && env.snapshot(b.networkId) == Some(b)
    modifies service.Footprint()
    ensures service.Valid() && service.cleanupFailed
    ensures r.Success? && service.joined == env.joinResult
    ensures service.applier.state == old(service.applier.state) && service.applier.state.networkId != b.networkId
  {
    hide A.Applier.Valid, A.InForce, Blank;
    var ok := service.Shutdown(true, false);
    ok := service.Start(false, true);
    ghost var late;
    r, late := service.DoJoin(env, true);
  }
}
