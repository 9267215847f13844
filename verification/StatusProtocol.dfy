/** The status protocol between a client and a server, as steps over two FIFO channels: src/cncclient.cpp:73-138,
    401-490, 543-581 and src/cncserver.cpp:561-566. The user's thread, the thread that runs the library's callbacks
    and the server take turns; a callback's two writes are two steps, and so are the two halves of Poll. */
module StatusProtocol {
  import opened XmlUtil
  import opened CncComms

  datatype Query = Version | GetState | MdiLine

  /** What the client puts on the wire: a notification, or a request with the library's message id. */
  datatype Message = Notify | Request(id: nat, query: Query)

  datatype Body =
    | VersionIs(version: real)
    | Snapshot(state: State, handled: nat)
    | Done
    | Refused

  datatype Reply = Reply(id: nat, body: Body)

  // ---------- RemoteCall ----------

  datatype Call = Call(response: Option<Body>, hasResponse: bool, failed: bool, busy: bool)

  /** GetResponse: a usable response, or nothing where the C++ throws. */
  function GetResponse(c: Call): Option<Body> {
    if !c.hasResponse || c.response.None? || c.response.value.Refused? || c.failed then None else c.response
  }

  /** CallAsync on a call that is not busy. A failed send leaves it busy. */
  function CallAsync(c: Call): Call {
    Call(c.response, false, false, true)
  }

  // ---------- Client ----------

  /** The client's fields; `seen` is history: how many commands the server had handled when it sampled `state`. */
  datatype Client = Client(
    call: Call, statusCache: nat, busyHeart: int, heartBeat: int, serverVer: real, state: State, seen: nat)

  function SetBusy(c: Client, level: nat): Client {
    c.(statusCache := if level > c.statusCache then level else c.statusCache, busyHeart := Successor(c.heartBeat))
  }

  predicate IsBusy(c: Client, connected: bool, level: nat) {
    if !connected then true
    else if c.statusCache > c.state.machineState then c.statusCache > level
    else c.state.machineState > level
  }

  datatype Phase = Handshake | Status

  /** What a Poll is about, decided as it begins; nothing once the server has been found too old. */
  function PhaseOf(c: Client): Option<Phase> {
    if c.serverVer < 0.0 then None else if c.serverVer == 0.0 then Some(Handshake) else Some(Status)
  }

  /** The first half of Poll: a response, if there is one, is read. */
  function Absorb(c: Client): Client {
    match PhaseOf(c)
    case Some(Handshake) => AbsorbVersion(c)
    case Some(Status) => AbsorbState(c)
    case None => c
  }

  function AbsorbState(c: Client): Client {
    match GetResponse(c.call)
    case Some(Snapshot(state, handled)) =>
      c.(state := state, seen := handled, heartBeat := Successor(c.heartBeat),
         statusCache := if c.heartBeat >= c.busyHeart then 0 else c.statusCache)
    case _ => c
  }

  function AbsorbVersion(c: Client): Client {
    match GetResponse(c.call)
    case Some(VersionIs(v)) =>
      c.(serverVer := if v < MIN_PROTOCOL_VERSION then -1.0 else v, call := c.call.(hasResponse := false))
    case _ => c
  }

  /** The second half of Poll: whether the call is free and there is something to ask. */
  predicate Asks(c: Client, phase: Phase) {
    !c.call.busy && (phase.Handshake? ==> c.serverVer == 0.0)
  }

  /** The client once it has asked. */
  function Sent(c: Client): Client {
    c.(call := CallAsync(c.call))
  }

  // ---------- the system ----------

  datatype MdiCall = NoMdi | Waiting(id: nat) | Answered(ok: bool)

  /** `asking`: the user's thread is between the halves of a Poll,
    and what that is about. `releasing`: the callback has stored a response and
      has not yet cleared `busy`. `outstanding`: the status request the library will match. The rest is history:
      `levels` has an entry for each command sent, the level announced for it with SetBusy or 0; `handled` counts
      those the server has handled, `asked` those sent before the outstanding status request; `absorbed` says that
      the stored response has been read. */
  datatype World = World(
    client: Client, asking: Option<Phase>, releasing: bool, outstanding: Option<nat>, mdi: MdiCall, nextId: nat,
    toServer: seq<Message>, toClient: seq<Reply>,
    levels: seq<nat>, handled: nat, asked: nat, absorbed: bool)

  const START := World(
    Client(Call(None, false, false, false), 0, 0, 0, 0.0, NO_STATE, 0),
    None, false, None, NoMdi, 0, [], [], [], 0, 0, false)

  /** One step. `Command(level, sent)` is a notification that SetBusy(level) follows, `Quiet` one that it does not;
      `sent` is whether the send succeeded. `Handle` lets the server take its next message: `state` is what it samples,
      `version` its version, and it may refuse a request. `Deliver` hands the next reply to the library. */
  datatype Step =
    | Command(level: nat, sent: bool)
    | Quiet(sent: bool)
    | MdiSend(sent: bool)
    | MdiEnd
    | PollRead
    | PollAsk(sent: bool)
    | Handle(state: State, version: real, refuse: bool)
    | Deliver
    | Release
    | Fail

  /** The user's thread is free to call the client. */
  predicate Free(w: World) {
    w.asking.None? && w.mdi.NoMdi?
  }

  function Apply(w: World, s: Step): World {
    match s
    case Command(level, sent) => if Free(w) && sent then Announce(Post(w), level) else w
    case Quiet(sent) => if Free(w) && sent then Post(w) else w
    case MdiSend(sent) => if Free(w) && sent then PostMdi(w) else w
    case MdiEnd =>
      if w.mdi == Answered(true) then Announce(w, MDI).(mdi := NoMdi)
      else w.(mdi := NoMdi)
    case PollRead => if Free(w) then ReadStep(w) else w
    case PollAsk(sent) => if w.asking.Some? then AskStep(w, w.asking.value, sent) else w
    case Handle(state, version, refuse) => if w.toServer == [] then w else Serve(w, state, version, refuse)
    case Deliver => if w.toClient == [] || w.releasing then w else Receive(w)
    case Release => if w.releasing then w.(client := Freed(w.client), releasing := false) else w
    case Fail =>
      if w.client.call.busy && !w.releasing then
        w.(client := w.client.(call := w.client.call.(failed := true, busy := false)), outstanding := None)
      else w
  }

  function Freed(c: Client): Client {
    c.(call := c.call.(busy := false))
  }

  /** A notification goes out; nothing has been announced for it yet. */
  function Post(w: World): World {
    w.(toServer := w.toServer + [Notify], levels := w.levels + [0])
  }

  function PostMdi(w: World): World {
    w.(toServer := w.toServer + [Request(w.nextId, MdiLine)], levels := w.levels + [0],
       nextId := w.nextId + 1, mdi := Waiting(w.nextId))
  }

  /** SetBusy for the command sent last. */
  function Announce(w: World, level: nat): World {
    if w.levels == [] then w
    else w.(client := SetBusy(w.client, level), levels := w.levels[|w.levels| - 1 := level])
  }

  function ReadStep(w: World): World {
    w.(client := Absorb(w.client), asking := PhaseOf(w.client), absorbed := w.absorbed || w.client.call.hasResponse)
  }

  function QueryOf(phase: Phase): Query {
    if phase.Handshake? then Version else GetState
  }

  function AskStep(w: World, phase: Phase, sent: bool): World {
    if !Asks(w.client, phase) then w.(asking := None)
    else
      var next := w.(client := Sent(w.client), asking := None);
      if sent then
        next.(outstanding := Some(w.nextId), nextId := w.nextId + 1, asked := |w.levels|,
              toServer := w.toServer + [Request(w.nextId, QueryOf(phase))])
      else next.(outstanding := None)
  }

  function Serve(w: World, state: State, version: real, refuse: bool): World
    requires w.toServer != []
  {
    var m := w.toServer[0];
    var next := w.(toServer := w.toServer[1..], handled := w.handled + Commands([m]));
    if m.Notify? then next
    else
      var body := if refuse then Refused
        else match m.query
          case Version => VersionIs(version)
          case GetState => Snapshot(state, w.handled)
          case MdiLine => Done;
      next.(toClient := w.toClient + [Reply(m.id, body)])
  }

  /** Replies are matched by id; one that nobody waits for is dropped. */
  function Receive(w: World): World
    requires w.toClient != []
  {
    var r := w.toClient[0];
    var next := w.(toClient := w.toClient[1..]);
    if w.outstanding == Some(r.id) then
      next.(client := w.client.(call := w.client.call.(response := Some(r.body), hasResponse := true)),
            outstanding := None, releasing := true, absorbed := false)
    else if w.mdi == Waiting(r.id) then next.(mdi := Answered(!r.body.Refused?))
    else next
  }

  /** The commands among some messages. */
  function Commands(ms: seq<Message>): nat {
    if ms == [] then 0
    else (if ms[0].Notify? || ms[0].query.MdiLine? then 1 else 0) + Commands(ms[1..])
  }

  function Run(w: World, steps: seq<Step>): World
    decreases |steps|
  {
    if steps == [] then w else Apply(Run(w, steps[..|steps| - 1]), steps[|steps| - 1])
  }

  // ---------- what every run keeps ----------

  lemma {:induction false} CommandsAppend(ms: seq<Message>, more: seq<Message>)
    ensures Commands(ms + more) == Commands(ms) + Commands(more)
  {
    if ms == [] {
      assert ms + more == more;
    } else {
      assert (ms + more)[1..] == ms[1..] + more;
      CommandsAppend(ms[1..], more);
    }
  }

  /** Where a message stands: the commands the server will have handled when its turn comes. */
  function Turn(w: World, i: nat): nat
    requires i <= |w.toServer|
  {
    w.handled + Commands(w.toServer[..i])
  }

  /** Commands are handled in the order they were sent, and the outstanding request stands behind `asked` of them. */
  ghost predicate Ordered(w: World) {
    && w.handled + Commands(w.toServer) == |w.levels| && w.asked <= |w.levels|
    && (forall i :: 0 <= i < |w.toServer| && w.toServer[i].Request? ==> w.toServer[i].id < w.nextId)
    && (forall i :: 0 <= i < |w.toServer| && w.toServer[i].Request? && w.outstanding == Some(w.toServer[i].id) ==>
          w.asked <= Turn(w, i))
    && (!w.mdi.NoMdi? ==> w.levels != [])
  }

  /** A sample that has not been superseded is no older than what the client knows and than the request for it. */
  predicate Recent(w: World, body: Body, unread: bool) {
    body.Snapshot? ==> w.client.seen <= body.handled <= w.handled && (unread ==> w.asked <= body.handled)
  }

  ghost predicate Matched(w: World) {
    && w.client.seen <= w.handled && (w.releasing ==> w.client.call.busy)
    && (forall i :: 0 <= i < |w.toClient| ==> w.toClient[i].id < w.nextId)
    && (w.outstanding.Some? ==> w.outstanding.value < w.nextId && w.client.call.busy && !w.releasing)
    && (forall i :: 0 <= i < |w.toClient| && w.outstanding == Some(w.toClient[i].id) ==>
          Recent(w, w.toClient[i].body, true))
    && (w.client.call.hasResponse ==> w.outstanding.None? && w.client.call.response.Some?)
    && (w.client.call.hasResponse ==> Recent(w, w.client.call.response.value, !w.absorbed))
  }

  /** A status reply is still to be read. */
  predicate Pending(w: World) {
    w.outstanding.Some? || (w.client.call.hasResponse && !w.absorbed)
  }

  /** When the next reply would clear the cache, it was asked for after every announced command. */
  ghost predicate Guarded(w: World) {
    Pending(w) && w.client.heartBeat >= w.client.busyHeart ==>
      forall k :: w.asked <= k < |w.levels| ==> w.levels[k] == 0
  }

  predicate Beating(w: World, steps: nat) {
    0 <= w.client.heartBeat <= steps && w.client.busyHeart <= w.client.heartBeat + 1
  }

  /** The announced level of every command that the client's snapshot does not reflect is in the cache. */
  ghost predicate Safe(w: World) {
    forall k :: w.client.seen <= k < |w.levels| ==> w.levels[k] <= w.client.statusCache
  }

  /** What every run keeps, whatever the interleaving. */
  ghost predicate Sound(w: World, n: nat) {
    Ordered(w) && Matched(w) && Guarded(w) && Beating(w, n)
  }

  /** A reply that has been read is about to be discarded. */
  predicate ReadOnce(w: World) {
    && (w.client.call.hasResponse && w.absorbed ==> (w.asking.Some? && !w.client.call.busy) || w.client.serverVer < 0.0)
    && (w.asking == Some(Handshake) && w.client.serverVer != 0.0 ==> !w.client.call.hasResponse && w.outstanding.None?)
    && (w.asking == Some(Status) ==> w.client.serverVer > 0.0)
  }

  /** A callback is between its two writes. Both fields are the client's own: only Poll can test this. */
  predicate InCallback(c: Client) {
    c.call.hasResponse && c.call.busy
  }

  lemma ServeKeepsOrder(w: World, state: State, version: real, refuse: bool)
    requires Ordered(w) && w.toServer != []
    ensures Ordered(Serve(w, state, version, refuse))
  {
    hide Commands;
    var m := w.toServer[0];
    var next := Serve(w, state, version, refuse);
    assert w.toServer == [m] + w.toServer[1..];
    CommandsAppend([m], w.toServer[1..]);
    forall i | 0 <= i < |next.toServer| && next.toServer[i].Request? && next.outstanding == Some(next.toServer[i].id)
      ensures next.asked <= Turn(next, i)
    {
      assert next.toServer[i] == w.toServer[i + 1];
      assert w.toServer[..i + 1] == [m] + w.toServer[1..][..i];
      CommandsAppend([m], w.toServer[1..][..i]);
    }
  }

  /** `v` is `w` after `m` has been put on the wire. */
  ghost predicate Posted(w: World, m: Message, v: World) {
    && v.toServer == w.toServer + [m] && v.handled == w.handled && |v.levels| == |w.levels| + Commands([m])
    && (m.Request? ==> m.id == w.nextId && v.nextId > m.id) && v.nextId >= w.nextId
    && ((v.outstanding == w.outstanding && v.asked == w.asked)
        || (m.Request? && v.outstanding == Some(m.id) && v.asked == |w.levels|))
    && (v.mdi.NoMdi? || !w.mdi.NoMdi? || v.levels != [])
  }

  lemma PostKeepsOrder(w: World, m: Message, v: World)
    requires Ordered(w) && Posted(w, m, v) && (w.outstanding.Some? ==> w.outstanding.value < w.nextId)
    ensures Ordered(v)
  {
    hide Commands;
    CommandsAppend(w.toServer, [m]);
    forall i | 0 <= i < |v.toServer| && v.toServer[i].Request? && v.outstanding == Some(v.toServer[i].id)
      ensures v.asked <= Turn(v, i)
    {
      if i < |w.toServer| {
        assert v.toServer[i] == w.toServer[i] && v.toServer[..i] == w.toServer[..i];
        assert w.asked <= Turn(w, i);
      } else {
        assert v.toServer[..i] == w.toServer;
      }
    }
  }

  /** The commands among one message. */
  lemma OneCommand(m: Message)
    ensures Commands([m]) == if m.Notify? || m.query.MdiLine? then 1 else 0
  {
  }

  /** `v` is `w` with nothing put on the wire to the server and nothing taken from it. */
  predicate Quietly(w: World, v: World) {
    && v.toServer == w.toServer && v.handled == w.handled && |v.levels| == |w.levels| && v.asked == w.asked
    && v.nextId == w.nextId && (v.outstanding == w.outstanding || v.outstanding.None?)
    && (v.mdi.NoMdi? || !w.mdi.NoMdi?)
  }

  lemma QuietlyKeepsOrder(w: World, v: World)
    requires Ordered(w) && Quietly(w, v)
    ensures Ordered(v)
  {
    hide Commands;
    forall i | 0 <= i < |v.toServer| && v.toServer[i].Request? && v.outstanding == Some(v.toServer[i].id)
      ensures v.asked <= Turn(v, i)
    {
      assert w.asked <= Turn(w, i);
    }
  }

  predicate Sends(s: Step) {
    s.Command? || s.Quiet? || s.MdiSend? || s.PollAsk?
  }

  lemma SendKeepsOrder(w: World, s: Step)
    requires Ordered(w) && Sends(s) && (w.outstanding.Some? ==> w.outstanding.value < w.nextId)
    ensures Ordered(Apply(w, s))
  {
    hide Commands, Ordered, Asks, SetBusy;
    var v := Apply(w, s);
    if v.toServer == w.toServer {
      QuietlyKeepsOrder(w, v);
    } else {
      var m := if s.Command? || s.Quiet? then Notify
               else Request(w.nextId, if s.MdiSend? then MdiLine else QueryOf(w.asking.value));
      OneCommand(m);
      PostKeepsOrder(w, m, v);
    }
  }

  lemma StepKeepsOrder(w: World, s: Step)
    requires Ordered(w) && (w.outstanding.Some? ==> w.outstanding.value < w.nextId)
    ensures Ordered(Apply(w, s))
  {
    hide Commands, Absorb, Ordered, SetBusy, Serve;
    if Sends(s) {
      SendKeepsOrder(w, s);
    } else if s.Handle? {
      if w.toServer != [] {
        ServeKeepsOrder(w, s.state, s.version, s.refuse);
      }
    } else {
      QuietlyKeepsOrder(w, Apply(w, s));
    }
  }

  // ---------- replies ----------

  lemma ServeKeepsMatched(w: World, state: State, version: real, refuse: bool)
    requires Ordered(w) && Matched(w) && w.toServer != []
    ensures Matched(Serve(w, state, version, refuse))
  {
    hide Commands;
    var m := w.toServer[0];
    OneCommand(m);
    assert Turn(w, 0) == w.handled by { assert w.toServer[..0] == []; CommandsOfNone(); }
    var v := Serve(w, state, version, refuse);
    forall i | 0 <= i < |v.toClient| && v.outstanding == Some(v.toClient[i].id)
      ensures Recent(v, v.toClient[i].body, true)
    {
      if i < |w.toClient| {
        assert v.toClient[i] == w.toClient[i];
      }
    }
  }

  lemma CommandsOfNone()
    ensures Commands([]) == 0
  {
  }

  lemma AskKeepsMatched(w: World, phase: Phase, sent: bool)
    requires Matched(w)
    ensures Matched(AskStep(w, phase, sent))
  {
  }

  lemma ReceiveKeepsMatched(w: World)
    requires Matched(w) && w.toClient != []
    ensures Matched(Receive(w))
  {
    assert w.toClient == [w.toClient[0]] + w.toClient[1..];
    assert w.outstanding == Some(w.toClient[0].id) ==> Recent(w, w.toClient[0].body, true);
  }

  lemma ReadKeepsMatched(w: World)
    requires Matched(w)
    ensures Matched(ReadStep(w))
  {
  }

  lemma StepKeepsMatched(w: World, s: Step)
    requires Ordered(w) && Matched(w)
    ensures Matched(Apply(w, s))
  {
    hide Serve, Receive, ReadStep, AskStep;
    match s {
      case Handle(state, version, refuse) =>
        if w.toServer != [] {
          ServeKeepsMatched(w, state, version, refuse);
        }
      case Deliver =>
        if w.toClient != [] {
          ReceiveKeepsMatched(w);
        }
      case PollRead => ReadKeepsMatched(w);
      case PollAsk(sent) => if w.asking.Some? { AskKeepsMatched(w, w.asking.value, sent); }
      case _ =>
    }
  }

  // ---------- the heartbeat guard ----------

  lemma StepKeepsBeat(w: World, s: Step, n: nat)
    requires Beating(w, n) && n < MAX_INT32
    ensures Beating(Apply(w, s), n + 1)
  {
  }

  lemma StepKeepsGuard(w: World, s: Step, n: nat)
    requires Sound(w, n) && n < MAX_INT32
    ensures Guarded(Apply(w, s))
  {
    hide Commands;
  }

  lemma StepKeepsReadOnce(w: World, s: Step)
    requires Matched(w) && ReadOnce(w)
    requires s.PollRead? ==> !InCallback(w.client)
    ensures ReadOnce(Apply(w, s))
  {
    hide Serve, ReadStep, AskStep, Receive, Matched;
    match s {
      case PollRead => ReadKeepsReadOnce(w);
      case PollAsk(sent) => if w.asking.Some? { AskKeepsReadOnce(w, w.asking.value, sent); }
      case Handle(state, version, refuse) => if w.toServer != [] { ServeIsTheServers(w, state, version, refuse); }
      case Deliver => if w.toClient != [] && !w.releasing { ReceiveKeepsReadOnce(w); }
      case _ => OtherStepsKeepReadOnce(w, s);
    }
  }

  lemma ReadKeepsReadOnce(w: World)
    requires Matched(w) && ReadOnce(w) && !InCallback(w.client)
    ensures ReadOnce(ReadStep(w))
  {
  }

  lemma AskKeepsReadOnce(w: World, phase: Phase, sent: bool)
    requires Matched(w) && ReadOnce(w) && w.asking == Some(phase)
    ensures ReadOnce(AskStep(w, phase, sent))
  {
  }

  /** The server's steps leave the client alone. */
  lemma ServeIsTheServers(w: World, state: State, version: real, refuse: bool)
    requires w.toServer != []
    ensures ReadOnce(w) ==> ReadOnce(Serve(w, state, version, refuse))
  {
    hide Commands;
  }

  lemma ReceiveKeepsReadOnce(w: World)
    requires Matched(w) && ReadOnce(w) && w.toClient != [] && !w.releasing
    ensures ReadOnce(Receive(w))
  {
  }

  lemma OtherStepsKeepReadOnce(w: World, s: Step)
    requires Matched(w) && ReadOnce(w) && !s.PollRead? && !s.PollAsk? && !s.Handle? && !s.Deliver?
    ensures ReadOnce(Apply(w, s))
  {
    hide Serve, ReadStep, AskStep, Receive;
  }

  // ---------- no stale idle ----------

  lemma ReadKeepsSafe(w: World)
    requires Matched(w) && Guarded(w) && Safe(w)
    requires w.client.call.hasResponse && w.absorbed ==> w.client.serverVer < 0.0
    ensures Safe(ReadStep(w))
  {
  }

  lemma StepKeepsSafe(w: World, s: Step)
    requires Ordered(w) && Matched(w) && Guarded(w) && Safe(w) && ReadOnce(w)
    ensures Safe(Apply(w, s))
  {
    hide ReadStep, Commands;
    if s.PollRead? && Free(w) {
      ReadKeepsSafe(w);
    }
  }

  /** The invariant of every run whose PollRead steps stay out of the callback's window. */
  ghost predicate Invariant(w: World, n: nat) {
    Sound(w, n) && ReadOnce(w) && Safe(w)
  }

  lemma StepKeepsSound(w: World, s: Step, n: nat)
    requires Sound(w, n) && n < MAX_INT32
    ensures Sound(Apply(w, s), n + 1)
  {
    hide Apply, Ordered, Matched, Guarded, Beating;
    OutstandingIsOld(w);
    StepKeepsOrder(w, s);
    StepKeepsMatched(w, s);
    StepKeepsGuard(w, s, n);
    StepKeepsBeat(w, s, n);
  }

  lemma StepKeepsInvariant(w: World, s: Step, n: nat)
    requires Invariant(w, n) && n < MAX_INT32
    requires s.PollRead? ==> !InCallback(w.client)
    ensures Invariant(Apply(w, s), n + 1)
  {
    hide Apply, Ordered, Matched, Guarded, Beating, Safe, ReadOnce;
    StepKeepsSound(w, s, n);
    StepKeepsReadOnce(w, s);
    StepKeepsSafe(w, s);
  }

  lemma OutstandingIsOld(w: World)
    requires Matched(w)
    ensures w.outstanding.Some? ==> w.outstanding.value < w.nextId
  {
  }

  /** No PollRead of the run happens while a callback is between its two writes. */
  predicate Polite(steps: seq<Step>)
    decreases |steps|
  {
    steps == [] ||
    (var before := steps[..|steps| - 1];
     Polite(before) && (steps[|steps| - 1].PollRead? ==> !InCallback(Run(START, before).client)))
  }

  lemma {:induction false} RunKeepsInvariant(steps: seq<Step>)
    requires Polite(steps) && |steps| < MAX_INT32
    ensures Invariant(Run(START, steps), |steps|)
    decreases |steps|
  {
    hide Apply, Invariant, InCallback;
    if steps == [] {
      StartInvariant();
    } else {
      var before := steps[..|steps| - 1];
      RunKeepsInvariant(before);
      StepKeepsInvariant(Run(START, before), steps[|steps| - 1], |before|);
    }
  }

  lemma StartInvariant()
    ensures Invariant(START, 0)
  {
  }

  /** No stale idle: over every interleaving, while the client's snapshot was sampled before the server handled a
      command, the client stays busy at every level below the one announced for that command. */
  lemma NoStaleIdle(steps: seq<Step>, k: nat, connected: bool, level: nat)
    requires Polite(steps) && |steps| < MAX_INT32
    requires var w := Run(START, steps); w.client.seen <= k < |w.levels| && level < w.levels[k]
    ensures IsBusy(Run(START, steps).client, connected, level)
  {
    hide Run, Polite;
    RunKeepsInvariant(steps);
  }

  /** Right after a command has been sent the client is busy at every level below the one announced. */
  lemma CommandIsAnnounced(w: World, announced: nat, connected: bool, level: nat)
    requires Free(w) && level < announced
    ensures IsBusy(Apply(w, Command(announced, true)).client, connected, level)
    ensures Apply(w, Command(announced, false)) == w
  {
  }

  /** A manual line is announced once it has been carried out, and not when it was refused. */
  lemma MdiIsAnnounced(w: World, connected: bool, level: nat)
    requires Ordered(w) && level < 5
    ensures w.mdi == Answered(true) ==> IsBusy(Apply(w, MdiEnd).client, connected, level)
    ensures w.mdi != Answered(true) ==> Apply(w, MdiEnd).client == w.client
  {
    hide Commands;
  }

  // ---------- the guard as a part of Poll ----------

  /** The step when Poll returns at once while a callback is between its two writes. */
  function GuardedApply(w: World, s: Step): World {
    if s.PollRead? && InCallback(w.client) then w else Apply(w, s)
  }

  function GuardedRun(w: World, steps: seq<Step>): World
    decreases |steps|
  {
    if steps == [] then w else GuardedApply(GuardedRun(w, steps[..|steps| - 1]), steps[|steps| - 1])
  }

  lemma InvariantLasts(w: World, n: nat)
    requires Invariant(w, n)
    ensures Invariant(w, n + 1)
  {
    hide Ordered, Matched, Guarded, ReadOnce, Safe;
  }

  lemma {:induction false} GuardedRunKeepsInvariant(steps: seq<Step>)
    requires |steps| < MAX_INT32
    ensures Invariant(GuardedRun(START, steps), |steps|)
    decreases |steps|
  {
    hide Apply, Invariant, InCallback;
    if steps == [] {
      StartInvariant();
    } else {
      var before, s := steps[..|steps| - 1], steps[|steps| - 1];
      var w := GuardedRun(START, before);
      GuardedRunKeepsInvariant(before);
      if s.PollRead? && InCallback(w.client) {
        InvariantLasts(w, |before|);
      } else {
        StepKeepsInvariant(w, s, |before|);
      }
    }
  }

  /** With that guard there is no stale idle in any interleaving at all. */
  lemma GuardedPollHasNoStaleIdle(steps: seq<Step>, k: nat, connected: bool, level: nat)
    requires |steps| < MAX_INT32
    requires var w := GuardedRun(START, steps); w.client.seen <= k < |w.levels| && level < w.levels[k]
    ensures IsBusy(GuardedRun(START, steps).client, connected, level)
  {
    hide GuardedRun;
    GuardedRunKeepsInvariant(steps);
  }

  // ---------- exactly when a run keeps the guarantee ----------

  /** Reading a reply a second time with the heartbeat caught up clears the cache on an old snapshot. */
  predicate Rereads(w: World) {
    && w.client.serverVer > 0.0 && w.absorbed && w.client.heartBeat >= w.client.busyHeart
    && GetResponse(w.client.call).Some? && GetResponse(w.client.call).value.Snapshot?
  }

  /** Such a reading, while a command announced as busy is younger than the snapshot. */
  ghost predicate Harms(w: World) {
    Rereads(w) && exists k :: w.client.call.response.value.handled <= k < |w.levels| && w.levels[k] > 0
  }

  /** Exactly when the first half of a Poll keeps the guarantee, in a callback's window too. */
  lemma ReadKeepsSafeExactlyWhen(w: World)
    requires Matched(w) && Guarded(w) && Safe(w)
    ensures Safe(ReadStep(w)) <==> !Harms(w)
  {
    if !Rereads(w) {
      ReadOnceKeepsSafe(w);
    }
  }

  lemma ReadOnceKeepsSafe(w: World)
    requires Matched(w) && Guarded(w) && Safe(w) && !Rereads(w)
    ensures Safe(ReadStep(w))
  {
  }

  /** No other step endangers it. */
  lemma OtherStepsKeepSafe(w: World, s: Step)
    requires Ordered(w) && Matched(w) && Safe(w) && !(s.PollRead? && Free(w))
    ensures Safe(Apply(w, s))
  {
    hide ReadStep, Commands;
  }

  lemma {:induction false} RunIsSound(steps: seq<Step>)
    requires |steps| < MAX_INT32
    ensures Sound(Run(START, steps), |steps|)
    decreases |steps|
  {
    hide Apply, Sound;
    if steps == [] {
      StartInvariant();
    } else {
      var before := steps[..|steps| - 1];
      RunIsSound(before);
      StepKeepsSound(Run(START, before), steps[|steps| - 1], |before|);
    }
  }

  /** The step `n` of the run is a harmful reading. */
  ghost predicate HarmedAt(steps: seq<Step>, n: nat)
    requires n < |steps|
  {
    steps[n].PollRead? && Free(Run(START, steps[..n])) && Harms(Run(START, steps[..n]))
  }

  /** From a safe world, exactly a harmful reading leads to an unsafe one. */
  lemma StepKeepsSafeExactlyWhen(w: World, s: Step, n: nat)
    requires Sound(w, n) && Safe(w)
    ensures Safe(Apply(w, s)) <==> !(s.PollRead? && Free(w) && Harms(w))
  {
    hide Ordered, Matched, Guarded, Safe, Harms, ReadStep;
    if s.PollRead? && Free(w) {
      ReadKeepsSafeExactlyWhen(w);
    } else {
      OtherStepsKeepSafe(w, s);
    }
  }

  /** The client announces every busy level its snapshot does not reflect, all through a run, if and only if no reading
      in the run is harmful. */
  lemma {:induction false} SafeThroughoutExactlyWhen(steps: seq<Step>)
    requires |steps| < MAX_INT32
    ensures (forall n :: 0 <= n <= |steps| ==> Safe(Run(START, steps[..n])))
      <==> (forall n :: 0 <= n < |steps| ==> !HarmedAt(steps, n))
    decreases |steps|
  {
    hide Run, Safe, Harms, Apply, Sound, Free;
    assert steps[..|steps|] == steps;
    if steps == [] {
      StartIsSafe();
      assert forall n :: 0 <= n <= |steps| ==> steps[..n] == [];
    } else {
      var last := |steps| - 1;
      var before := steps[..last];
      forall n | 0 <= n <= last
        ensures before[..n] == steps[..n] && (n < last ==> HarmedAt(before, n) == HarmedAt(steps, n))
      {
        assert before[..n] == steps[..n];
      }
      SafeThroughoutExactlyWhen(before);
      if Safe(Run(START, before)) {
        LastStep(steps);
      }
    }
  }

  /** The last step of a run that has been safe. */
  lemma LastStep(steps: seq<Step>)
    requires 0 < |steps| < MAX_INT32 && Safe(Run(START, steps[..|steps| - 1]))
    ensures Safe(Run(START, steps)) <==> !HarmedAt(steps, |steps| - 1)
  {
    hide Safe, Harms, Apply, Sound, Free;
    var last := |steps| - 1;
    RunIsSound(steps[..last]);
    StepKeepsSafeExactlyWhen(Run(START, steps[..last]), steps[last], last);
  }

  lemma StartIsSafe()
    ensures Safe(Run(START, []))
  {
  }

  /** What the client reports right after a harmful reading: the old snapshot, and nothing of what came later. */
  lemma HarmedReports(w: World, level: nat)
    requires Harms(w) && Free(w)
    ensures IsBusy(Apply(w, PollRead).client, true, level) <==>
      w.client.call.response.value.state.machineState > level
  {
  }

  // ---------- the guarantee fails in a callback's window ----------

  /** The exchange of versions, the server's being `v`. */
  function HandshakeOf(v: real): seq<Step> {
    [PollRead, PollAsk(true), Handle(NO_STATE, v, false), Deliver, Release, PollRead, PollAsk(true)]
  }

  /** A jog is sent after the server has sampled its state; the reply is read twice before its callback ends. */
  const RACE: seq<Step> :=
    [PollRead, PollAsk(true), Handle(State(IDLE, 0, 0), 3.0, false), Command(MOVING, true), Deliver,
     PollRead, PollAsk(true), PollRead]

  lemma {:induction false} RunAppend(w: World, a: seq<Step>, b: seq<Step>)
    ensures Run(w, a + b) == Run(Run(w, a), b)
    decreases |b|
  {
    hide Apply;
    if b == [] {
      assert a + b == a;
    } else {
      assert (a + b)[..|a + b| - 1] == a + b[..|b| - 1];
      RunAppend(w, a, b[..|b| - 1]);
    }
  }

  // ---------- the exchange of versions ----------

  /** The server named the version `v` in some step of the run. */
  predicate Named(steps: seq<Step>, v: real) {
    exists i :: 0 <= i < |steps| && steps[i].Handle? && steps[i].version == v
  }

  predicate BodyNamed(steps: seq<Step>, body: Body) {
    body.VersionIs? ==> Named(steps, body.version)
  }

  /** Every version on its way to the client, or at it, is one the server named. */
  ghost predicate Versioned(w: World, steps: seq<Step>) {
    && (forall i :: 0 <= i < |w.toClient| ==> BodyNamed(steps, w.toClient[i].body))
    && (w.client.call.response.Some? ==> BodyNamed(steps, w.client.call.response.value))
    && (w.client.serverVer != 0.0 ==> exists v :: Named(steps, v) && w.client.serverVer == Accepted(v))
  }

  lemma NamedLasts(steps: seq<Step>, s: Step)
    ensures forall v :: Named(steps, v) ==> Named(steps + [s], v)
    ensures s.Handle? ==> Named(steps + [s], s.version)
  {
    forall v | Named(steps, v)
      ensures Named(steps + [s], v)
    {
      var i :| 0 <= i < |steps| && steps[i].Handle? && steps[i].version == v;
      assert (steps + [s])[i] == steps[i];
    }
    assert (steps + [s])[|steps|] == s;
  }

  lemma StepKeepsVersions(w: World, s: Step, steps: seq<Step>)
    requires Versioned(w, steps)
    ensures Versioned(Apply(w, s), steps + [s])
  {
    hide Named, Versioned;
    NamedLasts(steps, s);
    VersionedLasts(w, s, steps);
    match s {
      case PollRead => ReadKeepsVersions(w, steps + [s]);
      case Handle(state, version, refuse) =>
        if w.toServer != [] { ServeKeepsVersions(w, state, version, refuse, steps + [s]); }
      case Deliver => if w.toClient != [] { ReceiveKeepsVersions(w, steps + [s]); }
      case _ => OtherStepsKeepVersions(w, s, steps + [s]);
    }
  }

  lemma VersionedLasts(w: World, s: Step, steps: seq<Step>)
    requires Versioned(w, steps) && forall v :: Named(steps, v) ==> Named(steps + [s], v)
    ensures Versioned(w, steps + [s])
  {
    hide Named;
  }

  lemma ReadKeepsVersions(w: World, steps: seq<Step>)
    requires Versioned(w, steps)
    ensures Versioned(ReadStep(w), steps)
  {
    hide Named;
  }

  lemma ServeKeepsVersions(w: World, state: State, version: real, refuse: bool, steps: seq<Step>)
    requires Versioned(w, steps) && w.toServer != [] && Named(steps, version)
    ensures Versioned(Serve(w, state, version, refuse), steps)
  {
    hide Named, Commands;
  }

  lemma ReceiveKeepsVersions(w: World, steps: seq<Step>)
    requires Versioned(w, steps) && w.toClient != []
    ensures Versioned(Receive(w), steps)
  {
    hide Named;
  }

  lemma OtherStepsKeepVersions(w: World, s: Step, steps: seq<Step>)
    requires Versioned(w, steps) && !s.PollRead? && !s.Handle? && !s.Deliver?
    ensures Versioned(Apply(w, s), steps)
  {
    hide Named, Serve, ReadStep, Receive;
  }

  /** In every run, the version a client goes by is one that the server named and that will do; or it has given up on a
      server that named one that will not. */
  lemma {:induction false} VersionIsServers(steps: seq<Step>)
    ensures Versioned(Run(START, steps), steps)
    decreases |steps|
  {
    hide Apply;
    if steps != [] {
      var before, s := steps[..|steps| - 1], steps[|steps| - 1];
      VersionIsServers(before);
      StepKeepsVersions(Run(START, before), s, before);
      assert before + [s] == steps;
    }
  }

  /** Once decided, it is never decided again. */
  lemma VersionStays(w: World, s: Step)
    requires w.client.serverVer != 0.0
    ensures Apply(w, s).client.serverVer == w.client.serverVer
  {
    hide Commands;
  }

  /** A sequence of worlds, each the one before it after one of the steps. */
  predicate Follows(worlds: seq<World>, steps: seq<Step>) {
    |worlds| == |steps| + 1 && forall i :: 0 <= i < |steps| ==> Apply(worlds[i], steps[i]) == worlds[i + 1]
  }

  lemma {:induction false} RunFollows(worlds: seq<World>, steps: seq<Step>, i: nat)
    requires Follows(worlds, steps) && i <= |steps|
    ensures Run(worlds[0], steps[..i]) == worlds[i]
  {
    hide Apply;
    if i > 0 {
      RunFollows(worlds, steps, i - 1);
      assert steps[..i][..i - 1] == steps[..i - 1] && steps[..i][i - 1] == steps[i - 1];
    }
  }

  /** The client when the callback has stored a response. */
  function Answer(c: Client, body: Body): Client {
    c.(call := Call(Some(body), true, false, true))
  }

  const OPENED := START.(client := Sent(START.client), nextId := 1)

  function Greeted(v: real): World {
    OPENED.(client := Answer(START.client, VersionIs(v)))
  }

  /** The world once the versions have been exchanged, the client having taken `serverVer` for the server's. */
  function Met(v: real, serverVer: real): World {
    START.(nextId := 1, absorbed := true,
      client := Client(Call(Some(VersionIs(v)), false, false, false), 0, 0, 0, serverVer, NO_STATE, 0))
  }

  /** What the client makes of a server's version. */
  function Accepted(v: real): real {
    if v < MIN_PROTOCOL_VERSION then -1.0 else v
  }

  function Meeting(v: real): seq<World> {
    [START,
     START.(asking := Some(Handshake)),
     OPENED.(outstanding := Some(0), toServer := [Request(0, Version)]),
     OPENED.(outstanding := Some(0), toClient := [Reply(0, VersionIs(v))]),
     Greeted(v).(releasing := true),
     Greeted(v).(client := Freed(Greeted(v).client)),
     Met(v, Accepted(v)).(asking := Some(Handshake)),
     Met(v, Accepted(v))]
  }

  /** Whatever the server's version, the exchange ends: in the status phase, or with the server given up. */
  lemma HandshakeEnds(v: real)
    ensures var w := Run(START, HandshakeOf(v));
      && w == Met(v, Accepted(v))
      && PhaseOf(w.client) == (if v < 3.0 then None else Some(Status))
  {
    hide Run;
    MeetingFollows(v);
    RunFollows(Meeting(v), HandshakeOf(v), 7);
    assert HandshakeOf(v)[..7] == HandshakeOf(v);
  }

  lemma MeetingFollows(v: real)
    ensures Follows(Meeting(v), HandshakeOf(v))
  {
    hide Apply;
    MeetingBegins(v);
    MeetingEnds(v);
  }

  lemma MeetingBegins(v: real)
    ensures forall i :: 0 <= i < 3 ==> Apply(Meeting(v)[i], HandshakeOf(v)[i]) == Meeting(v)[i + 1]
  {
    assert Apply(Meeting(v)[0], PollRead) == Meeting(v)[1];
    assert Apply(Meeting(v)[1], PollAsk(true)) == Meeting(v)[2];
    assert Apply(Meeting(v)[2], Handle(NO_STATE, v, false)) == Meeting(v)[3];
  }

  lemma MeetingEnds(v: real)
    ensures forall i :: 3 <= i < 7 ==> Apply(Meeting(v)[i], HandshakeOf(v)[i]) == Meeting(v)[i + 1]
  {
    assert Apply(Meeting(v)[3], Deliver) == Meeting(v)[4];
    assert Apply(Meeting(v)[4], Release) == Meeting(v)[5];
    assert Apply(Meeting(v)[5], PollRead) == Meeting(v)[6];
    assert Apply(Meeting(v)[6], PollAsk(true)) == Meeting(v)[7];
  }

  /** The client with a server of the lowest version that will do. */
  const READY := Met(3.0, 3.0)

  const SAMPLE := Snapshot(State(IDLE, 0, 0), 0)

  const POLLED := READY.(client := Sent(READY.client), nextId := 2)

  /** The client after the jog, while the callback for the older sample runs. */
  const JOGGED := POLLED.(toServer := [Notify], levels := [MOVING], releasing := true, absorbed := false,
    client := Client(Call(Some(SAMPLE), true, false, true), MOVING, 1, 0, 3.0, NO_STATE, 0))

  const ONCE := JOGGED.(absorbed := true,
    client := Client(Call(Some(SAMPLE), true, false, true), MOVING, 1, 1, 3.0, State(IDLE, 0, 0), 0))

  const TWICE := ONCE.(asking := Some(Status),
    client := Client(Call(Some(SAMPLE), true, false, true), 0, 1, 2, 3.0, State(IDLE, 0, 0), 0))

  const RACING: seq<World> := [
    READY,
    READY.(asking := Some(Status)),
    POLLED.(outstanding := Some(1), toServer := [Request(1, GetState)]),
    POLLED.(outstanding := Some(1), toClient := [Reply(1, SAMPLE)]),
    JOGGED.(outstanding := Some(1), toClient := [Reply(1, SAMPLE)], releasing := false, absorbed := true,
      client := SetBusy(POLLED.client, MOVING)),
    JOGGED,
    ONCE.(asking := Some(Status)),
    ONCE,
    TWICE]

  lemma RaceBegins()
    ensures forall i :: 0 <= i < 2 ==> Apply(RACING[i], RACE[i]) == RACING[i + 1]
  {
    assert Apply(RACING[0], PollRead) == RACING[1];
    assert Apply(RACING[1], PollAsk(true)) == RACING[2];
  }

  lemma RaceGoesOn()
    ensures forall i :: 2 <= i < 4 ==> Apply(RACING[i], RACE[i]) == RACING[i + 1]
  {
    assert Apply(RACING[2], Handle(State(IDLE, 0, 0), 3.0, false)) == RACING[3];
    assert Apply(RACING[3], Command(MOVING, true)) == RACING[4];
  }

  lemma RaceEnds()
    ensures forall i :: 4 <= i < 8 ==> Apply(RACING[i], RACE[i]) == RACING[i + 1]
  {
    assert Apply(RACING[4], Deliver) == RACING[5];
    assert Apply(RACING[5], PollRead) == RACING[6];
    assert Apply(RACING[6], PollAsk(true)) == RACING[7];
    assert Apply(RACING[7], PollRead) == RACING[8];
  }

  /** Without the condition on PollRead the guarantee fails: the client reports idle although the server had not yet
      handled the jog when it took the client's snapshot. */
  lemma StaleIdleInTheWindow()
    ensures var w := Run(START, HandshakeOf(3.0) + RACE);
      w.client.seen == 0 && w.levels == [MOVING] && w.handled == 0 && !IsBusy(w.client, true, IDLE)
  {
    hide Run, Apply;
    HandshakeEnds(3.0);
    RaceBegins();
    RaceGoesOn();
    RaceEnds();
    RunFollows(RACING, RACE, 8);
    assert RACE[..8] == RACE;
    RunAppend(START, HandshakeOf(3.0), RACE);
  }

  // ---------- the cache does not outlive its commands ----------

  predicate Announces(w: World, s: Step) {
    (s.Command? && s.sent && Free(w)) || (s.MdiEnd? && w.mdi == Answered(true))
  }

  /** The run announces no command. */
  predicate Still(w: World, steps: seq<Step>)
    decreases |steps|
  {
    steps == [] ||
    (var before := steps[..|steps| - 1];
     Still(w, before) && !Announces(Run(w, before), steps[|steps| - 1]))
  }

  lemma StillStep(w: World, s: Step)
    requires !Announces(w, s) && w.client.heartBeat < MAX_INT32
    ensures var c, d := w.client, Apply(w, s).client;
      && d.busyHeart == c.busyHeart && d.heartBeat <= c.heartBeat + 1
      && (d.heartBeat == c.heartBeat ==> d.statusCache == c.statusCache)
      && (d.heartBeat != c.heartBeat && c.heartBeat >= c.busyHeart ==> d.statusCache == 0)
      && d.heartBeat >= c.heartBeat
  {
  }

  lemma {:induction false} CacheClears(w: World, steps: seq<Step>, n: nat)
    requires Beating(w, n) && n + |steps| < MAX_INT32 && Still(w, steps)
    ensures Beating(Run(w, steps), n + |steps|)
    ensures var c := Run(w, steps).client;
      c.busyHeart == w.client.busyHeart
      && (c.heartBeat > c.busyHeart && c.heartBeat > w.client.heartBeat ==> c.statusCache == 0)
    decreases |steps|
  {
    hide Apply, Announces;
    if steps != [] {
      var before := steps[..|steps| - 1];
      CacheClears(w, before, n);
      StillStep(Run(w, before), steps[|steps| - 1]);
      StepKeepsBeat(Run(w, before), steps[|steps| - 1], n + |before|);
    }
  }

  /** Once the client has read two snapshots without announcing anything, it reports exactly what the server does. */
  lemma IdleIsReported(w: World, steps: seq<Step>, n: nat, level: nat)
    requires Beating(w, n) && n + |steps| < MAX_INT32 && Still(w, steps)
    requires Run(w, steps).client.heartBeat >= w.client.heartBeat + 2
    ensures var c := Run(w, steps).client; IsBusy(c, true, level) <==> c.state.machineState > level
  {
    hide Run, Still;
    CacheClears(w, steps, n);
  }
}
