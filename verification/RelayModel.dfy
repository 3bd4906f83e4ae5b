/**
 * The screen-sharing relay of Server/index.js as a state machine: sessions, their agent
 * and viewers, counters, and the messages sent to each socket.
 */
module RelayModel {
  import opened Options

  type Sock = nat
  type Ref = nat
  type Screen = string

  datatype Ready = Open | Closing | Closed

  /** What a socket's handlers have captured; none for a refused socket. */
  datatype Role = Refused | Agent(sid: string, ref: Ref) | Viewer(sid: string, ref: Ref, vid: nat)

  datatype Message =
    | AgentStatus(connected: bool)
    | SetScale(agent: Screen, client: Screen)
    | FromAgent(payload: string, screen: Option<Screen>)
    | FromViewer(payload: string)

  datatype Socket = Socket(ready: Ready, role: Role, sent: seq<Message>)

  /** A viewer's client screen; none if its message had no screen, which is stored all the same. */
  datatype Told = Told(ws: Sock, screen: Option<Screen>)

  /** A session object, with client screens in the order they were first told. Its identity is a `Ref`; the map of sessions may drop it while handlers still hold it. */
  datatype Session = Session(agent: Option<Sock>, viewers: map<nat, Sock>, agentScreen: Option<Screen>,
                             clientScreens: seq<Told>)

  const EmptySession := Session(None, map[], None, [])

  datatype State = State(sessions: map<string, Ref>, heap: seq<Session>, sockets: map<Sock, Socket>,
                         total: int, active: int, agents: int, viewers: int)

  function Start(): State {
    State(map[], [], map[], 0, 0, 0, 0)
  }

  datatype Path = AgentPath | ViewerPath | OtherPath

  datatype AgentMessage = AgentGarbage | ScreenInfo(screen: Screen, text: string) | AgentOther(text: string)

  datatype ViewerMessage = ViewerGarbage | ClientInfo(client: Option<Screen>) | Input(input: string)

  datatype Event =
    | Connect(ws: Sock, path: Path, sid: string, vid: nat)
    | AgentSays(ws: Sock, said: AgentMessage)
    | ViewerSays(ws: Sock, heard: ViewerMessage)
    | BeginClose(ws: Sock)
    | Close(ws: Sock)
    | Error(ws: Sock)

  // ---------------------------------------------------------------------------
  // Handlers
  // ---------------------------------------------------------------------------

  predicate Live(k: Socket) {
    k.role != Refused && k.ready != Closed
  }

  /** References lead somewhere, no socket is listed twice, and no object has two names. */
  ghost predicate Wf(s: State) {
    && RolesWf(s.sockets, |s.heap|) && HeapWf(s.heap, s.sockets.Keys) && NamesWf(s.sessions, |s.heap|)
  }

  ghost predicate RolesWf(sockets: map<Sock, Socket>, n: nat) {
    forall w :: w in sockets && sockets[w].role != Refused ==> sockets[w].role.ref < n
  }

  ghost predicate HeapWf(heap: seq<Session>, keys: set<Sock>) {
    forall r :: 0 <= r < |heap| ==> SessionWf(heap[r], keys)
  }

  ghost predicate NamesWf(sessions: map<string, Ref>, n: nat) {
    && (forall sid :: sid in sessions ==> sessions[sid] < n)
    && (forall a, b :: a in sessions && b in sessions && sessions[a] == sessions[b] ==> a == b)
  }

  ghost predicate SessionWf(x: Session, keys: set<Sock>) {
    && (x.agent.Some? ==> x.agent.value in keys)
    && x.viewers.Values <= keys && Tellers(x.clientScreens) <= keys && Once(x.clientScreens)
    && (forall u, v :: u in x.viewers && v in x.viewers && x.viewers[u] == x.viewers[v] ==> u == v)
  }

  /** What can happen: a new socket connects; the others have handlers and are not closed yet. */
  predicate Enabled(s: State, e: Event) {
    match e
    case Connect(ws, _, _, _) => ws !in s.sockets
    case AgentSays(ws, _) => ws in s.sockets && Live(s.sockets[ws]) && s.sockets[ws].role.Agent?
    case ViewerSays(ws, _) => ws in s.sockets && Live(s.sockets[ws]) && s.sockets[ws].role.Viewer?
    case BeginClose(ws) => ws in s.sockets && Live(s.sockets[ws]) && s.sockets[ws].ready == Open
    case Close(ws) => ws in s.sockets && Live(s.sockets[ws])
    case Error(ws) => ws in s.sockets && Live(s.sockets[ws])
  }

  function Sent(k: Socket, m: Message): Socket {
    if k.ready == Open then k.(sent := k.sent + [m]) else k
  }

  /** The message goes to every open socket in `to`. */
  function Broadcast(sockets: map<Sock, Socket>, to: set<Sock>, m: Message): map<Sock, Socket> {
    map w | w in sockets :: if w in to then Sent(sockets[w], m) else sockets[w]
  }

  /**
   * `session.clientScreens.forEach`: each open viewer gets its scale, in order, until one has no screen. There the
   * computation of the scale throws, and nothing after it is done; the second result tells whether that was avoided.
   */
  function Rescale(sockets: map<Sock, Socket>, screens: seq<Told>, agent: Screen): (r: (map<Sock, Socket>, bool))
    ensures r.0.Keys == sockets.Keys
    ensures forall w :: w in sockets ==> r.0[w].role == sockets[w].role && r.0[w].ready == sockets[w].ready
    decreases |screens|
  {
    if screens == [] then (sockets, true)
    else
      var e := screens[0];
      if e.ws in sockets && sockets[e.ws].ready == Open then
        match e.screen
        case None => (sockets, false)
        case Some(c) => Rescale(sockets[e.ws := Sent(sockets[e.ws], SetScale(agent, c))], screens[1..], agent)
      else Rescale(sockets, screens[1..], agent)
  }

  /** The sockets that have told a screen. */
  function Tellers(screens: seq<Told>): set<Sock> {
    set e | e in screens :: e.ws
  }

  ghost predicate Once(screens: seq<Told>) {
    forall i, j :: 0 <= i < j < |screens| ==> screens[i].ws != screens[j].ws
  }

  /** `Map.set` on the client screens: a key that is there keeps its place. */
  function Tell(screens: seq<Told>, ws: Sock, screen: Option<Screen>): seq<Told> {
    if screens == [] then [Told(ws, screen)]
    else if screens[0].ws == ws then [Told(ws, screen)] + screens[1..]
    else [screens[0]] + Tell(screens[1..], ws, screen)
  }

  function Untell(screens: seq<Told>, ws: Sock): seq<Told> {
    if screens == [] then []
    else if screens[0].ws == ws then screens[1..]
    else [screens[0]] + Untell(screens[1..], ws)
  }

  lemma TellersCons(e: Told, screens: seq<Told>)
    ensures Tellers([e] + screens) == {e.ws} + Tellers(screens)
    ensures Once([e] + screens) <==> e.ws !in Tellers(screens) && Once(screens)
  {
    var all := [e] + screens;
    assert forall i :: 0 <= i < |screens| ==> all[i + 1] == screens[i] && screens[i] in screens;
    assert Tellers(all) == {e.ws} + Tellers(screens);
    if e.ws !in Tellers(screens) && Once(screens) {
      assert forall i :: 0 < i < |all| ==> all[i] == screens[i - 1] && all[i] in screens;
    }
    if Once(all) {
      forall i | 0 <= i < |screens| ensures screens[i].ws != e.ws {
        assert all[0].ws != all[i + 1].ws;
      }
      forall i, j | 0 <= i < j < |screens| ensures screens[i].ws != screens[j].ws {
        assert all[i + 1].ws != all[j + 1].ws;
      }
    }
  }

  lemma {:induction false} TellKeeps(screens: seq<Told>, ws: Sock, screen: Option<Screen>)
    requires Once(screens)
    ensures Tellers(Tell(screens, ws, screen)) == Tellers(screens) + {ws} && Once(Tell(screens, ws, screen))
  {
    hide Tellers, Once;
    TellersCons(Told(ws, screen), []);
    assert [Told(ws, screen)] + [] == [Told(ws, screen)];
    NobodyTold();
    if screens != [] {
      var e := screens[0];
      assert screens == [e] + screens[1..];
      TellersCons(e, screens[1..]);
      if e.ws == ws {
        TellersCons(Told(ws, screen), screens[1..]);
      } else {
        TellKeeps(screens[1..], ws, screen);
        TellersCons(e, Tell(screens[1..], ws, screen));
      }
    }
  }

  lemma NobodyTold()
    ensures Tellers([]) == {} && Once([])
  {
  }

  lemma {:induction false} UntellKeeps(screens: seq<Told>, ws: Sock)
    requires Once(screens)
    ensures Tellers(Untell(screens, ws)) == Tellers(screens) - {ws} && Once(Untell(screens, ws))
  {
    hide Tellers, Once;
    NobodyTold();
    if screens != [] {
      var e := screens[0];
      assert screens == [e] + screens[1..];
      TellersCons(e, screens[1..]);
      if e.ws != ws {
        UntellKeeps(screens[1..], ws);
        TellersCons(e, Untell(screens[1..], ws));
      }
    }
  }

  ghost predicate AgentOpen(s: State, x: Session) {
    x.agent.Some? && x.agent.value in s.sockets && s.sockets[x.agent.value].ready == Open
  }

  /** The session of `sid`, created if there is none. */
  ghost function WithSession(s: State, sid: string): (r: State)
    requires Wf(s)
    ensures sid in r.sessions && r == s.(sessions := r.sessions, heap := r.heap)
  {
    if sid in s.sessions then s
    else s.(sessions := s.sessions[sid := |s.heap|], heap := s.heap + [EmptySession])
  }

  function Refuse(s: State, ws: Sock): State {
    s.(sockets := s.sockets[ws := Socket(Closed, Refused, [])], active := s.active - 1)
  }

  ghost function JoinAgent(s: State, ws: Sock, sid: string): State
    requires sid in s.sessions && s.sessions[sid] < |s.heap|
  {
    var ref := s.sessions[sid];
    var x := s.heap[ref];
    if AgentOpen(s, x) then Refuse(s, ws)
    else
      s.(heap := s.heap[ref := x.(agent := Some(ws))], agents := s.agents + 1,
         sockets := Broadcast(s.sockets, x.viewers.Values, AgentStatus(true))[ws := Socket(Open, Agent(sid, ref), [])])
  }

  ghost function JoinViewer(s: State, ws: Sock, sid: string, vid: nat): State
    requires sid in s.sessions && s.sessions[sid] < |s.heap|
  {
    var ref := s.sessions[sid];
    var x := s.heap[ref];
    s.(heap := s.heap[ref := x.(viewers := x.viewers[vid := ws])], viewers := s.viewers + 1,
       sockets := s.sockets[ws := Socket(Open, Viewer(sid, ref, vid), [AgentStatus(AgentOpen(s, x))])])
  }

  ghost function OnConnect(s: State, ws: Sock, path: Path, sid: string, vid: nat): State
    requires Wf(s) && ws !in s.sockets
  {
    var s1 := s.(total := s.total + 1, active := s.active + 1);
    if sid == "" then Refuse(s1, ws)
    else
      var s2 := WithSession(s1, sid);
      match path
      case AgentPath => JoinAgent(s2, ws, sid)
      case ViewerPath => JoinViewer(s2, ws, sid, vid)
      case OtherPath => Refuse(s2, ws)
  }

  /** `cleanupSessionIfEmpty`: looks the session up by name. */
  function Cleanup(s: State, sid: string): State
    requires sid in s.sessions ==> s.sessions[sid] < |s.heap|
  {
    if sid in s.sessions && s.heap[s.sessions[sid]].agent == None && s.heap[s.sessions[sid]].viewers == map[]
    then s.(sessions := s.sessions - {sid}) else s
  }

  function Without(x: Session, vid: nat, ws: Sock): Session {
    x.(viewers := x.viewers - {vid}, clientScreens := Untell(x.clientScreens, ws))
  }

  /** What a close handler does before it looks for an empty session. */
  function Depart(s: State, ws: Sock): State
    requires Wf(s) && ws in s.sockets && s.sockets[ws].role != Refused
  {
    var k := s.sockets[ws];
    var x := s.heap[k.role.ref];
    var sockets := s.sockets[ws := k.(ready := Closed)];
    if k.role.Agent? then
      s.(heap := s.heap[k.role.ref := x.(agent := None)], agents := s.agents - 1, active := s.active - 1,
         sockets := Broadcast(sockets, x.viewers.Values, AgentStatus(false)))
    else
      s.(heap := s.heap[k.role.ref := Without(x, k.role.vid, ws)], viewers := s.viewers - 1,
         active := s.active - 1, sockets := sockets)
  }

  function OnClose(s: State, ws: Sock): State
    requires Wf(s) && ws in s.sockets && s.sockets[ws].role != Refused
  {
    Cleanup(Depart(s, ws), s.sockets[ws].role.sid)
  }

  function OnError(s: State, ws: Sock): State
    requires Wf(s) && ws in s.sockets && s.sockets[ws].role != Refused
  {
    var k := s.sockets[ws];
    var x := s.heap[k.role.ref];
    if k.role.Agent? then s.(agents := s.agents - 1, active := s.active - 1)
    else s.(heap := s.heap[k.role.ref := Without(x, k.role.vid, ws)], viewers := s.viewers - 1, active := s.active - 1)
  }

  function OnAgentSays(s: State, ws: Sock, m: AgentMessage): State
    requires Wf(s) && ws in s.sockets && s.sockets[ws].role.Agent?
  {
    var ref := s.sockets[ws].role.ref;
    var x := s.heap[ref];
    match m
    case AgentGarbage => s
    case ScreenInfo(screen, text) =>
      var (rescaled, done) := Rescale(s.sockets, x.clientScreens, screen);
      s.(heap := s.heap[ref := x.(agentScreen := Some(screen))],
         sockets := if done then Broadcast(rescaled, x.viewers.Values, FromAgent(text, Some(screen))) else rescaled)
    case AgentOther(text) =>
      s.(sockets := Broadcast(s.sockets, x.viewers.Values, FromAgent(text, x.agentScreen)))
  }

  function OnViewerSays(s: State, ws: Sock, m: ViewerMessage): State
    requires Wf(s) && ws in s.sockets && s.sockets[ws].role.Viewer?
  {
    var k := s.sockets[ws];
    var x := s.heap[k.role.ref];
    match m
    case ViewerGarbage => s
    case ClientInfo(screen) =>
      s.(heap := s.heap[k.role.ref := x.(clientScreens := Tell(x.clientScreens, ws, screen))],
         sockets := if screen.Some? && x.agentScreen.Some?
           then s.sockets[ws := Sent(k, SetScale(x.agentScreen.value, screen.value))] else s.sockets)
    case Input(text) =>
      if x.agent.Some? && x.agent.value in s.sockets
      then s.(sockets := s.sockets[x.agent.value := Sent(s.sockets[x.agent.value], FromViewer(text))])
      else s
  }

  ghost function Step(s: State, e: Event): State
    requires Wf(s) && Enabled(s, e)
  {
    match e
    case Connect(ws, path, sid, vid) => OnConnect(s, ws, path, sid, vid)
    case AgentSays(ws, m) => OnAgentSays(s, ws, m)
    case ViewerSays(ws, m) => OnViewerSays(s, ws, m)
    case BeginClose(ws) => s.(sockets := s.sockets[ws := s.sockets[ws].(ready := Closing)])
    case Close(ws) => OnClose(s, ws)
    case Error(ws) => OnError(s, ws)
  }

  lemma HeapUpdated(heap: seq<Session>, keys: set<Sock>, more: set<Sock>, ref: Ref, x: Session)
    requires HeapWf(heap, keys) && keys <= more && ref < |heap| && SessionWf(x, more)
    ensures HeapWf(heap[ref := x], more) && HeapWf(heap, more)
  {
  }

  lemma CreatedWf(s: State, sid: string)
    requires Wf(s)
    ensures Wf(WithSession(s, sid))
  {
  }

  lemma SessionJoined(x: Session, keys: set<Sock>, ws: Sock, vid: nat)
    requires SessionWf(x, keys) && ws !in keys
    ensures SessionWf(x.(agent := Some(ws)), keys + {ws})
    ensures SessionWf(x.(viewers := x.viewers[vid := ws]), keys + {ws})
  {
    var y := x.viewers[vid := ws];
    forall u, v | u in y && v in y && y[u] == y[v] ensures u == v {
      assert u != vid ==> y[u] == x.viewers[u] && x.viewers[u] in x.viewers.Values;
      assert v != vid ==> y[v] == x.viewers[v] && x.viewers[v] in x.viewers.Values;
    }
    assert y.Values <= x.viewers.Values + {ws};
  }

  lemma JoinWf(s: State, ws: Sock, sid: string, vid: nat)
    requires Wf(s) && sid in s.sessions && ws !in s.sockets
    ensures Wf(JoinAgent(s, ws, sid)) && Wf(JoinViewer(s, ws, sid, vid)) && Wf(Refuse(s, ws))
  {
    var x := s.heap[s.sessions[sid]];
    var keys := s.sockets.Keys;
    SessionJoined(x, keys, ws, vid);
    HeapUpdated(s.heap, keys, keys + {ws}, s.sessions[sid], x.(agent := Some(ws)));
    HeapUpdated(s.heap, keys, keys + {ws}, s.sessions[sid], x.(viewers := x.viewers[vid := ws]));
    hide SessionWf, HeapWf;
    assert JoinAgent(s, ws, sid).sockets.Keys == keys + {ws};
    assert JoinViewer(s, ws, sid, vid).sockets.Keys == keys + {ws};
    assert Refuse(s, ws).sockets.Keys == keys + {ws};
  }

  lemma CleanupWf(s: State, sid: string)
    requires Wf(s)
    ensures Wf(Cleanup(s, sid))
  {
    hide HeapWf, RolesWf;
  }

  lemma ConnectWf(s: State, ws: Sock, path: Path, sid: string, vid: nat)
    requires Wf(s) && ws !in s.sockets
    ensures Wf(OnConnect(s, ws, path, sid, vid))
  {
    var s1 := s.(total := s.total + 1, active := s.active + 1);
    CreatedWf(s1, sid);
    if sid != "" {
      JoinWf(WithSession(s1, sid), ws, sid, vid);
    } else {
      HeapGrown(s.heap, s.sockets.Keys, s.sockets.Keys + {ws});
      hide SessionWf, HeapWf;
      assert Refuse(s1, ws).sockets.Keys == s.sockets.Keys + {ws};
    }
  }

  /** No step leaves a reference dangling. */
  lemma StepWf(s: State, e: Event)
    requires Wf(s) && Enabled(s, e)
    ensures Wf(Step(s, e))
  {
    hide SessionWf, HeapWf, OnConnect, OnClose, OnError, OnAgentSays, OnViewerSays;
    match e
    case Connect(ws, path, sid, vid) => ConnectWf(s, ws, path, sid, vid);
    case BeginClose(ws) =>
      assert Step(s, e).sockets.Keys == s.sockets.Keys;
    case AgentSays(ws, m) => AgentSaysWf(s, ws, m);
    case ViewerSays(ws, m) => ViewerSaysWf(s, ws, m);
    case Close(ws) => CloseWf(s, ws);
    case Error(ws) => LeftWf(s, ws);
  }

  lemma HeapGrown(heap: seq<Session>, keys: set<Sock>, more: set<Sock>)
    requires HeapWf(heap, keys) && keys <= more
    ensures HeapWf(heap, more)
  {
  }

  lemma AgentSaysWf(s: State, ws: Sock, m: AgentMessage)
    requires Wf(s) && ws in s.sockets && s.sockets[ws].role.Agent?
    ensures Wf(OnAgentSays(s, ws, m))
  {
    var ref := s.sockets[ws].role.ref;
    var x := s.heap[ref];
    var keys := s.sockets.Keys;
    if m.ScreenInfo? {
      HeapUpdated(s.heap, keys, keys, ref, x.(agentScreen := Some(m.screen)));
    }
    hide SessionWf, HeapWf;
    assert OnAgentSays(s, ws, m).sockets.Keys == keys;
  }

  lemma ViewerSaysWf(s: State, ws: Sock, m: ViewerMessage)
    requires Wf(s) && ws in s.sockets && s.sockets[ws].role.Viewer?
    ensures Wf(OnViewerSays(s, ws, m))
  {
    var ref := s.sockets[ws].role.ref;
    var x := s.heap[ref];
    var keys := s.sockets.Keys;
    if m.ClientInfo? {
      TellKeeps(x.clientScreens, ws, m.client);
      HeapUpdated(s.heap, keys, keys, ref, x.(clientScreens := Tell(x.clientScreens, ws, m.client)));
    }
    hide SessionWf, HeapWf;
    assert OnViewerSays(s, ws, m).sockets.Keys == keys;
  }

  /** A session without a viewer, or without its agent, is as well-formed as before. */
  lemma LeftWf(s: State, ws: Sock)
    requires Wf(s) && ws in s.sockets && s.sockets[ws].role != Refused
    ensures Wf(OnError(s, ws))
    ensures var r := s.sockets[ws].role; var x := s.heap[r.ref]; var keys := s.sockets.Keys;
      && HeapWf(s.heap[r.ref := x.(agent := None)], keys)
      && (r.Viewer? ==> HeapWf(s.heap[r.ref := Without(x, r.vid, ws)], keys))
  {
    var role := s.sockets[ws].role;
    var x := s.heap[role.ref];
    var keys := s.sockets.Keys;
    HeapUpdated(s.heap, keys, keys, role.ref, x.(agent := None));
    if role.Viewer? {
      UntellKeeps(x.clientScreens, ws);
      HeapUpdated(s.heap, keys, keys, role.ref, Without(x, role.vid, ws));
    }
  }

  lemma DepartWf(s: State, ws: Sock)
    requires Wf(s) && ws in s.sockets && s.sockets[ws].role != Refused
    ensures Wf(Depart(s, ws))
  {
    LeftWf(s, ws);
    hide SessionWf, HeapWf;
    assert Depart(s, ws).sockets.Keys == s.sockets.Keys;
  }

  lemma CloseWf(s: State, ws: Sock)
    requires Wf(s) && ws in s.sockets && s.sockets[ws].role != Refused
    ensures Wf(OnClose(s, ws))
  {
    DepartWf(s, ws);
    CleanupWf(Depart(s, ws), s.sockets[ws].role.sid);
  }
}
