/** What every run of the relay keeps, and exactly which events break it. */
module RelayConsistency {
  import opened Options
  import opened RelayModel

  /** The last agent status that the server itself has sent. */
  function LastStatus(sent: seq<Message>): Option<bool> {
    if sent == [] then None
    else if sent[|sent| - 1].AgentStatus? then Some(sent[|sent| - 1].connected)
    else LastStatus(sent[..|sent| - 1])
  }

  lemma LastSent(sent: seq<Message>, m: Message)
    ensures LastStatus(sent + [m]) == if m.AgentStatus? then Some(m.connected) else LastStatus(sent)
  {
    assert (sent + [m])[..|sent|] == sent;
  }

  function LiveAgents(sockets: map<Sock, Socket>): set<Sock> {
    set w | w in sockets && sockets[w].role.Agent? && Live(sockets[w])
  }

  function LiveViewers(sockets: map<Sock, Socket>): set<Sock> {
    set w | w in sockets && sockets[w].role.Viewer? && Live(sockets[w])
  }

  // ---------------------------------------------------------------------------
  // Counters, in every run
  // ---------------------------------------------------------------------------

  /** Each counter is the number of live sockets, less the error events there have been. */
  ghost predicate Counted(s: State, agentErrors: nat, viewerErrors: nat) {
    && s.agents == |LiveAgents(s.sockets)| - agentErrors
    && s.viewers == |LiveViewers(s.sockets)| - viewerErrors
    && s.active == s.agents + s.viewers
  }

  lemma Entered(sockets: map<Sock, Socket>, ws: Sock, k: Socket)
    requires ws !in sockets
    ensures |LiveAgents(sockets[ws := k])| == |LiveAgents(sockets)| + if Live(k) && k.role.Agent? then 1 else 0
    ensures |LiveViewers(sockets[ws := k])| == |LiveViewers(sockets)| + if Live(k) && k.role.Viewer? then 1 else 0
  {
    var t := sockets[ws := k];
    AgentEntered(sockets, ws, k);
    ViewerEntered(sockets, ws, k);
  }

  lemma AgentEntered(sockets: map<Sock, Socket>, ws: Sock, k: Socket)
    requires ws !in sockets
    ensures ws !in LiveAgents(sockets)
    ensures LiveAgents(sockets[ws := k]) == LiveAgents(sockets) + if Live(k) && k.role.Agent? then {ws} else {}
  {
  }

  lemma ViewerEntered(sockets: map<Sock, Socket>, ws: Sock, k: Socket)
    requires ws !in sockets
    ensures ws !in LiveViewers(sockets)
    ensures LiveViewers(sockets[ws := k]) == LiveViewers(sockets) + if Live(k) && k.role.Viewer? then {ws} else {}
  {
  }

  /** The same sockets are alive. */
  ghost predicate SameLives(a: map<Sock, Socket>, b: map<Sock, Socket>) {
    a.Keys == b.Keys && forall w :: w in a ==> Live(a[w]) == Live(b[w]) && a[w].role == b[w].role
  }

  lemma SameLive(a: map<Sock, Socket>, b: map<Sock, Socket>)
    requires SameLives(a, b)
    ensures LiveAgents(a) == LiveAgents(b) && LiveViewers(a) == LiveViewers(b)
  {
    assert LiveAgents(a) == LiveAgents(b);
    assert LiveViewers(a) == LiveViewers(b);
  }

  lemma Left(sockets: map<Sock, Socket>, ws: Sock)
    requires ws in sockets && Live(sockets[ws])
    ensures var t := sockets[ws := sockets[ws].(ready := Closed)];
      && |LiveAgents(t)| == |LiveAgents(sockets)| - (if sockets[ws].role.Agent? then 1 else 0)
      && |LiveViewers(t)| == |LiveViewers(sockets)| - (if sockets[ws].role.Viewer? then 1 else 0)
  {
    var t := sockets[ws := sockets[ws].(ready := Closed)];
    assert LiveAgents(t) == LiveAgents(sockets) - {ws};
    assert LiveViewers(t) == LiveViewers(sockets) - {ws};
  }

  lemma ConnectCounted(s: State, ws: Sock, path: Path, sid: string, vid: nat, agentErrors: nat, viewerErrors: nat)
    requires Wf(s) && ws !in s.sockets && Counted(s, agentErrors, viewerErrors)
    ensures Counted(OnConnect(s, ws, path, sid, vid), agentErrors, viewerErrors)
    ensures OnConnect(s, ws, path, sid, vid).total == s.total + 1
  {
    hide LiveAgents, LiveViewers;
    var t := OnConnect(s, ws, path, sid, vid);
    Entered(s.sockets, ws, t.sockets[ws]);
    if sid != "" && path == AgentPath {
      var s2 := WithSession(s.(total := s.total + 1, active := s.active + 1), sid);
      var told := Broadcast(s.sockets, s2.heap[s2.sessions[sid]].viewers.Values, AgentStatus(true));
      SameLive(s.sockets, told);
      Entered(told, ws, t.sockets[ws]);
    }
  }

  lemma StepCounted(s: State, e: Event, agentErrors: nat, viewerErrors: nat)
    requires Wf(s) && Enabled(s, e) && Counted(s, agentErrors, viewerErrors)
    ensures Counted(Step(s, e), agentErrors + OnAgent(s, e), viewerErrors + OnViewer(s, e))
    ensures Step(s, e).total == s.total + if e.Connect? then 1 else 0
  {
    hide LiveAgents, LiveViewers, OnConnect, OnClose, OnAgentSays, OnViewerSays, Wf;
    match e
    case Connect(ws, path, sid, vid) => ConnectCounted(s, ws, path, sid, vid, agentErrors, viewerErrors);
    case Close(ws) => CloseCounted(s, ws, agentErrors, viewerErrors);
    case AgentSays(ws, m) => AgentSaysCounted(s, ws, m);
    case ViewerSays(ws, m) => ViewerSaysCounted(s, ws, m);
    case _ => SameLive(s.sockets, Step(s, e).sockets);
  }

  lemma CloseCounted(s: State, ws: Sock, agentErrors: nat, viewerErrors: nat)
    requires Wf(s) && ws in s.sockets && Live(s.sockets[ws]) && Counted(s, agentErrors, viewerErrors)
    ensures Counted(OnClose(s, ws), agentErrors, viewerErrors) && OnClose(s, ws).total == s.total
  {
    hide LiveAgents, LiveViewers;
    Left(s.sockets, ws);
    SameLive(s.sockets[ws := s.sockets[ws].(ready := Closed)], OnClose(s, ws).sockets);
  }

  ghost predicate SameCounters(s: State, t: State) {
    s.agents == t.agents && s.viewers == t.viewers && s.active == t.active && s.total == t.total
    && LiveAgents(s.sockets) == LiveAgents(t.sockets) && LiveViewers(s.sockets) == LiveViewers(t.sockets)
  }

  lemma AgentSaysCounted(s: State, ws: Sock, m: AgentMessage)
    requires Wf(s) && ws in s.sockets && s.sockets[ws].role.Agent?
    ensures SameCounters(s, OnAgentSays(s, ws, m))
  {
    hide LiveAgents, LiveViewers;
    SameLive(s.sockets, OnAgentSays(s, ws, m).sockets);
  }

  lemma ViewerSaysCounted(s: State, ws: Sock, m: ViewerMessage)
    requires Wf(s) && ws in s.sockets && s.sockets[ws].role.Viewer?
    ensures SameCounters(s, OnViewerSays(s, ws, m))
  {
    hide LiveAgents, LiveViewers;
    SameLive(s.sockets, OnViewerSays(s, ws, m).sockets);
  }

  /** Is the event an error on an agent's socket, on a viewer's? */
  function OnAgent(s: State, e: Event): nat {
    if e.Error? && e.ws in s.sockets && s.sockets[e.ws].role.Agent? then 1 else 0
  }

  function OnViewer(s: State, e: Event): nat {
    if e.Error? && e.ws in s.sockets && s.sockets[e.ws].role.Viewer? then 1 else 0
  }

  // ---------------------------------------------------------------------------
  // Consistency
  // ---------------------------------------------------------------------------

  /** A live socket's captured session is the one of that name, and lists the socket. */
  ghost predicate SocketOk(s: State, w: Sock)
    requires Wf(s) && w in s.sockets
  {
    var k := s.sockets[w];
    Live(k) ==>
      && k.role.sid in s.sessions && s.sessions[k.role.sid] == k.role.ref
      && var x := s.heap[k.role.ref];
        if k.role.Agent? then x.agent == Some(w)
        else
          && k.role.vid in x.viewers && x.viewers[k.role.vid] == w
          && (k.ready == Open ==> LastStatus(k.sent) == Some(x.agent.Some?))
  }

  /** A session lists only its own live sockets. */
  ghost predicate SessionListed(s: State, sid: string)
    requires Wf(s) && sid in s.sessions
  {
    var ref := s.sessions[sid];
    var x := s.heap[ref];
    && (x.agent.Some? ==> s.sockets[x.agent.value].role == Agent(sid, ref) && Live(s.sockets[x.agent.value]))
    && (forall v :: v in x.viewers ==>
          s.sockets[x.viewers[v]].role == Viewer(sid, ref, v) && Live(s.sockets[x.viewers[v]]))
    && Tellers(x.clientScreens) <= x.viewers.Values
  }

  /** And at least one. */
  ghost predicate SessionOk(s: State, sid: string)
    requires Wf(s) && sid in s.sessions
  {
    var x := s.heap[s.sessions[sid]];
    SessionListed(s, sid) && (x.agent.Some? || x.viewers != map[])
  }

  /**
   * Every live socket's session is the one in `sessions`; a session has at most one live agent; client
   * screens are of live viewers; no session is empty; the counters are the numbers of live sockets; the
   * last status an open viewer was sent is whether there is an agent.
   */
  ghost predicate Consistent(s: State) {
    && Wf(s)
    && (forall w :: w in s.sockets ==> SocketOk(s, w))
    && (forall sid :: sid in s.sessions ==> SessionOk(s, sid))
    && Counted(s, 0, 0)
  }

  /** The agent of the session of that name, if it has one, is open: it has not begun to close. */
  ghost predicate AgentSettled(s: State, sid: string)
    requires Wf(s)
  {
    sid in s.sessions && s.heap[s.sessions[sid]].agent.Some? ==> AgentOpen(s, s.heap[s.sessions[sid]])
  }

  /**
   * The events that keep this: no errors; nobody joins a session while its agent is closing; viewer ids are
   * fresh in their session; and an unknown path names a session that exists.
   */
  ghost predicate Regular(s: State, e: Event)
    requires Wf(s) && Enabled(s, e)
  {
    match e
    case Connect(ws, path, sid, vid) =>
      sid == "" ||
      (match path
       case OtherPath => sid in s.sessions
       case AgentPath => AgentSettled(s, sid)
       case ViewerPath => AgentSettled(s, sid) && (sid in s.sessions ==> vid !in s.heap[s.sessions[sid]].viewers))
    case Error(_) => false
    case _ => true
  }

  /** Same roles and states, except that a socket may begin to close; same last status. */
  ghost predicate AlikeSockets(a: map<Sock, Socket>, b: map<Sock, Socket>) {
    && a.Keys == b.Keys
    && forall w :: w in a ==>
         && a[w].role == b[w].role && LastStatus(a[w].sent) == LastStatus(b[w].sent)
         && (a[w].ready == b[w].ready || (a[w].ready == Open && b[w].ready == Closing))
  }

  /** Only agent screens differ, and the client screens of viewers. */
  ghost predicate AlikeHeap(a: seq<Session>, b: seq<Session>) {
    && |a| == |b|
    && forall r :: 0 <= r < |a| ==>
         && a[r].agent == b[r].agent && a[r].viewers == b[r].viewers
         && Tellers(b[r].clientScreens) <= Tellers(a[r].clientScreens) + b[r].viewers.Values
  }

  ghost predicate Alike(s: State, t: State) {
    && t == s.(heap := t.heap, sockets := t.sockets)
    && AlikeSockets(s.sockets, t.sockets) && AlikeHeap(s.heap, t.heap)
  }

  lemma ScreenTold(heap: seq<Session>, ref: Ref, screen: Screen, ws: Sock, client: Option<Screen>)
    requires ref < |heap| && Once(heap[ref].clientScreens)
    ensures AlikeHeap(heap, heap) && AlikeHeap(heap, heap[ref := heap[ref].(agentScreen := Some(screen))])
    ensures ws in heap[ref].viewers.Values ==>
      AlikeHeap(heap, heap[ref := heap[ref].(clientScreens := Tell(heap[ref].clientScreens, ws, client))])
  {
    hide Tellers, Once;
    TellKeeps(heap[ref].clientScreens, ws, client);
  }

  lemma AlikeConsistent(s: State, t: State)
    requires Consistent(s) && Wf(t) && Alike(s, t)
    ensures Consistent(t)
  {
    SameLive(s.sockets, t.sockets);
    forall w | w in t.sockets ensures SocketOk(t, w) {
      assert SocketOk(s, w);
    }
    forall sid | sid in t.sessions ensures SessionOk(t, sid) {
      assert SessionOk(s, sid);
    }
  }

  lemma StatusKept(k: Socket, m: Message)
    requires !m.AgentStatus?
    ensures LastStatus(Sent(k, m).sent) == LastStatus(k.sent)
  {
    LastSent(k.sent, m);
  }

  /** Only messages other than a status are sent. */
  ghost predicate OnlyData(a: map<Sock, Socket>, b: map<Sock, Socket>) {
    && a.Keys == b.Keys
    && forall w :: w in a ==>
         b[w].role == a[w].role && b[w].ready == a[w].ready && LastStatus(b[w].sent) == LastStatus(a[w].sent)
  }

  lemma OnlyDataAlike(a: map<Sock, Socket>, b: map<Sock, Socket>, c: map<Sock, Socket>)
    requires OnlyData(a, b) && OnlyData(b, c)
    ensures AlikeSockets(a, c)
  {
  }

  lemma NothingSent(a: map<Sock, Socket>)
    ensures OnlyData(a, a)
  {
  }

  lemma OneSent(a: map<Sock, Socket>, w: Sock, m: Message)
    requires w in a && !m.AgentStatus?
    ensures OnlyData(a, a[w := Sent(a[w], m)])
  {
    StatusKept(a[w], m);
  }

  lemma BroadcastData(a: map<Sock, Socket>, to: set<Sock>, m: Message)
    requires !m.AgentStatus?
    ensures OnlyData(a, Broadcast(a, to, m))
  {
    hide LastStatus;
    forall w | w in a ensures LastStatus(Broadcast(a, to, m)[w].sent) == LastStatus(a[w].sent) {
      StatusKept(a[w], m);
    }
  }

  lemma DataOnData(a: map<Sock, Socket>, b: map<Sock, Socket>, c: map<Sock, Socket>)
    requires OnlyData(a, b) && OnlyData(b, c)
    ensures OnlyData(a, c)
  {
  }

  lemma {:induction false} RescaleData(a: map<Sock, Socket>, screens: seq<Told>, agent: Screen)
    ensures OnlyData(a, Rescale(a, screens, agent).0)
    decreases |screens|
  {
    hide OnlyData;
    NothingSent(a);
    if screens != [] {
      var e := screens[0];
      RescaleData(a, screens[1..], agent);
      if e.ws in a && e.screen.Some? {
        var b := a[e.ws := Sent(a[e.ws], SetScale(agent, e.screen.value))];
        OneSent(a, e.ws, SetScale(agent, e.screen.value));
        RescaleData(b, screens[1..], agent);
        DataOnData(a, b, Rescale(b, screens[1..], agent).0);
      }
    }
  }

  lemma AgentSaysKept(s: State, ws: Sock, m: AgentMessage)
    requires Consistent(s) && Enabled(s, AgentSays(ws, m))
    ensures Consistent(OnAgentSays(s, ws, m))
  {
    var t := OnAgentSays(s, ws, m);
    AgentSaysWf(s, ws, m);
    var ref := s.sockets[ws].role.ref;
    var x := s.heap[ref];
    assert Once(x.clientScreens);
    hide Consistent, Wf, SessionWf, Broadcast, Rescale, OnlyData, AlikeSockets, AlikeHeap, Once;
    NothingSent(s.sockets);
    match m
    case AgentGarbage =>
    case ScreenInfo(screen, text) =>
      var rescaled := Rescale(s.sockets, x.clientScreens, screen).0;
      RescaleData(s.sockets, x.clientScreens, screen);
      NothingSent(rescaled);
      BroadcastData(rescaled, x.viewers.Values, FromAgent(text, Some(screen)));
      OnlyDataAlike(s.sockets, rescaled, t.sockets);
      ScreenTold(s.heap, ref, screen, ws, None);
      AlikeConsistent(s, t);
    case AgentOther(text) =>
      BroadcastData(s.sockets, x.viewers.Values, FromAgent(text, x.agentScreen));
      OnlyDataAlike(s.sockets, s.sockets, t.sockets);
      ScreenTold(s.heap, ref, "", ws, None);
      AlikeConsistent(s, t);
  }

  lemma ViewerSaysKept(s: State, ws: Sock, m: ViewerMessage)
    requires Consistent(s) && Enabled(s, ViewerSays(ws, m))
    ensures Consistent(OnViewerSays(s, ws, m))
  {
    var t := OnViewerSays(s, ws, m);
    ViewerSaysWf(s, ws, m);
    assert SocketOk(s, ws);
    var ref := s.sockets[ws].role.ref;
    var x := s.heap[ref];
    assert Once(x.clientScreens);
    hide Consistent, Wf, SessionWf, OnlyData, AlikeSockets, AlikeHeap, SocketOk, Once;
    NothingSent(s.sockets);
    match m
    case ViewerGarbage =>
    case ClientInfo(screen) =>
      if screen.Some? && x.agentScreen.Some? {
        OneSent(s.sockets, ws, SetScale(x.agentScreen.value, screen.value));
      }
      OnlyDataAlike(s.sockets, s.sockets, t.sockets);
      ScreenTold(s.heap, ref, "", ws, screen);
      AlikeConsistent(s, t);
    case Input(text) =>
      if x.agent.Some? && x.agent.value in s.sockets {
        OneSent(s.sockets, x.agent.value, FromViewer(text));
      }
      OnlyDataAlike(s.sockets, s.sockets, t.sockets);
      ScreenTold(s.heap, ref, "", ws, None);
      AlikeConsistent(s, t);
  }

  // ---------------------------------------------------------------------------
  // Joining
  // ---------------------------------------------------------------------------

  /** Consistency but for the counters, and the session `sid` may be empty: just created, or just left. */
  ghost predicate Joinable(s: State, sid: string) {
    && Wf(s) && sid in s.sessions && SessionListed(s, sid)
    && (forall w :: w in s.sockets ==> SocketOk(s, w))
    && (forall n :: n in s.sessions && n != sid ==> SessionOk(s, n))
  }

  ghost predicate Linked(s: State) {
    && Wf(s)
    && (forall w :: w in s.sockets ==> SocketOk(s, w))
    && (forall n :: n in s.sessions ==> SessionOk(s, n))
  }

  lemma ConsistentParts(s: State)
    ensures Consistent(s) <==> Wf(s) && Linked(s) && Counted(s, 0, 0)
  {
  }

  lemma SessionFound(s: State, sid: string)
    requires Linked(s)
    ensures Joinable(WithSession(s, sid), sid)
    ensures SessionOk(WithSession(s, sid), sid) <==> sid in s.sessions
    ensures var t := WithSession(s, sid);
      t.heap[t.sessions[sid]] == if sid in s.sessions then s.heap[s.sessions[sid]] else EmptySession
  {
    CreatedWf(s, sid);
    var t := WithSession(s, sid);
    forall w | w in t.sockets ensures SocketOk(t, w) {
      assert SocketOk(s, w);
    }
    forall n | n in t.sessions && n != sid ensures SessionOk(t, n) {
      assert SessionOk(s, n);
    }
  }

  lemma SocketRefused(s: State, ws: Sock, sid: string)
    requires Joinable(s, sid) && ws !in s.sockets
    ensures Linked(Refuse(s, ws)) <==> SessionOk(s, sid)
  {
    JoinWf(s, ws, sid, 0);
    var t := Refuse(s, ws);
    forall w | w in t.sockets ensures SocketOk(t, w) {
      assert w != ws ==> SocketOk(s, w);
    }
    hide SocketOk;
    forall n | n in t.sessions ensures SessionOk(t, n) <==> SessionOk(s, n) {
      RefusedSession(s, ws, n);
    }
  }

  lemma RefusedSession(s: State, ws: Sock, n: string)
    requires Wf(s) && n in s.sessions && ws !in s.sockets && Wf(Refuse(s, ws))
    ensures SessionOk(Refuse(s, ws), n) <==> SessionOk(s, n)
  {
    assert SessionWf(s.heap[s.sessions[n]], s.sockets.Keys);
    var x := s.heap[s.sessions[n]];
    assert forall v :: v in x.viewers ==> x.viewers[v] in x.viewers.Values;
  }

  lemma AgentJoined(s: State, ws: Sock, sid: string)
    requires Joinable(s, sid) && ws !in s.sockets && s.heap[s.sessions[sid]].agent == None
    ensures Linked(JoinAgent(s, ws, sid))
  {
    JoinWf(s, ws, sid, 0);
    var t := JoinAgent(s, ws, sid);
    hide SocketOk, SessionOk, SessionListed, Wf;
    forall w | w in t.sockets ensures SocketOk(t, w) {
      AgentJoinedSocket(s, ws, sid, w);
    }
    forall n | n in t.sessions ensures SessionOk(t, n) {
      AgentJoinedSession(s, ws, sid, n);
    }
  }

  lemma AgentJoinedSocket(s: State, ws: Sock, sid: string, w: Sock)
    requires Wf(s) && sid in s.sessions && SessionListed(s, sid) && ws !in s.sockets
    requires s.heap[s.sessions[sid]].agent == None && Wf(JoinAgent(s, ws, sid))
    requires w == ws || (w in s.sockets && SocketOk(s, w))
    ensures SocketOk(JoinAgent(s, ws, sid), w)
  {
    if w != ws {
      LastSent(s.sockets[w].sent, AgentStatus(true));
    }
  }

  lemma AgentJoinedSession(s: State, ws: Sock, sid: string, n: string)
    requires Wf(s) && sid in s.sessions && SessionListed(s, sid) && ws !in s.sockets
    requires s.heap[s.sessions[sid]].agent == None && Wf(JoinAgent(s, ws, sid))
    requires n in s.sessions && (n == sid || SessionOk(s, n))
    ensures SessionOk(JoinAgent(s, ws, sid), n)
  {
    var x := s.heap[s.sessions[n]];
    assert SessionWf(x, s.sockets.Keys);
    assert forall v :: v in x.viewers ==> x.viewers[v] in x.viewers.Values;
  }

  /** A second agent admitted while the first is closing: the first is live, but no longer its session's agent. */
  lemma AgentReplaced(s: State, ws: Sock, sid: string)
    requires Joinable(s, sid) && ws !in s.sockets
    requires s.heap[s.sessions[sid]].agent.Some? && !AgentOpen(s, s.heap[s.sessions[sid]])
    ensures !Linked(JoinAgent(s, ws, sid))
  {
    var t := JoinAgent(s, ws, sid);
    JoinWf(s, ws, sid, 0);
    var first := s.heap[s.sessions[sid]].agent.value;
    assert SocketOk(s, first);
    assert !SocketOk(t, first);
  }

  /** A viewer that joins while the agent is closing is told that there is none. */
  lemma ViewerMisled(s: State, ws: Sock, sid: string, vid: nat)
    requires Joinable(s, sid) && ws !in s.sockets
    requires s.heap[s.sessions[sid]].agent.Some? && !AgentOpen(s, s.heap[s.sessions[sid]])
    ensures !Linked(JoinViewer(s, ws, sid, vid))
  {
    var t := JoinViewer(s, ws, sid, vid);
    JoinWf(s, ws, sid, vid);
    LastSent([], AgentStatus(false));
    assert [] + [AgentStatus(false)] == [AgentStatus(false)];
    assert !SocketOk(t, ws);
  }

  lemma ViewerJoined(s: State, ws: Sock, sid: string, vid: nat)
    requires Joinable(s, sid) && ws !in s.sockets && vid !in s.heap[s.sessions[sid]].viewers
    requires AgentOpen(s, s.heap[s.sessions[sid]]) <==> s.heap[s.sessions[sid]].agent.Some?
    ensures Linked(JoinViewer(s, ws, sid, vid))
  {
    var t := JoinViewer(s, ws, sid, vid);
    JoinWf(s, ws, sid, vid);
    hide SocketOk, SessionOk, Wf;
    forall w | w in t.sockets ensures SocketOk(t, w) {
      ViewerJoinedSocket(s, ws, sid, vid, w);
    }
    forall n | n in t.sessions ensures SessionOk(t, n) {
      ViewerListed(s, ws, sid, vid, n);
    }
  }

  lemma ViewerJoinedSocket(s: State, ws: Sock, sid: string, vid: nat, w: Sock)
    requires Wf(s) && sid in s.sessions && ws !in s.sockets && vid !in s.heap[s.sessions[sid]].viewers
    requires AgentOpen(s, s.heap[s.sessions[sid]]) <==> s.heap[s.sessions[sid]].agent.Some?
    requires Wf(JoinViewer(s, ws, sid, vid)) && (w == ws || (w in s.sockets && SocketOk(s, w)))
    ensures SocketOk(JoinViewer(s, ws, sid, vid), w)
  {
    LastSent([], AgentStatus(s.heap[s.sessions[sid]].agent.Some?));
    assert [] + [AgentStatus(s.heap[s.sessions[sid]].agent.Some?)] == [AgentStatus(s.heap[s.sessions[sid]].agent.Some?)];
  }

  lemma ViewerListed(s: State, ws: Sock, sid: string, vid: nat, n: string)
    requires Joinable(s, sid) && ws !in s.sockets && vid !in s.heap[s.sessions[sid]].viewers
    requires n in s.sessions && Wf(JoinViewer(s, ws, sid, vid))
    ensures SessionOk(JoinViewer(s, ws, sid, vid), n)
  {
    if n == sid {
      NewViewerListed(s, ws, sid, vid);
    } else {
      OldSessionListed(s, ws, sid, vid, n);
    }
  }

  lemma NewViewerListed(s: State, ws: Sock, sid: string, vid: nat)
    requires Wf(s) && sid in s.sessions && SessionListed(s, sid)
    requires ws !in s.sockets && vid !in s.heap[s.sessions[sid]].viewers
    requires Wf(JoinViewer(s, ws, sid, vid))
    ensures SessionOk(JoinViewer(s, ws, sid, vid), sid)
  {
    var x := s.heap[s.sessions[sid]];
    assert SessionWf(x, s.sockets.Keys);
    assert forall v :: v in x.viewers ==> x.viewers[v] in x.viewers.Values;
    assert vid in JoinViewer(s, ws, sid, vid).heap[s.sessions[sid]].viewers;
  }

  lemma OldSessionListed(s: State, ws: Sock, sid: string, vid: nat, n: string)
    requires Wf(s) && sid in s.sessions && n in s.sessions && n != sid && SessionOk(s, n)
    requires ws !in s.sockets && Wf(JoinViewer(s, ws, sid, vid))
    ensures SessionOk(JoinViewer(s, ws, sid, vid), n)
  {
    var x := s.heap[s.sessions[n]];
    assert SessionWf(x, s.sockets.Keys);
    assert forall v :: v in x.viewers ==> x.viewers[v] in x.viewers.Values;
  }

  /** A viewer id used twice: the first viewer is no longer listed. */
  lemma ViewerReplaced(s: State, ws: Sock, sid: string, vid: nat)
    requires Joinable(s, sid) && ws !in s.sockets && vid in s.heap[s.sessions[sid]].viewers
    ensures !Linked(JoinViewer(s, ws, sid, vid))
  {
    var t := JoinViewer(s, ws, sid, vid);
    JoinWf(s, ws, sid, vid);
    var first := s.heap[s.sessions[sid]].viewers[vid];
    assert first in s.heap[s.sessions[sid]].viewers.Values;
    assert SocketOk(s, first);
    assert !SocketOk(t, first);
  }

  lemma ConnectExact(s: State, ws: Sock, path: Path, sid: string, vid: nat)
    requires Consistent(s) && ws !in s.sockets
    ensures Consistent(OnConnect(s, ws, path, sid, vid)) <==> Regular(s, Connect(ws, path, sid, vid))
  {
    ConsistentParts(s);
    hide Consistent, Linked, Counted, OnConnect, Regular;
    ConnectCounted(s, ws, path, sid, vid, 0, 0);
    ConnectWf(s, ws, path, sid, vid);
    ConsistentParts(OnConnect(s, ws, path, sid, vid));
    ConnectLinked(s, ws, path, sid, vid);
  }

  lemma ConnectLinked(s: State, ws: Sock, path: Path, sid: string, vid: nat)
    requires Wf(s) && Linked(s) && ws !in s.sockets
    ensures Linked(OnConnect(s, ws, path, sid, vid)) <==> Regular(s, Connect(ws, path, sid, vid))
  {
    hide Linked, Wf, JoinAgent, JoinViewer, Refuse, WithSession;
    var s1 := s.(total := s.total + 1, active := s.active + 1);
    CountersAside(s, s1);
    if sid == "" {
      NobodyJoined(s1, ws);
    } else {
      JoinedExact(s1, ws, path, sid, vid);
    }
  }

  lemma JoinedExact(s: State, ws: Sock, path: Path, sid: string, vid: nat)
    requires Linked(s) && ws !in s.sockets
    ensures var s2 := WithSession(s, sid);
      && (Linked(JoinAgent(s2, ws, sid)) <==> AgentSettled(s, sid))
      && (Linked(JoinViewer(s2, ws, sid, vid)) <==>
            AgentSettled(s, sid) && (sid in s.sessions ==> vid !in s.heap[s.sessions[sid]].viewers))
      && (Linked(Refuse(s2, ws)) <==> sid in s.sessions)
  {
    var s2 := WithSession(s, sid);
    SessionFound(s, sid);
    SocketRefused(s2, ws, sid);
    var x := s2.heap[s2.sessions[sid]];
    AgentExact(s2, ws, sid);
    if x.agent.Some? && !AgentOpen(s2, x) {
      ViewerMisled(s2, ws, sid, vid);
    } else if vid in x.viewers {
      ViewerReplaced(s2, ws, sid, vid);
    } else {
      ViewerJoined(s2, ws, sid, vid);
    }
  }

  lemma AgentExact(s: State, ws: Sock, sid: string)
    requires Joinable(s, sid) && ws !in s.sockets
    ensures Linked(JoinAgent(s, ws, sid)) <==> AgentSettled(s, sid)
  {
    var x := s.heap[s.sessions[sid]];
    if x.agent == None {
      AgentJoined(s, ws, sid);
    } else if AgentOpen(s, x) {
      SocketRefused(s, ws, sid);
      assert JoinAgent(s, ws, sid) == Refuse(s, ws);
    } else {
      AgentReplaced(s, ws, sid);
    }
  }

  lemma CountersAside(s: State, t: State)
    requires Linked(s) && t == s.(total := t.total, active := t.active, agents := t.agents, viewers := t.viewers)
    ensures Wf(t) && Linked(t)
  {
    forall w | w in t.sockets ensures SocketOk(t, w) {
      assert SocketOk(s, w);
    }
    forall n | n in t.sessions ensures SessionOk(t, n) {
      assert SessionOk(s, n);
    }
  }

  lemma NobodyJoined(s: State, ws: Sock)
    requires Linked(s) && ws !in s.sockets
    ensures Linked(Refuse(s, ws))
  {
    var t := Refuse(s, ws);
    HeapGrown(s.heap, s.sockets.Keys, s.sockets.Keys + {ws});
    assert t.sockets.Keys == s.sockets.Keys + {ws};
    forall w | w in t.sockets ensures SocketOk(t, w) {
      assert w != ws ==> SocketOk(s, w);
    }
    forall n | n in t.sessions ensures SessionOk(t, n) {
      assert SessionOk(s, n);
    }
  }

  // ---------------------------------------------------------------------------
  // Leaving
  // ---------------------------------------------------------------------------

  lemma AgentLeftSocket(s: State, ws: Sock, w: Sock)
    requires Consistent(s) && ws in s.sockets && Live(s.sockets[ws]) && s.sockets[ws].role.Agent?
    requires w in s.sockets && Wf(Depart(s, ws))
    ensures SocketOk(Depart(s, ws), w)
  {
    assert SocketOk(s, ws) && SocketOk(s, w) && SessionOk(s, s.sockets[ws].role.sid);
    LastSent(s.sockets[w].sent, AgentStatus(false));
  }

  lemma AgentLeftSession(s: State, ws: Sock, n: string)
    requires Consistent(s) && ws in s.sockets && Live(s.sockets[ws]) && s.sockets[ws].role.Agent?
    requires n in s.sessions && n != s.sockets[ws].role.sid && Wf(Depart(s, ws))
    ensures SessionOk(Depart(s, ws), n)
  {
    assert SocketOk(s, ws) && SessionOk(s, n);
  }

  lemma AgentLeft(s: State, ws: Sock)
    requires Consistent(s) && ws in s.sockets && Live(s.sockets[ws]) && s.sockets[ws].role.Agent?
    ensures Joinable(Depart(s, ws), s.sockets[ws].role.sid)
  {
    var t := Depart(s, ws);
    var sid := s.sockets[ws].role.sid;
    DepartWf(s, ws);
    assert SocketOk(s, ws) && SessionOk(s, sid);
    assert sid in t.sessions && SessionListed(t, sid);
    hide SocketOk, SessionOk, SessionListed, Wf, Counted;
    forall w | w in t.sockets ensures SocketOk(t, w) {
      AgentLeftSocket(s, ws, w);
    }
    forall n | n in t.sessions && n != sid ensures SessionOk(t, n) {
      AgentLeftSession(s, ws, n);
    }
  }

  lemma ViewerLeftSocket(s: State, ws: Sock, w: Sock)
    requires Consistent(s) && ws in s.sockets && Live(s.sockets[ws]) && s.sockets[ws].role.Viewer?
    requires w in s.sockets && Wf(Depart(s, ws))
    ensures SocketOk(Depart(s, ws), w)
  {
    assert SocketOk(s, ws) && SocketOk(s, w) && SessionOk(s, s.sockets[ws].role.sid);
  }

  lemma ViewerLeftSession(s: State, ws: Sock, n: string)
    requires Consistent(s) && ws in s.sockets && Live(s.sockets[ws]) && s.sockets[ws].role.Viewer?
    requires n in s.sessions && n != s.sockets[ws].role.sid && Wf(Depart(s, ws))
    ensures SessionOk(Depart(s, ws), n)
  {
    assert SocketOk(s, ws) && SessionOk(s, n);
  }

  lemma ViewerDelisted(s: State, ws: Sock)
    requires Consistent(s) && ws in s.sockets && Live(s.sockets[ws]) && s.sockets[ws].role.Viewer?
    requires Wf(Depart(s, ws))
    ensures s.sockets[ws].role.sid in s.sessions && SessionListed(Depart(s, ws), s.sockets[ws].role.sid)
  {
    hide Consistent, Wf, LastStatus, Tellers, Untell, Once;
    ViewerNamed(s, ws);
    var role := s.sockets[ws].role;
    var x, t := s.heap[role.ref], Depart(s, ws);
    ScreensLeft(x, role.vid, ws);
    assert t.heap[role.ref] == Without(x, role.vid, ws);
    forall v | v in x.viewers - {role.vid} ensures t.sockets[x.viewers[v]] == s.sockets[x.viewers[v]] {
      assert s.sockets[x.viewers[v]].role.vid == v;
    }
  }

  lemma ViewerNamed(s: State, ws: Sock)
    requires Consistent(s) && ws in s.sockets && Live(s.sockets[ws]) && s.sockets[ws].role.Viewer?
    ensures Wf(s)
    ensures var role := s.sockets[ws].role;
      && role.ref < |s.heap| && role.sid in s.sessions && s.sessions[role.sid] == role.ref && SessionListed(s, role.sid)
      && var x := s.heap[role.ref];
      && role.vid in x.viewers && x.viewers[role.vid] == ws && Once(x.clientScreens)
      && (forall v :: v in x.viewers ==> x.viewers[v] in s.sockets) && (x.agent.Some? ==> x.agent.value in s.sockets)
  {
    var role := s.sockets[ws].role;
    var x := s.heap[role.ref];
    assert SocketOk(s, ws) && SessionOk(s, role.sid) && SessionWf(x, s.sockets.Keys);
    assert forall v :: v in x.viewers ==> x.viewers[v] in x.viewers.Values;
  }

  lemma ScreensLeft(x: Session, vid: nat, ws: Sock)
    requires vid in x.viewers && x.viewers[vid] == ws && Once(x.clientScreens)
    requires Tellers(x.clientScreens) <= x.viewers.Values
    ensures Tellers(Without(x, vid, ws).clientScreens) <= Without(x, vid, ws).viewers.Values
  {
    hide Tellers, Once;
    var y := Without(x, vid, ws);
    UntellKeeps(x.clientScreens, ws);
    forall w | w in Tellers(y.clientScreens) ensures w in y.viewers.Values {
      assert w in x.viewers.Values;
      var v :| v in x.viewers && x.viewers[v] == w;
      assert v in y.viewers && y.viewers[v] == w;
    }
  }

  lemma ViewerLeft(s: State, ws: Sock)
    requires Consistent(s) && ws in s.sockets && Live(s.sockets[ws]) && s.sockets[ws].role.Viewer?
    ensures Joinable(Depart(s, ws), s.sockets[ws].role.sid)
  {
    var t := Depart(s, ws);
    DepartWf(s, ws);
    ViewerDelisted(s, ws);
    hide SocketOk, SessionOk, SessionListed, Wf, Counted;
    SocketNamed(s, ws);
    forall w | w in t.sockets ensures SocketOk(t, w) {
      ViewerLeftSocket(s, ws, w);
    }
    forall n | n in t.sessions && n != s.sockets[ws].role.sid ensures SessionOk(t, n) {
      ViewerLeftSession(s, ws, n);
    }
  }

  lemma SocketNamed(s: State, ws: Sock)
    requires Consistent(s) && ws in s.sockets && Live(s.sockets[ws])
    ensures s.sockets[ws].role.sid in s.sessions
  {
    assert SocketOk(s, ws);
  }

  /** No live socket is left behind in a session that is dropped. */
  lemma Cleaned(s: State, sid: string)
    requires Joinable(s, sid)
    ensures Linked(Cleanup(s, sid))
  {
    CleanupWf(s, sid);
    var t := Cleanup(s, sid);
    forall w | w in t.sockets ensures SocketOk(t, w) {
      assert SocketOk(s, w);
    }
    forall n | n in t.sessions ensures SessionOk(t, n) {
      assert n != sid ==> SessionOk(s, n);
    }
  }

  lemma CloseKept(s: State, ws: Sock)
    requires Consistent(s) && Enabled(s, Close(ws))
    ensures Consistent(OnClose(s, ws))
  {
    CloseCounted(s, ws, 0, 0);
    if s.sockets[ws].role.Agent? {
      AgentLeft(s, ws);
    } else {
      ViewerLeft(s, ws);
    }
    hide SocketOk, SessionOk, SessionListed, Wf, Counted, Depart, Cleanup;
    Cleaned(Depart(s, ws), s.sockets[ws].role.sid);
  }

  // ---------------------------------------------------------------------------
  // Exactly the regular events keep consistency
  // ---------------------------------------------------------------------------

  lemma BeginCloseKept(s: State, ws: Sock)
    requires Consistent(s) && Enabled(s, BeginClose(ws))
    ensures Consistent(Step(s, BeginClose(ws)))
  {
    StepWf(s, BeginClose(ws));
    hide Consistent, SessionWf, LastStatus;
    AlikeConsistent(s, Step(s, BeginClose(ws)));
  }

  lemma ErrorMiscounts(s: State, ws: Sock)
    requires Consistent(s) && Enabled(s, Error(ws))
    ensures !Consistent(OnError(s, ws))
  {
    SameLive(s.sockets, OnError(s, ws).sockets);
  }

  /** From a consistent state, the next state is consistent if and only if the event is regular. */
  lemma StepExact(s: State, e: Event)
    requires Consistent(s) && Enabled(s, e)
    ensures Consistent(Step(s, e)) <==> Regular(s, e)
  {
    match e
    case Connect(ws, path, sid, vid) => ConnectExact(s, ws, path, sid, vid);
    case AgentSays(ws, m) => AgentSaysKept(s, ws, m);
    case ViewerSays(ws, m) => ViewerSaysKept(s, ws, m);
    case BeginClose(ws) => BeginCloseKept(s, ws);
    case Close(ws) => CloseKept(s, ws);
    case Error(ws) => ErrorMiscounts(s, ws);
  }

  // ---------------------------------------------------------------------------
  // Runs
  // ---------------------------------------------------------------------------

  /** The events can happen one after the other. */
  ghost predicate Possible(s: State, es: seq<Event>)
    requires Wf(s)
    decreases |es|
  {
    es != [] ==> Enabled(s, es[0]) && (StepWf(s, es[0]); Possible(Step(s, es[0]), es[1..]))
  }

  ghost function Run(s: State, es: seq<Event>): (r: State)
    requires Wf(s) && Possible(s, es)
    ensures Wf(r)
    decreases |es|
  {
    if es == [] then s else
      StepWf(s, es[0]);
      Run(Step(s, es[0]), es[1..])
  }

  /** Every event is regular when it happens. */
  ghost predicate AllRegular(s: State, es: seq<Event>)
    requires Wf(s) && Possible(s, es)
    decreases |es|
  {
    es != [] ==>
      Regular(s, es[0]) && (StepWf(s, es[0]); AllRegular(Step(s, es[0]), es[1..]))
  }

  /** The state is consistent at the start and after every event. */
  ghost predicate AlwaysConsistent(s: State, es: seq<Event>)
    requires Wf(s) && Possible(s, es)
    decreases |es|
  {
    Consistent(s) && (es != [] ==> (StepWf(s, es[0]); AlwaysConsistent(Step(s, es[0]), es[1..])))
  }

  lemma {:induction false} RunExact(s: State, es: seq<Event>)
    requires Consistent(s) && Possible(s, es)
    ensures AlwaysConsistent(s, es) <==> AllRegular(s, es)
    decreases |es|
  {
    hide SocketOk, SessionOk, Counted, Wf, Step, Enabled, Regular;
    if es != [] {
      StepWf(s, es[0]);
      StepExact(s, es[0]);
      if Consistent(Step(s, es[0])) {
        RunExact(Step(s, es[0]), es[1..]);
      }
    }
  }

  /** From the start of the server: every state of a run is consistent if and only if every event is regular. */
  lemma RelayConsistent(es: seq<Event>)
    requires Wf(Start()) && Possible(Start(), es)
    ensures AlwaysConsistent(Start(), es) <==> AllRegular(Start(), es)
  {
    StartConsistent();
    hide Wf, Step, Enabled, Regular, Consistent, AllRegular, AlwaysConsistent, Possible;
    RunExact(Start(), es);
  }

  lemma StartConsistent()
    ensures Consistent(Start())
    ensures (forall w :: w !in Start().sockets) && forall sid :: sid !in Start().sessions
  {
    assert LiveAgents(map[]) == {} && LiveViewers(map[]) == {};
  }

  lemma OneEvent(s: State, e: Event)
    requires Wf(s) && Enabled(s, e)
    ensures Possible(s, [e]) && Run(s, [e]) == Step(s, e)
  {
    hide Step, Enabled, Wf;
    StepWf(s, e);
    assert [e][1..] == [];
  }

  lemma TwoEvents(s: State, a: Event, b: Event)
    requires Wf(s) && Enabled(s, a) && Wf(Step(s, a)) && Enabled(Step(s, a), b)
    ensures Possible(s, [a, b]) && Run(s, [a, b]) == Step(Step(s, a), b)
  {
    hide Step, Enabled, Wf;
    OneEvent(Step(s, a), b);
    assert [a, b][1..] == [b];
  }

  /** A second agent is admitted while the first is closing. */
  lemma SecondAdmitted(s: State, first: Sock, second: Sock, vid: nat)
    requires Consistent(s) && first in s.sockets && s.sockets[first].role.Agent? && s.sockets[first].ready == Closing
    requires second !in s.sockets && s.sockets[first].role.sid != ""
    ensures var role := s.sockets[first].role; var x := s.heap[role.ref];
      var t := Step(s, Connect(second, AgentPath, role.sid, vid));
      && t.sessions == s.sessions && role.sid in s.sessions && s.sessions[role.sid] == role.ref
      && t.heap == s.heap[role.ref := x.(agent := Some(second))]
      && t.sockets == Broadcast(s.sockets, x.viewers.Values, AgentStatus(true))[second := Socket(Open, role, [])]
  {
    assert SocketOk(s, first);
    hide SocketOk, SessionOk, Counted, Broadcast, SessionWf, HeapWf, RolesWf;
  }

  /** When the agent's close event comes, its session has no agent, whoever that was. */
  lemma AgentDropped(t: State, first: Sock, w: Sock)
    requires Wf(t) && Enabled(t, Close(first)) && t.sockets[first].role.Agent? && w in t.sockets && w != first
    ensures var role := t.sockets[first].role; var x := t.heap[role.ref]; var k := t.sockets[w]; var u := Step(t, Close(first));
      && role.ref < |u.heap| && u.heap[role.ref].agent == None
      && (x.viewers == map[] && role.sid in t.sessions && t.sessions[role.sid] == role.ref ==> role.sid !in u.sessions)
      && w in u.sockets && u.sockets[w].role == k.role && u.sockets[w].ready == k.ready
      && (w in x.viewers.Values && k.ready == Open ==> LastStatus(u.sockets[w].sent) == Some(false))
  {
    LastSent(t.sockets[w].sent, AgentStatus(false));
    hide SessionWf, HeapWf, LastStatus;
  }

  /**
   * What comes of it: when the close event of the first one comes, the session has no agent, though the second is
   * live, and its open viewers are told that there is none. If it has no viewers, the session itself is dropped.
   */
  lemma SecondAgentLost(s: State, first: Sock, second: Sock, vid: nat)
    requires Consistent(s) && first in s.sockets && s.sockets[first].role.Agent? && s.sockets[first].ready == Closing
    requires second !in s.sockets && s.sockets[first].role.sid != ""
    ensures var role := s.sockets[first].role; var x := s.heap[role.ref];
      var es := [Connect(second, AgentPath, role.sid, vid), Close(first)];
      && Possible(s, es)
      && var u := Run(s, es);
        && second in u.sockets && Live(u.sockets[second]) && u.sockets[second].role == role
        && role.ref < |u.heap| && u.heap[role.ref].agent == None
        && (x.viewers == map[] ==> role.sid !in u.sessions)
        && forall w :: w in s.sockets && w in x.viewers.Values && s.sockets[w].ready == Open ==>
             w in u.sockets && LastStatus(u.sockets[w].sent) == Some(false)
  {
    var role := s.sockets[first].role;
    var join := Connect(second, AgentPath, role.sid, vid);
    var x := s.heap[role.ref];
    StepWf(s, join);
    SecondAdmitted(s, first, second, vid);
    var t := Step(s, join);
    hide Consistent, SessionWf, HeapWf, RolesWf, Step, Run, Possible, LastStatus;
    TwoEvents(s, join, Close(first));
    AgentDropped(t, first, second);
    forall w | w in s.sockets && w in x.viewers.Values && s.sockets[w].ready == Open
      ensures w in Step(t, Close(first)).sockets && LastStatus(Step(t, Close(first)).sockets[w].sent) == Some(false)
    {
      AgentDropped(t, first, w);
    }
  }

  /**
   * Two viewers of a new session with the same id, as two connections in one millisecond have: possible, irregular,
   * and inconsistent at the end.
   */
  lemma RepeatedViewerId(s: State, first: Sock, second: Sock, sid: string, vid: nat)
    requires Consistent(s) && Wf(s) && first !in s.sockets && second !in s.sockets && first != second
    requires sid !in s.sessions && sid != ""
    ensures var es := [Connect(first, ViewerPath, sid, vid), Connect(second, ViewerPath, sid, vid)];
      Possible(s, es) && !AllRegular(s, es) && !Consistent(Run(s, es))
  {
    hide Step, Wf, Consistent, Possible, Run, OnConnect;
    var a, b := Connect(first, ViewerPath, sid, vid), Connect(second, ViewerPath, sid, vid);
    NewViewer(s, first, sid, vid);
    SecondViewer(Step(s, a), second, sid, vid);
    TwoEvents(s, a, b);
    assert [a, b][1..] == [b];
  }

  /** So the server has an inconsistent run of two events. */
  lemma InconsistentRun()
    ensures var es := [Connect(0, ViewerPath, "session", 0), Connect(1, ViewerPath, "session", 0)];
      Wf(Start()) && Possible(Start(), es) && !Consistent(Run(Start(), es))
  {
    hide Step, Wf, Consistent, Possible, Run, Start;
    StartConsistent();
    ConsistentParts(Start());
    RepeatedViewerId(Start(), 0, 1, "session", 0);
  }

  /** A viewer opens a session of a new name. */
  lemma NewViewer(s: State, ws: Sock, sid: string, vid: nat)
    requires Consistent(s) && Wf(s) && ws !in s.sockets && sid !in s.sessions && sid != ""
    ensures var e := Connect(ws, ViewerPath, sid, vid); Enabled(s, e) && var t := Step(s, e);
      && Consistent(t) && Wf(t) && (forall w :: w in t.sockets ==> w == ws || w in s.sockets)
      && sid in t.sessions && vid in t.heap[t.sessions[sid]].viewers
  {
    hide Consistent, Wf;
    var e := Connect(ws, ViewerPath, sid, vid);
    StepExact(s, e);
    StepWf(s, e);
  }

  lemma SecondViewer(t: State, ws: Sock, sid: string, vid: nat)
    requires Consistent(t) && Wf(t) && ws !in t.sockets && sid != "" && sid in t.sessions
    requires vid in t.heap[t.sessions[sid]].viewers
    ensures var b := Connect(ws, ViewerPath, sid, vid);
      Enabled(t, b) && !Regular(t, b) && !Consistent(Step(t, b))
  {
    hide Consistent, Step;
    StepExact(t, Connect(ws, ViewerPath, sid, vid));
  }

  function Connects(es: seq<Event>): nat {
    if es == [] then 0 else (if es[0].Connect? then 1 else 0) + Connects(es[1..])
  }

  function Errors(es: seq<Event>): nat {
    if es == [] then 0 else (if es[0].Error? then 1 else 0) + Errors(es[1..])
  }

  /** In every run, regular or not: what the counters are, and what errors do to them. */
  lemma {:induction false} CountersExact(s: State, es: seq<Event>, a: nat, v: nat) returns (a2: nat, v2: nat)
    requires Wf(s) && Possible(s, es) && Counted(s, a, v)
    ensures Counted(Run(s, es), a2, v2) && a2 + v2 == a + v + Errors(es)
    ensures Run(s, es).total == s.total + Connects(es)
    decreases |es|
  {
    hide Wf, Step, Enabled, Counted, OnAgent, OnViewer;
    if es == [] {
      a2, v2 := a, v;
    } else {
      StepWf(s, es[0]);
      StepCounted(s, es[0], a, v);
      ErrorOnOne(s, es[0]);
      a2, v2 := CountersExact(Step(s, es[0]), es[1..], a + OnAgent(s, es[0]), v + OnViewer(s, es[0]));
    }
  }

  lemma ErrorOnOne(s: State, e: Event)
    requires Enabled(s, e)
    ensures OnAgent(s, e) + OnViewer(s, e) == if e.Error? then 1 else 0
  {
  }

  // ---------------------------------------------------------------------------
  // Who gets what
  // ---------------------------------------------------------------------------

  /** The name of the session that an event is about. */
  function NameOf(s: State, e: Event): string
    requires Enabled(s, e)
  {
    if e.Connect? then e.sid else s.sockets[e.ws].role.sid
  }

  ghost predicate Elsewhere(k: Socket, sid: string) {
    k.role == Refused || k.role.sid != sid
  }

  /** What is listed in a session belongs to it. */
  lemma Belongs(s: State, sid: string, w: Sock)
    requires Consistent(s) && sid in s.sessions && w in s.sockets && Elsewhere(s.sockets[w], sid)
    ensures var x := s.heap[s.sessions[sid]]; w !in x.viewers.Values && w !in Tellers(x.clientScreens) && x.agent != Some(w)
  {
    assert SessionOk(s, sid);
  }

  /** An event of one session touches no socket of another. */
  lemma SessionsIsolated(s: State, e: Event, w: Sock)
    requires Consistent(s) && Enabled(s, e) && w in s.sockets && Elsewhere(s.sockets[w], NameOf(s, e))
    ensures w in Step(s, e).sockets && Step(s, e).sockets[w] == s.sockets[w]
  {
    if e.Connect? {
      JoinIsolated(s, e, w);
    } else {
      assert SocketOk(s, e.ws);
      Belongs(s, s.sockets[e.ws].role.sid, w);
      hide Consistent, SocketOk, Wf, OnAgentSays, OnViewerSays, OnClose, OnError;
      SaysIsolated(s, e, w);
      LeavesIsolated(s, e.ws, w);
    }
  }

  lemma SaysIsolated(s: State, e: Event, w: Sock)
    requires Wf(s) && Enabled(s, e) && w in s.sockets && !e.Connect? && w != e.ws
    requires var x := s.heap[s.sockets[e.ws].role.ref];
      w !in x.viewers.Values && w !in Tellers(x.clientScreens) && x.agent != Some(w)
    ensures e.AgentSays? ==> w in Step(s, e).sockets && Step(s, e).sockets[w] == s.sockets[w]
    ensures e.ViewerSays? ==> w in Step(s, e).sockets && Step(s, e).sockets[w] == s.sockets[w]
  {
    var x := s.heap[s.sockets[e.ws].role.ref];
    if e.AgentSays? && e.said.ScreenInfo? {
      assert Once(x.clientScreens);
      RescaleExact(s.sockets, x.clientScreens, e.said.screen, w);
      NotTold(s.sockets, x.clientScreens, w);
    }
    hide SessionWf, Wf, Rescale, Tellers;
  }

  lemma LeavesIsolated(s: State, ws: Sock, w: Sock)
    requires Wf(s) && ws in s.sockets && s.sockets[ws].role != Refused && w in s.sockets && w != ws
    requires w !in s.heap[s.sockets[ws].role.ref].viewers.Values
    ensures w in OnClose(s, ws).sockets && OnClose(s, ws).sockets[w] == s.sockets[w]
    ensures OnError(s, ws).sockets == s.sockets
  {
    hide SessionWf;
  }

  lemma JoinIsolated(s: State, e: Event, w: Sock)
    requires Consistent(s) && Enabled(s, e) && e.Connect? && w in s.sockets && Elsewhere(s.sockets[w], e.sid)
    ensures w in Step(s, e).sockets && Step(s, e).sockets[w] == s.sockets[w]
  {
    hide SocketOk, SessionOk, Counted, RolesWf, HeapWf, NamesWf, Tellers, WithSession, JoinAgent, JoinViewer;
    if e.sid in s.sessions {
      Belongs(s, e.sid, w);
    }
    var s1 := s.(total := s.total + 1, active := s.active + 1);
    Found(s1, e.sid);
    if e.sid != "" {
      JoinsIsolated(WithSession(s1, e.sid), e.ws, e.sid, e.vid, w);
    }
  }

  lemma Found(s: State, sid: string)
    requires Wf(s)
    ensures var t := WithSession(s, sid);
      && t.sessions[sid] < |t.heap|
      && t.heap[t.sessions[sid]] == if sid in s.sessions then s.heap[s.sessions[sid]] else EmptySession
  {
  }

  lemma JoinsIsolated(s: State, ws: Sock, sid: string, vid: nat, w: Sock)
    requires sid in s.sessions && s.sessions[sid] < |s.heap| && w in s.sockets && w != ws
    requires w !in s.heap[s.sessions[sid]].viewers.Values
    ensures w in JoinAgent(s, ws, sid).sockets && JoinAgent(s, ws, sid).sockets[w] == s.sockets[w]
    ensures w in JoinViewer(s, ws, sid, vid).sockets && JoinViewer(s, ws, sid, vid).sockets[w] == s.sockets[w]
  {
  }

  /** An open viewer of the session. */
  ghost predicate Listening(sid: string, k: Socket) {
    Live(k) && k.role.Viewer? && k.role.sid == sid && k.ready == Open
  }

  /** Who is listed as a viewer of a session. */
  lemma ListedViewers(s: State, sid: string, w: Sock)
    requires Consistent(s) && sid in s.sessions && w in s.sockets
    ensures s.sessions[sid] < |s.heap|
    ensures w in s.heap[s.sessions[sid]].viewers.Values
        <==> Live(s.sockets[w]) && s.sockets[w].role.Viewer? && s.sockets[w].role.sid == sid
  {
    assert SocketOk(s, w) && SessionOk(s, sid);
  }

  /** Is the connection refused: no session named, an unknown path, or a second agent while the first is open? */
  ghost predicate Refusal(s: State, path: Path, sid: string)
    requires Wf(s)
  {
    sid == "" || path == OtherPath || (path == AgentPath && sid in s.sessions && AgentOpen(s, s.heap[s.sessions[sid]]))
  }

  /**
   * A connection: if it is refused, its socket is closed and nobody hears of it. A new agent is announced once to each
   * open viewer of its session and to nobody else; a new viewer, and nobody else, is told whether the agent is open.
   */
  lemma ConnectHeard(s: State, ws: Sock, path: Path, sid: string, vid: nat, w: Sock)
    requires Consistent(s) && ws !in s.sockets && (w == ws || w in s.sockets)
    ensures var u := Step(s, Connect(ws, path, sid, vid)).sockets;
      && w in u
      && if w == ws then
           if Refusal(s, path, sid) then u[w] == Socket(Closed, Refused, [])
           else
             && u[w].ready == Open && u[w].role.sid == sid
             && u[w].sent == if path == AgentPath then []
                             else [AgentStatus(sid in s.sessions && AgentOpen(s, s.heap[s.sessions[sid]]))]
         else
           u[w] == if path == AgentPath && !Refusal(s, path, sid) && Listening(sid, s.sockets[w])
                   then s.sockets[w].(sent := s.sockets[w].sent + [AgentStatus(true)]) else s.sockets[w]
  {
    var s1 := s.(total := s.total + 1, active := s.active + 1);
    if sid in s.sessions && w != ws {
      ListedViewers(s, sid, w);
    } else if w != ws {
      Unnamed(s, sid, w);
    }
    hide SocketOk, SessionOk, Counted, RolesWf, HeapWf, NamesWf, WithSession;
    Found(s1, sid);
  }

  lemma Unnamed(s: State, sid: string, w: Sock)
    requires Consistent(s) && sid !in s.sessions && w in s.sockets
    ensures !Listening(sid, s.sockets[w])
  {
    assert SocketOk(s, w);
  }

  /** An agent's close is announced once to each open viewer of its session, a viewer's to nobody. */
  lemma CloseHeard(s: State, ws: Sock, w: Sock)
    requires Consistent(s) && Enabled(s, Close(ws)) && w in s.sockets
    ensures var r := s.sockets[ws].role; var k := s.sockets[w]; var u := Step(s, Close(ws)).sockets;
      && w in u
      && u[w] == if w == ws then k.(ready := Closed)
                 else if r.Agent? && Listening(r.sid, k) then k.(sent := k.sent + [AgentStatus(false)])
                 else k
  {
    var r := s.sockets[ws].role;
    hide Consistent, Wf, Counted, Step;
    AtHome(s, ws);
    CloseSockets(s, ws, w);
    ListedViewers(s, r.sid, w);
  }

  lemma CloseSockets(s: State, ws: Sock, w: Sock)
    requires Wf(s) && Enabled(s, Close(ws)) && w in s.sockets
    ensures var r := s.sockets[ws].role; var k := s.sockets[w]; var u := Step(s, Close(ws)).sockets;
      && r.ref < |s.heap| && w in u
      && u[w] == if w == ws then k.(ready := Closed)
                 else if r.Agent? && w in s.heap[r.ref].viewers.Values then Sent(k, AgentStatus(false))
                 else k
  {
    hide HeapWf, NamesWf, Tellers, Untell;
  }

  lemma AtHome(s: State, ws: Sock)
    requires Consistent(s) && ws in s.sockets && Live(s.sockets[ws])
    ensures Wf(s) && s.sockets[ws].role.sid in s.sessions && s.sessions[s.sockets[ws].role.sid] == s.sockets[ws].role.ref
  {
    assert SocketOk(s, ws);
  }

  /**
   * A client_info: its sender, if it is open, is sent its scale exactly if the agent's screen is known and the message has
   * one, and nobody else is sent anything. The screen takes the place of what the sender told before.
   */
  lemma ClientHeard(s: State, ws: Sock, screen: Option<Screen>, w: Sock)
    requires Consistent(s) && Enabled(s, ViewerSays(ws, ClientInfo(screen))) && w in s.sockets
    ensures var r := s.sockets[ws].role; var k := s.sockets[w]; var x := s.heap[r.ref];
      var u := Step(s, ViewerSays(ws, ClientInfo(screen)));
      && w in u.sockets
      && u.sockets[w] == (if w == ws && k.ready == Open && x.agentScreen.Some? && screen.Some?
                          then k.(sent := k.sent + [SetScale(x.agentScreen.value, screen.value)]) else k)
      && r.ref < |u.heap|
      && forall e :: e in u.heap[r.ref].clientScreens <==> e == Told(ws, screen) || (e.ws != ws && e in x.clientScreens)
  {
    var x := s.heap[s.sockets[ws].role.ref];
    assert Once(x.clientScreens);
    TellMembers(x.clientScreens, ws, screen);
    hide Tell, Once;
  }

  lemma {:induction false} TellMembers(screens: seq<Told>, ws: Sock, screen: Option<Screen>)
    requires Once(screens)
    ensures forall e :: e in Tell(screens, ws, screen) <==> e == Told(ws, screen) || (e.ws != ws && e in screens)
  {
    if screens != [] {
      assert screens == [screens[0]] + screens[1..];
      TellersCons(screens[0], screens[1..]);
      if screens[0].ws == ws {
        assert forall e :: e in screens[1..] ==> e.ws in Tellers(screens[1..]);
      } else {
        TellMembers(screens[1..], ws, screen);
      }
    }
  }

  /** What an agent says goes once to each open viewer of its session, and to nobody else. */
  lemma AgentHeard(s: State, ws: Sock, text: string, w: Sock)
    requires Consistent(s) && Enabled(s, AgentSays(ws, AgentOther(text))) && w in s.sockets
    ensures var r := s.sockets[ws].role; var k := s.sockets[w];
      Step(s, AgentSays(ws, AgentOther(text))).sockets[w]
      == if Listening(r.sid, k) then k.(sent := k.sent + [FromAgent(text, s.heap[r.ref].agentScreen)]) else k
  {
    assert SocketOk(s, ws) && SocketOk(s, w) && SessionOk(s, s.sockets[ws].role.sid);
  }

  /** Does the computation of scales throw: has an open socket been stored without a screen? */
  predicate Throws(sockets: map<Sock, Socket>, screens: seq<Told>) {
    exists e | e in screens :: e.ws in sockets && sockets[e.ws].ready == Open && e.screen == None
  }

  /** The screen that a socket has told, as far as the loop gets. */
  function ScreenOf(sockets: map<Sock, Socket>, screens: seq<Told>, w: Sock): Option<Screen> {
    if screens == [] || (screens[0].ws in sockets && sockets[screens[0].ws].ready == Open && screens[0].screen == None) then None
    else if screens[0].ws == w then screens[0].screen
    else ScreenOf(sockets, screens[1..], w)
  }

  /** The loop ends exactly if nothing throws, and until then sends each open socket its scale once. */
  lemma {:induction false} RescaleExact(a: map<Sock, Socket>, screens: seq<Told>, agent: Screen, w: Sock)
    requires w in a && Once(screens)
    ensures var (b, done) := Rescale(a, screens, agent);
      && (done <==> !Throws(a, screens))
      && b[w] == match ScreenOf(a, screens, w) case None => a[w] case Some(c) => Sent(a[w], SetScale(agent, c))
    decreases |screens|
  {
    if screens != [] {
      hide Once, Tellers, Throws;
      var e := screens[0];
      var rest := screens[1..];
      assert screens == [e] + rest;
      TellersCons(e, rest);
      ThrowsCons(a, e, rest);
      NotTold(a, rest, e.ws);
      if e.ws in a && a[e.ws].ready == Open && e.screen.Some? {
        var b := a[e.ws := Sent(a[e.ws], SetScale(agent, e.screen.value))];
        RescaleExact(b, rest, agent, w);
        SameScreens(a, b, rest, w);
      } else {
        RescaleExact(a, rest, agent, w);
      }
    }
  }

  lemma ThrowsCons(a: map<Sock, Socket>, e: Told, rest: seq<Told>)
    ensures Throws(a, [e] + rest) <==> (e.ws in a && a[e.ws].ready == Open && e.screen == None) || Throws(a, rest)
  {
    assert forall x :: x in [e] + rest <==> x == e || x in rest;
  }

  lemma {:induction false} SameScreens(a: map<Sock, Socket>, b: map<Sock, Socket>, screens: seq<Told>, w: Sock)
    requires a.Keys == b.Keys && forall x :: x in a ==> a[x].ready == b[x].ready
    ensures ScreenOf(a, screens, w) == ScreenOf(b, screens, w) && Throws(a, screens) == Throws(b, screens)
  {
    if screens != [] {
      SameScreens(a, b, screens[1..], w);
    }
  }

  lemma {:induction false} NotTold(a: map<Sock, Socket>, screens: seq<Told>, w: Sock)
    requires w !in Tellers(screens)
    ensures ScreenOf(a, screens, w) == None
  {
    if screens != [] {
      assert screens[0] in screens;
      assert forall e :: e in screens[1..] ==> e in screens;
      NotTold(a, screens[1..], w);
    }
  }

  /**
   * A screen_info goes to each open viewer of the session, behind its own new scale if it has told its screen,
   * exactly if no open viewer has been stored without a screen. Otherwise the scales before that viewer's are
   * still sent, and the message goes to nobody.
   */
  lemma ScreenHeard(s: State, ws: Sock, screen: Screen, text: string, w: Sock)
    requires Consistent(s) && Enabled(s, AgentSays(ws, ScreenInfo(screen, text))) && w in s.sockets
    ensures var r := s.sockets[ws].role; var k := s.sockets[w]; var x := s.heap[r.ref];
      var scaled := match ScreenOf(s.sockets, x.clientScreens, w)
        case None => k
        case Some(c) => Sent(k, SetScale(screen, c));
      Step(s, AgentSays(ws, ScreenInfo(screen, text))).sockets[w]
      == if Listening(r.sid, k) && !Throws(s.sockets, x.clientScreens)
         then scaled.(sent := scaled.sent + [FromAgent(text, Some(screen))]) else scaled
  {
    var r := s.sockets[ws].role;
    var x := s.heap[r.ref];
    assert SocketOk(s, ws) && SocketOk(s, w) && SessionOk(s, r.sid);
    assert Once(x.clientScreens);
    RescaleExact(s.sockets, x.clientScreens, screen, w);
  }

  /** What a viewer enters goes to the agent of its session, if there is an open one, and to nobody else. */
  lemma ViewerHeard(s: State, ws: Sock, text: string, w: Sock)
    requires Consistent(s) && Enabled(s, ViewerSays(ws, Input(text))) && w in s.sockets
    ensures var r := s.sockets[ws].role; var k := s.sockets[w];
      Step(s, ViewerSays(ws, Input(text))).sockets[w]
      == if Live(k) && k.role.Agent? && k.role.sid == r.sid && k.ready == Open
         then k.(sent := k.sent + [FromViewer(text)]) else k
  {
    assert SocketOk(s, ws) && SocketOk(s, w) && SessionOk(s, s.sockets[ws].role.sid);
  }
}
