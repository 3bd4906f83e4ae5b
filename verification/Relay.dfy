/** The event handlers of Server/index.js, as they update the relay's maps, sessions and counters. */
module Relay {
  import opened Options
  import opened RelayModel

  class Server {
    var sessions: map<string, Ref>
    var heap: seq<Session>           // the session objects, by identity
    var sockets: map<Sock, Socket>   // ready state, captured variables and output of each socket
    var totalConnections: int
    var activeConnections: int
    var agentConnections: int
    var viewerConnections: int

    ghost function Model(): State
      reads this
    {
      State(sessions, heap, sockets, totalConnections, activeConnections, agentConnections, viewerConnections)
    }

    constructor ()
      ensures Model() == Start()
    {
      sessions, heap, sockets := map[], [], map[];
      totalConnections, activeConnections, agentConnections, viewerConnections := 0, 0, 0, 0;
    }

    /** `ws.send`, guarded by the ready state. */
    method Send(ws: Sock, m: Message)
      requires ws in sockets
      modifies this`sockets
      ensures sockets == old(sockets)[ws := Sent(old(sockets[ws]), m)]
    {
      if sockets[ws].ready == Open {
        sockets := sockets[ws := sockets[ws].(sent := sockets[ws].sent + [m])];
      }
      assert sockets == old(sockets)[ws := Sent(old(sockets[ws]), m)];
    }

    /** `session.viewers.forEach`. */
    method NotifyViewers(ref: Ref, m: Message)
      requires ref < |heap| && SessionWf(heap[ref], sockets.Keys)
      modifies this`sockets
      ensures sockets == Broadcast(old(sockets), heap[ref].viewers.Values, m)
    {
      var viewers := heap[ref].viewers;
      var todo := viewers.Keys;
      while todo != {}
        invariant todo <= viewers.Keys
        invariant sockets == Broadcast(old(sockets), set v | v in viewers && v !in todo :: viewers[v], m)
        decreases |todo|
      {
        var v :| v in todo;
        assert viewers[v] in viewers.Values;
        Send(viewers[v], m);
        todo := todo - {v};
      }
      assert (set v | v in viewers && v !in todo :: viewers[v]) == viewers.Values;
    }

    /** `session.clientScreens.forEach`; false if the computation of a scale has thrown. */
    method RescaleViewers(ref: Ref, screen: Screen) returns (done: bool)
      requires ref < |heap| && SessionWf(heap[ref], sockets.Keys)
      modifies this`sockets
      ensures (sockets, done) == Rescale(old(sockets), heap[ref].clientScreens, screen)
    {
      hide SessionWf;
      var screens := heap[ref].clientScreens;
      assert screens[0..] == screens;
      for i := 0 to |screens|
        invariant Rescale(sockets, screens[i..], screen) == Rescale(old(sockets), screens, screen)
      {
        var e := screens[i];
        assert screens[i..][0] == e && screens[i..][1..] == screens[i + 1..];
        if e.ws in sockets && sockets[e.ws].ready == Open {
          if e.screen == None {
            return false;
          }
          Send(e.ws, SetScale(screen, e.screen.value));
        }
      }
      return true;
    }

    method Refuse(ws: Sock)
      modifies this`sockets, this`activeConnections
      ensures Model() == RelayModel.Refuse(old(Model()), ws)
    {
      sockets := sockets[ws := Socket(Closed, Refused, [])];
      activeConnections := activeConnections - 1;
    }

    /** The `connection` handler. */
    method OnConnection(ws: Sock, path: Path, sessionId: string, viewerId: nat)
      requires Wf(Model()) && ws !in sockets
      modifies this
      ensures Model() == OnConnect(old(Model()), ws, path, sessionId, viewerId)
    {
      totalConnections := totalConnections + 1;
      activeConnections := activeConnections + 1;
      if sessionId == "" {
        Refuse(ws);
        return;
      }
      CreatedWf(Model(), sessionId);
      if sessionId !in sessions {
        sessions := sessions[sessionId := |heap|];
        heap := heap + [EmptySession];
      }
      match path
      case AgentPath => HandleAgentConnection(ws, sessionId, sessions[sessionId]);
      case ViewerPath => HandleViewerConnection(ws, sessionId, sessions[sessionId], viewerId);
      case OtherPath => Refuse(ws);
    }

    method HandleAgentConnection(ws: Sock, sessionId: string, session: Ref)
      requires Wf(Model()) && ws !in sockets && sessionId in sessions && sessions[sessionId] == session
      modifies this
      ensures Model() == JoinAgent(old(Model()), ws, sessionId)
    {
      var agent := heap[session].agent;
      if agent.Some? && sockets[agent.value].ready == Open {
        Refuse(ws);
        return;
      }
      var viewers := heap[session].viewers;
      SessionJoined(heap[session], sockets.Keys, ws, 0);
      ghost var told := Broadcast(sockets, viewers.Values, AgentStatus(true));
      NotifyViewers(session, AgentStatus(true));
      heap := heap[session := heap[session].(agent := Some(ws))];
      agentConnections := agentConnections + 1;
      sockets := sockets[ws := Socket(Open, Agent(sessionId, session), [])];
    }

    method HandleViewerConnection(ws: Sock, sessionId: string, session: Ref, viewerId: nat)
      requires Wf(Model()) && ws !in sockets && sessionId in sessions && sessions[sessionId] == session
      modifies this
      ensures Model() == JoinViewer(old(Model()), ws, sessionId, viewerId)
    {
      var viewers := heap[session].viewers;
      heap := heap[session := heap[session].(viewers := viewers[viewerId := ws])];
      viewerConnections := viewerConnections + 1;
      sockets := sockets[ws := Socket(Open, Viewer(sessionId, session, viewerId), [])];
      var agent := heap[session].agent;
      if agent.Some? && sockets[agent.value].ready == Open {
        Send(ws, AgentStatus(true));
      } else {
        Send(ws, AgentStatus(false));
      }
      ghost var status := AgentStatus(AgentOpen(old(Model()), old(heap)[session]));
      assert [] + [status] == [status];
      assert sockets == old(sockets)[ws := Socket(Open, Viewer(sessionId, session, viewerId), [status])];
    }

    method CleanupSessionIfEmpty(sessionId: string)
      requires Wf(Model())
      modifies this`sessions
      ensures Model() == Cleanup(old(Model()), sessionId)
    {
      if sessionId in sessions && heap[sessions[sessionId]].agent == None && heap[sessions[sessionId]].viewers == map[] {
        sessions := sessions - {sessionId};
      }
    }

    /** The agent's `message` handler. */
    method OnAgentMessage(ws: Sock, message: AgentMessage)
      requires Wf(Model()) && ws in sockets && sockets[ws].role.Agent?
      modifies this
      ensures Model() == OnAgentSays(old(Model()), ws, message)
    {
      var session := sockets[ws].role.ref;
      match message
      case AgentGarbage =>
      case ScreenInfo(screen, text) =>
        heap := heap[session := heap[session].(agentScreen := Some(screen))];
        var done := RescaleViewers(session, screen);
        if done {
          NotifyViewers(session, FromAgent(text, heap[session].agentScreen));
        }
      case AgentOther(text) =>
        NotifyViewers(session, FromAgent(text, heap[session].agentScreen));
    }

    /** A viewer's `message` handler. */
    method OnViewerMessage(ws: Sock, message: ViewerMessage)
      requires Wf(Model()) && ws in sockets && sockets[ws].role.Viewer?
      modifies this
      ensures Model() == OnViewerSays(old(Model()), ws, message)
    {
      var session := sockets[ws].role.ref;
      match message
      case ViewerGarbage =>
      case ClientInfo(screen) =>
        heap := heap[session := heap[session].(clientScreens := Tell(heap[session].clientScreens, ws, screen))];
        if screen.Some? && heap[session].agentScreen.Some? {
          Send(ws, SetScale(heap[session].agentScreen.value, screen.value));
        }
      case Input(text) =>
        var agent := heap[session].agent;
        if agent.Some? {
          Send(agent.value, FromViewer(text));
        }
    }

    /** The `close` handlers; the socket has just left its last state. */
    method OnCloseEvent(ws: Sock)
      requires Wf(Model()) && ws in sockets && sockets[ws].role != Refused
      modifies this
      ensures Model() == OnClose(old(Model()), ws)
    {
      DepartWf(Model(), ws);
      var role := sockets[ws].role;
      sockets := sockets[ws := sockets[ws].(ready := Closed)];
      activeConnections := activeConnections - 1;
      if role.Agent? {
        heap := heap[role.ref := heap[role.ref].(agent := None)];
        agentConnections := agentConnections - 1;
        NotifyViewers(role.ref, AgentStatus(false));
      } else {
        heap := heap[role.ref := Without(heap[role.ref], role.vid, ws)];
        viewerConnections := viewerConnections - 1;
      }
      CleanupSessionIfEmpty(role.sid);
    }

    /** The `error` handlers. */
    method OnErrorEvent(ws: Sock)
      requires Wf(Model()) && ws in sockets && sockets[ws].role != Refused
      modifies this
      ensures Model() == OnError(old(Model()), ws)
    {
      var role := sockets[ws].role;
      activeConnections := activeConnections - 1;
      if role.Agent? {
        agentConnections := agentConnections - 1;
      } else {
        heap := heap[role.ref := Without(heap[role.ref], role.vid, ws)];
        viewerConnections := viewerConnections - 1;
      }
    }
  }
}
