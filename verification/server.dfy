/** The chat server of src/server/server.cpp: per-connection sessions, the
    username index, `clientHandler`'s request handling and routing, and the
    connection handler's disconnect, receive and write steps. Sockets are
    file descriptors; what a read returns is a parameter and what a write
    emits is a result. */
module Server {
  import opened Wrappers
  import opened Surreal
  import opened Protocol
  import opened DataStore
  import Framing
  import Reactor

  type Fd = Reactor.Fd

  /** `ClientSession`. `wantsWrite` is whether the socket's epoll interest
      includes `EPOLLOUT`. */
  datatype Session = Session(
    authed: bool,
    username: Text,
    recv: Framing.RecvState,
    sendQueue: seq<Frame>,
    wantsWrite: bool)

  /** The server's globals: the store, `socket_sessions` and
      `username_sessions` (a username maps to the descriptor of the session
      it was bound to). */
  datatype ServerState = ServerState(store: ServerData, sessions: map<Fd, Session>, bindings: map<Text, Fd>)

  /** What `clientHandler` returns: the new state and the optional reply. */
  datatype Handled = Handled(state: ServerState, reply: Option<Frame>)

  /** A freshly accepted connection's session. */
  function NewSession(): (s: Session)
    ensures !s.authed && s.sendQueue == [] && !s.wantsWrite
    ensures s.recv == Framing.FreshRecvState()
  {
    Session(false, [], Framing.FreshRecvState(), [], false)
  }

  /** Every username binding names a live, logged-in session under that very
      name. (The converse fails: see `StaleLogoutUnbindsOther`.) */
  ghost predicate Consistent(st: ServerState)
  {
    forall n | n in st.bindings ::
      st.bindings[n] in st.sessions
      && st.sessions[st.bindings[n]].authed
      && st.sessions[st.bindings[n]].username == n
  }

  /** Every session's receive state awaits a full header when it awaits one. */
  ghost predicate Aligned(st: ServerState)
  {
    forall f | f in st.sessions :: Framing.Aligned(st.sessions[f].recv)
  }

  ghost predicate Valid(st: ServerState)
  {
    Consistent(st) && Aligned(st)
  }

  /** Going from `a` to `b` kept every login: the same bindings, the same
      sessions, each as logged in as before and under the same name. */
  predicate SameLogins(a: ServerState, b: ServerState)
  {
    && a.bindings == b.bindings
    && a.sessions.Keys == b.sessions.Keys
    && forall t | t in a.sessions ::
         b.sessions[t].authed == a.sessions[t].authed && b.sessions[t].username == a.sessions[t].username
  }

  /** Going from `a` to `b` kept every connection: the same sessions, each
      with the same receive state and the same write interest. */
  predicate SameConnections(a: ServerState, b: ServerState)
  {
    && a.sessions.Keys == b.sessions.Keys
    && forall t | t in a.sessions ::
         b.sessions[t].recv == a.sessions[t].recv && b.sessions[t].wantsWrite == a.sessions[t].wantsWrite
  }

  lemma SameLoginsKeepConsistent(a: ServerState, b: ServerState)
    requires SameLogins(a, b) && Consistent(a)
    ensures Consistent(b)
  {
    forall n | n in b.bindings
      ensures b.bindings[n] in b.sessions
      ensures b.sessions[b.bindings[n]].authed && b.sessions[b.bindings[n]].username == n
    {
      var t := a.bindings[n];
      assert t in a.sessions && a.sessions[t].authed && a.sessions[t].username == n;
    }
  }

  /** `reply` alone, with nothing else changed. */
  function Reply(st: ServerState, k: MessageKind): (h: Handled)
    ensures h.state == st && h.reply == Some(MakeFrame(k))
  {
    Handled(st, Some(MakeFrame(k)))
  }

  // ---------------------------------------------------------------- routing

  function Repeat(f: Frame, n: nat): (r: seq<Frame>)
    ensures |r| == n && forall i | 0 <= i < n :: r[i] == f
  {
    if n == 0 then [] else [f] + Repeat(f, n - 1)
  }

  /** The names bound to `target` other than `except`. */
  function BoundNames(bindings: map<Text, Fd>, target: Fd, except: Text): set<Text>
  {
    set n | n in bindings && n != except && bindings[n] == target
  }

  /** The broadcast loop: every binding whose name differs from `except`
      pushes `f` onto the queue of the session it names. */
  function Broadcast(st: ServerState, except: Text, f: Frame): (r: ServerState)
    ensures r.store == st.store && SameLogins(st, r) && SameConnections(st, r)
    ensures r.sessions.Keys == st.sessions.Keys
    ensures forall t | t in st.sessions :: r.sessions[t] == st.sessions[t].(sendQueue := r.sessions[t].sendQueue)
  {
    var sessions := map t | t in st.sessions ::
      st.sessions[t].(sendQueue := st.sessions[t].sendQueue + Repeat(f, |BoundNames(st.bindings, t, except)|));
    st.(sessions := sessions)
  }

  /** A direct delivery to the session a name is bound to. */
  function PushTo(st: ServerState, target: Fd, f: Frame): (r: ServerState)
    ensures r.store == st.store && SameLogins(st, r) && SameConnections(st, r)
    ensures r.sessions.Keys == st.sessions.Keys
    ensures target in st.sessions ==> r.sessions[target].sendQueue == st.sessions[target].sendQueue + [f]
    ensures forall t | t in st.sessions :: r.sessions[t] == st.sessions[t].(sendQueue := r.sessions[t].sendQueue)
    ensures forall t | t in st.sessions && t != target :: r.sessions[t] == st.sessions[t]
  {
    if target in st.sessions then
      var s := st.sessions[target];
      st.(sessions := st.sessions[target := s.(sendQueue := s.sendQueue + [f])])
    else st
  }

  /** In a consistent state the broadcast reaches each logged-in, bound user
      other than `except` exactly once, and nobody else. */
  lemma BroadcastOnce(st: ServerState, except: Text, f: Frame, t: Fd)
    requires Consistent(st) && t in st.sessions
    ensures var s := st.sessions[t];
      Broadcast(st, except, f).sessions[t].sendQueue
        == s.sendQueue + (if s.authed && s.username in st.bindings && st.bindings[s.username] == t && s.username != except then [f] else [])
  {
    var s := st.sessions[t];
    var names := BoundNames(st.bindings, t, except);
    if s.authed && s.username in st.bindings && st.bindings[s.username] == t && s.username != except {
      assert names == {s.username};
    } else {
      forall n | n in names
        ensures false
      {
      }
      assert names == {};
    }
  }

  // -------------------------------------------------------------- requests

  /** REGISTER: a taken username is refused with nothing changed; otherwise
      the account is appended. */
  function Register(st: ServerState, c: LoginPacket): (h: Handled)
    ensures SameLogins(st, h.state) && SameConnections(st, h.state)
    ensures Registered(st.store, c.username) ==> h == Reply(st, ErrUserExists)
    ensures !Registered(st.store, c.username) ==>
      h.reply == Some(MakeFrame(MsgOk))
      && h.state == st.(store := st.store.(users := st.store.users + [c]))
  {
    FindUserFound(st.store, c.username);
    if FindUser(st.store, c.username) < |st.store.users| then Reply(st, ErrUserExists)
    else Handled(st.(store := st.store.(users := st.store.users + [c])), Some(MakeFrame(MsgOk)))
  }

  /** The `MSG_SEND` frame that delivers one held message. */
  function Announce(m: MessagePacket): Frame
  {
    MakeFrameWith(MsgSend, Message(m))
  }

  function Announcements(ms: seq<MessagePacket>): (r: seq<Frame>)
    ensures |r| == |ms| && forall i | 0 <= i < |ms| :: r[i] == Announce(ms[i])
  {
    seq(|ms|, i requires 0 <= i < |ms| => Announce(ms[i]))
  }

  /** The messages the login flush sends: every held message from the first
      one addressed to `u` to the end of the store, whoever it is for. */
  function Flushed(d: ServerData, u: Text): (ms: seq<MessagePacket>)
    ensures forall i | 0 <= i < |d.offline| && d.offline[i].destination == u ::
      d.offline[i] in ms
    ensures forall m | m in ms :: m in d.offline
  {
    d.offline[GetUserMsgs(d, u)..]
  }

  /** LOGIN: the four refusals in the source's order, none of which changes
      anything; then the session is logged in and bound, the held messages
      are flushed onto its queue, and the user's held messages are purged. */
  function Login(st: ServerState, fd: Fd, c: LoginPacket): (h: Handled)
    requires fd in st.sessions
    ensures SameConnections(st, h.state)
    ensures !Registered(st.store, c.username) ==> h == Reply(st, ErrNotRegistered)
    ensures Registered(st.store, c.username) && st.store.users[FindUser(st.store, c.username)].password != c.password
            ==> h == Reply(st, ErrPassWrong)
    ensures Registered(st.store, c.username) && st.store.users[FindUser(st.store, c.username)].password == c.password
            && (c.username in st.bindings || st.sessions[fd].authed)
            ==> h == Reply(st, ErrAlreadyLoggedIn)
    ensures h.reply == Some(MakeFrame(MsgOk)) <==>
      Registered(st.store, c.username)
      && st.store.users[FindUser(st.store, c.username)].password == c.password
      && c.username !in st.bindings
      && !st.sessions[fd].authed
    ensures h.reply != Some(MakeFrame(MsgOk)) ==> h.state == st
    ensures h.reply == Some(MakeFrame(MsgOk)) ==>
      var s := st.sessions[fd];
      && h.state.store == ClearUserMsgs(st.store, c.username)
      && h.state.bindings == st.bindings[c.username := fd]
      && h.state.sessions == st.sessions[fd := s.(authed := true, username := c.username,
                                                  sendQueue := s.sendQueue + Announcements(Flushed(st.store, c.username)))]
    ensures h.reply.Some?
  {
    FindUserFound(st.store, c.username);
    var i := FindUser(st.store, c.username);
    if i == |st.store.users| then Reply(st, ErrNotRegistered)
    else if st.store.users[i].password != c.password then Reply(st, ErrPassWrong)
    else if c.username in st.bindings then Reply(st, ErrAlreadyLoggedIn)
    else if st.sessions[fd].authed then Reply(st, ErrAlreadyLoggedIn)
    else
      var s := st.sessions[fd];
      var s' := s.(authed := true, username := c.username,
                   sendQueue := s.sendQueue + Announcements(Flushed(st.store, c.username)));
      Handled(ServerState(ClearUserMsgs(st.store, c.username), st.sessions[fd := s'], st.bindings[c.username := fd]),
              Some(MakeFrame(MsgOk)))
  }

  /** The refusals SEND and XFER share: not logged in, or claiming another
      sender than the session's own (an empty sender is allowed). */
  function SenderCheck(s: Session, claimed: Text): (r: Option<MessageKind>)
    ensures r == None <==> s.authed && (claimed == s.username || claimed == [])
    ensures r.Some? ==> r.value in {ErrNoLogin, ErrNoPerms} && (r.value == ErrNoLogin <==> !s.authed)
  {
    if !s.authed then Some(ErrNoLogin)
    else if claimed != s.username && claimed != [] then Some(ErrNoPerms)
    else None
  }

  /** SEND: broadcast, direct delivery, holding for a registered user who is
      not logged in, or `ERR_NOSUCHUSER`. */
  function Send(st: ServerState, fd: Fd, c: MessagePacket): (h: Handled)
    requires fd in st.sessions
    ensures h.state.store.users == st.store.users
    ensures SameLogins(st, h.state) && SameConnections(st, h.state)
    ensures SenderCheck(st.sessions[fd], c.username).Some? ==>
      h == Reply(st, SenderCheck(st.sessions[fd], c.username).value)
    ensures SenderCheck(st.sessions[fd], c.username).None? ==>
      var f := MakeFrameWith(MsgSend, Message(c));
      if c.destination == [] then
        h == Handled(Broadcast(st, st.sessions[fd].username, f), Some(MakeFrame(MsgOk)))
      else if c.destination in st.bindings then
        h == Handled(PushTo(st, st.bindings[c.destination], f), Some(MakeFrame(MsgOk)))
      else if Registered(st.store, c.destination) then
        h == Handled(st.(store := st.store.(offline := st.store.offline + [c])), Some(MakeFrame(MsgOk)))
      else
        h == Reply(st, ErrNoSuchUser)
  {
    FindUserFound(st.store, c.destination);
    var s := st.sessions[fd];
    var refusal := SenderCheck(s, c.username);
    if refusal.Some? then Reply(st, refusal.value)
    else
      var f := MakeFrameWith(MsgSend, Message(c));
      if c.destination == [] then Handled(Broadcast(st, s.username, f), Some(MakeFrame(MsgOk)))
      else if c.destination in st.bindings then Handled(PushTo(st, st.bindings[c.destination], f), Some(MakeFrame(MsgOk)))
      else if FindUser(st.store, c.destination) != |st.store.users| then
        Handled(st.(store := st.store.(offline := st.store.offline + [c])), Some(MakeFrame(MsgOk)))
      else Reply(st, ErrNoSuchUser)
  }

  /** XFER: routed like SEND, but never held for later; success falls out of
      the branch and returns no reply. */
  function Xfer(st: ServerState, fd: Fd, c: FilePacket): (h: Handled)
    requires fd in st.sessions
    ensures h.state.store == st.store
    ensures SameLogins(st, h.state) && SameConnections(st, h.state)
    ensures SenderCheck(st.sessions[fd], c.username).Some? ==>
      h == Reply(st, SenderCheck(st.sessions[fd], c.username).value)
    ensures SenderCheck(st.sessions[fd], c.username).None? ==>
      var f := MakeFrameWith(MsgXfer, File(c));
      if c.destination == [] then h == Handled(Broadcast(st, st.sessions[fd].username, f), None)
      else if c.destination in st.bindings then h == Handled(PushTo(st, st.bindings[c.destination], f), None)
      else h == Reply(st, ErrNoSuchUser)
  {
    var s := st.sessions[fd];
    var refusal := SenderCheck(s, c.username);
    if refusal.Some? then Reply(st, refusal.value)
    else
      var f := MakeFrameWith(MsgXfer, File(c));
      if c.destination == [] then Handled(Broadcast(st, s.username, f), None)
      else if c.destination in st.bindings then Handled(PushTo(st, st.bindings[c.destination], f), None)
      else Reply(st, ErrNoSuchUser)
  }

  /** LOGOUT: always `MSG_OK`; clears `authed` and drops the binding under the
      session's stored username, which stays as it was. */
  function Logout(st: ServerState, fd: Fd): (h: Handled)
    requires fd in st.sessions
    ensures SameConnections(st, h.state)
    ensures h.reply == Some(MakeFrame(MsgOk))
    ensures h.state.store == st.store
    ensures h.state.bindings == st.bindings - {st.sessions[fd].username}
    ensures h.state.sessions == st.sessions[fd := st.sessions[fd].(authed := false)]
  {
    var s := st.sessions[fd];
    Handled(ServerState(st.store, st.sessions[fd := s.(authed := false)], st.bindings - {s.username}),
            Some(MakeFrame(MsgOk)))
  }

  /** The usernames of the accounts, in database order. */
  function Usernames(users: seq<LoginPacket>): (r: seq<Text>)
    ensures |r| == |users| && forall i | 0 <= i < |users| :: r[i] == users[i].username
  {
    seq(|users|, i requires 0 <= i < |users| => users[i].username)
  }

  /** GETLIST: every registered username, logged in or not. */
  function GetList(st: ServerState, fd: Fd): (h: Handled)
    requires fd in st.sessions
    ensures h.state == st
    ensures !st.sessions[fd].authed ==> h.reply == Some(MakeFrame(ErrNoLogin))
    ensures st.sessions[fd].authed ==> h.reply.Some? && h.reply.value.kind == MsgList
    ensures st.sessions[fd].authed && |st.store.users| < SizeBound ==>
      DecodePayload(MsgList, h.reply.value.data) == Ok(List(ListPacket(Usernames(st.store.users))))
  {
    if !st.sessions[fd].authed then Reply(st, ErrNoLogin)
    else
      var p := List(ListPacket(Usernames(st.store.users)));
      if |st.store.users| < SizeBound then
        DecodePayloadOfEncoded(MsgList, p);
        Handled(st, Some(MakeFrameWith(MsgList, p)))
      else Handled(st, Some(MakeFrameWith(MsgList, p)))
  }

  /** `clientHandler`: the request's kind selects the branch. Any other kind
      gets no reply. Only queues, login flags and usernames of sessions can
      change, and no session appears or disappears. */
  function Handle(st: ServerState, fd: Fd, k: MessageKind, p: Payload): (h: Handled)
    requires fd in st.sessions && Fits(k, p)
    ensures SameConnections(st, h.state)
    ensures !(k.MsgRegister? || k.MsgLogin? || k.MsgSend? || k.MsgXfer? || k.MsgLogout? || k.MsgGetList?)
            ==> h == Handled(st, None)
  {
    match k
    case MsgRegister => Register(st, p.login)
    case MsgLogin => Login(st, fd, p.login)
    case MsgSend => Send(st, fd, p.message)
    case MsgXfer => Xfer(st, fd, p.file)
    case MsgLogout => Logout(st, fd)
    case MsgGetList => GetList(st, fd)
    case _ => Handled(st, None)
  }

  /** A successful login binds a session that no binding named before. */
  lemma LoginKeepsConsistent(st: ServerState, fd: Fd, c: LoginPacket)
    requires fd in st.sessions && Consistent(st)
    ensures Consistent(Login(st, fd, c).state)
  {
    var h := Login(st, fd, c);
    if h.reply == Some(MakeFrame(MsgOk)) {
      forall n | n in h.state.bindings && n != c.username
        ensures st.bindings[n] != fd
      {
      }
    }
  }

  /** LOGOUT only drops the binding that could have named this session. */
  lemma LogoutKeepsConsistent(st: ServerState, fd: Fd)
    requires fd in st.sessions && Consistent(st)
    ensures Consistent(Logout(st, fd).state)
  {
    var h := Logout(st, fd);
    forall n | n in h.state.bindings
      ensures st.bindings[n] != fd
    {
    }
  }

  /** Handling a request keeps every binding pointing at a logged-in session
      of that name. */
  lemma HandleKeepsConsistent(st: ServerState, fd: Fd, k: MessageKind, p: Payload)
    requires fd in st.sessions && Fits(k, p) && Consistent(st)
    ensures Consistent(Handle(st, fd, k, p).state)
  {
    match k
    case MsgLogin => LoginKeepsConsistent(st, fd, p.login);
    case MsgLogout => LogoutKeepsConsistent(st, fd);
    case MsgRegister => SameLoginsKeepConsistent(st, Handle(st, fd, k, p).state);
    case MsgSend => SameLoginsKeepConsistent(st, Handle(st, fd, k, p).state);
    case MsgXfer => SameLoginsKeepConsistent(st, Handle(st, fd, k, p).state);
    case _ =>
  }

  // ------------------------------------------------------------- connection

  /** The accept lambda: a new session for the new descriptor. */
  function Accept(st: ServerState, fd: Fd): (r: ServerState)
    ensures r.store == st.store && r.bindings == st.bindings
    ensures r.sessions == st.sessions[fd := NewSession()]
  {
    st.(sessions := st.sessions[fd := NewSession()])
  }

  lemma AcceptKeepsValid(st: ServerState, fd: Fd)
    requires Valid(st) && fd !in st.sessions
    ensures Valid(Accept(st, fd))
  {
  }

  /** `EPOLLRDHUP`: unbind the username if logged in, then forget the
      session. */
  function Disconnect(st: ServerState, fd: Fd): (r: ServerState)
    requires fd in st.sessions
    ensures fd !in r.sessions && r.sessions == st.sessions - {fd}
    ensures r.store == st.store
    ensures st.sessions[fd].authed ==> r.bindings == st.bindings - {st.sessions[fd].username}
    ensures !st.sessions[fd].authed ==> r.bindings == st.bindings
  {
    var s := st.sessions[fd];
    var bindings := if s.authed then st.bindings - {s.username} else st.bindings;
    ServerState(st.store, st.sessions - {fd}, bindings)
  }

  lemma DisconnectKeepsValid(st: ServerState, fd: Fd)
    requires Valid(st) && fd in st.sessions
    ensures Valid(Disconnect(st, fd))
  {
    var r := Disconnect(st, fd);
    forall n | n in r.bindings
      ensures r.bindings[n] in r.sessions
    {
      assert st.bindings[n] != fd;
    }
  }

  /** The connection's own reply: queued, and its socket armed for writing. */
  function Respond(st: ServerState, fd: Fd, f: Frame): (r: ServerState)
    requires fd in st.sessions
    ensures r.store == st.store && r.bindings == st.bindings && r.sessions.Keys == st.sessions.Keys
    ensures r.sessions[fd] == st.sessions[fd].(sendQueue := st.sessions[fd].sendQueue + [f], wantsWrite := true)
    ensures forall t | t in st.sessions && t != fd :: r.sessions[t] == st.sessions[t]
  {
    var s := st.sessions[fd];
    st.(sessions := st.sessions[fd := s.(sendQueue := s.sendQueue + [f], wantsWrite := true)])
  }

  /** Decode and handle the drained frame payloads in arrival order: each
      request goes through `clientHandler` and its reply, if any, is queued
      on the requester (`DispatchServes`). The first payload `get_frame`
      refuses throws. */
  function Dispatch(st: ServerState, fd: Fd, payloads: seq<Bytes>): (r: Result<ServerState, Crash>)
    requires fd in st.sessions
    ensures r.Ok? <==> FirstErr(payloads, GetFrame) == |payloads|
    ensures r.Err? ==> r.error == BadFrame(GetFrame(payloads[FirstErr(payloads, GetFrame)]).error)
    ensures r.Ok? ==> r.value.sessions.Keys == st.sessions.Keys
    ensures r.Ok? ==> forall t | t in st.sessions ::
      r.value.sessions[t].recv == st.sessions[t].recv
      && (t != fd ==> r.value.sessions[t].wantsWrite == st.sessions[t].wantsWrite)
    ensures r.Ok? && st.sessions[fd].wantsWrite ==> r.value.sessions[fd].wantsWrite
    decreases |payloads|
  {
    if |payloads| == 0 then Ok(st)
    else
      match GetFrame(payloads[0])
      case Err(e) => Err(BadFrame(e))
      case Ok((k, p)) =>
        var r := Dispatch(Serve(st, fd, k, p), fd, payloads[1..]);
        FirstErrCons(payloads, GetFrame);
        r
  }

  /** One request as the connection handler treats it: `clientHandler`, then
      the reply, if there is one, queued on the requester with its output
      interest switched on. */
  function Serve(st: ServerState, fd: Fd, k: MessageKind, p: Payload): (r: ServerState)
    requires fd in st.sessions && Fits(k, p)
    ensures var h := Handle(st, fd, k, p);
      && r.store == h.state.store && r.bindings == h.state.bindings
      && r.sessions.Keys == st.sessions.Keys
      && (forall t | t in st.sessions && t != fd :: r.sessions[t] == h.state.sessions[t])
      && (h.reply.None? ==> r.sessions[fd] == h.state.sessions[fd])
      && (h.reply.Some? ==> r.sessions[fd] == h.state.sessions[fd].(sendQueue := h.state.sessions[fd].sendQueue + [h.reply.value],
                                                                  wantsWrite := true))
  {
    var h := Handle(st, fd, k, p);
    if h.reply.Some? then Respond(h.state, fd, h.reply.value) else h.state
  }

  /** The requests a run of payloads that all decode carries, in order. */
  function Requests(payloads: seq<Bytes>): (rs: seq<(MessageKind, Payload)>)
    requires AllOk(payloads, GetFrame)
    ensures |rs| == |payloads|
    ensures forall i | 0 <= i < |rs| :: Fits(rs[i].0, rs[i].1)
    ensures forall i | 0 <= i < |payloads| :: rs[i] == GetFrame(payloads[i]).value
  {
    if |payloads| == 0 then []
    else
      AllOkTail(payloads, GetFrame);
      [GetFrame(payloads[0]).value] + Requests(payloads[1..])
  }

  /** Serving a run of requests one after another on one connection. */
  function ServeAll(st: ServerState, fd: Fd, rs: seq<(MessageKind, Payload)>): (r: ServerState)
    requires fd in st.sessions
    requires forall i | 0 <= i < |rs| :: Fits(rs[i].0, rs[i].1)
    ensures r.sessions.Keys == st.sessions.Keys
    decreases |rs|
  {
    if |rs| == 0 then st else ServeAll(Serve(st, fd, rs[0].0, rs[0].1), fd, rs[1..])
  }

  /** Dispatching decodable payloads is serving their requests in arrival
      order: none is dropped, none is reordered. */
  lemma {:induction false} DispatchServes(st: ServerState, fd: Fd, payloads: seq<Bytes>)
    requires fd in st.sessions
    requires AllOk(payloads, GetFrame)
    ensures Dispatch(st, fd, payloads) == Ok(ServeAll(st, fd, Requests(payloads)))
    decreases |payloads|
  {
    if |payloads| > 0 {
      var (k, p) := GetFrame(payloads[0]).value;
      AllOkTail(payloads, GetFrame);
      DispatchServes(Serve(st, fd, k, p), fd, payloads[1..]);
    }
  }

  /** `EPOLLIN`: append what arrived, drain every complete frame, handle each
      in order; a header without the magic byte throws after the frames
      before it were handled. */
  function Readable(st: ServerState, fd: Fd, received: Bytes): (r: Result<ServerState, Crash>)
    requires fd in st.sessions && Framing.Aligned(st.sessions[fd].recv)
    ensures r.Ok? ==> r.value.sessions.Keys == st.sessions.Keys
    ensures var drained := Framing.Feed(st.sessions[fd].recv, received);
      && (r.Ok? <==> !drained.desync && FirstErr(drained.payloads, GetFrame) == |drained.payloads|)
      && (FirstErr(drained.payloads, GetFrame) < |drained.payloads| ==>
            r == Err(BadFrame(GetFrame(drained.payloads[FirstErr(drained.payloads, GetFrame)]).error)))
      && (r.Ok? ==> r.value.sessions[fd].recv == drained.state)
    ensures r.Ok? ==> Framing.Aligned(r.value.sessions[fd].recv)
    ensures r.Ok? ==> forall t | t in st.sessions && t != fd ::
      r.value.sessions[t].recv == st.sessions[t].recv && r.value.sessions[t].wantsWrite == st.sessions[t].wantsWrite
    ensures r.Ok? ==> var drained := Framing.Feed(st.sessions[fd].recv, received);
      AllOk(drained.payloads, GetFrame)
      && r.value == ServeAll(WithRecv(st, fd, drained.state), fd, Requests(drained.payloads))
  {
    var drained := Framing.Feed(st.sessions[fd].recv, received);
    var st1 := WithRecv(st, fd, drained.state);
    var handled :- Dispatch(st1, fd, drained.payloads);
    if drained.desync then Err(OutOfStep)
    else
      DispatchServes(st1, fd, drained.payloads);
      Ok(handled)
  }

  /** The state with `fd`'s receive state replaced by `rs`. */
  function WithRecv(st: ServerState, fd: Fd, rs: Framing.RecvState): (r: ServerState)
    requires fd in st.sessions
    ensures r.store == st.store && r.bindings == st.bindings && r.sessions.Keys == st.sessions.Keys
    ensures r.sessions[fd] == st.sessions[fd].(recv := rs)
    ensures forall t | t in st.sessions && t != fd :: r.sessions[t] == st.sessions[t]
  {
    st.(sessions := st.sessions[fd := st.sessions[fd].(recv := rs)])
  }

  /** Requests the client sent back to back, arriving in one read on a
      settled connection, are all served in order, and the receive state is
      left awaiting the next header. */
  lemma ReadsDelimitedRequests(st: ServerState, fd: Fd, ps: seq<Bytes>)
    requires fd in st.sessions && st.sessions[fd].recv == Framing.FreshRecvState()
    requires Framing.AllSized(ps)
    requires AllOk(ps, GetFrame)
    ensures Readable(st, fd, Framing.DelimitAll(ps)) == Ok(ServeAll(st, fd, Requests(ps)))
  {
    Framing.FeedDelimited(ps);
    assert WithRecv(st, fd, Framing.FreshRecvState()) == st;
  }

  /** Replacing a receive state twice keeps only the second. */
  lemma WithRecvTwice(st: ServerState, fd: Fd, a: Framing.RecvState, b: Framing.RecvState)
    requires fd in st.sessions
    ensures WithRecv(WithRecv(st, fd, a), fd, b) == WithRecv(st, fd, b)
  {
    assert WithRecv(WithRecv(st, fd, a), fd, b).sessions == WithRecv(st, fd, b).sessions;
  }

  /** Read events in a row on one connection, one per chunk that arrived;
      the first that throws stops the server. */
  function ReadEvents(st: ServerState, fd: Fd, chunks: seq<Bytes>): (r: Result<ServerState, Crash>)
    requires fd in st.sessions && Framing.Aligned(st.sessions[fd].recv)
    decreases |chunks|
  {
    if |chunks| == 0 then Ok(st)
    else
      var next :- Readable(st, fd, chunks[0]);
      ReadEvents(next, fd, chunks[1..])
  }

  /** `clientHandler` never looks at the requester's receive state. */
  lemma HandleRecv(st: ServerState, fd: Fd, k: MessageKind, p: Payload, rs: Framing.RecvState)
    requires fd in st.sessions && Fits(k, p)
    ensures var h := Handle(st, fd, k, p);
      Handle(WithRecv(st, fd, rs), fd, k, p) == Handled(WithRecv(h.state, fd, rs), h.reply)
  {
    match k
    case MsgRegister => RegisterRecv(st, fd, p.login, rs);
    case MsgLogin => LoginRecv(st, fd, p.login, rs);
    case MsgSend => SendRecv(st, fd, p.message, rs);
    case MsgXfer => XferRecv(st, fd, p.file, rs);
    case MsgLogout => LogoutRecv(st, fd, rs);
    case MsgGetList =>
    case _ =>
  }

  lemma BroadcastRecv(st: ServerState, fd: Fd, except: Text, f: Frame, rs: Framing.RecvState)
    requires fd in st.sessions
    ensures Broadcast(WithRecv(st, fd, rs), except, f) == WithRecv(Broadcast(st, except, f), fd, rs)
  {
    var a := Broadcast(WithRecv(st, fd, rs), except, f);
    var b := WithRecv(Broadcast(st, except, f), fd, rs);
    assert forall t | t in st.sessions :: a.sessions[t] == b.sessions[t];
    assert a.sessions == b.sessions;
  }

  lemma PushToRecv(st: ServerState, fd: Fd, target: Fd, f: Frame, rs: Framing.RecvState)
    requires fd in st.sessions
    ensures PushTo(WithRecv(st, fd, rs), target, f) == WithRecv(PushTo(st, target, f), fd, rs)
  {
    var a := PushTo(WithRecv(st, fd, rs), target, f);
    var b := WithRecv(PushTo(st, target, f), fd, rs);
    assert forall t | t in st.sessions :: a.sessions[t] == b.sessions[t];
    assert a.sessions == b.sessions;
  }

  lemma RegisterRecv(st: ServerState, fd: Fd, c: LoginPacket, rs: Framing.RecvState)
    requires fd in st.sessions
    ensures Register(WithRecv(st, fd, rs), c) == Handled(WithRecv(Register(st, c).state, fd, rs), Register(st, c).reply)
  {
  }

  lemma LoginRecv(st: ServerState, fd: Fd, c: LoginPacket, rs: Framing.RecvState)
    requires fd in st.sessions
    ensures Login(WithRecv(st, fd, rs), fd, c) == Handled(WithRecv(Login(st, fd, c).state, fd, rs), Login(st, fd, c).reply)
  {
    var w := WithRecv(st, fd, rs);
    if Login(st, fd, c).reply == Some(MakeFrame(MsgOk)) {
      var s := st.sessions[fd];
      var s' := s.(authed := true, username := c.username,
                   sendQueue := s.sendQueue + Announcements(Flushed(st.store, c.username)));
      UpdateTwice(st.sessions, fd, s.(recv := rs), s'.(recv := rs));
      UpdateTwice(st.sessions, fd, s', s'.(recv := rs));
    }
  }

  /** A second update of the same descriptor overrides the first. */
  lemma UpdateTwice(m: map<Fd, Session>, fd: Fd, a: Session, b: Session)
    ensures m[fd := a][fd := b] == m[fd := b]
  {
  }

  lemma SendRecv(st: ServerState, fd: Fd, c: MessagePacket, rs: Framing.RecvState)
    requires fd in st.sessions
    ensures Send(WithRecv(st, fd, rs), fd, c) == Handled(WithRecv(Send(st, fd, c).state, fd, rs), Send(st, fd, c).reply)
  {
    var f := MakeFrameWith(MsgSend, Message(c));
    assert SenderCheck(WithRecv(st, fd, rs).sessions[fd], c.username) == SenderCheck(st.sessions[fd], c.username);
    if SenderCheck(st.sessions[fd], c.username).None? {
      if c.destination == [] {
        BroadcastRecv(st, fd, st.sessions[fd].username, f, rs);
      } else if c.destination in st.bindings {
        PushToRecv(st, fd, st.bindings[c.destination], f, rs);
      }
    }
  }

  lemma XferRecv(st: ServerState, fd: Fd, c: FilePacket, rs: Framing.RecvState)
    requires fd in st.sessions
    ensures Xfer(WithRecv(st, fd, rs), fd, c) == Handled(WithRecv(Xfer(st, fd, c).state, fd, rs), Xfer(st, fd, c).reply)
  {
    var f := MakeFrameWith(MsgXfer, File(c));
    assert SenderCheck(WithRecv(st, fd, rs).sessions[fd], c.username) == SenderCheck(st.sessions[fd], c.username);
    if SenderCheck(st.sessions[fd], c.username).None? {
      if c.destination == [] {
        BroadcastRecv(st, fd, st.sessions[fd].username, f, rs);
      } else if c.destination in st.bindings {
        PushToRecv(st, fd, st.bindings[c.destination], f, rs);
      }
    }
  }

  lemma LogoutRecv(st: ServerState, fd: Fd, rs: Framing.RecvState)
    requires fd in st.sessions
    ensures Logout(WithRecv(st, fd, rs), fd) == Handled(WithRecv(Logout(st, fd).state, fd, rs), Logout(st, fd).reply)
  {
    var a := Logout(WithRecv(st, fd, rs), fd);
    var b := WithRecv(Logout(st, fd).state, fd, rs);
    assert a.state.sessions == b.sessions;
  }

  /** Nor does serving a request. */
  lemma ServeRecv(st: ServerState, fd: Fd, k: MessageKind, p: Payload, rs: Framing.RecvState)
    requires fd in st.sessions && Fits(k, p)
    ensures Serve(WithRecv(st, fd, rs), fd, k, p) == WithRecv(Serve(st, fd, k, p), fd, rs)
  {
    HandleRecv(st, fd, k, p, rs);
    var h := Handle(st, fd, k, p);
    if h.reply.Some? {
      RespondRecv(h.state, fd, h.reply.value, rs);
    }
  }

  lemma RespondRecv(st: ServerState, fd: Fd, f: Frame, rs: Framing.RecvState)
    requires fd in st.sessions
    ensures Respond(WithRecv(st, fd, rs), fd, f) == WithRecv(Respond(st, fd, f), fd, rs)
  {
    var s := st.sessions[fd];
    var q := s.(sendQueue := s.sendQueue + [f], wantsWrite := true);
    UpdateTwice(st.sessions, fd, s.(recv := rs), q.(recv := rs));
    UpdateTwice(st.sessions, fd, q, q.(recv := rs));
  }

  lemma {:induction false} ServeAllRecv(st: ServerState, fd: Fd, rs: seq<(MessageKind, Payload)>, x: Framing.RecvState)
    requires fd in st.sessions
    requires forall i | 0 <= i < |rs| :: Fits(rs[i].0, rs[i].1)
    ensures ServeAll(WithRecv(st, fd, x), fd, rs) == WithRecv(ServeAll(st, fd, rs), fd, x)
    decreases |rs|
  {
    if |rs| > 0 {
      ServeRecv(st, fd, rs[0].0, rs[0].1, x);
      ServeAllRecv(Serve(st, fd, rs[0].0, rs[0].1), fd, rs[1..], x);
    }
  }

  /** Serving two runs of requests is serving their concatenation. */
  lemma {:induction false} ServeAllAppend(st: ServerState, fd: Fd, a: seq<(MessageKind, Payload)>, b: seq<(MessageKind, Payload)>)
    requires fd in st.sessions
    requires forall i | 0 <= i < |a| :: Fits(a[i].0, a[i].1)
    requires forall i | 0 <= i < |b| :: Fits(b[i].0, b[i].1)
    ensures ServeAll(st, fd, a + b) == ServeAll(ServeAll(st, fd, a), fd, b)
    decreases |a|
  {
    if |a| == 0 {
      assert a + b == b;
    } else {
      assert (a + b)[0] == a[0] && (a + b)[1..] == a[1..] + b;
      ServeAllAppend(Serve(st, fd, a[0].0, a[0].1), fd, a[1..], b);
    }
  }

  lemma RequestsAppend(a: seq<Bytes>, b: seq<Bytes>)
    requires AllOk(a, GetFrame) && AllOk(b, GetFrame)
    ensures AllOk(a + b, GetFrame) && Requests(a + b) == Requests(a) + Requests(b)
  {
    AllOkAppend(a, b, GetFrame);
    assert forall i | |a| <= i < |a + b| :: (a + b)[i] == b[i - |a|];
  }

  /** A run of read events serves, in order, every request the receive loop
      drains across them, and succeeds iff the stream stays in step and
      every drained frame decodes. */
  lemma {:induction false} ReadEventsServe(st: ServerState, fd: Fd, chunks: seq<Bytes>)
    requires fd in st.sessions && Framing.Aligned(st.sessions[fd].recv)
    ensures var d := Framing.FeedAll(st.sessions[fd].recv, chunks);
      && (ReadEvents(st, fd, chunks).Ok? <==> !d.desync && AllOk(d.payloads, GetFrame))
      && (ReadEvents(st, fd, chunks).Ok? ==>
            ReadEvents(st, fd, chunks).value == ServeAll(WithRecv(st, fd, d.state), fd, Requests(d.payloads)))
    decreases |chunks|
  {
    if |chunks| == 0 {
      assert WithRecv(st, fd, st.sessions[fd].recv) == st;
    } else {
      var d0 := Framing.Feed(st.sessions[fd].recv, chunks[0]);
      if !d0.desync && AllOk(d0.payloads, GetFrame) {
        var next := Readable(st, fd, chunks[0]).value;
        var rest := Framing.FeedAll(d0.state, chunks[1..]);
        ReadEventsServe(next, fd, chunks[1..]);
        AllOkAppend(d0.payloads, rest.payloads, GetFrame);
        if !rest.desync && AllOk(rest.payloads, GetFrame) {
          var fed := WithRecv(st, fd, d0.state);
          ServeAllRecv(fed, fd, Requests(d0.payloads), rest.state);
          WithRecvTwice(st, fd, d0.state, rest.state);
          RequestsAppend(d0.payloads, rest.payloads);
          ServeAllAppend(WithRecv(st, fd, rest.state), fd, Requests(d0.payloads), Requests(rest.payloads));
        }
      } else if !d0.desync {
        AllOkAppend(d0.payloads, Framing.FeedAll(d0.state, chunks[1..]).payloads, GetFrame);
      }
    }
  }

  /** Requests the client sent back to back are all served, in order,
      however the server's reads split their bytes. */
  lemma RequestsSurviveAnySplit(st: ServerState, fd: Fd, ps: seq<Bytes>, chunks: seq<Bytes>)
    requires fd in st.sessions && st.sessions[fd].recv == Framing.FreshRecvState()
    requires Framing.AllSized(ps)
    requires AllOk(ps, GetFrame)
    requires Framing.Concat(chunks) == Framing.DelimitAll(ps)
    ensures ReadEvents(st, fd, chunks) == Ok(ServeAll(st, fd, Requests(ps)))
  {
    Framing.FramesSurviveAnySplit(ps, chunks);
    ReadEventsServe(st, fd, chunks);
    assert WithRecv(st, fd, Framing.FreshRecvState()) == st;
  }

  /** `EPOLLOUT`: with nothing queued, stop asking for writability;
      otherwise send the front frame, delimited, and pop it. */
  function Writable(st: ServerState, fd: Fd): (r: (ServerState, Bytes))
    requires fd in st.sessions
    ensures r.0.store == st.store && r.0.bindings == st.bindings && r.0.sessions.Keys == st.sessions.Keys
    ensures forall t | t in st.sessions && t != fd :: r.0.sessions[t] == st.sessions[t]
    ensures var q := st.sessions[fd].sendQueue;
      if |q| == 0 then r.0.sessions[fd] == st.sessions[fd].(wantsWrite := false) && r.1 == []
      else r.0.sessions[fd] == st.sessions[fd].(sendQueue := q[1..]) && r.1 == Framing.Delimit(EncodeFrame(q[0]))
  {
    var s := st.sessions[fd];
    if |s.sendQueue| == 0 then (st.(sessions := st.sessions[fd := s.(wantsWrite := false)]), [])
    else (st.(sessions := st.sessions[fd := s.(sendQueue := s.sendQueue[1..])]),
          Framing.Delimit(EncodeFrame(s.sendQueue[0])))
  }

  /** The connection handler: hang-up ends the session; otherwise read, then
      write. The result pairs the new state with the bytes written. */
  function OnEvents(st: ServerState, fd: Fd, ev: Reactor.Events, received: Bytes): (r: Result<(ServerState, Bytes), Crash>)
    requires fd in st.sessions && Framing.Aligned(st.sessions[fd].recv)
    ensures ev.hangup ==> r == Ok((Disconnect(st, fd), []))
    ensures r.Ok? && !ev.hangup ==> r.value.0.sessions.Keys == st.sessions.Keys
    ensures r.Ok? ==> forall t | t in st.sessions && t != fd ::
      t in r.value.0.sessions && r.value.0.sessions[t].wantsWrite == st.sessions[t].wantsWrite
    ensures !ev.hangup && ev.readable && Readable(st, fd, received).Err? ==> r == Err(Readable(st, fd, received).error)
    ensures !ev.hangup && ev.readable && Framing.Feed(st.sessions[fd].recv, received).desync ==> r.Err?
    ensures r.Ok? && !ev.writable ==> r.value.1 == []
    ensures !ev.hangup && !ev.readable && !ev.writable ==> r == Ok((st, []))
    ensures !ev.hangup ==> (r.Ok? <==> !ev.readable || Readable(st, fd, received).Ok?)
    ensures r.Ok? && !ev.hangup ==>
      var st1 := if ev.readable then Readable(st, fd, received).value else st;
      r.value == if ev.writable then Writable(st1, fd) else (st1, [])
  {
    if ev.hangup then Ok((Disconnect(st, fd), []))
    else
      var st1 :- if ev.readable then Readable(st, fd, received) else Ok(st);
      if ev.writable then Ok(Writable(st1, fd)) else Ok((st1, []))
  }

  lemma {:induction false} DispatchKeepsConsistent(st: ServerState, fd: Fd, payloads: seq<Bytes>)
    requires fd in st.sessions && Consistent(st)
    ensures Dispatch(st, fd, payloads).Ok? ==> Consistent(Dispatch(st, fd, payloads).value)
    decreases |payloads|
  {
    if |payloads| > 0 && GetFrame(payloads[0]).Ok? {
      var (k, p) := GetFrame(payloads[0]).value;
      var h := Handle(st, fd, k, p);
      HandleKeepsConsistent(st, fd, k, p);
      var next := Serve(st, fd, k, p);
      assert Consistent(next) by {
        if h.reply.Some? {
          forall n | n in next.bindings
            ensures next.sessions[next.bindings[n]] == h.state.sessions[h.state.bindings[n]].(sendQueue := next.sessions[next.bindings[n]].sendQueue, wantsWrite := next.sessions[next.bindings[n]].wantsWrite)
          {
          }
        }
      }
      DispatchKeepsConsistent(next, fd, payloads[1..]);
    }
  }

  /** A read event keeps the bindings consistent and the receive states
      aligned. */
  lemma ReadableKeepsValid(st: ServerState, fd: Fd, received: Bytes)
    requires Valid(st) && fd in st.sessions
    ensures Readable(st, fd, received).Ok? ==> Valid(Readable(st, fd, received).value)
  {
    var s := st.sessions[fd];
    var drained := Framing.Feed(s.recv, received);
    var fed := WithRecv(st, fd, drained.state);
    assert SameLogins(st, fed);
    SameLoginsKeepConsistent(st, fed);
    DispatchKeepsConsistent(fed, fd, drained.payloads);
  }

  /** A write event keeps the bindings consistent and the receive states
      aligned. */
  lemma WritableKeepsValid(st: ServerState, fd: Fd)
    requires Valid(st) && fd in st.sessions
    ensures Valid(Writable(st, fd).0)
  {
    assert SameLogins(st, Writable(st, fd).0);
    SameLoginsKeepConsistent(st, Writable(st, fd).0);
  }

  /** Every connection event keeps the bindings consistent and the receive
      states aligned. */
  lemma OnEventsKeepsValid(st: ServerState, fd: Fd, ev: Reactor.Events, received: Bytes)
    requires Valid(st) && fd in st.sessions
    ensures OnEvents(st, fd, ev, received).Ok? ==> Valid(OnEvents(st, fd, ev, received).value.0)
  {
    if ev.hangup {
      DisconnectKeepsValid(st, fd);
    } else if OnEvents(st, fd, ev, received).Ok? {
      var st1 := if ev.readable then Readable(st, fd, received).value else st;
      if ev.readable {
        ReadableKeepsValid(st, fd, received);
      }
      if ev.writable {
        WritableKeepsValid(st1, fd);
      }
    }
  }

  // ------------------------------------------------------------- behaviours

  /** A login delivers every message held for the user, in store order. */
  lemma LoginDeliversHeld(st: ServerState, fd: Fd, c: LoginPacket, i: nat)
    requires fd in st.sessions
    requires Registered(st.store, c.username)
    requires st.store.users[FindUser(st.store, c.username)].password == c.password
    requires c.username !in st.bindings && !st.sessions[fd].authed
    requires i < |st.store.offline| && st.store.offline[i].destination == c.username
    ensures var q := Login(st, fd, c).state.sessions[fd].sendQueue;
      var start := |st.sessions[fd].sendQueue| - GetUserMsgs(st.store, c.username);
      0 <= start + i < |q| && q[start + i] == Announce(st.store.offline[i])
  {
    HeldAnnounced(st.sessions[fd].sendQueue, st.store, c.username, i);
  }

  /** The i-th held message for `u` sits in a queue followed by the login
      flush at the flush's offset `i - GetUserMsgs`. */
  lemma HeldAnnounced(queued: seq<Frame>, d: ServerData, u: Text, i: nat)
    requires i < |d.offline| && d.offline[i].destination == u
    ensures var q := queued + Announcements(Flushed(d, u));
      var start := |queued| - GetUserMsgs(d, u);
      0 <= start + i < |q| && q[start + i] == Announce(d.offline[i])
  {
    var g := GetUserMsgs(d, u);
    assert g <= i;
    var flushed := Flushed(d, u);
    assert flushed[i - g] == d.offline[i];
  }

  /** The flush runs to the end of the store, so a message held for someone
      else after the user's first one is pushed to this user too, and it
      stays held for its real recipient. */
  lemma LoginLeaksOthersMessages(st: ServerState, fd: Fd, c: LoginPacket, mine: MessagePacket, theirs: MessagePacket)
    requires fd in st.sessions
    requires st.store.offline == [mine, theirs]
    requires mine.destination == c.username && theirs.destination != c.username
    requires Registered(st.store, c.username)
    requires st.store.users[FindUser(st.store, c.username)].password == c.password
    requires c.username !in st.bindings && !st.sessions[fd].authed
    ensures Announce(theirs) in Login(st, fd, c).state.sessions[fd].sendQueue
    ensures Login(st, fd, c).state.store.offline == [theirs]
  {
    var h := Login(st, fd, c);
    var flushed := Flushed(st.store, c.username);
    assert flushed == [mine, theirs] by {
      assert GetUserMsgs(st.store, c.username) == 0;
    }
    var q := h.state.sessions[fd].sendQueue;
    assert q == st.sessions[fd].sendQueue + Announcements(flushed);
    assert Announcements(flushed)[1] == Announce(theirs);
    assert h.state.store.offline == KeepOthers([mine, theirs], c.username);
    assert [mine, theirs][1..] == [theirs];
    KeepOthersSingle(theirs, c.username);
  }

  /** LOGOUT unbinds by the stored username even after that session logged
      out once already: a second LOGOUT drops the binding of whichever
      session has since logged in under the same name. */
  lemma StaleLogoutUnbindsOther(st: ServerState, a: Fd, b: Fd)
    requires a in st.sessions && b in st.sessions && a != b
    requires !st.sessions[a].authed
    requires st.sessions[b].authed && st.sessions[b].username == st.sessions[a].username
    requires st.sessions[b].username in st.bindings && st.bindings[st.sessions[b].username] == b
    ensures var after := Logout(st, a).state;
      after.sessions[b].authed && after.sessions[b].username !in after.bindings
  {
  }

  /** Routed pushes do not arm anyone else's socket for writing: after a
      broadcast, the other sessions have a longer queue but the same
      interest, so their frames wait for their next writable event. */
  lemma BroadcastLeavesInterest(st: ServerState, fd: Fd, except: Text, f: Frame, t: Fd)
    requires Consistent(st) && t in st.sessions
    requires st.sessions[t].authed && st.sessions[t].username in st.bindings
    requires st.bindings[st.sessions[t].username] == t && st.sessions[t].username != except
    ensures var s := Broadcast(st, except, f).sessions[t];
      s.sendQueue == st.sessions[t].sendQueue + [f] && s.wantsWrite == st.sessions[t].wantsWrite
  {
    BroadcastOnce(st, except, f, t);
  }
}
