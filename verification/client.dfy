/** The chat client of src/client/client.cpp: script commands and the
    requests they queue, the ack queue that pairs the server's OK and error
    replies with those requests purely by position, and the socket
    handler's receive and write steps. Commands arrive already tokenised;
    what a read returns is a parameter and what a write emits is a result. */
module Client {
  import opened Wrappers
  import opened Surreal
  import opened Protocol
  import Framing
  import Reactor

  /** `AuthState`. */
  datatype AuthState = AuthState(authed: bool, username: Text)

  /** One `ack_queue` entry: the kind of a request sent and its packet. */
  datatype Ack = Ack(kind: MessageKind, packet: Payload)

  /** The client's globals: `auth_state`, `ack_queue`, `send_queue`, the
      socket handler's `recv_state`, and whether the socket's epoll interest
      includes `EPOLLOUT`. */
  datatype ClientState = ClientState(
    auth: AuthState,
    acks: seq<Ack>,
    sendQueue: seq<Frame>,
    recv: Framing.RecvState,
    wantsWrite: bool)

  /** Before the first event: logged out, nothing queued, and the socket
      registered for input, output and hang-up. */
  function Start(): (st: ClientState)
    ensures !st.auth.authed && st.acks == [] && st.sendQueue == []
    ensures st.recv == Framing.FreshRecvState() && st.wantsWrite
  {
    ClientState(AuthState(false, []), [], [], Framing.FreshRecvState(), true)
  }

  // -------------------------------------------------------------- commands

  /** One script command, already split into its words. `SEND` and `SENDA`
      broadcast, `SEND2` and `SENDA2` name a destination; the `A` forms are
      anonymous. */
  datatype Command =
    | Delay(seconds: int)
    | RegisterAs(username: Text, password: Text)
    | LoginAs(username: Text, password: Text)
    | Send(message: Text)
    | Send2(destination: Text, message: Text)
    | SendA(message: Text)
    | SendA2(destination: Text, message: Text)
    | SendF
    | SendF2
    | ListUsers
    | Unrecognised(word: Bytes)
  {
    predicate IsRequest() {
      RegisterAs? || LoginAs? || Send? || Send2? || SendA? || SendA2? || ListUsers?
    }

    predicate IsSend() {
      Send? || Send2? || SendA? || SendA2?
    }
  }

  /** The request a command queues, if any: the kind and packet that go both
      into the frame and onto the ack queue. */
  function RequestOf(auth: AuthState, c: Command): (r: Option<Ack>)
    ensures r.Some? <==> c.IsRequest()
    ensures r.Some? ==> Fits(r.value.kind, r.value.packet) && Canonical(r.value.kind) && !r.value.packet.List?
    ensures (c.RegisterAs? || c.LoginAs?) ==>
      r.value.packet == Login(LoginPacket(c.username, c.password))
      && (r.value.kind == MsgRegister <==> c.RegisterAs?)
      && (r.value.kind == MsgLogin <==> c.LoginAs?)
    ensures c.IsSend() ==>
      && r.value.kind == MsgSend
      && r.value.packet.message.message == c.message
      && r.value.packet.message.username == (if c.Send? || c.Send2? then auth.username else [])
      && r.value.packet.message.destination == (if c.Send2? || c.SendA2? then c.destination else [])
    ensures c.ListUsers? ==> r.value.kind == MsgGetList && r.value.packet.NoPayload?
  {
    match c
    case RegisterAs(u, p) => Some(Ack(MsgRegister, Login(LoginPacket(u, p))))
    case LoginAs(u, p) => Some(Ack(MsgLogin, Login(LoginPacket(u, p))))
    case Send(m) => Some(Ack(MsgSend, Message(MessagePacket(m, auth.username, []))))
    case Send2(d, m) => Some(Ack(MsgSend, Message(MessagePacket(m, auth.username, d))))
    case SendA(m) => Some(Ack(MsgSend, Message(MessagePacket(m, [], []))))
    case SendA2(d, m) => Some(Ack(MsgSend, Message(MessagePacket(m, [], d))))
    case ListUsers => Some(Ack(MsgGetList, NoPayload))
    case _ => None
  }

  /** The frame sent for a request. (`make_frame(MSG_GETLIST)` carries no
      data, which is what the empty payload encodes to.) */
  function FrameOf(a: Ack): (f: Frame)
    ensures f.version == ProtocolVersion && f.kind == a.kind
  {
    MakeFrameWith(a.kind, a.packet)
  }

  /** The frame a command queues decodes, on the server, to exactly the
      request its ack entry remembers. */
  lemma RequestFrameDecodes(auth: AuthState, c: Command)
    requires c.IsRequest()
    requires |EncodePayload(RequestOf(auth, c).value.packet)| < SizeBound
    ensures var a := RequestOf(auth, c).value;
      GetFrame(EncodeFrame(FrameOf(a))) == Ok((a.kind, a.packet))
  {
    var a := RequestOf(auth, c).value;
    GetFrameOfMade(a.kind, a.packet);
  }

  /** `parseFile` on the next command, `None` at the end of the script: a
      request pushes its frame and its ack entry, and the result is -2 at
      the end, `n` for `DELAY n` and -1 for everything else. */
  function ParseFile(st: ClientState, next: Option<Command>): (r: (ClientState, int))
    ensures next.None? ==> r == (st, -2)
    ensures next.Some? && next.value.Delay? ==> r == (st, next.value.seconds)
    ensures next.Some? && !next.value.Delay? ==> r.1 == -1
    ensures next.Some? && next.value.IsRequest() ==>
      var a := RequestOf(st.auth, next.value).value;
      r.0 == st.(acks := st.acks + [a], sendQueue := st.sendQueue + [FrameOf(a)])
    ensures next.Some? && !next.value.IsRequest() ==> r.0 == st
  {
    match next
    case None => (st, -2)
    case Some(c) =>
      match RequestOf(st.auth, c)
      case Some(a) => (st.(acks := st.acks + [a], sendQueue := st.sendQueue + [FrameOf(a)]), -1)
      case None => if c.Delay? then (st, c.seconds) else (st, -1)
  }

  /** The requests a run of commands queues, in order. */
  function Requests(auth: AuthState, cmds: seq<Command>): (r: seq<Ack>)
    ensures |r| <= |cmds|
  {
    if |cmds| == 0 then []
    else
      var first := RequestOf(auth, cmds[0]);
      (if first.Some? then [first.value] else []) + Requests(auth, cmds[1..])
  }

  function Frames(acks: seq<Ack>): (r: seq<Frame>)
    ensures |r| == |acks| && forall i | 0 <= i < |acks| :: r[i] == FrameOf(acks[i])
  {
    seq(|acks|, i requires 0 <= i < |acks| => FrameOf(acks[i]))
  }

  /** A command that makes `parseFile` return something other than -1. */
  predicate EndsTick(c: Command)
  {
    c.Delay? && c.seconds != -1
  }

  /** The index of the first command that ends a tick, or the length. */
  function FirstEnd(script: seq<Command>): (n: nat)
    ensures n <= |script|
    ensures n < |script| ==> EndsTick(script[n])
    ensures forall i | 0 <= i < n :: !EndsTick(script[i])
  {
    if |script| == 0 || EndsTick(script[0]) then 0 else 1 + FirstEnd(script[1..])
  }

  /** How the timer is left after a tick: armed again for some seconds,
      disarmed, or `settime` threw `system_error` out of the handler. */
  datatype Timer = Rearm(seconds: int) | Disarmed | SettimeThrows(seconds: int)

  /** What `t.settime(delay, 0, false)` does to the timerfd. A zero
      `it_value` disarms it (so `DELAY 0` never resumes the script, and
      `DELAY -2` disarms and then sets zero); a negative `tv_sec` makes
      `timerfd_settime` fail with `EINVAL`, which `settime` throws. */
  function TimerAfter(delay: int): (t: Timer)
    requires delay != -1
    ensures t.Rearm? <==> delay > 0
    ensures t.Disarmed? <==> delay == 0 || delay == -2
    ensures t.SettimeThrows? <==> delay < -2
    ensures !t.Disarmed? ==> t.seconds == delay
  {
    if delay == 0 || delay == -2 then Disarmed
    else if delay < 0 then SettimeThrows(delay)
    else Rearm(delay)
  }

  /** One expiry of the script timer: `parseFile` until it returns something
      other than -1, arming the socket for writing whenever the send queue is
      not empty; -2 (the end of the script, or `DELAY -2`) disarms the
      timer, and any other delay goes to `settime`. Returns the state, the
      unread commands and the timer. */
  function Tick(st: ClientState, script: seq<Command>): (r: (ClientState, seq<Command>, Timer))
    ensures r.0.auth == st.auth && r.0.recv == st.recv
    decreases |script|
  {
    var next := if |script| == 0 then None else Some(script[0]);
    var parsed := ParseFile(st, next);
    var armed := if |parsed.0.sendQueue| > 0 then parsed.0.(wantsWrite := true) else parsed.0;
    if parsed.1 == -1 then Tick(armed, script[1..])
    else if parsed.1 == -2 then (armed, if |script| == 0 then [] else script[1..], Disarmed)
    else (armed, script[1..], TimerAfter(parsed.1))
  }

  /** How many commands a tick reads: through the first that ends it, or
      all of them. */
  function Used(script: seq<Command>): (n: nat)
    ensures n <= |script|
  {
    var n := FirstEnd(script);
    if n < |script| then n + 1 else |script|
  }

  lemma RequestsOfOne(auth: AuthState, c: Command)
    ensures Requests(auth, [c]) == if c.IsRequest() then [RequestOf(auth, c).value] else []
  {
    assert [c][1..] == [];
  }

  /** Splitting off the first command of the commands a tick reads. */
  lemma UsedCons(auth: AuthState, script: seq<Command>)
    requires |script| > 0 && !EndsTick(script[0])
    ensures Used(script) == 1 + Used(script[1..])
    ensures script[Used(script)..] == script[1..][Used(script[1..])..]
    ensures Requests(auth, script[..Used(script)]) == Requests(auth, [script[0]]) + Requests(auth, script[1..][..Used(script[1..])])
  {
    var used := Used(script);
    var whole := script[..used];
    assert FirstEnd(script) == 1 + FirstEnd(script[1..]);
    assert whole[0] == script[0] && whole[1..] == script[1..][..used - 1];
    RequestsOfOne(auth, script[0]);
  }

  /** What a tick does: it reads the commands up to and including the first
      that ends it, queues their requests in order, arms the socket for
      writing when anything is queued, and leaves the timer as that command
      says through `settime` (disarmed at the end of the script, on
      `DELAY -2` and on `DELAY 0`; a throw below -2). */
  ghost predicate TickSpec(st: ClientState, script: seq<Command>, r: (ClientState, seq<Command>, Timer))
  {
    var n := FirstEnd(script);
    var pushed := Requests(st.auth, script[..Used(script)]);
    && r.1 == script[Used(script)..]
    && r.0.acks == st.acks + pushed
    && r.0.sendQueue == st.sendQueue + Frames(pushed)
    && r.0.wantsWrite == (st.wantsWrite || |r.0.sendQueue| > 0)
    && r.2 == (if n < |script| then TimerAfter(script[n].seconds) else Disarmed)
  }

  /** The step a command that keeps the tick going contributes. */
  function Parsed(st: ClientState, c: Command): (armed: ClientState)
  {
    var parsed := ParseFile(st, Some(c)).0;
    if |parsed.sendQueue| > 0 then parsed.(wantsWrite := true) else parsed
  }

  lemma TickUnfolds(st: ClientState, script: seq<Command>)
    requires |script| > 0 && !EndsTick(script[0])
    ensures Tick(st, script) == Tick(Parsed(st, script[0]), script[1..])
  {
  }

  /** A command that keeps the tick going queues its request, if any, and
      arms the socket when the queue is not empty. */
  lemma ParsedQueues(st: ClientState, c: Command)
    requires !EndsTick(c)
    ensures var head := Requests(st.auth, [c]);
      Parsed(st, c) == st.(acks := st.acks + head, sendQueue := st.sendQueue + Frames(head),
                           wantsWrite := st.wantsWrite || |st.sendQueue + Frames(head)| > 0)
  {
    RequestsOfOne(st.auth, c);
    var head := Requests(st.auth, [c]);
    if c.IsRequest() {
      assert Frames(head) == [FrameOf(RequestOf(st.auth, c).value)];
    } else {
      assert Frames(head) == [];
      assert st.acks + head == st.acks && st.sendQueue + Frames(head) == st.sendQueue;
    }
  }

  lemma TickSpecCons(st: ClientState, script: seq<Command>, r: (ClientState, seq<Command>, Timer))
    requires |script| > 0 && !EndsTick(script[0])
    requires TickSpec(Parsed(st, script[0]), script[1..], r)
    ensures TickSpec(st, script, r)
  {
    var armed := Parsed(st, script[0]);
    ParsedQueues(st, script[0]);
    UsedCons(st.auth, script);
    var head := Requests(st.auth, [script[0]]);
    var tail := Requests(st.auth, script[1..][..Used(script[1..])]);
    QueuesCons(st.acks, st.sendQueue, head, tail);
    assert |r.0.sendQueue| >= |armed.sendQueue|;
    assert FirstEnd(script) == 1 + FirstEnd(script[1..]);
  }

  lemma QueuesCons(acks: seq<Ack>, queue: seq<Frame>, head: seq<Ack>, tail: seq<Ack>)
    ensures acks + head + tail == acks + (head + tail)
    ensures queue + Frames(head) + Frames(tail) == queue + Frames(head + tail)
  {
    FramesAppend(head, tail);
    assert queue + Frames(head) + Frames(tail) == queue + (Frames(head) + Frames(tail));
  }

  lemma FramesAppend(a: seq<Ack>, b: seq<Ack>)
    ensures Frames(a + b) == Frames(a) + Frames(b)
  {
    forall i | 0 <= i < |a| + |b|
      ensures Frames(a + b)[i] == (Frames(a) + Frames(b))[i]
    {
      if i < |a| {
        assert (a + b)[i] == a[i];
      } else {
        assert (a + b)[i] == b[i - |a|];
      }
    }
  }

  lemma {:induction false} TickRuns(st: ClientState, script: seq<Command>)
    ensures TickSpec(st, script, Tick(st, script))
    decreases |script|
  {
    if |script| == 0 {
      assert script[..0] == [];
    } else if EndsTick(script[0]) {
      TickEndsAtHead(st, script);
    } else {
      TickRuns(Parsed(st, script[0]), script[1..]);
      TickUnfolds(st, script);
      TickSpecCons(st, script, Tick(st, script));
    }
  }

  /** A tick whose first command ends it reads just that command. */
  lemma TickEndsAtHead(st: ClientState, script: seq<Command>)
    requires |script| > 0 && EndsTick(script[0])
    ensures TickSpec(st, script, Tick(st, script))
  {
    assert FirstEnd(script) == 0 && Used(script) == 1;
    RequestsOfOne(st.auth, script[0]);
    assert script[..1] == [script[0]];
  }

  // --------------------------------------------------------------- replies

  /** `serverHandler` on a reply of kind `resp` (its packet is only printed).
      `MSG_OK` resolves the oldest request, logging in if it was a LOGIN; an
      error resolves it when the error has a meaning and the request's kind
      has a name; any other reply resolves nothing. With no request
      outstanding nothing is resolved. It never answers. */
  function ServerHandler(st: ClientState, resp: MessageKind): (r: ClientState)
    ensures r.sendQueue == st.sendQueue && r.recv == st.recv && r.wantsWrite == st.wantsWrite
    ensures r.acks == st.acks || (|st.acks| > 0 && r.acks == st.acks[1..])
    ensures |st.acks| > 0 && resp.MsgOk? ==> r.acks == st.acks[1..]
    ensures |st.acks| > 0 && resp.IsError() ==>
      (r.acks == st.acks[1..] <==> ErrorMeaning(resp).Some? && MessageName(st.acks[0].kind).Some?)
    ensures !resp.MsgOk? && !resp.IsError() ==> r == st
    ensures !resp.MsgOk? ==> r.auth == st.auth
    ensures resp.MsgOk? && |st.acks| > 0 && st.acks[0].kind.MsgLogin? && st.acks[0].packet.Login? ==>
      r.auth == AuthState(true, st.acks[0].packet.login.username)
    ensures resp.MsgOk? && (|st.acks| == 0 || !st.acks[0].kind.MsgLogin?) ==> r.auth == st.auth
  {
    if |st.acks| == 0 then st
    else
      var front := st.acks[0];
      if resp.MsgOk? then
        var auth := if front.kind.MsgLogin? && front.packet.Login?
                    then AuthState(true, front.packet.login.username) else st.auth;
        st.(auth := auth, acks := st.acks[1..])
      else if ErrorMeaning(resp).Some? && MessageName(front.kind).Some? then
        st.(acks := st.acks[1..])
      else st
  }

  /** A run of replies, handled in order. */
  function HandleReplies(st: ClientState, resps: seq<MessageKind>): (r: ClientState)
    ensures r.sendQueue == st.sendQueue && r.recv == st.recv && r.wantsWrite == st.wantsWrite
    decreases |resps|
  {
    if |resps| == 0 then st else HandleReplies(ServerHandler(st, resps[0]), resps[1..])
  }

  /** A reply that resolves the oldest request when that request has a name. */
  predicate Resolves(resp: MessageKind)
  {
    resp.MsgOk? || ErrorMeaning(resp).Some?
  }

  /** Acks are matched by position: a run of resolving replies, while the
      requests waiting all have names, resolves exactly that many of the
      oldest requests. */
  lemma {:induction false} RepliesResolveInOrder(st: ClientState, resps: seq<MessageKind>)
    requires |resps| <= |st.acks|
    requires forall i | 0 <= i < |resps| :: Resolves(resps[i])
    requires forall i | 0 <= i < |st.acks| :: MessageName(st.acks[i].kind).Some?
    ensures HandleReplies(st, resps).acks == st.acks[|resps|..]
    decreases |resps|
  {
    if |resps| > 0 {
      var next := ServerHandler(st, resps[0]);
      assert next.acks == st.acks[1..];
      RepliesResolveInOrder(next, resps[1..]);
      assert st.acks[1..][|resps| - 1..] == st.acks[|resps|..];
    }
  }

  /** Every request the client queues has a name, so the queue it builds
      keeps the precondition above. */
  lemma RequestsNamed(auth: AuthState, c: Command)
    requires c.IsRequest()
    ensures MessageName(RequestOf(auth, c).value.kind).Some?
  {
  }

  /** The server answers GETLIST with `MSG_LIST` alone, which resolves
      nothing: the LIST request stays at the front, so the OK for a LOGIN
      queued behind it resolves the LIST instead and the client never
      records that it logged in. */
  lemma ListStrandsLogin(st: ClientState, l: LoginPacket)
    requires !st.auth.authed
    requires st.acks == [Ack(MsgGetList, NoPayload), Ack(MsgLogin, Login(l))]
    ensures var r := HandleReplies(st, [MsgList, MsgOk]);
      !r.auth.authed && r.acks == [Ack(MsgLogin, Login(l))]
  {
    var once := ServerHandler(st, MsgList);
    assert once == st;
    assert [MsgList, MsgOk][1..] == [MsgOk];
    assert HandleReplies(st, [MsgList, MsgOk]) == HandleReplies(once, [MsgOk]);
    assert [MsgOk][1..] == [];
  }

  // ---------------------------------------------------------------- socket

  /** Decode the drained frame payloads and handle each reply in order; a
      payload `get_frame` refuses throws. */
  function Dispatch(st: ClientState, payloads: seq<Bytes>): (r: Result<ClientState, Crash>)
    ensures r.Ok? <==> AllOk(payloads, GetFrame)
    ensures r.Err? ==> FirstErr(payloads, GetFrame) < |payloads| && r.error == BadFrame(GetFrame(payloads[FirstErr(payloads, GetFrame)]).error)
    ensures r.Ok? ==> r.value.sendQueue == st.sendQueue && r.value.recv == st.recv && r.value.wantsWrite == st.wantsWrite
    decreases |payloads|
  {
    if |payloads| == 0 then Ok(st)
    else
      match GetFrame(payloads[0])
      case Err(e) => Err(BadFrame(e))
      case Ok((k, _)) =>
        var r := Dispatch(ServerHandler(st, k), payloads[1..]);
        assert forall i | 1 <= i < |payloads| :: payloads[i] == payloads[1..][i - 1];
        FirstErrCons(payloads, GetFrame);
        r
  }

  /** The kinds of a run of payloads that all decode. */
  function Kinds(payloads: seq<Bytes>): (ks: seq<MessageKind>)
    requires AllOk(payloads, GetFrame)
    ensures |ks| == |payloads|
    ensures forall i | 0 <= i < |payloads| :: ks[i] == GetFrame(payloads[i]).value.0
  {
    if |payloads| == 0 then []
    else
      AllOkTail(payloads, GetFrame);
      [GetFrame(payloads[0]).value.0] + Kinds(payloads[1..])
  }

  /** Dispatching is handling the decoded kinds in arrival order. */
  lemma {:induction false} DispatchHandlesKinds(st: ClientState, payloads: seq<Bytes>)
    requires AllOk(payloads, GetFrame)
    ensures Dispatch(st, payloads) == Ok(HandleReplies(st, Kinds(payloads)))
    decreases |payloads|
  {
    if |payloads| > 0 {
      var k := GetFrame(payloads[0]).value.0;
      AllOkTail(payloads, GetFrame);
      DispatchHandlesKinds(ServerHandler(st, k), payloads[1..]);
    }
  }

  /** `EPOLLIN`: append what arrived, drain every complete frame and handle
      each reply in order; a header without the magic byte throws after the
      frames before it were handled. Nothing is ever queued in answer. */
  function Readable(st: ClientState, received: Bytes): (r: Result<ClientState, Crash>)
    requires Framing.Aligned(st.recv)
    ensures r.Ok? ==> r.value.sendQueue == st.sendQueue && r.value.wantsWrite == st.wantsWrite
    ensures r.Ok? ==> r.value.recv == Framing.Feed(st.recv, received).state && Framing.Aligned(r.value.recv)
    ensures Framing.Feed(st.recv, received).desync ==> r.Err?
    ensures var drained := Framing.Feed(st.recv, received);
      && (r.Ok? <==> !drained.desync && AllOk(drained.payloads, GetFrame))
      && (FirstErr(drained.payloads, GetFrame) < |drained.payloads| ==>
            r == Err(BadFrame(GetFrame(drained.payloads[FirstErr(drained.payloads, GetFrame)]).error)))
      && (r.Ok? ==> r.value == HandleReplies(st.(recv := drained.state), Kinds(drained.payloads)))
  {
    var drained := Framing.Feed(st.recv, received);
    var handled :- Dispatch(st.(recv := drained.state), drained.payloads);
    if drained.desync then Err(OutOfStep)
    else
      DispatchHandlesKinds(st.(recv := drained.state), drained.payloads);
      Ok(handled)
  }

  /** Replies the server sent back to back, arriving in one read on a
      settled connection, are handled exactly in order, and the receive
      state is left awaiting the next header. */
  lemma ReadsDelimitedReplies(st: ClientState, ps: seq<Bytes>)
    requires st.recv == Framing.FreshRecvState()
    requires Framing.AllSized(ps)
    requires AllOk(ps, GetFrame)
    ensures Readable(st, Framing.DelimitAll(ps)) == Ok(HandleReplies(st, Kinds(ps)))
  {
    Framing.FeedDelimited(ps);
    DispatchHandlesKinds(st, ps);
  }

  /** Read events in a row, one per chunk that arrived; the first that
      throws stops the client. */
  function ReadEvents(st: ClientState, chunks: seq<Bytes>): (r: Result<ClientState, Crash>)
    requires Framing.Aligned(st.recv)
    decreases |chunks|
  {
    if |chunks| == 0 then Ok(st)
    else
      var next :- Readable(st, chunks[0]);
      ReadEvents(next, chunks[1..])
  }

  /** Handling replies never looks at the receive state. */
  lemma {:induction false} HandleRepliesRecv(st: ClientState, resps: seq<MessageKind>, rs: Framing.RecvState)
    ensures HandleReplies(st.(recv := rs), resps) == HandleReplies(st, resps).(recv := rs)
    decreases |resps|
  {
    if |resps| > 0 {
      assert ServerHandler(st.(recv := rs), resps[0]) == ServerHandler(st, resps[0]).(recv := rs);
      HandleRepliesRecv(ServerHandler(st, resps[0]), resps[1..], rs);
    }
  }

  /** Handling two runs of replies is handling their concatenation. */
  lemma {:induction false} HandleRepliesAppend(st: ClientState, a: seq<MessageKind>, b: seq<MessageKind>)
    ensures HandleReplies(st, a + b) == HandleReplies(HandleReplies(st, a), b)
    decreases |a|
  {
    if |a| == 0 {
      assert a + b == b;
    } else {
      assert (a + b)[0] == a[0] && (a + b)[1..] == a[1..] + b;
      HandleRepliesAppend(ServerHandler(st, a[0]), a[1..], b);
    }
  }

  lemma KindsAppend(a: seq<Bytes>, b: seq<Bytes>)
    requires AllOk(a, GetFrame) && AllOk(b, GetFrame)
    ensures AllOk(a + b, GetFrame) && Kinds(a + b) == Kinds(a) + Kinds(b)
  {
    AllOkAppend(a, b, GetFrame);
    assert forall i | |a| <= i < |a + b| :: (a + b)[i] == b[i - |a|];
  }

  /** A run of read events handles, in order, every reply the receive loop
      drains across them, and succeeds iff the stream stays in step and
      every drained frame decodes. */
  lemma {:induction false} ReadEventsHandle(st: ClientState, chunks: seq<Bytes>)
    requires Framing.Aligned(st.recv)
    ensures var d := Framing.FeedAll(st.recv, chunks);
      && (ReadEvents(st, chunks).Ok? <==> !d.desync && AllOk(d.payloads, GetFrame))
      && (ReadEvents(st, chunks).Ok? ==>
            ReadEvents(st, chunks).value == HandleReplies(st.(recv := d.state), Kinds(d.payloads)))
    decreases |chunks|
  {
    if |chunks| == 0 {
      assert st.(recv := st.recv) == st;
    } else {
      var d0 := Framing.Feed(st.recv, chunks[0]);
      if !d0.desync && AllOk(d0.payloads, GetFrame) {
        var next := Readable(st, chunks[0]).value;
        var rest := Framing.FeedAll(d0.state, chunks[1..]);
        ReadEventsHandle(next, chunks[1..]);
        AllOkAppend(d0.payloads, rest.payloads, GetFrame);
        if !rest.desync && AllOk(rest.payloads, GetFrame) {
          HandleRepliesRecv(st.(recv := d0.state), Kinds(d0.payloads), rest.state);
          assert st.(recv := d0.state).(recv := rest.state) == st.(recv := rest.state);
          KindsAppend(d0.payloads, rest.payloads);
          HandleRepliesAppend(st.(recv := rest.state), Kinds(d0.payloads), Kinds(rest.payloads));
        }
      } else if !d0.desync {
        AllOkAppend(d0.payloads, Framing.FeedAll(d0.state, chunks[1..]).payloads, GetFrame);
      }
    }
  }

  /** Replies the server sent back to back are handled exactly in order
      however the client's reads split their bytes. */
  lemma RepliesSurviveAnySplit(st: ClientState, ps: seq<Bytes>, chunks: seq<Bytes>)
    requires st.recv == Framing.FreshRecvState()
    requires Framing.AllSized(ps)
    requires AllOk(ps, GetFrame)
    requires Framing.Concat(chunks) == Framing.DelimitAll(ps)
    ensures ReadEvents(st, chunks) == Ok(HandleReplies(st, Kinds(ps)))
  {
    Framing.FramesSurviveAnySplit(ps, chunks);
    ReadEventsHandle(st, chunks);
    assert st.(recv := Framing.FreshRecvState()) == st;
  }

  /** `EPOLLOUT`: with nothing queued, stop asking for writability;
      otherwise send the front frame, delimited, and pop it. */
  function Writable(st: ClientState): (r: (ClientState, Bytes))
    ensures r.0.auth == st.auth && r.0.acks == st.acks && r.0.recv == st.recv
    ensures |st.sendQueue| == 0 ==> r == (st.(wantsWrite := false), [])
    ensures |st.sendQueue| > 0 ==>
      r.0.sendQueue == st.sendQueue[1..] && r.0.wantsWrite == st.wantsWrite
      && r.1 == Framing.Delimit(EncodeFrame(st.sendQueue[0]))
  {
    if |st.sendQueue| == 0 then (st.(wantsWrite := false), [])
    else (st.(sendQueue := st.sendQueue[1..]), Framing.Delimit(EncodeFrame(st.sendQueue[0])))
  }

  /** The encodings of a run of frames. */
  function Encodings(fs: seq<Frame>): (ps: seq<Bytes>)
    ensures |ps| == |fs| && forall i | 0 <= i < |fs| :: ps[i] == EncodeFrame(fs[i])
  {
    seq(|fs|, i requires 0 <= i < |fs| => EncodeFrame(fs[i]))
  }

  lemma EncodingsCons(q: seq<Frame>, k: nat)
    requires 0 < k <= |q|
    ensures Framing.DelimitAll(Encodings(q[..k]))
         == Framing.Delimit(EncodeFrame(q[0])) + Framing.DelimitAll(Encodings(q[1..][..k - 1]))
  {
    var ps := Encodings(q[..k]);
    assert ps[0] == EncodeFrame(q[0]);
    assert ps[1..] == Encodings(q[1..][..k - 1]);
  }

  /** `k` writable events in a row: the state after them and the bytes they
      wrote, in order. */
  function WriteEvents(st: ClientState, k: nat): (r: (ClientState, Bytes))
    decreases k
  {
    if k == 0 then (st, [])
    else
      var (next, out) := Writable(st);
      var (last, rest) := WriteEvents(next, k - 1);
      (last, out + rest)
  }

  /** The send queue drains first in, first out: `k` writes emit exactly the
      first `k` frames, each delimited, in queue order, and leave the rest. */
  lemma {:induction false} WritesInOrder(st: ClientState, k: nat)
    requires k <= |st.sendQueue|
    ensures WriteEvents(st, k).0.sendQueue == st.sendQueue[k..]
    ensures WriteEvents(st, k).1 == Framing.DelimitAll(Encodings(st.sendQueue[..k]))
    decreases k
  {
    if k == 0 {
      assert Encodings(st.sendQueue[..0]) == [];
    } else {
      var next := Writable(st).0;
      WritesInOrder(next, k - 1);
      assert next.sendQueue[k - 1..] == st.sendQueue[k..];
      EncodingsCons(st.sendQueue, k);
    }
  }

  /** What the client writes reaches the server whole: however the server's
      reads split the bytes of `k` writes, its receive loop drains exactly
      the encodings of the first `k` queued frames, in order. */
  lemma SentFramesArrive(st: ClientState, k: nat, chunks: seq<Bytes>)
    requires k <= |st.sendQueue|
    requires forall i | 0 <= i < k :: |EncodeFrame(st.sendQueue[i])| < SizeBound
    requires Framing.Concat(chunks) == WriteEvents(st, k).1
    ensures Framing.FeedAll(Framing.FreshRecvState(), chunks)
         == Framing.Drained(Encodings(st.sendQueue[..k]), Framing.FreshRecvState(), false)
  {
    WritesInOrder(st, k);
    Framing.FramesSurviveAnySplit(Encodings(st.sendQueue[..k]), chunks);
  }

  /** Why the client stops: the server hung up (the client exits), or the
      receive handler threw. */
  datatype Stop = ServerClosed | Crashed(crash: Crash)

  /** The socket handler: hang-up ends the client; otherwise read, then
      write. The result pairs the new state with the bytes written. */
  function OnEvents(st: ClientState, ev: Reactor.Events, received: Bytes): (r: Result<(ClientState, Bytes), Stop>)
    requires Framing.Aligned(st.recv)
    ensures ev.hangup ==> r == Err(ServerClosed)
    ensures r.Ok? ==> Framing.Aligned(r.value.0.recv)
    ensures r.Ok? && !ev.writable ==> r.value.1 == []
    ensures r.Ok? ==> |r.value.0.sendQueue| <= |st.sendQueue|
    ensures !ev.hangup ==> (r.Ok? <==> !ev.readable || Readable(st, received).Ok?)
    ensures !ev.hangup && ev.readable && Readable(st, received).Err? ==> r == Err(Crashed(Readable(st, received).error))
    ensures r.Ok? ==>
      var st1 := if ev.readable then Readable(st, received).value else st;
      r.value == if ev.writable then Writable(st1) else (st1, [])
  {
    if ev.hangup then Err(ServerClosed)
    else
      var st1 :- if ev.readable then MapCrash(Readable(st, received)) else Ok(st);
      if ev.writable then Ok(Writable(st1)) else Ok((st1, []))
  }

  function MapCrash(r: Result<ClientState, Crash>): (s: Result<ClientState, Stop>)
    ensures r.Ok? <==> s.Ok?
    ensures r.Ok? ==> s.value == r.value
    ensures r.Err? ==> s.error == Crashed(r.error)
  {
    match r
    case Ok(v) => Ok(v)
    case Err(e) => Err(Crashed(e))
  }
}
