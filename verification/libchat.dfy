/** The GopherChat wire protocol (lib/libchat.hpp): message kinds, the
    `Frame` envelope, the packet structs and their field-by-field encodings,
    frame dispatch, and the username/password shape check. */
module Protocol {
  import opened Wrappers
  import opened Surreal

  /** A `std::string`: a byte string whose length a `std::size_t` can hold. */
  type Text = t: Bytes | |t| < SizeBound

  /** `PROTOCOL_VERSION`. */
  const ProtocolVersion: byte := 0

  // ------------------------------------------------------------ message kinds

  /** `message_t`. It is an `enum class` over `int`, so a decoded frame can
      carry any 32-bit code; codes with no enumerator are `Unknown`. */
  datatype MessageKind =
    | MsgOk | MsgRegister | MsgLogin | MsgLogout | MsgSend | MsgXfer | MsgGetList | MsgList
    | ErrNoLogin | ErrNotRegistered | ErrAlreadyLoggedIn | ErrUserExists
    | ErrNoSuchUser | ErrPassWrong | ErrNoPerms | ErrNoSuchFile
    | Unknown(code: bv32)
  {
    predicate IsError() {
      ErrNoLogin? || ErrNotRegistered? || ErrAlreadyLoggedIn? || ErrUserExists? ||
      ErrNoSuchUser? || ErrPassWrong? || ErrNoPerms? || ErrNoSuchFile?
    }
  }

  /** True for the codes that have an enumerator. */
  predicate IsNamedCode(c: bv32)
  {
    c <= 7 || 400 <= c <= 407
  }

  /** One representation per code: `Unknown` only for unnamed codes. */
  predicate Canonical(k: MessageKind)
  {
    k.Unknown? ==> !IsNamedCode(k.code)
  }

  /** The enumerator values: MSG_OK..MSG_LIST are 0..7, the errors 400..407. */
  function Code(k: MessageKind): (c: bv32)
    ensures !k.Unknown? ==> IsNamedCode(c)
    ensures !k.Unknown? ==> (k.IsError() <==> 400 <= c)
  {
    match k
    case MsgOk => 0
    case MsgRegister => 1
    case MsgLogin => 2
    case MsgLogout => 3
    case MsgSend => 4
    case MsgXfer => 5
    case MsgGetList => 6
    case MsgList => 7
    case ErrNoLogin => 400
    case ErrNotRegistered => 401
    case ErrAlreadyLoggedIn => 402
    case ErrUserExists => 403
    case ErrNoSuchUser => 404
    case ErrPassWrong => 405
    case ErrNoPerms => 406
    case ErrNoSuchFile => 407
    case Unknown(c) => c
  }

  /** Reading a code back into a `message_t`. */
  function KindOf(c: bv32): (k: MessageKind)
    ensures Code(k) == c
    ensures Canonical(k)
    ensures k.Unknown? <==> !IsNamedCode(c)
  {
    if c == 0 then MsgOk
    else if c == 1 then MsgRegister
    else if c == 2 then MsgLogin
    else if c == 3 then MsgLogout
    else if c == 4 then MsgSend
    else if c == 5 then MsgXfer
    else if c == 6 then MsgGetList
    else if c == 7 then MsgList
    else if c == 400 then ErrNoLogin
    else if c == 401 then ErrNotRegistered
    else if c == 402 then ErrAlreadyLoggedIn
    else if c == 403 then ErrUserExists
    else if c == 404 then ErrNoSuchUser
    else if c == 405 then ErrPassWrong
    else if c == 406 then ErrNoPerms
    else if c == 407 then ErrNoSuchFile
    else Unknown(c)
  }

  /** Distinct canonical kinds have distinct codes, so a code names its kind. */
  lemma {:induction false} KindCodeRoundTrip(k: MessageKind)
    requires Canonical(k)
    ensures KindOf(Code(k)) == k
  {
    match k
    case Unknown(c) =>
    case _ =>
  }

  /** `message_names`: the kinds a client can name when it reports an ack.
      `MSG_GETLIST` is printed as "LIST"; `MSG_LIST` and most errors have no name. */
  function MessageName(k: MessageKind): (r: Option<string>)
    ensures r.Some? <==> k in {MsgOk, MsgRegister, MsgLogin, MsgLogout, MsgSend, MsgXfer, MsgGetList, ErrNoLogin, ErrNotRegistered}
  {
    match k
    case MsgOk => Some("OK")
    case MsgRegister => Some("REGISTER")
    case MsgLogin => Some("LOGIN")
    case MsgLogout => Some("LOGOUT")
    case MsgSend => Some("SEND")
    case MsgXfer => Some("XFER")
    case MsgGetList => Some("LIST")
    case ErrNoLogin => Some("NOLOGIN")
    case ErrNotRegistered => Some("NOTREGISTERED")
    case _ => None
  }

  /** `error_meanings`: every error kind but `ERR_NOSUCHFILE` has one. */
  function ErrorMeaning(k: MessageKind): (r: Option<string>)
    ensures r.Some? <==> k.IsError() && !k.ErrNoSuchFile?
  {
    match k
    case ErrNoLogin => Some("not logged in")
    case ErrNotRegistered => Some("not registered")
    case ErrAlreadyLoggedIn => Some("logged in elsewhere")
    case ErrUserExists => Some("username already registered")
    case ErrNoSuchUser => Some("user does not exist")
    case ErrPassWrong => Some("incorrect password")
    case ErrNoPerms => Some("tried to send message as a different user")
    case _ => None
  }

  // ------------------------------------------------------------------- frames

  /** `Frame`: protocol version, message kind and the encoded packet. */
  datatype Frame = Frame(version: byte, kind: MessageKind, data: Bytes)

  /** `MAKE_SERIAL(version, type, data)`: one byte, four bytes, sized range. */
  function EncodeFrame(f: Frame): (r: Bytes)
    ensures |r| >= 13 && r[0] == f.version
    ensures Take32(r[1..]).Ok? && Take32(r[1..]).value.0 == Code(f.kind)
    ensures r[13..] == f.data
    ensures |f.data| < SizeBound ==> TakeSize(r[5..]) == Ok((|f.data|, f.data))
  {
    var t := PutText(f.data);
    var body := Put32(Code(f.kind)) + t;
    RoundTrip32(Code(f.kind), t);
    assert body[4..] == t;
    var r := Put8(f.version) + body;
    assert r[1..] == body;
    r
  }

  function TakeTextValue(s: Bytes): (r: Decoding<Text>)
    ensures r.Ok? ==> PutTextValue(r.value.0) + r.value.1 == s
  {
    var a :- TakeText(s);
    Ok((a.0, a.1))
  }

  function PutTextValue(t: Text): Bytes
  {
    PutText(t)
  }

  /** Decodes the fields in `MAKE_SERIAL` order, as intended: the data
      vector is sized to its stored count. */
  function DecodeFrame(s: Bytes): (r: Decoding<Frame>)
    ensures |s| < 13 ==> r == Err(Truncated)
  {
    var v :- Take8(s);
    var c :- Take32(v.1);
    var d :- TakeTextValue(c.1);
    Ok((Frame(v.0, KindOf(c.0), d.0), d.1))
  }

  /** The envelope decoder reads only a whole encoded frame: what it
      accepts is a frame's encoding followed by the rest it returns. */
  lemma DecodeFrameExact(s: Bytes)
    ensures DecodeFrame(s).Ok? ==> EncodeFrame(DecodeFrame(s).value.0) + DecodeFrame(s).value.1 == s
  {
    if DecodeFrame(s).Ok? {
      var (v, s1) := Take8(s).value;
      var (c, s2) := Take32(s1).value;
      var (d, rest) := TakeTextValue(s2).value;
      Take32Exact(s1);
      FrameLayout(Frame(v, KindOf(c), d), rest);
      assert Put8(v) + s1 == s;
    }
  }

  lemma {:induction false} RoundTripTextValue(t: Text, rest: Bytes)
    ensures TakeTextValue(PutTextValue(t) + rest) == Ok((t, rest))
  {
    RoundTripText(t, rest);
  }

  /** A frame with a canonical kind reads back exactly. */
  lemma {:induction false} RoundTripFrame(f: Frame, rest: Bytes)
    requires Canonical(f.kind) && |f.data| < SizeBound
    ensures DecodeFrame(EncodeFrame(f) + rest) == Ok((f, rest))
  {
    FrameLayout(f, rest);
    var tail := PutText(f.data) + rest;
    var mid := Put32(Code(f.kind)) + tail;
    RoundTrip8(f.version, mid);
    RoundTrip32(Code(f.kind), tail);
    RoundTripTextValue(f.data, rest);
    KindCodeRoundTrip(f.kind);
  }

  /** The encoding of a frame, followed by `rest`, field by field. */
  lemma FrameLayout(f: Frame, rest: Bytes)
    ensures EncodeFrame(f) + rest == Put8(f.version) + (Put32(Code(f.kind)) + (PutText(f.data) + rest))
  {
  }

  /** Frame decoding as written: `Frame frame = {}` leaves `data` empty, so
      the range decoder has no slots to fill. */
  function DecodeFrameAsWritten(s: Bytes): (r: Decoding<Frame>)
    ensures r.Ok? ==> r == DecodeFrame(s) && r.value.0.data == []
  {
    var v :- Take8(s);
    var c :- Take32(v.1);
    var d :- TakeRangeInto(0, Take8, c.1);
    Ok((Frame(v.0, KindOf(c.0), []), d.1))
  }

  /** As written, every frame that carries a packet fails to decode. */
  lemma {:induction false} AsWrittenRejectsPayload(f: Frame, rest: Bytes)
    requires 0 < |f.data| < SizeBound
    ensures DecodeFrameAsWritten(EncodeFrame(f) + rest) == Err(RangeError)
  {
    var tail := PutText(f.data) + rest;
    var mid := Put32(Code(f.kind)) + tail;
    assert EncodeFrame(f) + rest == Put8(f.version) + mid;
    RoundTrip8(f.version, mid);
    RoundTrip32(Code(f.kind), tail);
    EmptyDestinationRejects(f.data, Put8, Take8, rest);
  }

  // ------------------------------------------------------------------ packets

  /** `MessagePacket`. Declared message, username, destination; an empty
      username is anonymous and an empty destination is a broadcast. */
  datatype MessagePacket = MessagePacket(message: Text, username: Text, destination: Text)

  datatype LoginPacket = LoginPacket(username: Text, password: Text)

  /** `FilePacket`, with the sender `username` that server.cpp reads but
      libchat.hpp does not declare; it is placed last on the wire. */
  datatype FilePacket = FilePacket(eof: bool, filename: Text, data: Text, destination: Text, username: Text)

  datatype ListPacket = ListPacket(users: seq<Text>)

  /** `Packet_t`: `NoPayload` is the `std::monostate` alternative. */
  datatype Payload =
    | NoPayload
    | Message(message: MessagePacket)
    | Login(login: LoginPacket)
    | File(file: FilePacket)
    | List(list: ListPacket)

  /** `MAKE_SERIAL(username, destination, message)`: the wire order differs
      from the declaration order. */
  function EncodeMessage(p: MessagePacket): (r: Bytes)
    ensures TakeSize(r) == Ok((|p.username|, p.username + (PutText(p.destination) + PutText(p.message))))
  {
    PutTextLayout(p.username, PutText(p.destination) + PutText(p.message));
    PutText(p.username) + (PutText(p.destination) + PutText(p.message))
  }

  /** A sized text followed by anything: its count, its bytes, the rest. */
  lemma {:induction false} PutTextLayout(t: Text, rest: Bytes)
    ensures TakeSize(PutText(t) + rest) == Ok((|t|, t + rest))
  {
    TakeSizeAppend(PutText(t), rest);
  }

  /** Reads username, destination and message with the corrected string
      decoder; whatever it accepts is an encoded message packet followed by
      the rest. */
  function DecodeMessage(s: Bytes): (r: Decoding<MessagePacket>)
    ensures r.Ok? ==> EncodeMessage(r.value.0) + r.value.1 == s
  {
    var u :- TakeTextValue(s);
    var d :- TakeTextValue(u.1);
    var m :- TakeTextValue(d.1);
    var p := MessagePacket(m.0, u.0, d.0);
    assert EncodeMessage(p) + m.1 == PutText(u.0) + (PutText(d.0) + (PutText(m.0) + m.1));
    Ok((p, m.1))
  }

  lemma {:induction false} RoundTripMessage(p: MessagePacket, rest: Bytes)
    ensures DecodeMessage(EncodeMessage(p) + rest) == Ok((p, rest))
  {
    MessageLayout(p, rest);
    DecodeMessageFields(p, rest);
  }

  /** The encoding of a message packet, followed by `rest`, field by field. */
  lemma MessageLayout(p: MessagePacket, rest: Bytes)
    ensures EncodeMessage(p) + rest == PutText(p.username) + (PutText(p.destination) + (PutText(p.message) + rest))
  {
    var u, d, m := PutText(p.username), PutText(p.destination), PutText(p.message);
    ConcatAssoc(u, d + m, rest);
    ConcatAssoc(d, m, rest);
  }

  lemma DecodeMessageFields(p: MessagePacket, rest: Bytes)
    ensures DecodeMessage(PutText(p.username) + (PutText(p.destination) + (PutText(p.message) + rest))) == Ok((p, rest))
  {
    var t2 := PutText(p.message) + rest;
    var t1 := PutText(p.destination) + t2;
    RoundTripTextValue(p.username, t1);
    RoundTripTextValue(p.destination, t2);
    RoundTripTextValue(p.message, rest);
  }

  /** `MAKE_SERIAL(username, password)`. */
  function EncodeLogin(p: LoginPacket): (r: Bytes)
    ensures TakeSize(r) == Ok((|p.username|, p.username + PutText(p.password)))
  {
    PutTextLayout(p.username, PutText(p.password));
    PutText(p.username) + PutText(p.password)
  }

  /** Reads username and password with the corrected string decoder;
      whatever it accepts is an encoded login packet followed by the rest. */
  function DecodeLogin(s: Bytes): (r: Decoding<LoginPacket>)
    ensures r.Ok? ==> EncodeLogin(r.value.0) + r.value.1 == s
  {
    var u :- TakeTextValue(s);
    var w :- TakeTextValue(u.1);
    var p := LoginPacket(u.0, w.0);
    assert EncodeLogin(p) + w.1 == PutText(u.0) + (PutText(w.0) + w.1);
    Ok((p, w.1))
  }

  lemma {:induction false} RoundTripLogin(p: LoginPacket, rest: Bytes)
    ensures DecodeLogin(EncodeLogin(p) + rest) == Ok((p, rest))
  {
    var t := PutText(p.password) + rest;
    assert EncodeLogin(p) + rest == PutText(p.username) + t;
    RoundTripText(p.username, t);
    RoundTripText(p.password, rest);
  }

  /** `MAKE_SERIAL(eof, filename, data, destination)`, then the sender. */
  function EncodeFile(p: FilePacket): (r: Bytes)
    ensures |r| >= 1 && (r[0] == 0 <==> !p.eof)
    ensures TakeSize(r[1..]) == Ok((|p.filename|, p.filename + (PutText(p.data) + PutText(p.destination) + PutText(p.username))))
  {
    var tail := PutText(p.data) + PutText(p.destination) + PutText(p.username);
    var body := PutText(p.filename) + tail;
    PutTextLayout(p.filename, tail);
    assert (PutBool(p.eof) + body)[1..] == body;
    PutBool(p.eof) + body
  }

  /** Reads the eof flag and the four strings with the corrected string
      decoder; whatever it accepts is an encoded file packet followed by the
      rest, except that any non-zero flag byte reads as true. */
  function DecodeFile(s: Bytes): (r: Decoding<FilePacket>)
    ensures r.Ok? ==> |s| >= 1 && (r.value.0.eof <==> s[0] != 0)
    ensures r.Ok? ==> (EncodeFile(r.value.0) + r.value.1)[1..] == s[1..]
  {
    var e :- TakeBool(s);
    var n :- TakeTextValue(e.1);
    var d :- TakeTextValue(n.1);
    var t :- TakeTextValue(d.1);
    var u :- TakeTextValue(t.1);
    var p := FilePacket(e.0, n.0, d.0, t.0, u.0);
    FileLayout(p, u.1);
    Ok((p, u.1))
  }

  lemma {:induction false} RoundTripFile(p: FilePacket, rest: Bytes)
    ensures DecodeFile(EncodeFile(p) + rest) == Ok((p, rest))
  {
    FileLayout(p, rest);
    DecodeFileFields(p, rest);
  }

  /** The encoding of a file packet, followed by `rest`, field by field. */
  lemma FileLayout(p: FilePacket, rest: Bytes)
    ensures EncodeFile(p) + rest
         == PutBool(p.eof) + (PutText(p.filename) + (PutText(p.data) + (PutText(p.destination) + (PutText(p.username) + rest))))
  {
  }

  lemma DecodeFileFields(p: FilePacket, rest: Bytes)
    ensures DecodeFile(PutBool(p.eof) + (PutText(p.filename) + (PutText(p.data) + (PutText(p.destination) + (PutText(p.username) + rest)))))
         == Ok((p, rest))
  {
    var t4 := PutText(p.username) + rest;
    var t3 := PutText(p.destination) + t4;
    var t2 := PutText(p.data) + t3;
    var t1 := PutText(p.filename) + t2;
    RoundTripBool(p.eof, t1);
    RoundTripTextValue(p.filename, t2);
    RoundTripTextValue(p.data, t3);
    RoundTripTextValue(p.destination, t4);
    RoundTripTextValue(p.username, rest);
  }

  /** `TakeTextValue` reads back what `PutTextValue` writes. */
  lemma TextValueInverts()
    ensures Inverts(PutTextValue, TakeTextValue)
  {
    forall t: Text, rest: Bytes
      ensures TakeTextValue(PutTextValue(t) + rest) == Ok((t, rest))
    {
      RoundTripTextValue(t, rest);
    }
  }

  /** `MAKE_SERIAL(users)`: a sized range of sized strings. */
  function EncodeList(p: ListPacket): (r: Bytes)
    ensures |p.users| < SizeBound ==> TakeSize(r) == Ok((|p.users|, PutAll(p.users, PutTextValue)))
  {
    PutRange(p.users, PutTextValue)
  }

  /** Reads the count and that many names with the corrected range
      decoder; whatever it accepts is an encoded list packet followed by the
      rest. */
  function DecodeList(s: Bytes): (r: Decoding<ListPacket>)
    ensures r.Ok? ==> EncodeList(r.value.0) + r.value.1 == s
  {
    TextValueExact();
    TakeRangeExact(PutTextValue, TakeTextValue, s);
    var u :- TakeRange(TakeTextValue, s);
    Ok((ListPacket(u.0), u.1))
  }

  /** The string field decoder reads back exactly what it took. */
  lemma TextValueExact()
    ensures Exact(PutTextValue, TakeTextValue)
  {
  }

  lemma {:induction false} RoundTripList(p: ListPacket, rest: Bytes)
    requires |p.users| < SizeBound
    ensures DecodeList(EncodeList(p) + rest) == Ok((p, rest))
  {
    TextValueInverts();
    RoundTripRange(p.users, PutTextValue, TakeTextValue, rest);
  }

  // ----------------------------------------------------------------- dispatch

  /** The payload shape `get_frame` produces for each kind. */
  predicate Fits(k: MessageKind, p: Payload)
  {
    match k
    case MsgLogin => p.Login?
    case MsgRegister => p.Login?
    case MsgList => p.List?
    case MsgSend => p.Message?
    case MsgXfer => p.File?
    case _ => p.NoPayload?
  }

  /** A payload every field of which a `std::size_t` count can describe. */
  predicate Encodable(p: Payload)
  {
    p.List? ==> |p.list.users| < SizeBound
  }

  function EncodePayload(p: Payload): Bytes
  {
    match p
    case NoPayload => []
    case Message(m) => EncodeMessage(m)
    case Login(l) => EncodeLogin(l)
    case File(f) => EncodeFile(f)
    case List(l) => EncodeList(l)
  }

  /** Why `get_frame` throws. */
  datatype FrameError = Malformed(reason: CodecError) | VersionMismatch

  /** Why a connection's receive handler throws: a frame `get_frame` refuses,
      or a delimiter header without the magic byte. */
  datatype Crash = BadFrame(error: FrameError) | OutOfStep

  /** `get_frame`: decode the envelope, reject a foreign version, then decode
      the packet its kind calls for. Bytes after a complete value are ignored. */
  function GetFrame(s: Bytes): (r: Result<(MessageKind, Payload), FrameError>)
    ensures r.Ok? ==> Fits(r.value.0, r.value.1) && Canonical(r.value.0)
    ensures DecodeFrame(s).Err? ==> r == Err(Malformed(DecodeFrame(s).error))
    ensures DecodeFrame(s).Ok? && DecodeFrame(s).value.0.version != ProtocolVersion ==> r == Err(VersionMismatch)
    ensures r.Ok? ==> DecodeFrame(s).Ok? && r.value.0 == DecodeFrame(s).value.0.kind
  {
    match DecodeFrame(s)
    case Err(e) => Err(Malformed(e))
    case Ok((frame, _)) =>
      if frame.version != ProtocolVersion then Err(VersionMismatch)
      else
        var payload :- DecodePayload(frame.kind, frame.data);
        Ok((frame.kind, payload))
  }

  /** `get_message`: the kind of a frame of the current protocol version,
      whatever its data holds, read with the corrected frame decoder (as
      written, `Frame frame;` has an empty payload vector, so a non-empty
      payload throws `range_error`). */
  function GetMessage(s: Bytes): (r: Result<MessageKind, FrameError>)
    ensures DecodeFrame(s).Err? ==> r == Err(Malformed(DecodeFrame(s).error))
    ensures DecodeFrame(s).Ok? && DecodeFrame(s).value.0.version != ProtocolVersion ==> r == Err(VersionMismatch)
    ensures r.Ok? ==> DecodeFrame(s).Ok? && r.value == DecodeFrame(s).value.0.kind
  {
    match DecodeFrame(s)
    case Err(e) => Err(Malformed(e))
    case Ok((frame, _)) => if frame.version != ProtocolVersion then Err(VersionMismatch) else Ok(frame.kind)
  }

  /** `get_message` reads the kind `get_frame` would, and also reads it from
      frames whose data does not decode. */
  lemma GetMessageAgrees(s: Bytes)
    ensures GetFrame(s).Ok? ==> GetMessage(s) == Ok(GetFrame(s).value.0)
    ensures GetMessage(s).Err? ==> GetFrame(s) == Err(GetMessage(s).error)
  {
  }

  /** Any current-version frame with a canonical kind yields its kind. */
  lemma GetMessageOfEncoded(f: Frame)
    requires Canonical(f.kind) && |f.data| < SizeBound && f.version == ProtocolVersion
    ensures GetMessage(EncodeFrame(f)) == Ok(f.kind)
  {
    RoundTripFrame(f, []);
    assert EncodeFrame(f) + [] == EncodeFrame(f);
  }

  /** The payload decoder `get_frame` picks for a kind. */
  function DecodePayload(k: MessageKind, data: Bytes): (r: Result<Payload, FrameError>)
    ensures r.Ok? ==> Fits(k, r.value)
    ensures !(k.MsgLogin? || k.MsgRegister? || k.MsgList? || k.MsgSend? || k.MsgXfer?) ==> r == Ok(NoPayload)
  {
    match k
    case MsgLogin => PayloadOf(DecodeLogin(data), (l: LoginPacket) => Login(l))
    case MsgRegister => PayloadOf(DecodeLogin(data), (l: LoginPacket) => Login(l))
    case MsgList => PayloadOf(DecodeList(data), (l: ListPacket) => List(l))
    case MsgSend => PayloadOf(DecodeMessage(data), (m: MessagePacket) => Message(m))
    case MsgXfer => PayloadOf(DecodeFile(data), (f: FilePacket) => File(f))
    case _ => Ok(NoPayload)
  }

  function PayloadOf<T>(d: Decoding<T>, wrap: T -> Payload): (r: Result<Payload, FrameError>)
    ensures d.Ok? <==> r.Ok?
    ensures d.Ok? ==> r.value == wrap(d.value.0)
  {
    match d
    case Err(e) => Err(Malformed(e))
    case Ok((x, _)) => Ok(wrap(x))
  }

  /** `make_frame(msg)`: version 0, the kind, no data. */
  function MakeFrame(k: MessageKind): (f: Frame)
    ensures f.version == ProtocolVersion && f.kind == k && f.data == []
  {
    Frame(ProtocolVersion, k, [])
  }

  /** `make_frame(msg, obj)`: version 0, the kind, the packet's encoding. */
  function MakeFrameWith(k: MessageKind, p: Payload): (f: Frame)
    ensures f.version == ProtocolVersion && f.kind == k && f.data == EncodePayload(p)
  {
    Frame(ProtocolVersion, k, EncodePayload(p))
  }

  /** The decoder a kind selects reads back a packet of the shape it fits. */
  lemma {:induction false} DecodePayloadOfEncoded(k: MessageKind, p: Payload)
    requires Fits(k, p) && Encodable(p)
    ensures DecodePayload(k, EncodePayload(p)) == Ok(p)
  {
    match p
    case NoPayload =>
    case Message(m) => MessageAlone(m);
    case Login(l) => LoginAlone(l);
    case File(x) => FileAlone(x);
    case List(l) => ListAlone(l);
  }

  /** Each packet, as the whole of a frame's data, decodes with nothing left. */
  lemma MessageAlone(m: MessagePacket)
    ensures DecodeMessage(EncodeMessage(m)) == Ok((m, []))
  {
    RoundTripMessage(m, []);
    assert EncodeMessage(m) + [] == EncodeMessage(m);
  }

  lemma LoginAlone(l: LoginPacket)
    ensures DecodeLogin(EncodeLogin(l)) == Ok((l, []))
  {
    RoundTripLogin(l, []);
    assert EncodeLogin(l) + [] == EncodeLogin(l);
  }

  lemma FileAlone(x: FilePacket)
    ensures DecodeFile(EncodeFile(x)) == Ok((x, []))
  {
    RoundTripFile(x, []);
    assert EncodeFile(x) + [] == EncodeFile(x);
  }

  lemma ListAlone(l: ListPacket)
    requires |l.users| < SizeBound
    ensures DecodeList(EncodeList(l)) == Ok((l, []))
  {
    RoundTripList(l, []);
    assert EncodeList(l) + [] == EncodeList(l);
  }

  /** A packet framed for its own kind comes back out of `get_frame`. */
  lemma {:induction false} GetFrameOfMade(k: MessageKind, p: Payload)
    requires Canonical(k) && Fits(k, p) && Encodable(p)
    requires |EncodePayload(p)| < SizeBound
    ensures GetFrame(EncodeFrame(MakeFrameWith(k, p))) == Ok((k, p))
  {
    var f := MakeFrameWith(k, p);
    var e := EncodeFrame(f);
    RoundTripFrame(f, []);
    assert e + [] == e;
    DecodePayloadOfEncoded(k, p);
    GetFrameOfDecoded(e, f);
  }

  /** Once the envelope decodes with the current version, `get_frame` is the
      kind's payload decoder applied to the data. */
  lemma GetFrameOfDecoded(s: Bytes, f: Frame)
    requires DecodeFrame(s).Ok? && DecodeFrame(s).value.0 == f && f.version == ProtocolVersion
    ensures DecodePayload(f.kind, f.data).Ok? ==> GetFrame(s) == Ok((f.kind, DecodePayload(f.kind, f.data).value))
  {
  }

  /** `get_frame` rejects a frame from another protocol version. */
  lemma {:induction false} GetFrameRejectsVersion(f: Frame)
    requires Canonical(f.kind) && |f.data| < SizeBound && f.version != ProtocolVersion
    ensures GetFrame(EncodeFrame(f)) == Err(VersionMismatch)
  {
    RoundTripFrame(f, []);
    assert EncodeFrame(f) + [] == EncodeFrame(f);
  }

  // ------------------------------------------------------------ string_okay

  /** `std::isalnum` in the C locale: ASCII letters and digits only, so no
      control character, space, punctuation or byte from 0x80 up. */
  predicate IsAlnum(c: byte)
    ensures IsAlnum(c) ==> '0' as byte <= c < 0x80
  {
    ('0' as byte <= c <= '9' as byte) || ('A' as byte <= c <= 'Z' as byte) || ('a' as byte <= c <= 'z' as byte)
  }

  /** `string_okay`: between four and eight characters, all alphanumeric. */
  method StringOkay(s: Bytes) returns (ok: bool)
    ensures ok <==> 4 <= |s| <= 8 && forall i | 0 <= i < |s| :: IsAlnum(s[i])
  {
    if |s| > 8 || |s| < 4 {
      return false;
    }
    var i := 0;
    while i < |s|
      invariant 0 <= i <= |s|
      invariant forall j | 0 <= j < i :: IsAlnum(s[j])
    {
      if !IsAlnum(s[i]) {
        return false;
      }
      i := i + 1;
    }
    return true;
  }
}
