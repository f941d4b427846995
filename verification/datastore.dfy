/** `ServerData` of src/server/datastore.hpp: the registered accounts and the
    messages held for users who were offline, with its lookups, its purge
    and its on-disk layout. */
module DataStore {
  import opened Wrappers
  import opened Surreal
  import opened Protocol

  /** `user_database` and `offline_msgs`, in that order. */
  datatype ServerData = ServerData(users: seq<LoginPacket>, offline: seq<MessagePacket>)

  /** `std::find_if`: the index of the first element satisfying `p`, or the
      length (the end iterator) when there is none. */
  function FirstWhere<T>(xs: seq<T>, p: T -> bool): (i: nat)
    ensures i <= |xs|
    ensures i < |xs| ==> p(xs[i])
    ensures forall j | 0 <= j < i :: !p(xs[j])
  {
    if |xs| == 0 then 0
    else if p(xs[0]) then 0
    else 1 + FirstWhere(xs[1..], p)
  }

  predicate NamedAs(u: Text, l: LoginPacket)
  {
    l.username == u
  }

  predicate AddressedTo(u: Text, m: MessagePacket)
  {
    m.destination == u
  }

  /** `find_user`: the first account with this username, or the end. */
  function FindUser(d: ServerData, u: Text): (i: nat)
    ensures i <= |d.users|
    ensures i < |d.users| ==> d.users[i].username == u
    ensures forall j | 0 <= j < i :: d.users[j].username != u
  {
    FirstWhere(d.users, l => NamedAs(u, l))
  }

  /** An account with this username exists. */
  predicate Registered(d: ServerData, u: Text)
  {
    exists i | 0 <= i < |d.users| :: d.users[i].username == u
  }

  /** `find_user` reaches the end exactly when nobody has the name. */
  lemma FindUserFound(d: ServerData, u: Text)
    ensures FindUser(d, u) < |d.users| <==> Registered(d, u)
  {
    if Registered(d, u) {
      var i :| 0 <= i < |d.users| && d.users[i].username == u;
      assert FindUser(d, u) <= i;
    }
  }

  /** `get_user_msgs`: the first held message for this user, or the end. */
  function GetUserMsgs(d: ServerData, u: Text): (i: nat)
    ensures i <= |d.offline|
    ensures i < |d.offline| ==> d.offline[i].destination == u
    ensures forall j | 0 <= j < i :: d.offline[j].destination != u
  {
    FirstWhere(d.offline, m => AddressedTo(u, m))
  }

  /** The erase-remove idiom of `clear_user_msgs` on a message list. */
  function KeepOthers(msgs: seq<MessagePacket>, u: Text): (r: seq<MessagePacket>)
    ensures |r| <= |msgs|
    ensures forall i | 0 <= i < |r| :: r[i].destination != u
    ensures forall m :: m in r <==> m in msgs && m.destination != u
  {
    if |msgs| == 0 then []
    else if msgs[0].destination == u then KeepOthers(msgs[1..], u)
    else [msgs[0]] + KeepOthers(msgs[1..], u)
  }

  /** `clear_user_msgs`: drop every held message for this user. */
  function ClearUserMsgs(d: ServerData, u: Text): (r: ServerData)
    ensures r.users == d.users
    ensures forall i | 0 <= i < |r.offline| :: r.offline[i].destination != u
    ensures forall m :: m in r.offline <==> m in d.offline && m.destination != u
  {
    d.(offline := KeepOthers(d.offline, u))
  }

  /** The purge works piecewise: what survives from two runs of messages is
      what survives from each, in the same order. */
  lemma {:induction false} KeepOthersAppend(a: seq<MessagePacket>, b: seq<MessagePacket>, u: Text)
    ensures KeepOthers(a + b, u) == KeepOthers(a, u) + KeepOthers(b, u)
  {
    if |a| == 0 {
      assert a + b == b;
    } else {
      assert (a + b)[1..] == a[1..] + b;
      KeepOthersAppend(a[1..], b, u);
    }
  }

  /** A message for someone else survives in place; one for `u` vanishes. */
  lemma KeepOthersSingle(m: MessagePacket, u: Text)
    ensures KeepOthers([m], u) == if m.destination == u then [] else [m]
  {
    assert [m][1..] == [];
  }

  /** Messages with no copy for `u` are left exactly as they were. */
  lemma {:induction false} KeepOthersNoop(msgs: seq<MessagePacket>, u: Text)
    requires forall i | 0 <= i < |msgs| :: msgs[i].destination != u
    ensures KeepOthers(msgs, u) == msgs
  {
    if |msgs| > 0 {
      KeepOthersNoop(msgs[1..], u);
      assert [msgs[0]] + msgs[1..] == msgs;
    }
  }

  /** `clear_user_msgs` is idempotent. */
  lemma ClearIdempotent(d: ServerData, u: Text)
    ensures ClearUserMsgs(ClearUserMsgs(d, u), u) == ClearUserMsgs(d, u)
  {
    KeepOthersNoop(ClearUserMsgs(d, u).offline, u);
  }

  /** Messages for other users are untouched, and the purge commutes across
      users. */
  lemma {:induction false} ClearCommutes(msgs: seq<MessagePacket>, u: Text, v: Text)
    ensures KeepOthers(KeepOthers(msgs, u), v) == KeepOthers(KeepOthers(msgs, v), u)
  {
    if |msgs| > 0 {
      ClearCommutes(msgs[1..], u, v);
      var m := msgs[0];
      if m.destination != u && m.destination != v {
        assert ([m] + KeepOthers(msgs[1..], u))[1..] == KeepOthers(msgs[1..], u);
        assert ([m] + KeepOthers(msgs[1..], v))[1..] == KeepOthers(msgs[1..], v);
      } else if m.destination == u && m.destination != v {
        assert ([m] + KeepOthers(msgs[1..], v))[1..] == KeepOthers(msgs[1..], v);
      } else if m.destination != u && m.destination == v {
        assert ([m] + KeepOthers(msgs[1..], u))[1..] == KeepOthers(msgs[1..], u);
      }
    }
  }

  // ------------------------------------------------------------------ layout

  lemma LoginInverts()
    ensures Inverts(EncodeLogin, DecodeLogin)
  {
    forall l: LoginPacket, rest: Bytes
      ensures DecodeLogin(EncodeLogin(l) + rest) == Ok((l, rest))
    {
      RoundTripLogin(l, rest);
    }
  }

  lemma MessageInverts()
    ensures Inverts(EncodeMessage, DecodeMessage)
  {
    forall m: MessagePacket, rest: Bytes
      ensures DecodeMessage(EncodeMessage(m) + rest) == Ok((m, rest))
    {
      RoundTripMessage(m, rest);
    }
  }

  /** `MAKE_SERIAL(user_database, offline_msgs)`: two sized ranges, the
      accounts first. */
  function EncodeServerData(d: ServerData): (r: Bytes)
    ensures |d.users| < SizeBound ==>
      TakeSize(r) == Ok((|d.users|, PutAll(d.users, EncodeLogin) + PutRange(d.offline, EncodeMessage)))
  {
    var users := PutRange(d.users, EncodeLogin);
    var offline := PutRange(d.offline, EncodeMessage);
    TakeSizeAppend(users, offline);
    users + offline
  }

  /** Reads the two ranges back with the corrected range decoder, each
      sized to its stored count. */
  function DecodeServerData(s: Bytes): (r: Decoding<ServerData>)
    ensures r.Ok? ==> EncodeServerData(r.value.0) + r.value.1 == s
  {
    LoginExact();
    MessageExact();
    TakeRangeExact(EncodeLogin, DecodeLogin, s);
    var u :- TakeRange(DecodeLogin, s);
    TakeRangeExact(EncodeMessage, DecodeMessage, u.1);
    var m :- TakeRange(DecodeMessage, u.1);
    Ok((ServerData(u.0, m.0), m.1))
  }

  /** The login decoder reads back exactly what it took. */
  lemma LoginExact()
    ensures Exact(EncodeLogin, DecodeLogin)
  {
  }

  /** The message decoder reads back exactly what it took. */
  lemma MessageExact()
    ensures Exact(EncodeMessage, DecodeMessage)
  {
  }

  /** What `DataStore::save` writes, `DataStore::load` reads back once the
      range decoder sizes each range to its stored count. */
  lemma {:induction false} RoundTripServerData(d: ServerData, rest: Bytes)
    requires |d.users| < SizeBound && |d.offline| < SizeBound
    ensures DecodeServerData(EncodeServerData(d) + rest) == Ok((d, rest))
  {
    var tail := PutRange(d.offline, EncodeMessage) + rest;
    assert EncodeServerData(d) + rest == PutRange(d.users, EncodeLogin) + tail;
    LoginInverts();
    MessageInverts();
    RoundTripRange(d.users, EncodeLogin, DecodeLogin, tail);
    RoundTripRange(d.offline, EncodeMessage, DecodeMessage, rest);
  }

  /** `DataStore::load` as written: `deserialize(data)` into the member the
      store was constructed with, whose two vectors are empty, so each range
      goes through the as-written decoder with no slots. */
  function LoadAsWritten(s: Bytes): (r: Decoding<ServerData>)
    ensures r.Ok? ==> r.value.0 == ServerData([], [])
    ensures TakeSize(s).Ok? && TakeSize(s).value.0 > 0 ==> r == Err(RangeError)
  {
    var u :- TakeRangeInto(0, DecodeLogin, s);
    var m :- TakeRangeInto(0, DecodeMessage, u.1);
    Ok((ServerData(u.0, m.0), m.1))
  }

  /** As written, a saved store loads back only when it is empty: one user
      or one held message makes `load` throw `range_error`, so the server
      cannot start over the file it saved. */
  lemma {:induction false} LoadAsWrittenRejects(d: ServerData, rest: Bytes)
    requires |d.users| < SizeBound && |d.offline| < SizeBound
    ensures LoadAsWritten(EncodeServerData(d) + rest)
         == if d == ServerData([], []) then Ok((d, rest)) else Err(RangeError)
  {
    var tail := PutRange(d.offline, EncodeMessage) + rest;
    assert EncodeServerData(d) + rest == PutRange(d.users, EncodeLogin) + tail;
    if |d.users| > 0 {
      EmptyDestinationRejects(d.users, EncodeLogin, DecodeLogin, tail);
    } else {
      LoginInverts();
      PresizedRoundTrip(d.users, EncodeLogin, DecodeLogin, tail);
      if |d.offline| > 0 {
        EmptyDestinationRejects(d.offline, EncodeMessage, DecodeMessage, rest);
      } else {
        MessageInverts();
        PresizedRoundTrip(d.offline, EncodeMessage, DecodeMessage, rest);
      }
    }
  }
}
