/** Delimited framing: the `0xFE` + length header that splits a byte stream
    back into frames, and the incremental receive state machine that the
    server (src/server/server.cpp) and the client (src/client/client.cpp)
    both run over `recv_state` (lib/libchat.hpp). */
module Framing {
  import opened Wrappers
  import opened Surreal

  /** `MAGIC_PACKET`, the first byte of every delimiter header. */
  const Magic: byte := 0xFE

  /** `header_size`: the magic byte plus a `std::size_t` length. */
  const HeaderSize: nat := 1 + 8

  /** `recv_state`: the bytes received but not yet consumed, how many bytes
      the next step needs, and whether that step reads a header. */
  datatype RecvState = RecvState(data: Bytes, desired: nat, awaitHeader: bool)

  /** A default-constructed `recv_state`. */
  function FreshRecvState(): (st: RecvState)
    ensures st.awaitHeader && st.desired == HeaderSize && st.data == []
  {
    RecvState([], HeaderSize, true)
  }

  /** While a header is awaited, exactly a header's worth of bytes is. */
  predicate Aligned(st: RecvState)
  {
    st.awaitHeader ==> st.desired == HeaderSize
  }

  /** Nothing complete is left to take. */
  predicate Settled(st: RecvState)
  {
    |st.data| < st.desired
  }

  /** The bytes `send_delimited` puts on the wire for one frame. */
  function Delimit(payload: Bytes): (r: Bytes)
    ensures |r| == HeaderSize + |payload| && r[0] == Magic && r[HeaderSize..] == payload
    ensures |payload| < SizeBound ==> TakeSize(r[1..]) == Ok((|payload|, payload))
  {
    DelimitLayout(payload);
    [Magic] + PutSize(|payload|) + payload
  }

  lemma DelimitLayout(payload: Bytes)
    ensures var r := [Magic] + PutSize(|payload|) + payload;
      && |r| == HeaderSize + |payload| && r[0] == Magic && r[HeaderSize..] == payload
      && (|payload| < SizeBound ==> TakeSize(r[1..]) == Ok((|payload|, payload)))
  {
    var r := [Magic] + PutSize(|payload|) + payload;
    assert r[1..] == PutSize(|payload|) + payload;
    if |payload| < SizeBound {
      RoundTripSize(|payload|, payload);
    }
  }

  /** Several frames sent one after another. */
  function DelimitAll(ps: seq<Bytes>): Bytes
  {
    if |ps| == 0 then [] else Delimit(ps[0]) + DelimitAll(ps[1..])
  }

  /** What one drain of the receive buffer produced: the frame payloads in
      arrival order, the state left behind, and whether a header without
      the magic byte stopped it (the source throws). */
  datatype Drained = Drained(payloads: seq<Bytes>, state: RecvState, desync: bool)

  /** `r` followed by whatever `later` produced from `r`'s state. */
  function Then(r: Drained, later: Drained): Drained
  {
    Drained(r.payloads + later.payloads, later.state, later.desync)
  }

  /** The `while (r_state.data.size() >= r_state.desired_bytes)` loop: take
      a header (check the magic byte, read the length) or a payload of the
      announced length, alternately, until too few bytes remain. */
  function Drain(st: RecvState): (r: Drained)
    requires Aligned(st)
    ensures Aligned(r.state)
    ensures !r.desync ==> Settled(r.state)
    ensures |r.state.data| <= |st.data|
    decreases 2 * |st.data| + (if st.awaitHeader then 0 else 1)
  {
    if |st.data| < st.desired then Drained([], st, false)
    else
      var chunk, rest := st.data[..st.desired], st.data[st.desired..];
      if st.awaitHeader then
        var tag := Take8(chunk).value.0;
        if tag != Magic then Drained([], RecvState(rest, st.desired, true), true)
        else
          var size := TakeSize(chunk[1..]).value.0;
          Drain(RecvState(rest, size, false))
      else
        var r := Drain(RecvState(rest, HeaderSize, true));
        Then(Drained([chunk], st, false), r)
  }

  function Append(st: RecvState, bytes: Bytes): RecvState
  {
    st.(data := st.data + bytes)
  }

  /** One read event: append what arrived, then drain. */
  function Feed(st: RecvState, chunk: Bytes): (r: Drained)
    requires Aligned(st)
    ensures Aligned(r.state)
    ensures !r.desync ==> Settled(r.state)
    ensures |r.state.data| <= |st.data| + |chunk|
  {
    Drain(Append(st, chunk))
  }

  /** A sequence of read events; a desync ends the connection. */
  function FeedAll(st: RecvState, chunks: seq<Bytes>): (r: Drained)
    requires Aligned(st)
    ensures Aligned(r.state)
    decreases |chunks|
  {
    if |chunks| == 0 then Drained([], st, false)
    else
      var r := Feed(st, chunks[0]);
      if r.desync then r else Then(r, FeedAll(r.state, chunks[1..]))
  }

  function Concat(chunks: seq<Bytes>): Bytes
  {
    if |chunks| == 0 then [] else chunks[0] + Concat(chunks[1..])
  }

  /** Draining more bytes at once gives what draining the first part, then
      the rest, gives. */
  lemma {:induction false} DrainAppend(st: RecvState, extra: Bytes)
    requires Aligned(st)
    ensures var r := Drain(st);
      if r.desync then
        Drain(Append(st, extra)).desync && Drain(Append(st, extra)).payloads == r.payloads
      else
        Drain(Append(st, extra)) == Then(r, Drain(Append(r.state, extra)))
    decreases 2 * |st.data| + (if st.awaitHeader then 0 else 1)
  {
    var st' := Append(st, extra);
    if |st.data| < st.desired {
      assert Drain(st) == Drained([], st, false);
      assert [] + Drain(st').payloads == Drain(st').payloads;
    } else {
      var chunk, rest := st.data[..st.desired], st.data[st.desired..];
      assert st'.data[..st.desired] == chunk;
      assert st'.data[st.desired..] == rest + extra;
      if st.awaitHeader {
        if Take8(chunk).value.0 != Magic {
        } else {
          var size := TakeSize(chunk[1..]).value.0;
          var next := RecvState(rest, size, false);
          assert Append(next, extra) == RecvState(rest + extra, size, false);
          DrainAppend(next, extra);
        }
      } else {
        var next := RecvState(rest, HeaderSize, true);
        assert Append(next, extra) == RecvState(rest + extra, HeaderSize, true);
        DrainAppend(next, extra);
        var r := Drain(next);
        if !r.desync {
          var later := Drain(Append(r.state, extra));
          assert [chunk] + (r.payloads + later.payloads) == ([chunk] + r.payloads) + later.payloads;
        }
      }
    }
  }

  /** Feeding the stream in any chunks equals draining it in one piece. */
  lemma {:induction false} FeedAllIsDrain(st: RecvState, chunks: seq<Bytes>)
    requires Aligned(st) && Settled(st)
    ensures var whole := Drain(Append(st, Concat(chunks)));
      && FeedAll(st, chunks).payloads == whole.payloads
      && FeedAll(st, chunks).desync == whole.desync
      && (!whole.desync ==> FeedAll(st, chunks).state == whole.state)
    decreases |chunks|
  {
    if |chunks| == 0 {
      assert Append(st, Concat(chunks)) == st;
    } else {
      var first := Append(st, chunks[0]);
      var r := Drain(first);
      assert Append(st, Concat(chunks)) == Append(first, Concat(chunks[1..]));
      DrainAppend(first, Concat(chunks[1..]));
      if !r.desync {
        FeedAllIsDrain(r.state, chunks[1..]);
      }
    }
  }

  /** Any two ways of splitting the same byte stream into read events yield
      the same frames, in the same order, and the same verdict. */
  lemma {:induction false} SplitInvariance(a: seq<Bytes>, b: seq<Bytes>)
    requires Concat(a) == Concat(b)
    ensures FeedAll(FreshRecvState(), a).payloads == FeedAll(FreshRecvState(), b).payloads
    ensures FeedAll(FreshRecvState(), a).desync == FeedAll(FreshRecvState(), b).desync
  {
    FeedAllIsDrain(FreshRecvState(), a);
    FeedAllIsDrain(FreshRecvState(), b);
  }

  /** One delimited frame at the head of the buffer is taken whole. */
  lemma DrainOneFrame(p: Bytes, after: Bytes)
    requires |p| < SizeBound
    ensures Drain(RecvState(Delimit(p) + after, HeaderSize, true))
         == Then(Drained([p], FreshRecvState(), false), Drain(RecvState(after, HeaderSize, true)))
  {
    DelimitHead(p, after);
    assert (p + after)[..|p|] == p && (p + after)[|p|..] == after;
  }

  /** The header at the front of a delimited frame: the magic byte, the
      payload size, then the payload and whatever follows. */
  lemma DelimitHead(p: Bytes, after: Bytes)
    requires |p| < SizeBound
    ensures var data := Delimit(p) + after;
      && |data| >= HeaderSize && data[..HeaderSize][0] == Magic
      && TakeSize(data[..HeaderSize][1..]) == Ok((|p|, []))
      && data[HeaderSize..] == p + after
  {
    var e := Delimit(p);
    var data := e + after;
    var chunk := data[..HeaderSize];
    assert e == [Magic] + PutSize(|p|) + p;
    assert chunk[1..] == PutSize(|p|) + [];
    RoundTripSize(|p|, []);
  }

  lemma DelimitAllCons(ps: seq<Bytes>, tail: Bytes)
    requires |ps| > 0
    ensures DelimitAll(ps) + tail == Delimit(ps[0]) + (DelimitAll(ps[1..]) + tail)
  {
    assert DelimitAll(ps) == Delimit(ps[0]) + DelimitAll(ps[1..]);
  }

  /** Every payload's length fits a `std::size_t`. */
  predicate AllSized(ps: seq<Bytes>)
  {
    forall i | 0 <= i < |ps| :: |ps[i]| < SizeBound
  }

  /** Frames sent back to back and read at once on a settled connection
      come out exactly, leaving the state awaiting the next header. */
  lemma FeedDelimited(ps: seq<Bytes>)
    requires AllSized(ps)
    ensures Feed(FreshRecvState(), DelimitAll(ps)) == Drained(ps, FreshRecvState(), false)
  {
    DrainDelimited(ps, []);
    assert DelimitAll(ps) + [] == DelimitAll(ps);
    assert Append(FreshRecvState(), DelimitAll(ps)) == RecvState(DelimitAll(ps) + [], HeaderSize, true);
    assert ps + [] == ps;
  }

  /** A run of delimited frames drains to exactly those payloads, in order,
      and leaves the state awaiting the header of whatever follows. */
  lemma {:induction false} DrainDelimited(ps: seq<Bytes>, tail: Bytes)
    requires AllSized(ps)
    ensures Drain(RecvState(DelimitAll(ps) + tail, HeaderSize, true))
         == Then(Drained(ps, FreshRecvState(), false), Drain(RecvState(tail, HeaderSize, true)))
  {
    var later := Drain(RecvState(tail, HeaderSize, true));
    if |ps| == 0 {
      assert DelimitAll(ps) + tail == tail;
      assert [] + later.payloads == later.payloads;
    } else {
      var p, more := ps[0], ps[1..];
      var after := DelimitAll(more) + tail;
      assert AllSized(more);
      calc {
        Drain(RecvState(DelimitAll(ps) + tail, HeaderSize, true));
        { DelimitAllCons(ps, tail); }
        Drain(RecvState(Delimit(p) + after, HeaderSize, true));
        { DrainOneFrame(p, after); }
        Then(Drained([p], FreshRecvState(), false), Drain(RecvState(after, HeaderSize, true)));
        { DrainDelimited(more, tail); }
        Then(Drained([p], FreshRecvState(), false), Then(Drained(more, FreshRecvState(), false), later));
        { ThenAssoc(p, more, later); assert [p] + more == ps; }
        Then(Drained(ps, FreshRecvState(), false), later);
      }
    }
  }

  lemma ThenAssoc(p: Bytes, more: seq<Bytes>, later: Drained)
    ensures Then(Drained([p], FreshRecvState(), false), Then(Drained(more, FreshRecvState(), false), later))
         == Then(Drained([p] + more, FreshRecvState(), false), later)
  {
    assert [p] + (more + later.payloads) == ([p] + more) + later.payloads;
  }

  /** The framing round trip: frames sent back to back, received in any
      chunks, come out exactly, in order, with nothing left over. */
  lemma {:induction false} FramesSurviveAnySplit(ps: seq<Bytes>, chunks: seq<Bytes>)
    requires AllSized(ps)
    requires Concat(chunks) == DelimitAll(ps)
    ensures FeedAll(FreshRecvState(), chunks) == Drained(ps, FreshRecvState(), false)
  {
    FeedAllIsDrain(FreshRecvState(), chunks);
    DrainDelimited(ps, []);
    assert DelimitAll(ps) + [] == DelimitAll(ps);
    assert Append(FreshRecvState(), Concat(chunks)) == RecvState(DelimitAll(ps) + [], HeaderSize, true);
    assert ps + [] == ps;
  }

  /** A corrupted magic byte at a frame boundary is reported, not skipped:
      the frames before it are delivered and the stream is declared out of
      step, whatever bytes follow. */
  lemma {:induction false} CorruptMagicDesyncs(ps: seq<Bytes>, bad: Bytes)
    requires AllSized(ps)
    requires |bad| >= HeaderSize && bad[0] != Magic
    ensures Drain(RecvState(DelimitAll(ps) + bad, HeaderSize, true)).desync
    ensures Drain(RecvState(DelimitAll(ps) + bad, HeaderSize, true)).payloads == ps
  {
    DrainDelimited(ps, bad);
    assert ps + [] == ps;
  }
}
