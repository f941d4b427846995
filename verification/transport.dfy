/** The stream socket wrapper of lib/netty/socket.cpp: the full-send loop,
    the delimited send and receive, and the two receive helpers. The kernel
    is an oracle: what each `::send` hands over and what each `::recv`
    delivers are parameters. */
module Transport {
  import opened Wrappers
  import opened Surreal
  import Framing

  /** Why a socket operation threw. */
  datatype TransportError =
    | SendFailed              // `::send` returned -1
    | RecvFailed(errno: int)  // `::recv` returned -1 with this errno
    | Misaligned              // a delimiter header without the magic byte
    | ShortHeader             // fewer header bytes than the header holds
    | BadLength               // a payload length `std::vector` cannot allocate

  const EAGAIN: int := 11
  const EWOULDBLOCK: int := 11

  /** The `int` a `std::size_t` becomes on conversion: its low 32 bits, read
      as two's complement. */
  function Int32Of(n: nat): (r: int)
    ensures -0x8000_0000 <= r < 0x8000_0000
    ensures n < 0x8000_0000 ==> r == n
    ensures r >= 0 ==> r <= n
  {
    var m := n % 0x1_0000_0000;
    if m >= 0x8000_0000 then m - 0x1_0000_0000 else m
  }

  /** A kernel that, asked to send `len > 0` bytes starting at offset `sent`,
      either fails (-1) or takes between 1 and `len` of them. */
  ghost predicate SendOracle(accept: (nat, nat) -> int)
  {
    forall sent: nat, len: nat {:trigger accept(sent, len)} ::
      0 < len ==> accept(sent, len) == -1 || 1 <= accept(sent, len) <= len
  }

  /** How many bytes `send` tries to hand over: `int len = buf.size()`, and
      nothing when that is not positive. */
  function Wanted(buf: Bytes): (w: nat)
    ensures w <= |buf|
    ensures |buf| < 0x8000_0000 ==> w == |buf|
  {
    if Int32Of(|buf|) > 0 then Int32Of(|buf|) else 0
  }

  /** `Socket::send`: call `::send` on the unsent tail until nothing is left,
      throwing on the first -1. `wire` is what the kernel took, in order. */
  method Send(buf: Bytes, accept: (nat, nat) -> int) returns (r: Result<int, TransportError>, wire: Bytes)
    requires SendOracle(accept)
    ensures wire <= buf
    ensures r.Ok? ==> r.value == Wanted(buf) && wire == buf[..Wanted(buf)]
    ensures r.Ok? && |buf| < 0x8000_0000 ==> r.value == |buf| && wire == buf
    ensures r.Err? ==> r.error == SendFailed && |wire| < Wanted(buf)
                       && accept(|wire|, Wanted(buf) - |wire|) == -1
  {
    var len: int := Int32Of(|buf|);
    var sent: int := 0;
    wire := [];
    while len > 0
      invariant 0 <= sent <= Wanted(buf)
      invariant sent + len == Int32Of(|buf|)
      invariant len < 0 ==> sent == 0
      invariant wire == buf[..sent]
      decreases len
    {
      var n := accept(sent, len);
      if n == -1 {
        return Err(SendFailed), wire;
      }
      sent := sent + n;
      len := len - n;
      wire := buf[..sent];
    }
    r := Ok(sent);
  }

  /** `Socket::send_delimited`: the magic byte and the 8-byte big-endian
      length of `buf`, sent as one buffer, then `buf` itself. The two sends
      meet the kernel through their own oracles. The two counts are added
      as `int`s; the sum is taken to wrap to 32 bits. */
  method SendDelimited(buf: Bytes, acceptHeader: (nat, nat) -> int, acceptBody: (nat, nat) -> int)
    returns (r: Result<int, TransportError>, wire: Bytes)
    requires SendOracle(acceptHeader) && SendOracle(acceptBody)
    ensures wire <= Framing.Delimit(buf)
    ensures r.Ok? ==> r.value == Int32Of(Framing.HeaderSize + Wanted(buf))
    ensures r.Ok? && |buf| < 0x8000_0000 ==> wire == Framing.Delimit(buf)
    ensures r.Ok? && |buf| < 0x8000_0000 - Framing.HeaderSize ==> r.value == Framing.HeaderSize + |buf|
    ensures r.Ok? && 0x8000_0000 - Framing.HeaderSize <= |buf| < 0x8000_0000 ==> r.value < 0
    ensures r.Err? ==> r.error == SendFailed && |wire| < Framing.HeaderSize + |buf|
  {
    var header := [Framing.Magic] + PutSize(|buf|);
    assert Framing.Delimit(buf) == header + buf;
    var first, sentHeader := Send(header, acceptHeader);
    if first.Err? {
      return first, sentHeader;
    }
    var second, sentBody := Send(buf, acceptBody);
    wire := sentHeader + sentBody;
    if second.Err? {
      return second, wire;
    }
    r := Ok(Int32Of(first.value + second.value));
  }

  /** What the kernel does with one `::recv` call: deliver up to `upTo` of
      the bytes waiting, or fail with an errno. */
  datatype Delivery = Deliver(upTo: nat) | Fail(errno: int)

  function Min(a: nat, b: nat): nat
  {
    if a <= b then a else b
  }

  /** `Socket::recv(size)`: one `::recv` into a `size`-byte buffer, shrunk to
      what arrived. Returns the bytes read and the bytes still waiting. */
  function Recv(size: nat, waiting: Bytes, kernel: Delivery): (r: Result<(Bytes, Bytes), TransportError>)
    ensures r.Ok? <==> kernel.Deliver?
    ensures kernel.Fail? ==> r == Err(RecvFailed(kernel.errno))
    ensures r.Ok? ==> |r.value.0| <= size && r.value.0 + r.value.1 == waiting
    ensures r.Ok? && kernel.upTo >= size && |waiting| >= size ==> r.value.0 == waiting[..size]
  {
    match kernel
    case Fail(errno) => Err(RecvFailed(errno))
    case Deliver(upTo) =>
      var n := Min(Min(size, upTo), |waiting|);
      assert waiting[..n] + waiting[n..] == waiting;
      Ok((waiting[..n], waiting[n..]))
  }

  /** `Socket::recv_delimited`: read a header, insist on the magic byte, read
      the length, then request exactly that many bytes (converted to `int`
      as `recv` takes it). A header too short to hold its length is an
      error here; the source reads past the end of it. */
  function RecvDelimited(waiting: Bytes, first: Delivery, second: Delivery): (r: Result<(Bytes, Bytes), TransportError>)
    ensures first.Deliver? && first.upTo >= 1 && |waiting| >= 1 && waiting[0] != Framing.Magic ==> r == Err(Misaligned)
    ensures r.Ok? ==> |waiting| >= Framing.HeaderSize && waiting[0] == Framing.Magic
    ensures r.Ok? ==> var size := TakeSize(waiting[1..]).value.0;
                      |r.value.0| <= size && r.value.0 + r.value.1 == waiting[Framing.HeaderSize..]
  {
    var (header, rest) :- Recv(Framing.HeaderSize, waiting, first);
    if |header| == 0 then Err(ShortHeader)
    else if header[0] != Framing.Magic then Err(Misaligned)
    else if |header| < Framing.HeaderSize then Err(ShortHeader)
    else
      assert header == waiting[..Framing.HeaderSize] && rest == waiting[Framing.HeaderSize..];
      assert header[1..] == waiting[1..][..8];
      var size := TakeSize(header[1..]).value.0;
      assert TakeSize(waiting[1..]).value.0 == size by {
        TakeSizePrefix(waiting[1..], 8);
      }
      var request := Int32Of(size);
      if request < 0 then Err(BadLength)
      else Recv(request, rest, second)
  }

  /** Reading a size only looks at its eight bytes. */
  lemma TakeSizePrefix(s: Bytes, n: nat)
    requires 8 <= n <= |s|
    ensures TakeSize(s[..n]).Ok? && TakeSize(s).Ok?
    ensures TakeSize(s[..n]).value.0 == TakeSize(s).value.0
  {
    TakeSizeExact(s);
    TakeSizeExact(s[..n]);
    var v, w := TakeSize(s).value.0, TakeSize(s[..n]).value.0;
    assert PutSize(v) == s[..8];
    assert PutSize(w) == s[..n][..8] == s[..8];
    assert BeValue(PutSize(v)) == v && BeValue(PutSize(w)) == w;
  }

  /** The delimited round trip: a frame sent with `send_delimited` comes back
      whole from `recv_delimited` when the kernel delivers enough, and the
      bytes after it stay waiting. */
  lemma RecvDelimitedOfDelimit(p: Bytes, after: Bytes, first: Delivery, second: Delivery)
    requires |p| < 0x8000_0000
    requires first.Deliver? && first.upTo >= Framing.HeaderSize
    requires second.Deliver? && second.upTo >= |p|
    ensures RecvDelimited(Framing.Delimit(p) + after, first, second) == Ok((p, after))
  {
    DelimitedHeader(p, after);
    assert (p + after)[..|p|] == p && (p + after)[|p|..] == after;
  }

  /** The header `send_delimited` writes, as `recv_delimited` reads it. */
  lemma DelimitedHeader(p: Bytes, after: Bytes)
    requires |p| < SizeBound
    ensures var w := Framing.Delimit(p) + after;
      && |w| >= Framing.HeaderSize && w[0] == Framing.Magic
      && TakeSize(w[..Framing.HeaderSize][1..]) == Ok((|p|, []))
      && w[Framing.HeaderSize..] == p + after
  {
    var e := Framing.Delimit(p);
    var w := e + after;
    assert e == [Framing.Magic] + PutSize(|p|) + p;
    assert w[..Framing.HeaderSize][1..] == PutSize(|p|) + [];
    RoundTripSize(|p|, []);
  }

  /** One `::recv` reply inside `recv_all`: some bytes (none when the peer
      closed) or -1 with an errno. */
  datatype RecvReply = Got(bytes: Bytes) | Failed(errno: int)

  const BlockSize: nat := 4096

  /** A reply that ends `recv_all`'s loop. */
  predicate Stops(reply: RecvReply)
  {
    match reply
    case Got(bytes) => |bytes| == 0
    case Failed(_) => true
  }

  /** A stop that `recv_all` turns into an exception. */
  predicate HardFailure(reply: RecvReply)
  {
    reply.Failed? && reply.errno != EAGAIN && reply.errno != EWOULDBLOCK
  }

  /** The bytes of a run of replies, in order. */
  function Joined(replies: seq<RecvReply>): Bytes
    requires forall i | 0 <= i < |replies| :: replies[i].Got?
  {
    if |replies| == 0 then [] else Joined(replies[..|replies| - 1]) + replies[|replies| - 1].bytes
  }

  /** `Socket::recv_all`: read 4096-byte blocks until the peer closes or the
      socket would block, appending each block; any other failure throws.
      `stop` is the index of the reply that ended the loop. */
  method RecvAll(replies: seq<RecvReply>) returns (r: Result<Bytes, TransportError>, stop: nat)
    requires forall i | 0 <= i < |replies| && replies[i].Got? :: |replies[i].bytes| <= BlockSize
    requires exists i | 0 <= i < |replies| :: Stops(replies[i])
    ensures stop < |replies| && Stops(replies[stop])
    ensures forall i | 0 <= i < stop :: !Stops(replies[i]) && replies[i].Got?
    ensures r.Err? <==> HardFailure(replies[stop])
    ensures r.Err? ==> r.error == RecvFailed(replies[stop].errno)
    ensures r.Ok? ==> r.value == Joined(replies[..stop])
  {
    var result: Bytes := [];
    var i := 0;
    while !Stops(replies[i])
      invariant 0 <= i < |replies|
      invariant forall j | 0 <= j < i :: !Stops(replies[j]) && replies[j].Got?
      invariant result == Joined(replies[..i])
      decreases |replies| - i
    {
      result := result + replies[i].bytes;
      assert replies[..i + 1][..i] == replies[..i];
      i := i + 1;
    }
    stop := i;
    if HardFailure(replies[i]) {
      return Err(RecvFailed(replies[i].errno)), stop;
    }
    r := Ok(result);
  }
}
