/** The epoll registry of lib/polly/polly.hpp: `Epoll`'s table from file
    descriptors to the wrappers registered under them, kept beside the
    kernel's interest list. Every kernel call is an oracle: its reply is a
    parameter. */
module Reactor {
  import opened Wrappers

  type Fd = int

  /** `EPOLLIN`, `EPOLLOUT` and `EPOLLRDHUP` of <sys/epoll.h>. */
  const EpollIn: bv32 := 0x001
  const EpollOut: bv32 := 0x004
  const EpollRdHup: bv32 := 0x2000

  /** `ENOENT`: the descriptor was not in the interest list. */
  const ENOENT: int := 2

  /** `wait` asks for at most this many events. */
  const MaxEvents: nat := 100

  /** The events a handler tests for, read off an event mask. */
  datatype Events = Events(hangup: bool, readable: bool, writable: bool)

  function EventsOf(mask: bv32): (ev: Events)
    ensures ev.hangup <==> mask & EpollRdHup != 0
    ensures ev.readable <==> mask & EpollIn != 0
    ensures ev.writable <==> mask & EpollOut != 0
  {
    Events(mask & EpollRdHup != 0, mask & EpollIn != 0, mask & EpollOut != 0)
  }

  /** The mask that reports exactly these events. */
  function MaskOf(ev: Events): (mask: bv32)
    ensures mask & !(EpollIn | EpollOut | EpollRdHup) == 0
  {
    (if ev.hangup then EpollRdHup else 0)
    | (if ev.readable then EpollIn else 0)
    | (if ev.writable then EpollOut else 0)
  }

  /** Reading a mask back recovers the events it was built from. */
  lemma EventsOfMask(ev: Events)
    ensures EventsOf(MaskOf(ev)) == ev
  {
    var h: bv32 := if ev.hangup then EpollRdHup else 0;
    var r: bv32 := if ev.readable then EpollIn else 0;
    var w: bv32 := if ev.writable then EpollOut else 0;
    assert (h | r | w) & EpollRdHup == h;
    assert (h | r | w) & EpollIn == r;
    assert (h | r | w) & EpollOut == w;
  }

  /** The interest a connection registers: always input and hang-up, and
      output while it has something to write. */
  function Interest(wantsWrite: bool): (mask: bv32)
    ensures EventsOf(mask).readable && EventsOf(mask).hangup
    ensures EventsOf(mask).writable <==> wantsWrite
  {
    EventsOfMask(Events(true, true, wantsWrite));
    MaskOf(Events(true, true, wantsWrite))
  }

  /** A `weak_ptr` to a registered wrapper, named by the wrapper it was taken
      from; whether that wrapper is still alive is the caller's business. */
  datatype Handle = Handle(owner: nat)

  /** An item to register: its descriptor and its wrapper. */
  datatype Item = Item(fd: Fd, handle: Handle)

  /** `Epoll`: its own descriptor and `lut`. */
  datatype Epoll = Epoll(epollFd: int, lut: map<Fd, Handle>)

  /** What one `epoll_ctl` call returned: success, or -1 with an errno. */
  datatype CtlReply = CtlOk | CtlFailed(errno: int)

  /** The state after a call and the errno of the `system_error` it threw,
      if it threw. */
  datatype Outcome = Outcome(ep: Epoll, thrown: Option<int>)

  /** `add_item`: register with the kernel; on failure throw with the table
      untouched, otherwise `emplace`, which keeps an entry already there. */
  function AddItem(ep: Epoll, item: Item, reply: CtlReply): (r: Outcome)
    ensures r.ep.epollFd == ep.epollFd
    ensures reply.CtlFailed? ==> r == Outcome(ep, Some(reply.errno))
    ensures reply.CtlOk? ==> r.thrown.None? && r.ep.lut.Keys == ep.lut.Keys + {item.fd}
    ensures forall fd | fd in ep.lut :: fd in r.ep.lut && r.ep.lut[fd] == ep.lut[fd]
    ensures reply.CtlOk? && item.fd !in ep.lut ==> r.ep.lut[item.fd] == item.handle
  {
    match reply
    case CtlFailed(errno) => Outcome(ep, Some(errno))
    case CtlOk =>
      var lut := if item.fd in ep.lut then ep.lut else ep.lut[item.fd := item.handle];
      Outcome(ep.(lut := lut), None)
  }

  /** The index of the first failed reply, or `|replies|`. */
  function FirstFailure(replies: seq<CtlReply>): (n: nat)
    ensures n <= |replies|
    ensures n < |replies| ==> replies[n].CtlFailed?
    ensures forall i | 0 <= i < n :: replies[i].CtlOk?
  {
    if |replies| == 0 || replies[0].CtlFailed? then 0 else 1 + FirstFailure(replies[1..])
  }

  /** The descriptors of a run of items. */
  function Fds(items: seq<Item>): (s: set<Fd>)
    ensures forall i | 0 <= i < |items| :: items[i].fd in s
    ensures forall fd | fd in s :: exists i | 0 <= i < |items| :: items[i].fd == fd
  {
    set i | 0 <= i < |items| :: items[i].fd
  }

  lemma FdsCons(items: seq<Item>, n: nat)
    requires 0 < n <= |items|
    ensures Fds(items[..n]) == {items[0].fd} + Fds(items[1..][..n - 1])
  {
    assert items[..n] == [items[0]] + items[1..][..n - 1];
  }

  /** `add_items`: `add_item` on each item in order, the kernel answering the
      i-th call with `replies[i]`; the first throw ends the loop, leaving the
      earlier items registered. */
  function AddItems(ep: Epoll, items: seq<Item>, replies: seq<CtlReply>): (r: Outcome)
    requires |replies| == |items|
    ensures var n := FirstFailure(replies);
      && r.ep.epollFd == ep.epollFd
      && (r.thrown.Some? <==> n < |items|)
      && (n < |items| ==> r.thrown == Some(replies[n].errno))
      && r.ep.lut.Keys == ep.lut.Keys + Fds(items[..n])
    ensures forall fd | fd in ep.lut :: r.ep.lut[fd] == ep.lut[fd]
    decreases |items|
  {
    if |items| == 0 then Outcome(ep, None)
    else
      var first := AddItem(ep, items[0], replies[0]);
      if first.thrown.Some? then first
      else
        var r := AddItems(first.ep, items[1..], replies[1..]);
        FdsCons(items, FirstFailure(replies));
        r
  }

  /** Registering several items in one call is registering them one call at
      a time: the first call's outcome, then the rest on its state. */
  lemma {:induction false} AddItemsIsSequential(ep: Epoll, a: seq<Item>, b: seq<Item>, ra: seq<CtlReply>, rb: seq<CtlReply>)
    requires |ra| == |a| && |rb| == |b|
    ensures var first := AddItems(ep, a, ra);
      AddItems(ep, a + b, ra + rb) == if first.thrown.Some? then first else AddItems(first.ep, b, rb)
    decreases |a|
  {
    if |a| == 0 {
      assert a + b == b && ra + rb == rb;
    } else {
      assert (a + b)[1..] == a[1..] + b && (ra + rb)[1..] == ra[1..] + rb;
      assert (a + b)[0] == a[0] && (ra + rb)[0] == ra[0];
      var first := AddItem(ep, a[0], ra[0]);
      if first.thrown.None? {
        AddItemsIsSequential(first.ep, a[1..], b, ra[1..], rb);
      }
    }
  }

  /** An entry already in the table survives any registration under the
      same descriptor: `emplace` never overwrites. */
  lemma AddItemNeverOverwrites(ep: Epoll, item: Item, reply: CtlReply)
    requires item.fd in ep.lut
    ensures AddItem(ep, item, reply).ep.lut == ep.lut
  {
    match reply
    case CtlFailed(_) =>
    case CtlOk =>
  }

  /** `delete_item`: erase the table entry whatever the kernel says, then
      throw unless the kernel succeeded or reported `ENOENT`. */
  function DeleteItem(ep: Epoll, fd: Fd, reply: CtlReply): (r: Outcome)
    ensures r.ep == ep.(lut := ep.lut - {fd})
    ensures fd !in r.ep.lut
    ensures r.thrown.Some? <==> reply.CtlFailed? && reply.errno != ENOENT
    ensures r.thrown.Some? ==> r.thrown.value == reply.errno
  {
    var thrown := if reply.CtlFailed? && reply.errno != ENOENT then Some(reply.errno) else None;
    Outcome(ep.(lut := ep.lut - {fd}), thrown)
  }

  /** Registering a new descriptor and deleting it again leaves the table as
      it was. */
  lemma AddThenDelete(ep: Epoll, item: Item, add: CtlReply, del: CtlReply)
    requires item.fd !in ep.lut
    ensures DeleteItem(AddItem(ep, item, add).ep, item.fd, del).ep == ep
  {
    var after := DeleteItem(AddItem(ep, item, add).ep, item.fd, del).ep;
    assert after.lut == ep.lut;
  }

  /** `close`: the table is emptied (and the descriptor closed). */
  function Close(ep: Epoll): (r: Epoll)
    ensures r.lut == map[] && r.epollFd == ep.epollFd
  {
    ep.(lut := map[])
  }

  /** One event `epoll_wait` reported: the descriptor stored with it and the
      event mask. */
  datatype Reported = Reported(fd: Fd, events: bv32)

  /** What `epoll_wait` returned: some events, or -1 with an errno. */
  datatype WaitReply = Waited(reported: seq<Reported>) | WaitFailed(errno: int)

  /** `event_result`: the table's handle for the descriptor and the mask. */
  datatype EventResult = EventResult(handle: Handle, events: bv32)

  /** Why `wait` threw: the wait call failed, or `lut.at` found no entry. */
  datatype WaitError = WaitSystemError(errno: int) | NotRegistered(fd: Fd)

  /** `wait`: fail when the wait call does; otherwise one result per reported
      event, in order, each with the table's handle for its descriptor. The
      kernel reports at most `MaxEvents` events. */
  method Wait(ep: Epoll, reply: WaitReply) returns (r: Result<seq<EventResult>, WaitError>)
    requires reply.Waited? ==> |reply.reported| <= MaxEvents
    ensures reply.WaitFailed? ==> r == Err(WaitSystemError(reply.errno))
    ensures r.Ok? ==> reply.Waited? && |r.value| == |reply.reported| <= MaxEvents
    ensures r.Ok? ==> forall i | 0 <= i < |r.value| ::
      reply.reported[i].fd in ep.lut
      && r.value[i] == EventResult(ep.lut[reply.reported[i].fd], reply.reported[i].events)
    ensures reply.Waited? ==> (r.Ok? <==> forall i | 0 <= i < |reply.reported| :: reply.reported[i].fd in ep.lut)
    ensures r.Err? && reply.Waited? ==> exists i | 0 <= i < |reply.reported| ::
      reply.reported[i].fd !in ep.lut && r.error == NotRegistered(reply.reported[i].fd)
  {
    if reply.WaitFailed? {
      return Err(WaitSystemError(reply.errno));
    }
    var events := reply.reported;
    var results: seq<EventResult> := [];
    var i := 0;
    while i < |events|
      invariant 0 <= i <= |events| && |results| == i
      invariant forall j | 0 <= j < i :: events[j].fd in ep.lut
      invariant forall j | 0 <= j < i :: results[j] == EventResult(ep.lut[events[j].fd], events[j].events)
    {
      if events[i].fd !in ep.lut {
        return Err(NotRegistered(events[i].fd));
      }
      results := results + [EventResult(ep.lut[events[i].fd], events[i].events)];
      i := i + 1;
    }
    r := Ok(results);
  }
}
