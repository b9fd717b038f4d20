/** conn_pool (conn_pool.h / conn_pool.cpp): the epoll-based connection pool.

    The pool keeps a list of entries, one per socket whose non-blocking connect
    was started, and a separate counter `ces_size`. An entry is unconnected
    until its first write event: then SO_ERROR tells whether the connect
    completed. A connected entry collects the text it reads (through a
    negotiator when a provider is set) and is reported with its peer address
    once it leaves the pool: when the peer closes, when a reply cannot be
    written, or when it outlives the time to live.

    The callbacks read_event and write_event are functions of the pool's state
    (PoolState) because the generic poller calls them as function values. The
    entry pointer the poller carries is an entry id; the self-iterator of
    conn_entry becomes the lookup IndexOf. The system calls are inputs: what
    read returned, the peer address getpeername reports, the answer of
    getsockopt(SO_ERROR) and what write returned come in an Io value; the
    new_banner callback, close and the written chunks become appended logs. */
module Pool {
  import opened Common
  import Negotiator
  import opened Poller

  /** Timestamps are nanoseconds of the high-resolution clock; the time to live
      is in seconds. */
  const NanosPerSecond: int := 1_000_000_000

  /** conn_entry. `id` stands for the entry's position in the list (its
      self-iterator and the pointer handed to epoll). */
  datatype Entry = Entry(
    id: nat,
    fd: int,
    ts: int,
    connected: bool,
    ip: string,
    str: seq<Byte>,
    negot: Option<Negotiator.Negotiator>)

  /** One call of the new_banner callback. */
  datatype Banner = Banner(host: string, banner: seq<Byte>)

  /** One write on a socket: the bytes the kernel accepted. */
  datatype Sent = Sent(fd: int, bytes: seq<Byte>)

  /** The answers of the system calls a callback makes for one ready event:
      the bytes read (empty when read returned 0 or -1), the peer address, the
      result of getsockopt(SO_ERROR), and what write returned. */
  datatype Io = Io(data: seq<Byte>, peer: string, sockopt: SockOpt, wrote: int)

  /** The pool's fields the callbacks read and change, with the logs. */
  datatype PoolState = PoolState(
    ces: seq<Entry>,
    cesSize: int,
    nextId: nat,
    totalConnections: int,
    prov: bool,
    banners: seq<Banner>,
    closed: seq<int>,
    sent: seq<Sent>)

  // ---------------------------------------------------------------------
  // The entry list.

  predicate DistinctIds(ces: seq<Entry>)
  {
    forall i, j :: 0 <= i < j < |ces| ==> ces[i].id != ces[j].id
  }

  predicate DistinctFds(ces: seq<Entry>)
  {
    forall i, j :: 0 <= i < j < |ces| ==> ces[i].fd != ces[j].fd
  }

  function Fds(ces: seq<Entry>): set<int>
  {
    set i | 0 <= i < |ces| :: ces[i].fd
  }

  /** The position of the entry with the given id, or -1. */
  function IndexOf(ces: seq<Entry>, id: nat): (r: int)
    ensures -1 <= r < |ces|
    ensures r >= 0 ==> ces[r].id == id && forall i :: 0 <= i < r ==> ces[i].id != id
    ensures r < 0 <==> forall i :: 0 <= i < |ces| ==> ces[i].id != id
  {
    if ces == [] then -1
    else if ces[0].id == id then 0
    else
      var t := IndexOf(ces[1..], id);
      if t < 0 then -1 else t + 1
  }

  /** With distinct ids, an entry is found at its own position. */
  lemma {:induction false} IndexOfDistinct(ces: seq<Entry>, i: int)
    requires DistinctIds(ces) && 0 <= i < |ces|
    ensures IndexOf(ces, ces[i].id) == i
  {
    var k := IndexOf(ces, ces[i].id);
    assert ces[k].id == ces[i].id;
  }

  /** ces.erase(ce->it) */
  function Erase(ces: seq<Entry>, k: int): (r: seq<Entry>)
    requires 0 <= k < |ces|
    ensures |r| == |ces| - 1
    ensures forall i :: 0 <= i < k ==> r[i] == ces[i]
    ensures forall i :: k <= i < |r| ==> r[i] == ces[i + 1]
  {
    ces[..k] + ces[k + 1..]
  }

  lemma EraseKeepsDistinct(ces: seq<Entry>, k: int)
    requires 0 <= k < |ces| && DistinctIds(ces) && DistinctFds(ces)
    ensures DistinctIds(Erase(ces, k)) && DistinctFds(Erase(ces, k))
    ensures Fds(Erase(ces, k)) == Fds(ces) - {ces[k].fd}
  {
    var r := Erase(ces, k);
    forall i, j | 0 <= i < j < |r|
      ensures r[i].id != r[j].id && r[i].fd != r[j].fd
    {
      var i' := if i < k then i else i + 1;
      var j' := if j < k then j else j + 1;
      assert r[i] == ces[i'] && r[j] == ces[j'];
    }
    forall fd | fd in Fds(r)
      ensures fd in Fds(ces) - {ces[k].fd}
    {
      var i :| 0 <= i < |r| && r[i].fd == fd;
      var i' := if i < k then i else i + 1;
      assert r[i] == ces[i'];
    }
    forall fd | fd in Fds(ces) - {ces[k].fd}
      ensures fd in Fds(r)
    {
      var i :| 0 <= i < |ces| && ces[i].fd == fd;
      if i < k {
        assert r[i] == ces[i];
      } else {
        assert r[i - 1] == ces[i];
      }
    }
  }

  /** Replacing an entry by one with the same id and descriptor. */
  lemma UpdateKeepsDistinct(ces: seq<Entry>, k: int, e: Entry)
    requires 0 <= k < |ces| && DistinctIds(ces) && DistinctFds(ces)
    requires e.id == ces[k].id && e.fd == ces[k].fd
    ensures DistinctIds(ces[k := e]) && DistinctFds(ces[k := e])
    ensures Fds(ces[k := e]) == Fds(ces)
  {
    var r := ces[k := e];
    forall fd | fd in Fds(ces)
      ensures fd in Fds(r)
    {
      var i :| 0 <= i < |ces| && ces[i].fd == fd;
      assert r[i].fd == fd;
    }
  }

  // ---------------------------------------------------------------------
  // The callbacks.

  /** get_req_events: EPOLLIN for a connected entry, EPOLLOUT while the
      connect is pending or the negotiator has reply chunks waiting. */
  function ReqEvents(e: Entry): (r: bv32)
    ensures Has(r, EPOLLIN) <==> e.connected
    ensures Has(r, EPOLLOUT) <==> !e.connected || (e.negot.Some? && Negotiator.HasWriteData(e.negot.value))
    ensures r & !(EPOLLIN | EPOLLOUT) == 0
  {
    var inBit: bv32 := if e.connected then EPOLLIN else 0;
    var outBit: bv32 := if !e.connected || (e.negot.Some? && Negotiator.HasWriteData(e.negot.value)) then EPOLLOUT else 0;
    inBit | outBit
  }

  /** The text kept from a read without a negotiator: the bytes in order, NUL
      bytes left out. */
  function DropNul(data: seq<Byte>): (r: seq<Byte>)
    ensures 0 !in r
    ensures 0 !in data ==> r == data
    decreases |data|
  {
    if data == [] then []
    else
      var prev := DropNul(data[..|data| - 1]);
      if data[|data| - 1] == 0 then prev else prev + [data[|data| - 1]]
  }

  lemma {:induction false} DropNulIsSubseq(data: seq<Byte>)
    ensures IsSubseq(DropNul(data), data)
    decreases |data|
  {
    if data != [] {
      var init := data[..|data| - 1];
      var x := data[|data| - 1];
      DropNulIsSubseq(init);
      assert init + [x] == data;
      if x == 0 {
        SubseqExtendRight(DropNul(init), init, x);
      } else {
        SubseqExtendBoth(DropNul(init), init, x);
      }
    }
  }

  /** The for loop of read_event that appends the non-NUL bytes to the
      entry's text. */
  method AppendNonNul(str: seq<Byte>, buffer: seq<Byte>) returns (r: seq<Byte>)
    ensures r == str + DropNul(buffer)
  {
    r := str;
    var i := 0;
    while i < |buffer|
      invariant 0 <= i <= |buffer|
      invariant r == str + DropNul(buffer[..i])
    {
      assert buffer[..i + 1][..i] == buffer[..i];
      if buffer[i] != 0 {
        r := r + [buffer[i]];
      }
      i := i + 1;
    }
    assert buffer[..i] == buffer;
  }

  /** An entry leaves the pool: it is erased and ces_size goes down. */
  function Leave(p: PoolState, k: int): PoolState
    requires 0 <= k < |p.ces|
  {
    p.(ces := Erase(p.ces, k), cesSize := p.cesSize - 1)
  }

  /** read_event. Data read is appended to the entry's text, through the
      negotiator when there is one. A read that returned 0 or -1 on a
      connected entry reports its banner, closes the socket (which also takes
      it out of the interest list) and erases the entry; on an unconnected
      entry it changes nothing. */
  function ReadEvent(p: PoolState, interest: Interest, id: nat, io: Io): (r: Handled<PoolState>)
    ensures IndexOf(p.ces, id) < 0 ==> r == Handled(p, interest, true)
    ensures var k := IndexOf(p.ces, id);
            k >= 0 ==>
              var e := p.ces[k];
              && (r.ok <==> |io.data| > 0 || !e.connected)
              && r.s.nextId == p.nextId && r.s.prov == p.prov && r.s.sent == p.sent
              && r.s.totalConnections == p.totalConnections
              && r.s.banners == (if r.ok then p.banners else p.banners + [Banner(e.ip, e.str)])
              && r.s.closed == (if r.ok then p.closed else p.closed + [e.fd])
              && r.interest == (if r.ok then interest else interest - {e.fd})
              && (!r.ok ==> r.s.ces == Erase(p.ces, k) && r.s.cesSize == p.cesSize - 1)
              && (r.ok ==> r.s.cesSize == p.cesSize && |r.s.ces| == |p.ces|
                           && r.s.ces == p.ces[k := r.s.ces[k]]
                           && r.s.ces[k].id == e.id && r.s.ces[k].fd == e.fd && r.s.ces[k].ts == e.ts
                           && r.s.ces[k].connected == e.connected && r.s.ces[k].ip == e.ip)
              && (|io.data| == 0 && !e.connected ==> r == Handled(p, interest, true))
              && (|io.data| > 0 && e.negot.None? ==>
                   r.s.ces[k].str == e.str + DropNul(io.data) && r.s.ces[k].negot == None)
              && (|io.data| > 0 && e.negot.Some? ==>
                   var (n, text) := Negotiator.Crunch(e.negot.value, io.data);
                   r.s.ces[k].str == e.str + text && r.s.ces[k].negot == Some(n))
  {
    var k := IndexOf(p.ces, id);
    if k < 0 then Handled(p, interest, true)
    else
      var e := p.ces[k];
      if |io.data| > 0 then
        var e' :=
          match e.negot
          case Some(n) =>
            var (n', text) := Negotiator.Crunch(n, io.data);
            e.(str := e.str + text, negot := Some(n'))
          case None => e.(str := e.str + DropNul(io.data));
        Handled(p.(ces := p.ces[k := e']), interest, true)
      else if e.connected then
        var q := Leave(p, k);
        Handled(q.(banners := p.banners + [Banner(e.ip, e.str)], closed := p.closed + [e.fd]), interest - {e.fd}, false)
      else
        Handled(p, interest, true)
  }

  function Min(a: int, b: int): int
  {
    if a < b then a else b
  }

  /** write_event. On an unconnected entry the peer address is recorded and
      SO_ERROR is consulted: 0 marks the entry connected, counts the
      connection and attaches a negotiator when a provider is set; a failed
      getsockopt takes the entry out of the interest list and erases it
      without closing the socket; a nonzero code also closes it. On a
      connected entry with reply chunks waiting the oldest chunk is written
      (only its first `wrote` bytes reach the peer); a write that returned 0
      or -1 reports the banner, closes the socket and erases the entry. */
  function WriteEvent(p: PoolState, interest: Interest, id: nat, io: Io): (r: Handled<PoolState>)
    ensures IndexOf(p.ces, id) < 0 ==> r == Handled(p, interest, true)
    ensures var k := IndexOf(p.ces, id);
            k >= 0 ==>
              var e := p.ces[k];
              var pending := e.negot.Some? && Negotiator.HasWriteData(e.negot.value);
              && (r.ok <==> if e.connected then !pending || io.wrote > 0 else io.sockopt == SoError(0))
              && r.s.nextId == p.nextId && r.s.prov == p.prov
              && r.s.totalConnections == p.totalConnections + (if !e.connected && r.ok then 1 else 0)
              && r.s.banners == (if e.connected && !r.ok then p.banners + [Banner(e.ip, e.str)] else p.banners)
              && r.s.closed == (if !r.ok && (e.connected || io.sockopt != GetSockOptFailed)
                                then p.closed + [e.fd] else p.closed)
              && r.interest == (if r.ok then interest else interest - {e.fd})
              && (!r.ok ==> r.s.ces == Erase(p.ces, k) && r.s.cesSize == p.cesSize - 1)
              && (r.ok ==> r.s.cesSize == p.cesSize && |r.s.ces| == |p.ces|
                           && r.s.ces == p.ces[k := r.s.ces[k]]
                           && r.s.ces[k].id == e.id && r.s.ces[k].fd == e.fd && r.s.ces[k].ts == e.ts
                           && r.s.ces[k].str == e.str && r.s.ces[k].connected)
              && (!e.connected && r.ok ==>
                   r.s.ces[k].ip == io.peer
                   && r.s.ces[k].negot == if p.prov then Some(Negotiator.Provide()) else e.negot)
              && (e.connected && pending && r.ok ==>
                   var (chunk, n') := Negotiator.PopWriteQueue(e.negot.value);
                   r.s.ces[k].negot == Some(n') && r.s.sent == p.sent + [Sent(e.fd, chunk[..Min(io.wrote, |chunk|)])])
              && (!(e.connected && pending && r.ok) ==> r.s.sent == p.sent)
              && (e.connected && r.ok ==> r.s.ces[k].ip == e.ip)
              && (e.connected && !pending ==> r == Handled(p, interest, true))
  {
    var k := IndexOf(p.ces, id);
    if k < 0 then Handled(p, interest, true)
    else
      var e := p.ces[k];
      if !e.connected then
        var e1 := e.(ip := io.peer);
        match io.sockopt
        case GetSockOptFailed =>
          Handled(Leave(p, k), interest - {e.fd}, false)
        case SoError(code) =>
          if code == 0 then
            var negot := if p.prov then Some(Negotiator.Provide()) else e.negot;
            var q := p.(ces := p.ces[k := e1.(connected := true, negot := negot)],
                        totalConnections := p.totalConnections + 1);
            Handled(q, interest, true)
          else
            var q := Leave(p, k);
            Handled(q.(closed := p.closed + [e.fd]), interest - {e.fd}, false)
      else if e.negot.Some? && Negotiator.HasWriteData(e.negot.value) then
        var (chunk, n') := Negotiator.PopWriteQueue(e.negot.value);
        if io.wrote <= 0 then
          var q := Leave(p, k);
          Handled(q.(banners := p.banners + [Banner(e.ip, e.str)], closed := p.closed + [e.fd]), interest - {e.fd}, false)
        else
          var q := p.(ces := p.ces[k := e.(negot := Some(n'))],
                      sent := p.sent + [Sent(e.fd, chunk[..Min(io.wrote, |chunk|)])]);
          Handled(q, interest, true)
      else
        Handled(p, interest, true)
  }

  /** get_fd for the entry with the given id. */
  function FdOf(p: PoolState, id: nat): int
  {
    var k := IndexOf(p.ces, id);
    if k < 0 then -1 else p.ces[k].fd
  }

  lemma FdOfEntry(p: PoolState, i: int)
    requires DistinctIds(p.ces) && 0 <= i < |p.ces|
    ensures PoolHandler().fd(p, p.ces[i].id) == p.ces[i].fd
  {
    IndexOfDistinct(p.ces, i);
  }

  /** get_req_events for the entry with the given id. */
  function ReqEventsOf(p: PoolState, id: nat): bv32
  {
    var k := IndexOf(p.ces, id);
    if k < 0 then 0 else ReqEvents(p.ces[k])
  }

  /** The pool as the poller's event handler. */
  function PoolHandler(): Handler<PoolState, nat, Io>
  {
    Handler(
      (p: PoolState, id: nat) => FdOf(p, id),
      (p: PoolState, id: nat) => ReqEventsOf(p, id),
      (p: PoolState, i: Interest, id: nat, io: Io) => ReadEvent(p, i, id, io),
      (p: PoolState, i: Interest, id: nat, io: Io) => WriteEvent(p, i, id, io))
  }

  // ---------------------------------------------------------------------
  // The pool's invariant.

  /** What every operation keeps: ces_size is the length of the list, ids and
      descriptors are unique, ids were handed out before, an unconnected entry
      has no negotiator, and only descriptors of entries are in the interest
      list. */
  predicate Consistent(p: PoolState, interest: Interest)
  {
    && p.cesSize == |p.ces|
    && DistinctIds(p.ces)
    && DistinctFds(p.ces)
    && (forall i :: 0 <= i < |p.ces| ==> p.ces[i].id < p.nextId)
    && (forall i :: 0 <= i < |p.ces| ==> !p.ces[i].connected ==> p.ces[i].negot.None?)
    && interest.Keys <= Fds(p.ces)
  }

  /** Every entry's descriptor is registered: true as long as every
      epoll_ctl ADD of add_fd succeeded. */
  predicate AllRegistered(p: PoolState, interest: Interest)
  {
    interest.Keys == Fds(p.ces)
  }

  lemma FdsAppend(ces: seq<Entry>, e: Entry)
    ensures Fds(ces + [e]) == Fds(ces) + {e.fd}
  {
    var r := ces + [e];
    forall fd | fd in Fds(ces)
      ensures fd in Fds(r)
    {
      var i :| 0 <= i < |ces| && ces[i].fd == fd;
      assert r[i] == ces[i];
    }
    assert r[|ces|] == e;
  }

  /** What add_fd does to the pool's state keeps the invariant. */
  lemma AddKeeps(p: PoolState, interest: Interest, e: Entry, addOk: bool)
    requires Consistent(p, interest) && e.fd !in Fds(p.ces)
    requires e == Entry(p.nextId, e.fd, e.ts, false, "", [], None)
    ensures var q := p.(ces := p.ces + [e], cesSize := p.cesSize + 1, nextId := p.nextId + 1);
            var i' := if addOk then interest[e.fd := EPOLLOUT] else interest;
            && Consistent(q, i')
            && (AllRegistered(p, interest) && addOk ==> AllRegistered(q, i'))
            && IndexOf(q.ces, e.id) == |p.ces|
            && ReqEvents(e) == EPOLLOUT
  {
    var ces := p.ces + [e];
    assert forall i :: 0 <= i < |p.ces| ==> ces[i] == p.ces[i];
    assert ces[|p.ces|] == e;
    FdsAppend(p.ces, e);
  }

  lemma {:induction false} FdsSize(ces: seq<Entry>)
    requires DistinctFds(ces)
    ensures |Fds(ces)| == |ces|
    decreases |ces|
  {
    if ces != [] {
      var init := ces[..|ces| - 1];
      FdsSize(init);
      assert Fds(ces) == Fds(init) + {ces[|ces| - 1].fd};
      assert ces[|ces| - 1].fd !in Fds(init);
    }
  }

  /** When every entry is registered, ces_size (which the pool passes to
      epoll_wait as max_events) is the number of registered descriptors, so
      one wait can report every one of them. */
  lemma RegisteredCount(p: PoolState, interest: Interest)
    requires Consistent(p, interest) && AllRegistered(p, interest)
    ensures |interest| == p.cesSize
  {
    FdsSize(p.ces);
    assert interest.Keys == Fds(p.ces);
  }

  lemma ReadEventKeeps(p: PoolState, interest: Interest, id: nat, io: Io)
    requires Consistent(p, interest)
    ensures var r := ReadEvent(p, interest, id, io);
            && Consistent(r.s, r.interest)
            && (AllRegistered(p, interest) ==> AllRegistered(r.s, r.interest))
  {
    var r := ReadEvent(p, interest, id, io);
    var k := IndexOf(p.ces, id);
    if k >= 0 {
      if r.ok {
        UpdateKeepsDistinct(p.ces, k, r.s.ces[k]);
        assert r.s.ces == p.ces[k := r.s.ces[k]];
      } else {
        EraseKeepsDistinct(p.ces, k);
      }
    }
  }

  lemma WriteEventKeeps(p: PoolState, interest: Interest, id: nat, io: Io)
    requires Consistent(p, interest)
    ensures var r := WriteEvent(p, interest, id, io);
            && Consistent(r.s, r.interest)
            && (AllRegistered(p, interest) ==> AllRegistered(r.s, r.interest))
  {
    var r := WriteEvent(p, interest, id, io);
    var k := IndexOf(p.ces, id);
    if k >= 0 {
      if r.ok {
        UpdateKeepsDistinct(p.ces, k, r.s.ces[k]);
        assert r.s.ces == p.ces[k := r.s.ces[k]];
      } else {
        EraseKeepsDistinct(p.ces, k);
      }
    }
  }

  /** A callback returns false exactly when it erased the entry it was
      called for, so the poller never uses an entry that is gone: after a
      successful read it calls write_event, and after a successful write
      get_req_events, on an entry that is still in the list. */
  lemma CallbackFailsIffErased(p: PoolState, interest: Interest, k: int, io: Io)
    requires Consistent(p, interest) && 0 <= k < |p.ces|
    ensures var r := ReadEvent(p, interest, p.ces[k].id, io);
            r.ok <==> IndexOf(r.s.ces, p.ces[k].id) >= 0
    ensures var r := WriteEvent(p, interest, p.ces[k].id, io);
            r.ok <==> IndexOf(r.s.ces, p.ces[k].id) >= 0
  {
    var id := p.ces[k].id;
    IndexOfDistinct(p.ces, k);
    var rr := ReadEvent(p, interest, id, io);
    var rw := WriteEvent(p, interest, id, io);
    if rr.ok {
      assert rr.s.ces[k].id == id;
    } else {
      AbsentAfterErase(p.ces, k);
    }
    if rw.ok {
      assert rw.s.ces[k].id == id;
    } else {
      AbsentAfterErase(p.ces, k);
    }
  }

  lemma AbsentAfterErase(ces: seq<Entry>, k: int)
    requires DistinctIds(ces) && 0 <= k < |ces|
    ensures IndexOf(Erase(ces, k), ces[k].id) < 0
  {
    var r := Erase(ces, k);
    forall i | 0 <= i < |r|
      ensures r[i].id != ces[k].id
    {
      if i < k {
        assert r[i] == ces[i];
      } else {
        assert r[i] == ces[i + 1];
      }
    }
  }

  /** The poller re-arms a live entry's descriptor exactly when the entry
      survived its callbacks. */
  lemma RearmedIffAlive(p: PoolState, interest: Interest, k: nat, e: Ready<nat, Io>, i: int)
    requires Consistent(p, interest) && 0 <= i < |p.ces| && e.data == p.ces[i].id
    ensures var one := DispatchOne(PoolHandler(), p, interest, k, e);
            one.calls[|one.calls| - 1].RearmCall? <==> 0 <= IndexOf(one.s.ces, e.data)
  {
    DispatchOneOrder(PoolHandler(), p, interest, k, e);
    var w := WriteStage(ReadStage(p, interest, e, i), e);
  }

  /** Once the kernel accepts the re-arm of an entry that survived its
      callbacks, its descriptor is registered with what get_req_events gives
      for the entry as it now stands: this is how the pool starts asking for
      EPOLLOUT when a read made the negotiator queue a reply. */
  lemma RearmedAsRequested(p: PoolState, interest: Interest, k: nat, e: Ready<nat, Io>)
    ensures var one := DispatchOne(PoolHandler(), p, interest, k, e);
            var j := IndexOf(one.s.ces, e.data);
            0 <= j && one.ok && one.calls[|one.calls| - 1].RearmCall? ==>
              && one.s.ces[j].fd in one.interest
              && one.interest[one.s.ces[j].fd] == ReqEvents(one.s.ces[j])
  {
    var h := PoolHandler();
    var one := DispatchOne(h, p, interest, k, e);
    DispatchOneOrder(h, p, interest, k, e);
    var j := IndexOf(one.s.ces, e.data);
    if 0 <= j {
      assert h.fd(one.s, e.data) == one.s.ces[j].fd;
      assert h.reqEvents(one.s, e.data) == ReqEvents(one.s.ces[j]);
    }
  }

  /** The read callback as the poller calls it for a live entry: the
      invariant is kept, and it succeeds exactly when the entry is still
      there. */
  function ReadStage(p: PoolState, interest: Interest, e: Ready<nat, Io>, i: int): (r: Handled<PoolState>)
    requires Consistent(p, interest) && 0 <= i < |p.ces| && e.data == p.ces[i].id
    ensures r == if Has(e.events, EPOLLIN) then PoolHandler().read(p, interest, e.data, e.io)
                 else Handled(p, interest, true)
    ensures Consistent(r.s, r.interest)
    ensures r.ok <==> IndexOf(r.s.ces, e.data) >= 0
  {
    IndexOfDistinct(p.ces, i);
    if Has(e.events, EPOLLIN) then
      CallbackFailsIffErased(p, interest, i, e.io);
      ReadEventKeeps(p, interest, e.data, e.io);
      ReadEvent(p, interest, e.data, e.io)
    else Handled(p, interest, true)
  }

  /** The write callback as the poller calls it after the read stage. */
  function WriteStage(r: Handled<PoolState>, e: Ready<nat, Io>): (w: Handled<PoolState>)
    requires Consistent(r.s, r.interest)
    requires r.ok <==> IndexOf(r.s.ces, e.data) >= 0
    ensures w == if r.ok && Has(e.events, EPOLLOUT) then PoolHandler().write(r.s, r.interest, e.data, e.io) else r
    ensures w.ok <==> IndexOf(w.s.ces, e.data) >= 0
  {
    if r.ok && Has(e.events, EPOLLOUT) then
      CallbackFailsIffErased(r.s, r.interest, IndexOf(r.s.ces, e.data), e.io);
      WriteEvent(r.s, r.interest, e.data, e.io)
    else r
  }

  predicate Registered(p: PoolState, interest: Interest)
  {
    Consistent(p, interest) && AllRegistered(p, interest)
  }

  /** Dispatching a wait's events keeps the invariant. */
  lemma DispatchKeepsConsistent(p: PoolState, interest: Interest, ready: seq<Ready<nat, Io>>)
    requires Consistent(p, interest)
    ensures var r := Dispatch(PoolHandler(), p, interest, ready, 0);
            Consistent(r.s, r.interest)
  {
    var h := PoolHandler();
    forall q, i, d, a | Consistent(q, i)
      ensures Consistent(h.read(q, i, d, a).s, h.read(q, i, d, a).interest)
      ensures Consistent(h.write(q, i, d, a).s, h.write(q, i, d, a).interest)
    {
      ReadEventKeeps(q, i, d, a);
      WriteEventKeeps(q, i, d, a);
    }
    DispatchPreserves(h, Consistent, p, interest, ready, 0);
  }

  /** Dispatching a wait's events keeps every entry registered when it was
      before. */
  lemma DispatchKeepsRegistered(p: PoolState, interest: Interest, ready: seq<Ready<nat, Io>>)
    requires Registered(p, interest)
    ensures var r := Dispatch(PoolHandler(), p, interest, ready, 0);
            Registered(r.s, r.interest)
  {
    var h := PoolHandler();
    forall q, i, d, a | Registered(q, i)
      ensures Registered(h.read(q, i, d, a).s, h.read(q, i, d, a).interest)
      ensures Registered(h.write(q, i, d, a).s, h.write(q, i, d, a).interest)
    {
      ReadEventKeeps(q, i, d, a);
      WriteEventKeeps(q, i, d, a);
    }
    DispatchPreserves(h, Registered, p, interest, ready, 0);
  }

  /** One round of the poller over the pool's handler keeps the pool
      consistent, and keeps every entry registered. */
  lemma PollKeepsRegistered(p: PoolState, interest: Interest, wait: WaitResult<nat, Io>)
    requires Consistent(p, interest)
    ensures var r := PollSpec(PoolHandler(), p, interest, wait);
            && Consistent(r.s, r.interest)
            && (AllRegistered(p, interest) ==> AllRegistered(r.s, r.interest))
  {
    if wait.Woke? {
      DispatchKeepsConsistent(p, interest, wait.ready);
      if AllRegistered(p, interest) {
        DispatchKeepsRegistered(p, interest, wait.ready);
      }
    }
  }

  // ---------------------------------------------------------------------
  // The time-to-live sweep of check_timeouts.

  predicate Expired(e: Entry, now: int, ttl: int)
  {
    now - e.ts >= ttl * NanosPerSecond
  }

  /** The entries kept, the banners reported and the descriptors closed. */
  datatype Swept = Swept(kept: seq<Entry>, reports: seq<Banner>, fds: seq<int>)

  /** check_timeouts over the list, from the first entry to the last. */
  function Sweep(ces: seq<Entry>, now: int, ttl: int): (r: Swept)
    ensures |r.kept| + |r.fds| == |ces|
    ensures |r.reports| <= |r.fds|
    decreases |ces|
  {
    if ces == [] then Swept([], [], [])
    else
      var prev := Sweep(ces[..|ces| - 1], now, ttl);
      var e := ces[|ces| - 1];
      if Expired(e, now, ttl) then
        Swept(prev.kept, prev.reports + (if e.connected then [Banner(e.ip, e.str)] else []), prev.fds + [e.fd])
      else
        Swept(prev.kept + [e], prev.reports, prev.fds)
  }

  /** One more entry swept. */
  lemma SweepStep(ces: seq<Entry>, i: int, now: int, ttl: int)
    requires 0 <= i < |ces|
    ensures var prev := Sweep(ces[..i], now, ttl);
            var e := ces[i];
            Sweep(ces[..i + 1], now, ttl) ==
              if Expired(e, now, ttl) then
                Swept(prev.kept, prev.reports + (if e.connected then [Banner(e.ip, e.str)] else []), prev.fds + [e.fd])
              else
                Swept(prev.kept + [e], prev.reports, prev.fds)
  {
    assert ces[..i + 1][..i] == ces[..i];
  }

  /** The descriptors of a list, as a set. */
  function Elements(fds: seq<int>): set<int>
  {
    set fd | fd in fds
  }

  lemma MinusAppend(interest: Interest, fds: seq<int>, fd: int)
    ensures interest - Elements(fds + [fd]) == (interest - Elements(fds)) - {fd}
  {
    assert Elements(fds + [fd]) == Elements(fds) + {fd};
  }

  /** Exactly the entries that have not expired are kept, in their order. */
  lemma {:induction false} SweepKept(ces: seq<Entry>, now: int, ttl: int)
    ensures var r := Sweep(ces, now, ttl);
            && IsSubseq(r.kept, ces)
            && (forall e :: e in r.kept <==> e in ces && !Expired(e, now, ttl))
    decreases |ces|
  {
    if ces != [] {
      var init := ces[..|ces| - 1];
      var e := ces[|ces| - 1];
      SweepKept(init, now, ttl);
      assert init + [e] == ces;
      var prev := Sweep(init, now, ttl);
      if Expired(e, now, ttl) {
        SubseqExtendRight(prev.kept, init, e);
      } else {
        SubseqExtendBoth(prev.kept, init, e);
      }
    }
  }

  /** The banners of the expired connected entries, one per entry, in list
      order, taken from the front of the list. */
  function Expiring(ces: seq<Entry>, now: int, ttl: int): seq<Banner>
    decreases |ces|
  {
    if ces == [] then []
    else
      var e := ces[0];
      (if Expired(e, now, ttl) && e.connected then [Banner(e.ip, e.str)] else []) + Expiring(ces[1..], now, ttl)
  }

  lemma {:induction false} ExpiringAppend(ces: seq<Entry>, e: Entry, now: int, ttl: int)
    ensures Expiring(ces + [e], now, ttl) ==
              Expiring(ces, now, ttl) + (if Expired(e, now, ttl) && e.connected then [Banner(e.ip, e.str)] else [])
    decreases |ces|
  {
    if ces != [] {
      assert (ces + [e])[1..] == ces[1..] + [e];
      ExpiringAppend(ces[1..], e, now, ttl);
    } else {
      assert [e][1..] == [];
    }
  }

  /** A banner is reported for every expired connected entry and for no other
      entry, once per entry and in list order. */
  lemma {:induction false} SweepReports(ces: seq<Entry>, now: int, ttl: int)
    ensures forall b :: b in Sweep(ces, now, ttl).reports <==>
              exists e :: e in ces && e.connected && Expired(e, now, ttl) && b == Banner(e.ip, e.str)
    ensures Sweep(ces, now, ttl).reports == Expiring(ces, now, ttl)
    decreases |ces|
  {
    if ces != [] {
      var init := ces[..|ces| - 1];
      var e := ces[|ces| - 1];
      SweepReports(init, now, ttl);
      assert init + [e] == ces;
      ExpiringAppend(init, e, now, ttl);
      var prev := Sweep(init, now, ttl);
      var r := Sweep(ces, now, ttl);
      var added := if Expired(e, now, ttl) && e.connected then [Banner(e.ip, e.str)] else [];
      assert r.reports == prev.reports + added;
      forall b | b in r.reports
        ensures exists x :: x in ces && x.connected && Expired(x, now, ttl) && b == Banner(x.ip, x.str)
      {
        if b in prev.reports {
          var x :| x in init && x.connected && Expired(x, now, ttl) && b == Banner(x.ip, x.str);
          assert x in ces by { InitMember(ces, x); }
        } else {
          assert e in ces;
        }
      }
      forall b | exists x :: x in ces && x.connected && Expired(x, now, ttl) && b == Banner(x.ip, x.str)
        ensures b in r.reports
      {
        var x :| x in ces && x.connected && Expired(x, now, ttl) && b == Banner(x.ip, x.str);
        if x != e {
          LastOrInit(ces, x);
          assert b in prev.reports;
        }
      }
    }
  }

  /** An element of all but the last of a list is in the list. */
  lemma InitMember<T>(s: seq<T>, x: T)
    requires s != [] && x in s[..|s| - 1]
    ensures x in s
  {
    var j :| 0 <= j < |s| - 1 && s[..|s| - 1][j] == x;
    assert s[j] == x;
  }

  /** An element of a list other than its last is in all but the last. */
  lemma LastOrInit<T>(s: seq<T>, x: T)
    requires x in s && x != s[|s| - 1]
    ensures x in s[..|s| - 1]
  {
    var j :| 0 <= j < |s| && s[j] == x;
    assert s[..|s| - 1][j] == x;
  }

  lemma {:induction false} SweepFds(ces: seq<Entry>, now: int, ttl: int)
    ensures forall fd :: fd in Sweep(ces, now, ttl).fds <==> exists e :: e in ces && Expired(e, now, ttl) && fd == e.fd
    decreases |ces|
  {
    if ces != [] {
      var init := ces[..|ces| - 1];
      var e := ces[|ces| - 1];
      SweepFds(init, now, ttl);
      var prev := Sweep(init, now, ttl);
      var r := Sweep(ces, now, ttl);
      assert r.fds == prev.fds + (if Expired(e, now, ttl) then [e.fd] else []);
      forall fd | fd in r.fds
        ensures exists x :: x in ces && Expired(x, now, ttl) && fd == x.fd
      {
        if fd in prev.fds {
          var x :| x in init && Expired(x, now, ttl) && fd == x.fd;
          assert x in ces by { InitMember(ces, x); }
        } else {
          assert e in ces;
        }
      }
      forall fd | exists x :: x in ces && Expired(x, now, ttl) && fd == x.fd
        ensures fd in r.fds
      {
        var x :| x in ces && Expired(x, now, ttl) && fd == x.fd;
        if x != e {
          LastOrInit(ces, x);
          assert fd in prev.fds;
        }
      }
    }
  }

  /** Sweeping keeps unique ids and descriptors. */
  lemma {:induction false} SweepDistinct(ces: seq<Entry>, now: int, ttl: int)
    requires DistinctIds(ces) && DistinctFds(ces)
    ensures DistinctIds(Sweep(ces, now, ttl).kept) && DistinctFds(Sweep(ces, now, ttl).kept)
    decreases |ces|
  {
    if ces != [] {
      var init := ces[..|ces| - 1];
      var e := ces[|ces| - 1];
      SweepDistinct(init, now, ttl);
      SweepKept(init, now, ttl);
      var prev := Sweep(init, now, ttl);
      if !Expired(e, now, ttl) {
        var kept := prev.kept + [e];
        forall i, j | 0 <= i < j < |kept|
          ensures kept[i].id != kept[j].id && kept[i].fd != kept[j].fd
        {
          if j == |kept| - 1 {
            assert kept[i] in prev.kept;
            var i' :| 0 <= i' < |init| && init[i'] == kept[i];
            assert ces[i'] == kept[i];
          } else {
            assert kept[i] == prev.kept[i] && kept[j] == prev.kept[j];
          }
        }
      }
    }
  }

  /** The descriptors that remain registered after the sweep. */
  lemma SweepKeepsConsistent(p: PoolState, interest: Interest, now: int, ttl: int)
    requires Consistent(p, interest)
    ensures var r := Sweep(p.ces, now, ttl);
            Consistent(p.(ces := r.kept, cesSize := |r.kept|), interest - Elements(r.fds))
  {
    var r := Sweep(p.ces, now, ttl);
    var fds := Elements(r.fds);
    SweepKept(p.ces, now, ttl);
    SweepFds(p.ces, now, ttl);
    SweepDistinct(p.ces, now, ttl);
    forall i | 0 <= i < |r.kept|
      ensures r.kept[i].id < p.nextId
      ensures !r.kept[i].connected ==> r.kept[i].negot.None?
    {
      assert r.kept[i] in p.ces;
    }
    forall fd | fd in (interest - fds).Keys
      ensures fd in Fds(r.kept)
    {
      var i :| 0 <= i < |p.ces| && p.ces[i].fd == fd;
      assert p.ces[i] in p.ces;
      assert !Expired(p.ces[i], now, ttl);
      assert p.ces[i] in r.kept;
    }
  }

  /** A kept entry's descriptor is not among the closed ones, since no two
      entries share a descriptor. */
  lemma SweepKeptNotClosed(ces: seq<Entry>, now: int, ttl: int, e: Entry)
    requires DistinctFds(ces)
    requires e in Sweep(ces, now, ttl).kept
    ensures e.fd !in Sweep(ces, now, ttl).fds
  {
    SweepKept(ces, now, ttl);
    SweepFds(ces, now, ttl);
    forall x | x in ces && x.fd == e.fd
      ensures x == e
    {
      var j :| 0 <= j < |ces| && ces[j] == x;
      var j' :| 0 <= j' < |ces| && ces[j'] == e;
    }
  }

  lemma SweepKeepsRegistered(p: PoolState, interest: Interest, now: int, ttl: int)
    requires Consistent(p, interest) && AllRegistered(p, interest)
    ensures var r := Sweep(p.ces, now, ttl);
            AllRegistered(p.(ces := r.kept, cesSize := |r.kept|), interest - Elements(r.fds))
  {
    var r := Sweep(p.ces, now, ttl);
    var fds := Elements(r.fds);
    SweepKeepsConsistent(p, interest, now, ttl);
    SweepKept(p.ces, now, ttl);
    forall fd | fd in Fds(r.kept)
      ensures fd in (interest - fds).Keys
    {
      var i :| 0 <= i < |r.kept| && r.kept[i].fd == fd;
      var e := r.kept[i];
      assert e in r.kept;
      assert e in p.ces;
      var j :| 0 <= j < |p.ces| && p.ces[j] == e;
      assert fd in Fds(p.ces);
      SweepKeptNotClosed(p.ces, now, ttl, e);
    }
  }

  // ---------------------------------------------------------------------
  // The pool object.

  /** conn_pool: its fields, the logs of the calls it makes, and its poller. */
  class ConnPool {
    var ces: seq<Entry>
    var cesSize: int
    var nextId: nat
    var totalConnections: int
    var prov: bool
    var banners: seq<Banner>
    var closed: seq<int>
    var sent: seq<Sent>
    var eventsSize: nat
    const poller: ConnPoller<PoolState, nat, Io>

    function State(): PoolState
      reads this
    {
      PoolState(ces, cesSize, nextId, totalConnections, prov, banners, closed, sent)
    }

    ghost predicate Valid()
      reads this, poller
    {
      poller.handler == PoolHandler() && Consistent(State(), poller.interest)
    }

    /** A new pool has no entries, no connections, no provider, and an epoll
        instance with nothing registered. */
    constructor ()
      ensures Valid() && fresh(poller)
      ensures ces == [] && cesSize == 0 && totalConnections == 0 && !prov
      ensures banners == [] && closed == [] && sent == [] && eventsSize == 0
      ensures poller.interest == map[]
    {
      ces, cesSize, nextId, totalConnections, prov := [], 0, 0, 0, false;
      banners, closed, sent, eventsSize := [], [], [], 0;
      poller := new ConnPoller(PoolHandler());
    }

    /** get_queue_size: the number of entries in the list. */
    method GetQueueSize() returns (n: int)
      requires Valid()
      ensures n == |ces|
    {
      n := cesSize;
    }

    method GetTotalConnections() returns (n: int)
      ensures n == totalConnections
    {
      n := totalConnections;
    }

    method SetProv(prov: bool)
      modifies this`prov
      ensures this.prov == prov
    {
      this.prov := prov;
    }

    method GetProv() returns (b: bool)
      ensures b == prov
    {
      b := prov;
    }

    /** add_fd: a new unconnected entry at the end of the list, stamped with
        the current time, registered for the events it wants (EPOLLOUT, to
        learn when the connect completes); ces_size goes up whether or not the
        kernel accepted the registration. The descriptor is fresh from
        socket(), so no entry has it. */
    method AddFd(fd: int, now: int, addOk: bool)
      requires Valid() && fd !in Fds(ces)
      modifies this, poller`interest
      ensures Valid()
      ensures ces == old(ces) + [Entry(old(nextId), fd, now, false, "", [], None)]
      ensures cesSize == old(cesSize) + 1 && nextId == old(nextId) + 1
      ensures poller.interest == if addOk then old(poller.interest)[fd := EPOLLOUT] else old(poller.interest)
      ensures totalConnections == old(totalConnections) && prov == old(prov) && eventsSize == old(eventsSize)
      ensures banners == old(banners) && closed == old(closed) && sent == old(sent)
      ensures old(AllRegistered(State(), poller.interest)) && addOk ==> AllRegistered(State(), poller.interest)
    {
      ghost var p0 := State();
      ghost var interest0 := poller.interest;
      var e := Entry(nextId, fd, now, false, "", [], None);
      AddKeeps(p0, interest0, e, addOk);
      ces := ces + [e];
      nextId := nextId + 1;
      assert poller.handler.fd(State(), e.id) == fd;
      assert poller.handler.reqEvents(State(), e.id) == EPOLLOUT;
      var _ := poller.Add(State(), e.id, addOk);
      cesSize := cesSize + 1;
      assert State() == p0.(ces := p0.ces + [e], cesSize := p0.cesSize + 1, nextId := p0.nextId + 1);
    }

    /** check_timeouts(ts, ttl): every entry at least `ttl` seconds old is
        reported if connected, taken out of the interest list, closed and
        erased; the others stay, in order. */
    method CheckTimeouts(now: int, ttl: int)
      requires Valid()
      modifies this, poller`interest
      ensures Valid()
      ensures var r := Sweep(old(ces), now, ttl);
              && ces == r.kept && cesSize == |r.kept|
              && banners == old(banners) + r.reports
              && closed == old(closed) + r.fds
              && poller.interest == old(poller.interest) - Elements(r.fds)
      ensures nextId == old(nextId) && totalConnections == old(totalConnections) && prov == old(prov)
      ensures sent == old(sent) && eventsSize == old(eventsSize)
      ensures old(AllRegistered(State(), poller.interest)) ==> AllRegistered(State(), poller.interest)
    {
      ghost var p0 := State();
      ghost var interest0 := poller.interest;
      assert Consistent(p0, interest0);
      ces := ExpireEntries(now, ttl);
      SweepKeepsConsistent(p0, interest0, now, ttl);
      if AllRegistered(p0, interest0) {
        SweepKeepsRegistered(p0, interest0, now, ttl);
      }
    }

    /** poller.remove(&ce) for the entry at position `i`. */
    method Unregister(i: int)
      requires 0 <= i < |ces| && DistinctIds(ces) && poller.handler == PoolHandler()
      modifies poller`interest
      ensures poller.interest == old(poller.interest) - {ces[i].fd}
    {
      var st := State();
      FdOfEntry(st, i);
      var _ := poller.Remove(st, ces[i].id);
    }

    /** The loop of check_timeouts. It walks the list as it was when the loop
        started; the entries that stay are put back as `kept`. */
    method ExpireEntries(now: int, ttl: int) returns (kept: seq<Entry>)
      requires DistinctIds(ces) && poller.handler == PoolHandler()
      modifies this`banners, this`closed, this`cesSize, poller`interest
      ensures var r := Sweep(ces, now, ttl);
              && kept == r.kept && cesSize == old(cesSize) - |r.fds|
              && banners == old(banners) + r.reports
              && closed == old(closed) + r.fds
              && poller.interest == old(poller.interest) - Elements(r.fds)
    {
      var list := ces;
      kept := [];
      var i := 0;
      while i < |list|
        invariant 0 <= i <= |list| && list == ces
        invariant var r := Sweep(list[..i], now, ttl);
                  && kept == r.kept && cesSize == old(cesSize) - |r.fds|
                  && banners == old(banners) + r.reports
                  && closed == old(closed) + r.fds
                  && poller.interest == old(poller.interest) - Elements(r.fds)
      {
        SweepStep(list, i, now, ttl);
        ghost var prev := Sweep(list[..i], now, ttl);
        var e := list[i];
        if now - e.ts >= ttl * NanosPerSecond {
          if e.connected {
            banners := banners + [Banner(e.ip, e.str)];
            AppendAssoc(old(banners), prev.reports, [Banner(e.ip, e.str)]);
          }
          Unregister(i);
          MinusAppend(old(poller.interest), prev.fds, e.fd);
          closed := closed + [e.fd];
          AppendAssoc(old(closed), prev.fds, [e.fd]);
          cesSize := cesSize - 1;
        } else {
          kept := kept + [e];
        }
        i := i + 1;
      }
      assert list[..i] == list;
    }

    /** The callbacks work on the pool's state as a value; this puts the
        value they return back into the fields. */
    method Load(s: PoolState)
      modifies this`ces, this`cesSize, this`nextId, this`totalConnections
      modifies this`prov, this`banners, this`closed, this`sent
      ensures State() == s
    {
      ces, cesSize, nextId, totalConnections := s.ces, s.cesSize, s.nextId, s.totalConnections;
      prov, banners, closed, sent := s.prov, s.banners, s.closed, s.sent;
    }

    /** check_sockets(timeout): nothing to do with an empty list; otherwise
        the events buffer grows to ces_size and the poller waits for at most
        ces_size events and dispatches them. A failed poll makes the program
        exit (`exited`). */
    method CheckSockets(timeout: int, wait: WaitResult<nat, Io>) returns (exited: bool)
      requires Valid()
      requires wait.Woke? ==> |wait.ready| <= cesSize
      modifies this, poller
      ensures Valid()
      ensures old(cesSize) == 0 ==>
                !exited && State() == old(State()) && poller.interest == old(poller.interest)
      ensures old(cesSize) != 0 ==>
                var r := PollSpec(PoolHandler(), old(State()), old(poller.interest), wait);
                && State() == r.s && poller.interest == r.interest && exited == !r.ok
      ensures eventsSize == if old(cesSize) > old(eventsSize) then old(cesSize) else old(eventsSize)
      ensures old(AllRegistered(State(), poller.interest)) ==> AllRegistered(State(), poller.interest)
    {
      if cesSize == 0 {
        return false;
      }
      if cesSize > eventsSize {
        eventsSize := cesSize;
      }
      PollKeepsRegistered(State(), poller.interest, wait);
      var ok, s', calls := poller.Poll(State(), cesSize, timeout, wait);
      Load(s');
      exited := !ok;
    }
  }
}
