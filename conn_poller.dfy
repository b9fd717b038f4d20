/** conn_poller<T> (conn_poller.h): a wrapper around one epoll instance that
    knows nothing about connections, only a handler with four operations: the
    descriptor of an entry, the events the entry wants, and the read and write
    callbacks. `poll` waits, then for every ready descriptor runs the read
    callback if it is readable, the write callback if it is writable and the
    read did not fail, and re-arms the descriptor with freshly requested events
    when both succeeded; a failed re-arm ends the whole call with false.

    Dafny has no interfaces here, so the handler is a record of functions over
    the handler's own state `S`. The kernel's interest list of the epoll
    instance is the map `interest` (descriptor to requested events); the
    callbacks receive it and hand it back, since the pool removes descriptors
    from it (poller.remove, or close) inside its callbacks. epoll_wait's answer
    is an input: interrupted, failed, or a list of ready events, each carrying
    its entry (`data`, standing for data.ptr), its event bits, the answers of
    the system calls the callbacks will make (`io`), and whether the kernel
    accepts the re-arming epoll_ctl call (`ctlOk`). The model also returns the
    list of callbacks made, so that their order can be stated. */
module Poller {
  import opened Common

  /** The kernel's interest list of one epoll instance. */
  type Interest = map<int, bv32>

  const EPOLLIN: bv32 := 0x001
  const EPOLLOUT: bv32 := 0x004

  predicate Has(events: bv32, flag: bv32)
  {
    events & flag != 0
  }

  datatype Ready<D, A> = Ready(data: D, events: bv32, io: A, ctlOk: bool)

  datatype WaitResult<D, A> = Interrupted | WaitFailed | Woke(ready: seq<Ready<D, A>>)

  /** What a callback leaves behind, and whether it returned true. */
  datatype Handled<S> = Handled(s: S, interest: Interest, ok: bool)

  /** poll_event_handler<T>: get_fd, get_req_events, read_event, write_event. */
  datatype Handler<!S, !D, !A> = Handler(
    fd: (S, D) -> int,
    reqEvents: (S, D) -> bv32,
    read: (S, Interest, D, A) -> Handled<S>,
    write: (S, Interest, D, A) -> Handled<S>)

  /** One call made by poll for the ready event number `k`, with its result. */
  datatype Call =
    | ReadCall(k: nat, ok: bool)
    | WriteCall(k: nat, ok: bool)
    | RearmCall(k: nat, events: bv32, ok: bool)

  /** The handler state and interest list after dispatching, whether poll
      carries on (false once a re-arm failed), and the calls made. */
  datatype Dispatched<S> = Dispatched(s: S, interest: Interest, ok: bool, calls: seq<Call>)

  // The three epoll_ctl operations. ADD fails when the descriptor is already
  // registered (EEXIST), MOD when it is not (ENOENT); `ctlOk` stands for the
  // kernel's other refusals. DEL fails only when it is not registered.

  function CtlAdd(interest: Interest, fd: int, events: bv32, ctlOk: bool): (r: (Interest, bool))
    ensures r.1 <==> ctlOk && fd !in interest
    ensures r.1 ==> r.0 == interest[fd := events]
    ensures !r.1 ==> r.0 == interest
  {
    if ctlOk && fd !in interest then (interest[fd := events], true) else (interest, false)
  }

  function CtlMod(interest: Interest, fd: int, events: bv32, ctlOk: bool): (r: (Interest, bool))
    ensures r.1 <==> ctlOk && fd in interest
    ensures r.0.Keys == interest.Keys
    ensures r.1 ==> r.0 == interest[fd := events]
    ensures !r.1 ==> r.0 == interest
  {
    if ctlOk && fd in interest then (interest[fd := events], true) else (interest, false)
  }

  function CtlDel(interest: Interest, fd: int): (r: (Interest, bool))
    ensures r.1 <==> fd in interest
    ensures r.0.Keys == interest.Keys - {fd}
    ensures forall g :: g in r.0 ==> r.0[g] == interest[g]
  {
    (interest - {fd}, fd in interest)
  }

  /** The body of the for loop in poll, for the ready event number `k`. */
  function DispatchOne<S, D, A>(h: Handler<S, D, A>, s: S, interest: Interest, k: nat, e: Ready<D, A>): Dispatched<S>
  {
    var readable := Has(e.events, EPOLLIN);
    var r := if readable then h.read(s, interest, e.data, e.io) else Handled(s, interest, true);
    var readCalls := if readable then [ReadCall(k, r.ok)] else [];
    var writable := r.ok && Has(e.events, EPOLLOUT);
    var w := if writable then h.write(r.s, r.interest, e.data, e.io) else r;
    var writeCalls := if writable then [WriteCall(k, w.ok)] else [];
    if !w.ok then Dispatched(w.s, w.interest, true, readCalls + writeCalls)
    else
      var ev := h.reqEvents(w.s, e.data);
      var (interest', modOk) := CtlMod(w.interest, h.fd(w.s, e.data), ev, e.ctlOk);
      Dispatched(w.s, interest', modOk, readCalls + writeCalls + [RearmCall(k, ev, modOk)])
  }

  /** The for loop of poll over the ready events, numbered from `k`. */
  function Dispatch<S, D, A>(h: Handler<S, D, A>, s: S, interest: Interest, ready: seq<Ready<D, A>>, k: nat): Dispatched<S>
    decreases |ready|
  {
    if ready == [] then Dispatched(s, interest, true, [])
    else
      var one := DispatchOne(h, s, interest, k, ready[0]);
      if !one.ok then one
      else
        var rest := Dispatch(h, one.s, one.interest, ready[1..], k + 1);
        rest.(calls := one.calls + rest.calls)
  }

  /** poll: an interrupted wait is no error and dispatches nothing; any other
      failed wait returns false. */
  function PollSpec<S, D, A>(h: Handler<S, D, A>, s: S, interest: Interest, wait: WaitResult<D, A>): Dispatched<S>
  {
    match wait
    case Interrupted => Dispatched(s, interest, true, [])
    case WaitFailed => Dispatched(s, interest, false, [])
    case Woke(ready) => Dispatch(h, s, interest, ready, 0)
  }

  // ---------------------------------------------------------------------
  // The order of the calls, stated on the list of calls alone.

  /** Read before write before re-arm. */
  function Rank(c: Call): nat
  {
    match c
    case ReadCall(_, _) => 0
    case WriteCall(_, _) => 1
    case RearmCall(_, _, _) => 2
  }

  /** A call after which poll moves on to the next ready event: a callback
      that returned false, or a successful re-arm. */
  predicate EndsEvent(c: Call)
  {
    (!c.ok && !c.RearmCall?) || (c.RearmCall? && c.ok)
  }

  /** A call that may be the last one: a callback that returned false, or a
      re-arm (a successful callback is always followed by another call). */
  predicate Closes(c: Call)
  {
    !c.ok || c.RearmCall?
  }

  /** Two consecutive calls: the next call for the same event follows only a
      successful call, in the order read, write, re-arm; the first call for
      the next event follows only the end of the previous one. */
  predicate Adjacent(c: Call, d: Call)
  {
    || (d.k == c.k && Rank(c) < Rank(d) && c.ok)
    || (d.k == c.k + 1 && EndsEvent(c))
  }

  /** What the event bits decide about call number `j`: reads only for
      readable events, writes only for writable ones; an event's first call is
      the read exactly when it is readable; a successful read is followed by
      the write exactly when the event is writable. */
  predicate CallFits<D, A>(ready: seq<Ready<D, A>>, k0: nat, calls: seq<Call>, j: nat)
    requires j < |calls|
  {
    var c := calls[j];
    k0 <= c.k < k0 + |ready| &&
    var ev := ready[c.k - k0].events;
    && (c.ReadCall? ==> Has(ev, EPOLLIN))
    && (c.WriteCall? ==> Has(ev, EPOLLOUT))
    && ((j == 0 || calls[j - 1].k != c.k) ==> (c.ReadCall? <==> Has(ev, EPOLLIN)))
    && (c.ReadCall? && c.ok && j + 1 < |calls| ==> (calls[j + 1].WriteCall? <==> Has(ev, EPOLLOUT)))
  }

  /** The calls poll makes for the ready events numbered from `k0`, and its
      result: the events are taken in order from the first; each ends with a
      failed callback or a re-arm; a failed re-arm is the very last call and
      is the only way to return false; when poll returns true every ready
      event was dispatched. */
  predicate PollOrder<D, A>(ready: seq<Ready<D, A>>, k0: nat, calls: seq<Call>, ok: bool)
  {
    && (calls == [] <==> ready == [])
    && (calls != [] ==> calls[0].k == k0 && Closes(calls[|calls| - 1]))
    && (forall j :: 0 <= j < |calls| - 1 ==> Adjacent(calls[j], calls[j + 1]))
    && (forall j :: 0 <= j < |calls| ==> CallFits(ready, k0, calls, j))
    && (ok <==> calls == [] || EndsEvent(calls[|calls| - 1]))
    && (ok && calls != [] ==> calls[|calls| - 1].k == k0 + |ready| - 1)
  }

  /** The calls for one ready event, and the handler state they leave: that
      of the callbacks. When both callbacks succeeded, the last call re-arms
      the descriptor with the events the entry asks for after its callbacks,
      and when the kernel accepts, the interest list holds exactly those
      events for it. */
  lemma DispatchOneOrder<S, D, A>(h: Handler<S, D, A>, s: S, interest: Interest, k: nat, e: Ready<D, A>)
    ensures var one := DispatchOne(h, s, interest, k, e);
            && PollOrder([e], k, one.calls, one.ok)
            && (forall j :: 0 <= j < |one.calls| ==> one.calls[j].k == k)
            && EndsEvent(one.calls[|one.calls| - 1]) == one.ok
    ensures var one := DispatchOne(h, s, interest, k, e);
            var fd, ev := h.fd(one.s, e.data), h.reqEvents(one.s, e.data);
            var last := one.calls[|one.calls| - 1];
            last.RearmCall? ==>
              && last == RearmCall(k, ev, one.ok)
              && (one.ok ==> fd in one.interest && one.interest[fd] == ev)
    ensures var one := DispatchOne(h, s, interest, k, e);
            var r := if Has(e.events, EPOLLIN) then h.read(s, interest, e.data, e.io) else Handled(s, interest, true);
            var w := if r.ok && Has(e.events, EPOLLOUT) then h.write(r.s, r.interest, e.data, e.io) else r;
            one.s == w.s && (one.calls[|one.calls| - 1].RearmCall? <==> w.ok)
  {
    var one := DispatchOne(h, s, interest, k, e);
    var r := if Has(e.events, EPOLLIN) then h.read(s, interest, e.data, e.io) else Handled(s, interest, true);
    var w := if r.ok && Has(e.events, EPOLLOUT) then h.write(r.s, r.interest, e.data, e.io) else r;
    if w.ok {
      var ev := h.reqEvents(w.s, e.data);
      assert one.calls[|one.calls| - 1] == RearmCall(k, ev, one.ok);
    }
  }

  /** Dispatching follows the order of conn_poller::poll. */
  lemma {:induction false} DispatchOrder<S, D, A>(h: Handler<S, D, A>, s: S, interest: Interest, ready: seq<Ready<D, A>>, k: nat)
    ensures var r := Dispatch(h, s, interest, ready, k);
            PollOrder(ready, k, r.calls, r.ok)
    decreases |ready|
  {
    if ready != [] {
      var one := DispatchOne(h, s, interest, k, ready[0]);
      DispatchOneOrder(h, s, interest, k, ready[0]);
      if one.ok {
        var rest := Dispatch(h, one.s, one.interest, ready[1..], k + 1);
        DispatchOrder(h, one.s, one.interest, ready[1..], k + 1);
        ConcatOrder(ready, k, one.calls, rest.calls, rest.ok);
      } else {
        ExtendOrder(ready, k, one.calls);
      }
    }
  }

  /** poll as a whole: an interrupted wait returns true having called
      nothing, any other failed wait returns false having called nothing, and
      a wait that reported events dispatches them in the order above. */
  lemma PollSpecOrder<S, D, A>(h: Handler<S, D, A>, s: S, interest: Interest, wait: WaitResult<D, A>)
    ensures var r := PollSpec(h, s, interest, wait);
            && (wait.Interrupted? ==> r.ok && r.calls == [] && r.s == s && r.interest == interest)
            && (wait.WaitFailed? ==> !r.ok && r.calls == [] && r.s == s && r.interest == interest)
            && (wait.Woke? ==> PollOrder(wait.ready, 0, r.calls, r.ok))
  {
    if wait.Woke? {
      DispatchOrder(h, s, interest, wait.ready, 0);
    }
  }

  /** The calls of the first event, when poll stops after it, fit the whole list. */
  lemma ExtendOrder<D, A>(ready: seq<Ready<D, A>>, k: nat, seg: seq<Call>)
    requires ready != []
    requires PollOrder([ready[0]], k, seg, false)
    ensures PollOrder(ready, k, seg, false)
  {
    forall j | 0 <= j < |seg|
      ensures CallFits(ready, k, seg, j)
    {
      assert CallFits([ready[0]], k, seg, j);
    }
  }

  /** The calls of the first event followed by those of the remaining ones. */
  lemma ConcatOrder<D, A>(ready: seq<Ready<D, A>>, k: nat, seg: seq<Call>, rest: seq<Call>, ok: bool)
    requires ready != []
    requires PollOrder([ready[0]], k, seg, true)
    requires forall j :: 0 <= j < |seg| ==> seg[j].k == k
    requires PollOrder(ready[1..], k + 1, rest, ok)
    ensures PollOrder(ready, k, seg + rest, ok)
  {
    var calls := seg + rest;
    assert seg != [] && EndsEvent(seg[|seg| - 1]);
    forall j | 0 <= j < |calls| - 1
      ensures Adjacent(calls[j], calls[j + 1])
    {
      if j + 1 < |seg| {
        assert calls[j] == seg[j] && calls[j + 1] == seg[j + 1];
      } else if j + 1 == |seg| {
        assert calls[j] == seg[|seg| - 1] && calls[j + 1] == rest[0];
      } else {
        assert calls[j] == rest[j - |seg|] && calls[j + 1] == rest[j - |seg| + 1];
      }
    }
    forall j | 0 <= j < |calls|
      ensures CallFits(ready, k, calls, j)
    {
      if j < |seg| {
        assert CallFits([ready[0]], k, seg, j);
        assert calls[j] == seg[j];
        if j + 1 < |calls| && j + 1 >= |seg| {
          // the successful read of the first event is never its last call
          assert calls[j] == seg[|seg| - 1];
        }
      } else {
        var j' := j - |seg|;
        assert CallFits(ready[1..], k + 1, rest, j');
        assert calls[j] == rest[j'];
        assert ready[1..][rest[j'].k - (k + 1)] == ready[rest[j'].k - k];
        if j' == 0 {
          assert calls[j - 1] == seg[|seg| - 1];
        } else {
          assert calls[j - 1] == rest[j' - 1];
        }
      }
    }
  }

  /** Anything that holds of the handler state and the interest list, and
      that every callback and every re-arm keeps, holds after dispatching. */
  lemma {:induction false} DispatchPreserves<S(!new), D(!new), A(!new)>(
      h: Handler<S, D, A>, inv: (S, Interest) -> bool,
      s: S, interest: Interest, ready: seq<Ready<D, A>>, k: nat)
    requires forall s', i, d, a :: inv(s', i) ==> inv(h.read(s', i, d, a).s, h.read(s', i, d, a).interest)
    requires forall s', i, d, a :: inv(s', i) ==> inv(h.write(s', i, d, a).s, h.write(s', i, d, a).interest)
    requires forall s', i, fd, ev, ok :: inv(s', i) ==> inv(s', CtlMod(i, fd, ev, ok).0)
    requires inv(s, interest)
    ensures var r := Dispatch(h, s, interest, ready, k);
            inv(r.s, r.interest)
    decreases |ready|
  {
    if ready != [] {
      var e := ready[0];
      var one := DispatchOne(h, s, interest, k, e);
      var r := Handled(s, interest, true);
      if Has(e.events, EPOLLIN) {
        r := h.read(s, interest, e.data, e.io);
      }
      var w := r;
      if r.ok && Has(e.events, EPOLLOUT) {
        w := h.write(r.s, r.interest, e.data, e.io);
      }
      assert one.s == w.s;
      if w.ok {
        var m := CtlMod(w.interest, h.fd(w.s, e.data), h.reqEvents(w.s, e.data), e.ctlOk);
        assert one.interest == m.0;
      }
      if one.ok {
        DispatchPreserves(h, inv, one.s, one.interest, ready[1..], k + 1);
      }
    }
  }

  /** conn_poller: the handler it serves, the kernel's interest list, and the
      size of its `events` buffer. */
  class ConnPoller<S, D, A> {
    const handler: Handler<S, D, A>
    var interest: Interest
    var eventsSize: nat

    /** The epoll instance starts with an empty interest list. */
    constructor (handler: Handler<S, D, A>)
      ensures this.handler == handler && interest == map[] && eventsSize == 0
    {
      this.handler := handler;
      interest := map[];
      eventsSize := 0;
    }

    /** add: registers the entry's descriptor with the events it wants now. */
    method Add(s: S, data: D, ctlOk: bool) returns (ok: bool)
      modifies this`interest
      ensures var fd := handler.fd(s, data);
              && ok == (ctlOk && fd !in old(interest))
              && interest == if ok then old(interest)[fd := handler.reqEvents(s, data)] else old(interest)
    {
      var events := handler.reqEvents(s, data);
      var r := CtlAdd(interest, handler.fd(s, data), events, ctlOk);
      interest, ok := r.0, r.1;
    }

    /** remove: drops the entry's descriptor from the interest list. */
    method Remove(s: S, data: D) returns (ok: bool)
      modifies this`interest
      ensures var fd := handler.fd(s, data);
              ok == (fd in old(interest)) && interest == old(interest) - {fd}
    {
      var r := CtlDel(interest, handler.fd(s, data));
      interest, ok := r.0, r.1;
    }

    /** The body of the for loop in poll, for the ready event number `k`:
        read if readable, write if writable and the read did not fail, and
        re-arm when both succeeded. `rearmed` is false only when the re-arm
        failed, which ends poll. */
    method HandleEvent(s: S, k: nat, event: Ready<D, A>) returns (s': S, rearmed: bool, made: seq<Call>)
      modifies this`interest
      ensures var one := DispatchOne(handler, s, old(interest), k, event);
              s' == one.s && interest == one.interest && rearmed == one.ok && made == one.calls
    {
      // the intermediate values of DispatchOne
      ghost var readable := Has(event.events, EPOLLIN);
      ghost var r0 := if readable then handler.read(s, interest, event.data, event.io)
                      else Handled(s, interest, true);
      ghost var rc: seq<Call> := if readable then [ReadCall(k, r0.ok)] else [];
      ghost var writable := r0.ok && Has(event.events, EPOLLOUT);
      ghost var w0 := if writable then handler.write(r0.s, r0.interest, event.data, event.io) else r0;
      ghost var wc: seq<Call> := if writable then [WriteCall(k, w0.ok)] else [];

      var data := event.data;
      var success := true;
      s', made := s, [];
      if Has(event.events, EPOLLIN) {
        var r := handler.read(s', interest, data, event.io);
        s', interest, success := r.s, r.interest, success && r.ok;
        made := made + [ReadCall(k, r.ok)];
      }
      assert s' == r0.s && interest == r0.interest && success == r0.ok && made == rc;
      if success && Has(event.events, EPOLLOUT) {
        var w := handler.write(s', interest, data, event.io);
        s', interest, success := w.s, w.interest, success && w.ok;
        made := made + [WriteCall(k, w.ok)];
      }
      assert s' == w0.s && interest == w0.interest && success == w0.ok && made == rc + wc;
      rearmed := true;
      if success {
        var events := handler.reqEvents(s', data);
        var m := CtlMod(interest, handler.fd(s', data), events, event.ctlOk);
        interest, rearmed := m.0, m.1;
        made := made + [RearmCall(k, events, rearmed)];
      }
    }

    /** poll(max_events, timeout). The buffer grows to at least `maxEvents`
        and never shrinks; the kernel reports at most `maxEvents` events. The
        timeout only bounds the wait, whose answer is the input `wait`. */
    method Poll(s: S, maxEvents: int, timeout: int, wait: WaitResult<D, A>) returns (ok: bool, s': S, calls: seq<Call>)
      requires wait.Woke? ==> |wait.ready| <= maxEvents
      modifies this
      ensures eventsSize == if maxEvents > old(eventsSize) then maxEvents else old(eventsSize)
      ensures var r := PollSpec(handler, s, old(interest), wait);
              ok == r.ok && s' == r.s && interest == r.interest && calls == r.calls
    {
      if maxEvents > eventsSize {
        eventsSize := maxEvents;
      }
      s', calls := s, [];
      match wait {
        case Interrupted =>
          return true, s', calls;
        case WaitFailed =>
          return false, s', calls;
        case Woke(ready) =>
          var i := 0;
          while i < |ready|
            invariant 0 <= i <= |ready|
            invariant eventsSize == if maxEvents > old(eventsSize) then maxEvents else old(eventsSize)
            invariant var all := Dispatch(handler, s, old(interest), ready, 0);
                      var tail := Dispatch(handler, s', interest, ready[i..], i);
                      all == tail.(calls := calls + tail.calls)
          {
            assert ready[i..][0] == ready[i] && ready[i..][1..] == ready[i + 1..];
            ghost var tail := Dispatch(handler, s', interest, ready[i..], i);
            ghost var before := calls;
            var made, rearmed;
            s', rearmed, made := HandleEvent(s', i, ready[i]);
            calls := calls + made;
            if !rearmed {
              return false, s', calls;
            }
            ghost var rest := Dispatch(handler, s', interest, ready[i + 1..], i + 1);
            assert tail == rest.(calls := made + rest.calls);
            AppendAssoc(before, made, rest.calls);
            i := i + 1;
          }
          return true, s', calls;
      }
    }
  }
}
