/** The older poll()-based driver of connector.cpp.

    The connector keeps a list of connection entries and a separate counter
    `ces_size`. Each round of `go` admits at most one new target read from the
    input (while it is running and below the concurrency ceiling `maxcon`),
    builds the poll request vector with `make_poll_vector`, and lets
    `check_sockets` walk the list once: expired entries are reported (when
    connected), closed and erased; a reported POLLOUT finishes the non-blocking
    connect; a reported POLLIN on a connected entry appends the escaped bytes
    read, or, at end of stream, reports, closes and erases the entry.

    The system calls are inputs: the result of poll() comes with, per request
    position, the revents bits, the peer address getpeername would give, the
    result of getsockopt(SO_ERROR) and the bytes read() would return (none
    stands for a result <= 0). The clocks are integer timestamps. The results
    file is the list of its lines. */
module Connector {
  import opened Common
  import opened Escape

  // poll(2) event bits, as on Linux.
  const POLLIN: bv16 := 0x001
  const POLLOUT: bv16 := 0x004

  /** conn_entry as connector.cpp uses it. The pointer `pfd` into the poll
      vector is the entry's position in the list when the vector was built. */
  datatype ConnEntry = ConnEntry(fd: int, ts: int, connected: bool, ip: string, str: string)

  /** struct pollfd. */
  datatype PollFd = PollFd(fd: int, events: bv16, revents: bv16)

  /** What the kernel reports for one request of the vector. */
  datatype Slot = Slot(revents: bv16, peer: string, sockopt: SockOpt, data: seq<Byte>)

  /** The result of poll(): interrupted by a signal (EINTR), failed for any
      other reason, or the reports for the request vector, by position. */
  datatype PollResult = Interrupted | Failed | Ready(slots: seq<Slot>)

  /** The report for position i; a position the kernel left out has no events. */
  function SlotAt(slots: seq<Slot>, i: int): Slot
  {
    if 0 <= i < |slots| then slots[i] else Slot(0, "", GetSockOptFailed, [])
  }

  /** write_to_file: one line of the results file. */
  function Line(e: ConnEntry): string
  {
    e.ip + ": " + e.str + "\n"
  }

  /** A line starts with the address and ends with the one newline of the
      line, as long as the address and the text are made of safe characters
      (which the escape guarantees for the text): one line per host. */
  lemma LineShape(e: ConnEntry)
    ensures var l := Line(e);
            && |l| == |e.ip| + |e.str| + 3 && l[..|e.ip|] == e.ip && l[|l| - 1] == '\n'
            && ((forall k :: 0 <= k < |e.ip| ==> IsSafe(e.ip[k])) && (forall k :: 0 <= k < |e.str| ==> IsSafe(e.str[k])) ==>
                  forall k :: 0 <= k < |l| - 1 ==> l[k] != '\n')
  {
    var l := Line(e);
    if (forall k :: 0 <= k < |e.ip| ==> IsSafe(e.ip[k])) && (forall k :: 0 <= k < |e.str| ==> IsSafe(e.str[k])) {
      forall k | 0 <= k < |l| - 1
        ensures l[k] != '\n'
      {
        if k < |e.ip| {
          assert l[k] == e.ip[k];
        } else if k >= |e.ip| + 2 {
          assert l[k] == e.str[k - |e.ip| - 2];
        }
      }
    }
  }

  /** The test `revents & bit` of the source. */
  predicate HasEvent(revents: bv16, bit: bv16)
  {
    revents & bit != 0
  }

  predicate Expired(e: ConnEntry, ts: int, ttl: int)
  {
    ts - e.ts >= ttl
  }

  /** What check_sockets does with one entry: the entry that stays (None when
      it is erased), the line written, the descriptor closed, and whether a
      connection was counted. */
  datatype Visit = Visit(kept: Option<ConnEntry>, line: Option<string>, closed: Option<int>, connect: bool)

  /** One iteration of the loop of check_sockets, in the source's order of
      tests: time to live first, then POLLOUT, then POLLIN. */
  function VisitEntry(e: ConnEntry, slot: Slot, ts: int, ttl: int): Visit
  {
    if Expired(e, ts, ttl) then
      Visit(None, if e.connected then Some(Line(e)) else None, Some(e.fd), false)
    else if HasEvent(slot.revents, POLLOUT) then
      var e' := e.(ip := slot.peer);
      match slot.sockopt
      case GetSockOptFailed => Visit(None, None, None, false)   // erased, descriptor not closed
      case SoError(code) =>
        if code == 0 then Visit(Some(e'.(connected := true)), None, None, true)
        else Visit(None, None, Some(e.fd), false)
    else if e.connected && HasEvent(slot.revents, POLLIN) then
      if |slot.data| > 0 then Visit(Some(e.(str := e.str + Escape.Escape(slot.data))), None, None, false)
      else Visit(None, Some(Line(e)), Some(e.fd), false)
    else
      Visit(Some(e), None, None, false)
  }

  /** One visit never both keeps and closes an entry: a kept entry has not
      expired and keeps its descriptor and start time (and its connection and
      text, extended, once connected); a line is written only for a connected
      entry, which is then closed; a connection is counted exactly when the
      connect completes. */
  lemma VisitEntryShape(e: ConnEntry, slot: Slot, ts: int, ttl: int)
    ensures var r := VisitEntry(e, slot, ts, ttl);
            && (r.kept.Some? ==> !Expired(e, ts, ttl) && r.kept.value.fd == e.fd && r.kept.value.ts == e.ts)
            && (r.kept.Some? && e.connected ==> r.kept.value.connected && e.str <= r.kept.value.str)
            && (r.kept.Some? ==> r.closed.None? && r.line.None?)
            && (r.line.Some? ==> e.connected && r.line.value == Line(e) && r.closed == Some(e.fd))
            && (r.closed.Some? ==> r.closed.value == e.fd)
            && (r.connect <==> Connects(e, slot, ts, ttl))
  {
  }

  /** The entries kept, the lines written, the descriptors closed and the
      connections counted by one walk of check_sockets. */
  datatype Scanned = Scanned(kept: seq<ConnEntry>, lines: seq<string>, closed: seq<int>, connects: nat)

  function OptSeq<T>(o: Option<T>): seq<T>
  {
    match o
    case None => []
    case Some(x) => [x]
  }

  /** check_sockets over the list, from the first entry to the last; the i-th
      entry reads the i-th report. */
  function Scan(ces: seq<ConnEntry>, slots: seq<Slot>, ts: int, ttl: int): (r: Scanned)
    ensures |r.kept| <= |ces| && |r.lines| <= |ces| && |r.closed| <= |ces| && r.connects <= |ces|
    decreases |ces|
  {
    if ces == [] then Scanned([], [], [], 0)
    else
      var prev := Scan(ces[..|ces| - 1], slots, ts, ttl);
      var v := VisitEntry(ces[|ces| - 1], SlotAt(slots, |ces| - 1), ts, ttl);
      Scanned(prev.kept + OptSeq(v.kept), prev.lines + OptSeq(v.line), prev.closed + OptSeq(v.closed),
              prev.connects + if v.connect then 1 else 0)
  }

  /** One more entry scanned. */
  lemma ScanStep(ces: seq<ConnEntry>, i: int, slots: seq<Slot>, ts: int, ttl: int)
    requires 0 <= i < |ces|
    ensures var prev := Scan(ces[..i], slots, ts, ttl);
            var v := VisitEntry(ces[i], SlotAt(slots, i), ts, ttl);
            Scan(ces[..i + 1], slots, ts, ttl) ==
              Scanned(prev.kept + OptSeq(v.kept), prev.lines + OptSeq(v.line), prev.closed + OptSeq(v.closed),
                      prev.connects + if v.connect then 1 else 0)
  {
    assert ces[..i + 1][..i] == ces[..i];
  }

  lemma ScanNone(ces: seq<ConnEntry>, slots: seq<Slot>, ts: int, ttl: int)
    ensures Scan(ces[..0], slots, ts, ttl) == Scanned([], [], [], 0)
  {
    assert ces[..0] == [];
  }

  lemma ScanAll(ces: seq<ConnEntry>, slots: seq<Slot>, ts: int, ttl: int)
    ensures Scan(ces[..|ces|], slots, ts, ttl) == Scan(ces, slots, ts, ttl)
  {
    assert ces[..|ces|] == ces;
  }

  /** Scanning the first n entries gives a prefix of every result of the
      whole walk. */
  lemma {:induction false} ScanPrefix(ces: seq<ConnEntry>, n: int, slots: seq<Slot>, ts: int, ttl: int)
    requires 0 <= n <= |ces|
    ensures var pre := Scan(ces[..n], slots, ts, ttl);
            var r := Scan(ces, slots, ts, ttl);
            pre.kept <= r.kept && pre.lines <= r.lines && pre.closed <= r.closed && pre.connects <= r.connects
    decreases |ces| - n
  {
    if n == |ces| {
      assert ces[..n] == ces;
    } else {
      ScanPrefix(ces, n + 1, slots, ts, ttl);
      ScanStep(ces, n, slots, ts, ttl);
      var pre := Scan(ces[..n], slots, ts, ttl);
      var mid := Scan(ces[..n + 1], slots, ts, ttl);
      var r := Scan(ces, slots, ts, ttl);
      PrefixTrans(pre.kept, mid.kept, r.kept);
      PrefixTrans(pre.lines, mid.lines, r.lines);
      PrefixTrans(pre.closed, mid.closed, r.closed);
    }
  }

  /** What the i-th entry adds to the walk, in the source's order of tests:
      an expired entry is closed (and its line written when it was
      connected); a reported POLLOUT records the peer address, and SO_ERROR 0
      keeps the entry connected and counts it, a nonzero code closes it, and a
      failed getsockopt drops it silently; a reported POLLIN on a connected
      entry appends the escaped bytes read, or at end of stream writes its
      line and closes it; any other entry is kept as it is. */
  lemma ScanEntry(ces: seq<ConnEntry>, slots: seq<Slot>, ts: int, ttl: int, i: int)
    requires 0 <= i < |ces|
    ensures var e := ces[i];
            var slot := SlotAt(slots, i);
            var before := Scan(ces[..i], slots, ts, ttl);
            var after := Scan(ces[..i + 1], slots, ts, ttl);
            var out := HasEvent(slot.revents, POLLOUT);
            var inData := e.connected && HasEvent(slot.revents, POLLIN);
            && (Expired(e, ts, ttl) ==>
                  after == before.(lines := before.lines + (if e.connected then [Line(e)] else []),
                                   closed := before.closed + [e.fd]))
            && (!Expired(e, ts, ttl) && out && slot.sockopt == SoError(0) ==>
                  after == before.(kept := before.kept + [e.(ip := slot.peer, connected := true)],
                                   connects := before.connects + 1))
            && (!Expired(e, ts, ttl) && out && slot.sockopt.SoError? && slot.sockopt.code != 0 ==>
                  after == before.(closed := before.closed + [e.fd]))
            && (!Expired(e, ts, ttl) && out && slot.sockopt == GetSockOptFailed ==>
                  after == before)
            && (!Expired(e, ts, ttl) && !out && inData && |slot.data| > 0 ==>
                  after == before.(kept := before.kept + [e.(str := e.str + Escape.Escape(slot.data))]))
            && (!Expired(e, ts, ttl) && !out && inData && |slot.data| == 0 ==>
                  after == before.(lines := before.lines + [Line(e)], closed := before.closed + [e.fd]))
            && (!Expired(e, ts, ttl) && !out && !inData ==>
                  after == before.(kept := before.kept + [e]))
  {
    ScanStep(ces, i, slots, ts, ttl);
  }

  /** The effects of a ready socket, as they show in the result of the whole
      walk: a completed connect keeps the entry connected under its peer
      address, a refused one closes it, data read is appended escaped, and
      end of stream writes the entry's line and closes it. */
  lemma ScanEvents(ces: seq<ConnEntry>, slots: seq<Slot>, ts: int, ttl: int, i: int)
    requires 0 <= i < |ces| && !Expired(ces[i], ts, ttl)
    ensures var e := ces[i];
            var slot := SlotAt(slots, i);
            var r := Scan(ces, slots, ts, ttl);
            var out := HasEvent(slot.revents, POLLOUT);
            var inData := e.connected && HasEvent(slot.revents, POLLIN);
            && (out && slot.sockopt == SoError(0) ==> e.(ip := slot.peer, connected := true) in r.kept)
            && (out && slot.sockopt.SoError? && slot.sockopt.code != 0 ==> e.fd in r.closed)
            && (!out && inData && |slot.data| > 0 ==> e.(str := e.str + Escape.Escape(slot.data)) in r.kept)
            && (!out && inData && |slot.data| == 0 ==> Line(e) in r.lines && e.fd in r.closed)
  {
    ScanEntry(ces, slots, ts, ttl, i);
    ScanPrefix(ces, i + 1, slots, ts, ttl);
    var after := Scan(ces[..i + 1], slots, ts, ttl);
    var r := Scan(ces, slots, ts, ttl);
    assert forall x :: x in after.kept ==> x in r.kept;
    assert forall x :: x in after.lines ==> x in r.lines;
    assert forall x :: x in after.closed ==> x in r.closed;
  }

  /** An entry whose non-blocking connect completes in this walk. */
  predicate Connects(e: ConnEntry, slot: Slot, ts: int, ttl: int)
  {
    !Expired(e, ts, ttl) && HasEvent(slot.revents, POLLOUT) && slot.sockopt == SoError(0)
  }

  /** The number of entries whose connect completes. */
  function CountConnects(ces: seq<ConnEntry>, slots: seq<Slot>, ts: int, ttl: int): nat
    decreases |ces|
  {
    if ces == [] then 0
    else
      CountConnects(ces[..|ces| - 1], slots, ts, ttl)
      + if Connects(ces[|ces| - 1], SlotAt(slots, |ces| - 1), ts, ttl) then 1 else 0
  }

  /** A walk counts exactly the connects that complete in it. */
  lemma {:induction false} ScanConnects(ces: seq<ConnEntry>, slots: seq<Slot>, ts: int, ttl: int)
    ensures Scan(ces, slots, ts, ttl).connects == CountConnects(ces, slots, ts, ttl)
    decreases |ces|
  {
    if ces != [] {
      ScanConnects(ces[..|ces| - 1], slots, ts, ttl);
    }
  }

  /** A kept entry has not expired, comes from an entry of the list with the
      same descriptor and start time, and stays connected if it was. */
  lemma {:induction false} ScanKept(ces: seq<ConnEntry>, slots: seq<Slot>, ts: int, ttl: int)
    ensures forall e :: e in Scan(ces, slots, ts, ttl).kept ==>
              && !Expired(e, ts, ttl)
              && exists i :: 0 <= i < |ces| && ces[i].fd == e.fd && ces[i].ts == e.ts && (ces[i].connected ==> e.connected)
    decreases |ces|
  {
    if ces != [] {
      var n := |ces| - 1;
      ScanKept(ces[..n], slots, ts, ttl);
      var prev := Scan(ces[..n], slots, ts, ttl);
      var v := VisitEntry(ces[n], SlotAt(slots, n), ts, ttl);
      forall e | e in Scan(ces, slots, ts, ttl).kept
        ensures !Expired(e, ts, ttl)
        ensures exists i :: 0 <= i < |ces| && ces[i].fd == e.fd && ces[i].ts == e.ts && (ces[i].connected ==> e.connected)
      {
        if e in prev.kept {
          var i :| 0 <= i < n && ces[..n][i].fd == e.fd && ces[..n][i].ts == e.ts && (ces[..n][i].connected ==> e.connected);
          assert ces[i] == ces[..n][i];
        } else {
          assert v.kept == Some(e);
          assert ces[n].fd == e.fd && ces[n].ts == e.ts;
        }
      }
    }
  }

  /** Every expired entry is closed, and reported when it was connected. */
  lemma {:induction false} ScanExpired(ces: seq<ConnEntry>, slots: seq<Slot>, ts: int, ttl: int)
    ensures forall i :: 0 <= i < |ces| && Expired(ces[i], ts, ttl) ==>
              && ces[i].fd in Scan(ces, slots, ts, ttl).closed
              && (ces[i].connected ==> Line(ces[i]) in Scan(ces, slots, ts, ttl).lines)
    decreases |ces|
  {
    if ces != [] {
      var n := |ces| - 1;
      ScanExpired(ces[..n], slots, ts, ttl);
      forall i | 0 <= i < n && Expired(ces[i], ts, ttl)
        ensures ces[i].fd in Scan(ces, slots, ts, ttl).closed
        ensures ces[i].connected ==> Line(ces[i]) in Scan(ces, slots, ts, ttl).lines
      {
        assert ces[..n][i] == ces[i];
      }
    }
  }

  /** Every line written is the line of an entry that was connected. */
  lemma {:induction false} ScanLines(ces: seq<ConnEntry>, slots: seq<Slot>, ts: int, ttl: int)
    ensures forall l :: l in Scan(ces, slots, ts, ttl).lines ==>
              exists i :: 0 <= i < |ces| && ces[i].connected && l == Line(ces[i])
    decreases |ces|
  {
    if ces != [] {
      var n := |ces| - 1;
      ScanLines(ces[..n], slots, ts, ttl);
      var prev := Scan(ces[..n], slots, ts, ttl);
      forall l | l in Scan(ces, slots, ts, ttl).lines
        ensures exists i :: 0 <= i < |ces| && ces[i].connected && l == Line(ces[i])
      {
        if l in prev.lines {
          var i :| 0 <= i < n && ces[..n][i].connected && l == Line(ces[..n][i]);
          assert ces[i] == ces[..n][i];
        } else {
          assert ces[n].connected && l == Line(ces[n]);
        }
      }
    }
  }

  /** The kernel reports POLLOUT only for requests that asked for it, and
      make_poll_vector asks for it only for entries that are not connected. */
  predicate AsRequested(ces: seq<ConnEntry>, slots: seq<Slot>)
  {
    forall i :: 0 <= i < |ces| && i < |slots| && ces[i].connected ==> !HasEvent(slots[i].revents, POLLOUT)
  }

  /** No banner is lost: a connected entry is either reported or kept, with
      the same address and its text only extended. */
  lemma {:induction false} ScanKeepsBanners(ces: seq<ConnEntry>, slots: seq<Slot>, ts: int, ttl: int)
    requires AsRequested(ces, slots)
    ensures forall i :: 0 <= i < |ces| && ces[i].connected ==>
              || Line(ces[i]) in Scan(ces, slots, ts, ttl).lines
              || exists e :: e in Scan(ces, slots, ts, ttl).kept && e.fd == ces[i].fd && e.connected
                   && e.ip == ces[i].ip && ces[i].str <= e.str
    decreases |ces|
  {
    if ces != [] {
      var n := |ces| - 1;
      assert AsRequested(ces[..n], slots);
      ScanKeepsBanners(ces[..n], slots, ts, ttl);
      var prev := Scan(ces[..n], slots, ts, ttl);
      var r := Scan(ces, slots, ts, ttl);
      forall i | 0 <= i < |ces| && ces[i].connected
        ensures || Line(ces[i]) in r.lines
                || exists e :: e in r.kept && e.fd == ces[i].fd && e.connected && e.ip == ces[i].ip && ces[i].str <= e.str
      {
        if i < n {
          assert ces[..n][i] == ces[i];
          if Line(ces[i]) !in prev.lines {
            var e :| e in prev.kept && e.fd == ces[i].fd && e.connected && e.ip == ces[i].ip && ces[i].str <= e.str;
            assert e in r.kept;
          }
        } else {
          var v := VisitEntry(ces[n], SlotAt(slots, n), ts, ttl);
          if v.kept.Some? {
            assert v.kept.value in r.kept;
          }
        }
      }
    }
  }

  /** As written, a connected entry for which POLLOUT is reported and
      getsockopt fails is dropped without its line: the guarantee above needs
      the kernel to report only what was requested. */
  lemma UnrequestedPollOutDropsBanner()
    ensures var e := ConnEntry(3, 0, true, "10.0.0.1", "SSH-2.0");
            var r := Scan([e], [Slot(POLLOUT, "10.0.0.1", GetSockOptFailed, [])], 0, 60);
            r.lines == [] && r.kept == [] && r.closed == []
  {
    var e := ConnEntry(3, 0, true, "10.0.0.1", "SSH-2.0");
    assert [e][..0] == [];
  }

  /** The invariant of a list entry: text is read only once connected, and
      the text is escaped. */
  predicate EntryOk(e: ConnEntry)
  {
    && (!e.connected ==> e.str == "")
    && forall k :: 0 <= k < |e.str| ==> IsSafe(e.str[k])
  }

  /** Escaped bytes appended to safe text keep it safe. */
  lemma SafeAppend(str: string, data: seq<Byte>)
    requires forall k :: 0 <= k < |str| ==> IsSafe(str[k])
    ensures var s := str + Escape.Escape(data);
            forall k :: 0 <= k < |s| ==> IsSafe(s[k])
  {
    var t := Escape.Escape(data);
    forall k | 0 <= k < |str + t|
      ensures IsSafe((str + t)[k])
    {
      if k >= |str| {
        assert (str + t)[k] == t[k - |str|];
      }
    }
  }

  /** One visit keeps an entry well formed. */
  lemma VisitKeepsEntryOk(e: ConnEntry, slot: Slot, ts: int, ttl: int)
    requires EntryOk(e)
    ensures var v := VisitEntry(e, slot, ts, ttl);
            v.kept.Some? ==> EntryOk(v.kept.value)
  {
    if !Expired(e, ts, ttl) && !HasEvent(slot.revents, POLLOUT) && e.connected && HasEvent(slot.revents, POLLIN) && |slot.data| > 0 {
      SafeAppend(e.str, slot.data);
    }
  }

  lemma {:induction false} ScanKeepsEntryOk(ces: seq<ConnEntry>, slots: seq<Slot>, ts: int, ttl: int)
    requires forall i :: 0 <= i < |ces| ==> EntryOk(ces[i])
    ensures forall e :: e in Scan(ces, slots, ts, ttl).kept ==> EntryOk(e)
    decreases |ces|
  {
    if ces != [] {
      var n := |ces| - 1;
      assert forall i :: 0 <= i < n ==> ces[..n][i] == ces[i];
      ScanKeepsEntryOk(ces[..n], slots, ts, ttl);
      VisitKeepsEntryOk(ces[n], SlotAt(slots, n), ts, ttl);
    }
  }

  /** What the environment supplies to one round of go: whether the
      termination signal arrived (die), the descriptor newcon returns for the
      admitted target (-1 on failure), the two readings of time(), and the
      result of poll(). */
  datatype Round = Round(signal: bool, sock: int, admitTs: int, poll: PollResult, checkTs: int)

  /** How go ended: the loop condition became false, poll() failed and the
      program exited, or the supplied rounds ran out first. */
  datatype GoOutcome = Finished | Exited | OutOfRounds

  /** The fields of the connector that go changes. */
  datatype Snapshot = Snapshot(
    running: bool,
    pos: nat,
    inputOk: bool,
    ces: seq<ConnEntry>,
    cesSize: int,
    maxfd: int,
    totalLines: int,
    totalConnections: int,
    results: seq<string>,
    closed: seq<int>)

  /** The state of the older connector: the input stream as its lines and the
      number consumed, the entry list and its counter, the statistics, the
      running flag that die clears, the lines of the results file, and the
      descriptors closed. */
  class Connector {
    const input: seq<string>
    const port: int
    const maxcon: int
    const ttl: int
    const pollTimeout: int
    var pos: nat
    var inputOk: bool
    var ces: seq<ConnEntry>
    var cesSize: int
    var totalConnections: int
    var totalLines: int
    var maxfd: int
    var running: bool
    var results: seq<string>
    var closed: seq<int>

    /** The counter matches the list, which stays within the concurrency
        ceiling; every descriptor is at most maxfd; every entry is well
        formed. */
    predicate Valid()
      reads this
    {
      && cesSize == |ces|
      && pos <= |input|
      && (ces == [] || |ces| <= maxcon)
      && (forall i :: 0 <= i < |ces| ==> ces[i].fd <= maxfd)
      && (forall i :: 0 <= i < |ces| ==> EntryOk(ces[i]))
    }

    function State(): Snapshot
      reads this
    {
      Snapshot(running, pos, inputOk, ces, cesSize, maxfd, totalLines, totalConnections, results, closed)
    }

    /** The results file is opened for appending or truncated. The counters
        are not initialised by this constructor; their declarations are not
        part of this model, and they start at zero here. */
    constructor (input: seq<string>, existing: seq<string>, append: bool, port: int, maxcon: int, ttl: int, pollTimeout: int)
      ensures Valid()
      ensures this.input == input && this.port == port && this.maxcon == maxcon
      ensures this.ttl == ttl && this.pollTimeout == pollTimeout
      ensures results == (if append then existing else [])
      ensures ces == [] && cesSize == 0 && totalConnections == 0 && totalLines == 0
      ensures pos == 0 && inputOk && closed == []
    {
      this.input := input;
      this.port := port;
      this.maxcon := maxcon;
      this.ttl := ttl;
      this.pollTimeout := pollTimeout;
      results := if append then existing else [];
      pos, inputOk := 0, true;
      ces, cesSize := [], 0;
      totalConnections, totalLines, maxfd := 0, 0, 0;
      running := false;
      closed := [];
    }

    /** make_poll_vector: one request per entry, in list order, asking for
        POLLIN when the entry is connected and POLLOUT otherwise. */
    method MakePollVector() returns (v: seq<PollFd>)
      ensures |v| == |ces|
      ensures forall i :: 0 <= i < |ces| ==>
                v[i].fd == ces[i].fd && v[i].revents == 0
                && v[i].events == if ces[i].connected then POLLIN else POLLOUT
    {
      v := [];
      var i := 0;
      while i < |ces|
        invariant 0 <= i <= |ces| && |v| == i
        invariant forall k :: 0 <= k < i ==>
                    v[k].fd == ces[k].fd && v[k].revents == 0
                    && v[k].events == if ces[k].connected then POLLIN else POLLOUT
      {
        var e := ces[i];
        v := v + [PollFd(e.fd, if e.connected then POLLIN else POLLOUT, 0)];
        i := i + 1;
      }
    }

    /** check_sockets: an interrupted poll() changes nothing, a failed one
        ends the program (fatal), and otherwise the list is walked once as
        Scan describes, erasing entries in place. */
    method CheckSockets(poll: PollResult, ts: int) returns (fatal: bool)
      requires Valid()
      modifies this`ces, this`cesSize, this`totalConnections, this`results, this`closed
      ensures Valid()
      ensures fatal <==> poll.Failed?
      ensures old(results) <= results && old(totalConnections) <= totalConnections
      ensures !poll.Ready? ==>
                ces == old(ces) && totalConnections == old(totalConnections)
                && results == old(results) && closed == old(closed)
      ensures poll.Ready? ==>
                var r := Scan(old(ces), poll.slots, ts, ttl);
                && ces == r.kept
                && results == old(results) + r.lines
                && closed == old(closed) + r.closed
                && totalConnections == old(totalConnections) + r.connects
      ensures (State(), fatal) == Checked(old(State()), poll, ts)
    {
      if !poll.Ready? {
        return poll.Failed?;
      }
      fatal := false;
      ghost var list := ces;
      Walk(poll.slots, ts);
      ScanValid(list, poll.slots, ts, ttl, maxfd);
    }

    /** The loop of check_sockets over the reports of a poll() that
        succeeded. */
    method Walk(slots: seq<Slot>, ts: int)
      requires cesSize == |ces|
      modifies this`ces, this`cesSize, this`totalConnections, this`results, this`closed
      ensures var r := Scan(old(ces), slots, ts, ttl);
              && ces == r.kept
              && cesSize == |ces|
              && results == old(results) + r.lines
              && closed == old(closed) + r.closed
              && totalConnections == old(totalConnections) + r.connects
    {
      var list := ces;
      var i, j := 0, 0;
      ScanNone(list, slots, ts, ttl);
      while i < |list|
        invariant Walked(list, slots, ts, i, j, old(results), old(closed), old(totalConnections))
      {
        j := WalkStep(list, slots, ts, i, j, old(results), old(closed), old(totalConnections));
        i := i + 1;
      }
      ScanAll(list, slots, ts, ttl);
    }

    /** The invariant of the loop of check_sockets after the first i entries
        of the list: the list holds the entries kept so far (j of them)
        followed by those not yet visited, and the logs and the count have
        grown by what Scan gives for those i entries. */
    ghost predicate Walked(list: seq<ConnEntry>, slots: seq<Slot>, ts: int, i: int, j: int,
                           results0: seq<string>, closed0: seq<int>, connections0: int)
      reads this
    {
      && 0 <= i <= |list|
      && var sc := Scan(list[..i], slots, ts, ttl);
         && j == |sc.kept|
         && ces == sc.kept + list[i..]
         && cesSize == |ces|
         && results == results0 + sc.lines
         && closed == closed0 + sc.closed
         && totalConnections == connections0 + sc.connects
    }

    /** One turn of the loop of check_sockets: the entry at position j, which
        is list[i], is visited. */
    method WalkStep(list: seq<ConnEntry>, slots: seq<Slot>, ts: int, i: int, j: int,
                    ghost results0: seq<string>, ghost closed0: seq<int>, ghost connections0: int)
      returns (j': int)
      requires i < |list| && Walked(list, slots, ts, i, j, results0, closed0, connections0)
      modifies this`ces, this`cesSize, this`totalConnections, this`results, this`closed
      ensures Walked(list, slots, ts, i + 1, j', results0, closed0, connections0)
    {
      ScanStep(list, i, slots, ts, ttl);
      ghost var sc := Scan(list[..i], slots, ts, ttl);
      ghost var v := VisitEntry(list[i], SlotAt(slots, i), ts, ttl);
      assert ces[..j] == sc.kept && ces[j] == list[i] && ces[j + 1..] == list[i + 1..];
      ghost var results1, closed1 := results, closed;
      var kept := Visit(j, SlotAt(slots, i), ts);
      assert kept == v.kept.Some? && |OptSeq(v.kept)| == if kept then 1 else 0;
      ghost var next := Scan(list[..i + 1], slots, ts, ttl);
      assert ces == next.kept + list[i + 1..];
      assert results == results1 + OptSeq(v.line);
      assert closed == closed1 + OptSeq(v.closed);
      assert results == results0 + next.lines by {
        AppendAssoc(results0, sc.lines, OptSeq(v.line));
      }
      assert closed == closed0 + next.closed by {
        AppendAssoc(closed0, sc.closed, OptSeq(v.closed));
      }
      j' := if kept then j + 1 else j;
    }

    /** One iteration of the loop of check_sockets, on the entry at position
        j: the entry is updated in place or erased, as VisitEntry says. */
    method Visit(j: int, slot: Slot, ts: int) returns (kept: bool)
      requires 0 <= j < |ces| && cesSize == |ces|
      modifies this`ces, this`cesSize, this`totalConnections, this`results, this`closed
      ensures var v := VisitEntry(old(ces[j]), slot, ts, ttl);
              && kept == v.kept.Some?
              && ces == old(ces[..j]) + OptSeq(v.kept) + old(ces[j + 1..])
              && cesSize == |ces|
              && results == old(results) + OptSeq(v.line)
              && closed == old(closed) + OptSeq(v.closed)
              && totalConnections == old(totalConnections) + (if v.connect then 1 else 0)
    {
      var e := ces[j];
      kept := false;
      if ts - e.ts >= ttl {
        if e.connected {
          results := results + [Line(e)];
        }
        closed := closed + [e.fd];
      } else if HasEvent(slot.revents, POLLOUT) {
        var e' := e.(ip := slot.peer);
        match slot.sockopt {
          case GetSockOptFailed =>
          case SoError(code) =>
            if code == 0 {
              totalConnections := totalConnections + 1;
              ces := ces[j := e'.(connected := true)];
              kept := true;
            } else {
              closed := closed + [e.fd];
            }
        }
      } else if e.connected && HasEvent(slot.revents, POLLIN) {
        if |slot.data| > 0 {
          ces := ces[j := e.(str := e.str + Escape.Escape(slot.data))];
          kept := true;
        } else {
          results := results + [Line(e)];
          closed := closed + [e.fd];
        }
      } else {
        kept := true;
      }
      if !kept {
        ces, cesSize := ces[..j] + ces[j + 1..], cesSize - 1;
      }
    }

    /** The admission step of go: while running and below the ceiling, read
        the next target; when newcon fails (-1) the line is consumed and the
        rest of the round is skipped, otherwise an unconnected entry is
        appended and the line counted. When getline fails the stream is
        marked exhausted. */
    method Admit(sock: int, ts: int) returns (skip: bool)
      requires Valid()
      modifies this`pos, this`inputOk, this`ces, this`cesSize, this`maxfd, this`totalLines
      ensures Valid()
      ensures var asked := running && old(cesSize) < maxcon;
              var got := asked && old(inputOk) && old(pos) < |input|;
              && skip == (got && sock == -1)
              && pos == old(pos) + (if got then 1 else 0)
              && inputOk == (old(inputOk) && !(asked && !got))
              && ces == old(ces) + (if got && sock != -1 then [ConnEntry(sock, ts, false, "", "")] else [])
              && totalLines == old(totalLines) + (if got && sock != -1 then 1 else 0)
              && maxfd == (if got && sock != -1 && sock > old(maxfd) then sock else old(maxfd))
    {
      skip := false;
      if running && cesSize < maxcon {
        if inputOk && pos < |input| {
          pos := pos + 1;
          if sock == -1 {
            return true;
          }
          if sock > maxfd {
            maxfd := sock;
          }
          ces := ces + [ConnEntry(sock, ts, false, "", "")];
          cesSize := cesSize + 1;
          totalLines := totalLines + 1;
        } else {
          inputOk := false;
        }
      }
    }

    /** die: the signal handler clears the running flag, so no new target is
        admitted and go ends once the list is empty. */
    method Die()
      modifies this`running
      ensures !running
    {
      running := false;
    }

    /** A round asks for a target when the connector is still running (the
        signal did not arrive) and the list is below the ceiling. */
    predicate Asks(running: bool, cesSize: int, round: Round)
    {
      running && !round.signal && cesSize < maxcon
    }

    /** A round reads a target when it asks and the input has a line left. */
    predicate Gets(running: bool, cesSize: int, inputOk: bool, pos: nat, round: Round)
    {
      Asks(running, cesSize, round) && inputOk && pos < |input|
    }

    /** The entry admission appends: one unconnected entry, unless newcon
        failed. */
    function Added(running: bool, cesSize: int, inputOk: bool, pos: nat, round: Round): seq<ConnEntry>
    {
      if Gets(running, cesSize, inputOk, pos, round) && round.sock != -1
      then [ConnEntry(round.sock, round.admitTs, false, "", "")]
      else []
    }

    /** The start of a round of go: the signal, if it arrived, then
        admission. */
    method Begin(round: Round) returns (skip: bool)
      requires Valid()
      modifies this`running, this`pos, this`inputOk, this`ces, this`cesSize, this`maxfd, this`totalLines
      ensures Valid()
      ensures running == (old(running) && !round.signal)
      ensures var got := Gets(old(running), old(cesSize), old(inputOk), old(pos), round);
              var added := Added(old(running), old(cesSize), old(inputOk), old(pos), round);
              && skip == (got && round.sock == -1)
              && pos == old(pos) + (if got then 1 else 0)
              && inputOk == (old(inputOk) && !(Asks(old(running), old(cesSize), round) && !got))
              && ces == old(ces) + added
              && totalLines == old(totalLines) + |added|
              && maxfd == (if added != [] && round.sock > old(maxfd) then round.sock else old(maxfd))
      ensures State() == Begun(old(State()), round)
    {
      if round.signal {
        Die();
      }
      skip := Admit(round.sock, round.admitTs);
    }

    /** The start of a round as a function of the fields before it: the
        signal clears the running flag, and admission consumes a line and
        appends the entry newcon gave. */
    function Begun(st: Snapshot, round: Round): Snapshot
    {
      var got := Gets(st.running, st.cesSize, st.inputOk, st.pos, round);
      var added := Added(st.running, st.cesSize, st.inputOk, st.pos, round);
      st.(running := st.running && !round.signal,
          pos := st.pos + (if got then 1 else 0),
          inputOk := st.inputOk && !(Asks(st.running, st.cesSize, round) && !got),
          ces := st.ces + added,
          cesSize := st.cesSize + |added|,
          maxfd := if added != [] && round.sock > st.maxfd then round.sock else st.maxfd,
          totalLines := st.totalLines + |added|)
    }

    /** check_sockets as a function of the fields before it, and whether
        poll() failed: a poll that reported is walked as Scan says. */
    function Checked(st: Snapshot, poll: PollResult, ts: int): (Snapshot, bool)
    {
      match poll
      case Ready(slots) =>
        var r := Scan(st.ces, slots, ts, ttl);
        (st.(ces := r.kept, cesSize := |r.kept|,
             results := st.results + r.lines, closed := st.closed + r.closed,
             totalConnections := st.totalConnections + r.connects), false)
      case Interrupted => (st, false)
      case Failed => (st, true)
    }

    /** One iteration of the loop of go as a function of the fields before
        it, and whether poll() failed: unless newcon failed, the start of the
        round is followed by check_sockets. */
    function NextRound(st: Snapshot, round: Round): (Snapshot, bool)
    {
      var begun := Begun(st, round);
      if Gets(st.running, st.cesSize, st.inputOk, st.pos, round) && round.sock == -1 then (begun, false)
      else Checked(begun, round.poll, round.checkTs)
    }

    /** The loop of go from the fields `st` over the supplied rounds: it ends
        Finished once neither input nor entries are left, Exited after a
        round whose poll() failed, and OutOfRounds when the rounds run out
        first. */
    function Play(st: Snapshot, rounds: seq<Round>): (Snapshot, GoOutcome)
      decreases |rounds|
    {
      if !((st.inputOk && st.running) || st.cesSize > 0) then (st, Finished)
      else if rounds == [] then (st, OutOfRounds)
      else
        var (next, fatal) := NextRound(st, rounds[0]);
        if fatal then (next, Exited) else Play(next, rounds[1..])
    }

    /** One iteration of the loop of go: the signal, if it arrived, then
        admission, and unless newcon failed the poll vector and
        check_sockets; fatal when poll() failed. */
    method RunRound(round: Round) returns (fatal: bool)
      requires Valid()
      modifies this
      ensures Valid()
      ensures round.signal ==> !running
      ensures !round.signal ==> running == old(running)
      ensures old(pos) <= pos && totalLines - old(totalLines) <= pos - old(pos)
      ensures old(results) <= results && old(totalConnections) <= totalConnections
      ensures var got := Gets(old(running), old(cesSize), old(inputOk), old(pos), round);
              var added := Added(old(running), old(cesSize), old(inputOk), old(pos), round);
              && pos == old(pos) + (if got then 1 else 0)
              && inputOk == (old(inputOk) && !(Asks(old(running), old(cesSize), round) && !got))
              && totalLines == old(totalLines) + |added|
              && (fatal <==> !(got && round.sock == -1) && round.poll.Failed?)
      ensures var skip := Gets(old(running), old(cesSize), old(inputOk), old(pos), round) && round.sock == -1;
              var added := Added(old(running), old(cesSize), old(inputOk), old(pos), round);
              skip || !round.poll.Ready? ==>
                ces == old(ces) + added && results == old(results) && closed == old(closed)
                && totalConnections == old(totalConnections)
      ensures var skip := Gets(old(running), old(cesSize), old(inputOk), old(pos), round) && round.sock == -1;
              var added := Added(old(running), old(cesSize), old(inputOk), old(pos), round);
              !skip && round.poll.Ready? ==>
                var r := Scan(old(ces) + added, round.poll.slots, round.checkTs, ttl);
                && ces == r.kept
                && results == old(results) + r.lines
                && closed == old(closed) + r.closed
                && totalConnections == old(totalConnections) + r.connects
      ensures (State(), fatal) == NextRound(old(State()), round)
    {
      ghost var added := Added(running, cesSize, inputOk, pos, round);
      ghost var st0 := State();
      var skip := Begin(round);
      ghost var begun := State();
      assert begun == Begun(st0, round);
      if skip {
        assert (State(), false) == NextRound(st0, round);
        return false;
      }
      ghost var ces1, results1, closed1, connections1 := ces, results, closed, totalConnections;
      assert ces1 == old(ces) + added;
      assert results1 == old(results) && closed1 == old(closed) && connections1 == old(totalConnections);
      var requests := MakePollVector();
      fatal := CheckSockets(round.poll, round.checkTs);
      assert (State(), fatal) == Checked(begun, round.poll, round.checkTs);
    }

    /** go: admit while running, below the ceiling and with input left, then
        poll and check; stop when the input is exhausted or the connector was
        stopped, and the list is empty. */
    method Go(rounds: seq<Round>) returns (outcome: GoOutcome)
      requires Valid()
      modifies this
      ensures Valid()
      ensures outcome == Finished ==> ces == [] && (!inputOk || !running)
      ensures old(pos) <= pos && totalLines - old(totalLines) <= pos - old(pos)
      ensures old(results) <= results && old(totalConnections) <= totalConnections
      ensures (State(), outcome) == Play(old(State()).(running := true), rounds)
    {
      running := true;
      ghost var start := State();
      var k := 0;
      while (inputOk && running) || cesSize > 0
        invariant Valid()
        invariant 0 <= k <= |rounds|
        invariant old(pos) <= pos && totalLines - old(totalLines) <= pos - old(pos)
        invariant old(results) <= results && old(totalConnections) <= totalConnections
        invariant Play(State(), rounds[k..]) == Play(start, rounds)
        decreases |rounds| - k
      {
        if k == |rounds| {
          return OutOfRounds;
        }
        var round := rounds[k];
        assert rounds[k..][1..] == rounds[k + 1..];
        k := k + 1;
        var fatal := RunRound(round);
        if fatal {
          return Exited;
        }
      }
      return Finished;
    }
  }

  /** The walk keeps the list's invariant: fewer entries, descriptors among
      the old ones, and well-formed entries. */
  lemma ScanValid(ces: seq<ConnEntry>, slots: seq<Slot>, ts: int, ttl: int, maxfd: int)
    requires forall i :: 0 <= i < |ces| ==> ces[i].fd <= maxfd
    requires forall i :: 0 <= i < |ces| ==> EntryOk(ces[i])
    ensures var kept := Scan(ces, slots, ts, ttl).kept;
            && |kept| <= |ces|
            && (forall i :: 0 <= i < |kept| ==> kept[i].fd <= maxfd)
            && (forall i :: 0 <= i < |kept| ==> EntryOk(kept[i]))
  {
    var kept := Scan(ces, slots, ts, ttl).kept;
    ScanKept(ces, slots, ts, ttl);
    ScanKeepsEntryOk(ces, slots, ts, ttl);
    forall i | 0 <= i < |kept|
      ensures kept[i].fd <= maxfd && EntryOk(kept[i])
    {
      assert kept[i] in kept;
    }
  }
}
