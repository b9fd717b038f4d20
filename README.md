# connector: a mass TCP banner grabber, modelled in Dafny

The program reads target addresses and opens many non-blocking TCP
connections at once. Each connection's first bytes (its banner) go to a
results file, one line per host. This project models the core of that program
and proves properties about it:

- **Telnet option negotiator** (`telnet.dfy`). A three-state machine strips
  Telnet command sequences (section 3 of RFC 854) from the received bytes and
  answers each IAC command/option triple. The answer to DO window-size
  (RFC 1073) is a fixed WILL and a subnegotiation for an 80x24 window. The
  pure functions `Step`/`Run` specify the machine. The class
  `TelnetNegotiator` holds the fields `st` and `cmd` and is proved to follow
  `Run`. Its socket writes are an appended log.
- **Negotiator as the pool uses it** (`negotiator.dfy`): `crunch`, "has reply
  chunks waiting", and "pop the oldest chunk". The queue holds exactly the
  chunks the Telnet machine produces.
- **Output escaper** (`escape.dfy`): `connector::escape`. It works byte by
  byte and distributes over concatenation. It is not injective, and it can be
  undone on input without a backslash.
- **Event dispatch loop** (`conn_poller.dfy`): `conn_poller<T>::poll`, `add`
  and `remove` over an abstract handler. The handler is a record of functions.
  The epoll interest list is a map. The order of the callbacks is proved.
- **Connection pool** (`conn_pool.dfy`):
  - the callbacks `get_req_events`, `read_event` and `write_event` are
    functions of the pool's state;
  - `conn_pool` is a class whose `add_fd`, `check_timeouts` and
    `check_sockets` update its fields;
  - the invariant includes "ces_size equals the list length, ids and
    descriptors are unique, every registered descriptor belongs to an entry",
    and every operation keeps it.
- **Older poll()-based driver** (`connector.dfy`): `make_poll_vector`,
  `check_sockets`, `go` and `die` of connector.cpp as a class with its list,
  counters and running flag. One walk of `check_sockets` is specified by the
  function `Scan`. `go` keeps `ces_size == |ces| <= maxcon`.

System calls are inputs. These inputs are:

- the bytes `read` returns;
- what `write` accepted;
- the SO_ERROR answer of `getsockopt`;
- the peer address;
- the descriptor `newcon` returns;
- the result of `poll`/`epoll_wait`, including the ready events;
- whether `epoll_ctl` is accepted;
- the clocks, as integer timestamps.

The `new_banner` callback, the results file, `close` and socket writes become
appended logs.

## Model

| member | source | states |
|---|---|---|
| Telnet.Answer | telnet.cpp:55-62 | a DO is answered WONT, a WILL is answered DO, every other command is echoed |
| Telnet.Run | telnet.cpp:19-77 | the kept text is no longer than the input and never holds 0xFF; every reply chunk starts with 0xFF and has at least three bytes |
| Telnet.StepCases | telnet.cpp:27-71 | normal keeps a non-IAC byte and stays normal; IAC moves to cmd1 silently; cmd1 stores the byte as the command; cmd2 always returns to normal, emits no text, and writes either the two NAWS chunks (DO 31) or one chunk [0xFF, answer, option] |
| Telnet.Step | telnet.cpp:27-71 | one iteration of the crunch loop; its transitions are stated by Telnet.StepCases |
| Telnet.RunAppend | telnet.cpp:23-74 | crunching `a` then `b` gives the same state, text and replies as crunching `a + b` |
| Telnet.RunTextIsSubseq | telnet.cpp:29-38 | the returned text is a subsequence of the input |
| Telnet.PlainTextPassesThrough | telnet.cpp:29-38 | from state normal, input without 0xFF comes back unchanged and nothing is written |
| Telnet.CommandTriple | telnet.cpp:44-69 | IAC cmd opt from normal writes exactly [IAC WILL NAWS] and the 9-byte subnegotiation for DO 31, otherwise exactly [IAC, answer, opt], and returns to normal |
| Telnet.UnobservableCmd | telnet.h:26-28 | the uninitialised `cmd` never affects text, replies or later states |
| Telnet.TelnetNegotiator.constructor | telnet.h:26-28 | a new negotiator is in state normal and has written nothing |
| Telnet.TelnetNegotiator.Crunch | telnet.cpp:19-77 | the loop leaves `st`/`cmd` as Run does, returns Run's text and appends Run's replies to the written log |
| Telnet.TelnetProvider.Provide | telnet.cpp:79-82 | each call returns a fresh negotiator for the socket, in state normal |
| Negotiator.Provide | conn_pool.cpp:121-122 | a provided negotiator starts normal with no queued chunks |
| Negotiator.Crunch | conn_pool.cpp:69-72 | the text kept has no 0xFF and is a subsequence of the bytes; queued chunks keep their order and only grow |
| Negotiator.HasWriteData | conn_pool.cpp:56 | true exactly when reply chunks are queued; Pool.ReqEvents asks for EPOLLOUT on it |
| Negotiator.PopWriteQueue | conn_pool.cpp:139-141 | pops exactly the oldest queued chunk and leaves the machine alone |
| Negotiator.CrunchAppend | telnet.cpp:23-74 | two crunches queue and keep the same as one crunch of the concatenation |
| Escape.EscapeByte | connector.cpp:242-267 | one byte becomes 1 to 4 safe characters; exactly printable bytes and tab stay one character; longer escapes start with a backslash |
| Escape.Escape | connector.cpp:236-273 | the output is between \|s\| and 4\|s\| long and holds only printable ASCII and tab |
| Escape.EscapeAppend | connector.cpp:240-270 | escape(a + b) == escape(a) + escape(b) |
| Escape.PrintableUnchanged | connector.cpp:242-245 | text of printable bytes, backslash included, is copied unchanged |
| Escape.EscapeByteCases | connector.cpp:248-267 | \a \b \f \n \r \v become two-character escapes, tab is kept, a backslash is copied as is (the backslash case is dead), any other byte becomes \x and two lower-case hex digits of its unsigned value |
| Escape.EscapeNotInjective | connector.cpp:242-250 | the NUL byte and the four bytes `\x00` have the same escape |
| Escape.UnescapeEscape | connector.cpp:236-273 | on input without a backslash, unescaping gives back the input |
| Poller.CtlAdd | conn_poller.h:47-55 | EPOLL_CTL_ADD succeeds exactly when the descriptor is new and the kernel accepts; then it is registered with the given events |
| Poller.CtlMod | conn_poller.h:85-87 | EPOLL_CTL_MOD succeeds exactly on a registered descriptor the kernel accepts; on success only that descriptor's events change, on failure nothing changes |
| Poller.CtlDel | conn_poller.h:42-45 | EPOLL_CTL_DEL succeeds exactly on a registered descriptor; it unregisters that descriptor and every other keeps its events |
| Poller.DispatchOne | conn_poller.h:73-88 | the body of poll's loop for one event; its order of calls is stated by Poller.DispatchOneOrder |
| Poller.Dispatch | conn_poller.h:71-89 | poll's loop over the ready events, stopping after a failed re-arm; stated by Poller.DispatchOrder and Poller.DispatchPreserves |
| Poller.PollSpec | conn_poller.h:57-92 | poll after the wait; stated by Poller.PollSpecOrder |
| Poller.DispatchOneOrder | conn_poller.h:73-88 | for one event: the read only if readable, the write only if writable and the read succeeded, the re-arm only after both succeeded; the handler state left is the callbacks'; the re-arm carries the events get_req_events gives after the callbacks, and an accepted re-arm leaves exactly those events registered for the descriptor |
| Poller.DispatchOrder | conn_poller.h:71-89 | the calls follow the events in order; a failed re-arm is the last call and the only way to return false; on true every event was dispatched |
| Poller.PollSpecOrder | conn_poller.h:57-92 | an interrupted wait returns true and calls nothing; another wait error returns false and calls nothing; a successful wait dispatches in the order above |
| Poller.DispatchPreserves | conn_poller.h:71-89 | anything every callback and every re-arm keep holds after the whole dispatch |
| Poller.ConnPoller.constructor | conn_poller.h:27-35 | a new poller serves the given handler with an empty interest list |
| Poller.ConnPoller.Add | conn_poller.h:47-55 | registers the entry's descriptor with its currently requested events, as CtlAdd says |
| Poller.ConnPoller.Remove | conn_poller.h:42-45 | unregisters the entry's descriptor, as CtlDel says |
| Poller.ConnPoller.HandleEvent | conn_poller.h:73-88 | one iteration of the loop ends in the state, interest list and calls of DispatchOne |
| Poller.ConnPoller.Poll | conn_poller.h:57-92 | the buffer grows to max_events and never shrinks; result, handler state, interest list and calls are those of PollSpec |
| Pool.IndexOf | conn_pool.h:24-25 | finds the first entry with the id, or -1 exactly when none has it |
| Pool.IndexOfDistinct | conn_pool.cpp:179 | with unique ids each entry is found at its own position |
| Pool.Erase | conn_pool.cpp:88 | erasing removes exactly position k and keeps the order of the rest |
| Pool.ReqEvents | conn_pool.cpp:49-60 | EPOLLIN exactly when connected; EPOLLOUT exactly when not connected or reply chunks are waiting; no other bit |
| Pool.DropNul | conn_pool.cpp:75-80 | the appended text has no NUL, and text without NUL is appended whole |
| Pool.DropNulIsSubseq | conn_pool.cpp:75-80 | the appended text is the received bytes with some deleted, in order |
| Pool.AppendNonNul | conn_pool.cpp:75-80 | the loop appends exactly DropNul of the buffer |
| Pool.ReadEvent | conn_pool.cpp:62-95 | returns false exactly on an empty read of a connected entry, which is then reported once, closed, unregistered and erased; on an unconnected entry an empty read returns true and changes nothing; data is appended (NULs dropped with the negotiator absent, or crunched, replacing the negotiator); every other entry, counter and log is unchanged |
| Pool.WriteEvent | conn_pool.cpp:97-157 | unconnected: SO_ERROR 0 connects, counts and attaches a negotiator if a provider is set, getsockopt failure erases without close, another code closes and erases, neither reports; connected with chunks waiting: one chunk is popped, and a write <= 0 reports, closes and erases, otherwise the accepted prefix is logged and the address and text stay; connected with nothing queued: true and nothing changes |
| Pool.FdOf | conn_pool.cpp:44-47 | get_fd by entry id; stated by Pool.FdOfEntry |
| Pool.ReqEventsOf | conn_pool.cpp:49-60 | get_req_events by entry id; the bits are stated by Pool.ReqEvents |
| Pool.PoolHandler | conn_pool.cpp:187-201 | the pool as the poller's handler; its dispatch is stated by Pool.DispatchKeepsConsistent, Pool.DispatchKeepsRegistered and Pool.PollKeepsRegistered |
| Pool.FdOfEntry | conn_pool.cpp:44-47 | get_fd gives the entry's descriptor |
| Pool.AddKeeps | conn_pool.cpp:167-185 | adding a fresh unconnected entry keeps the invariant; it wants EPOLLOUT and is found at the end |
| Pool.RegisteredCount | conn_pool.cpp:195 | when all entries are registered, ces_size equals the number of registered descriptors |
| Pool.ReadEventKeeps | conn_pool.cpp:62-95 | read_event keeps the invariant and full registration |
| Pool.WriteEventKeeps | conn_pool.cpp:97-157 | write_event keeps the invariant and full registration |
| Pool.CallbackFailsIffErased | conn_pool.cpp:62-157 | a callback returns false exactly when it erased its entry |
| Pool.DispatchKeepsConsistent | conn_pool.cpp:187-201 | dispatching a wait's events keeps the invariant |
| Pool.DispatchKeepsRegistered | conn_pool.cpp:187-201 | dispatching keeps every entry registered when all were |
| Pool.PollKeepsRegistered | conn_pool.cpp:195-199 | a whole poll over the pool keeps the invariant and full registration |
| Pool.RearmedIffAlive | conn_poller.h:78-87 | for a live entry, the poller re-arms its descriptor exactly when the entry is still in the list after its callbacks |
| Pool.RearmedAsRequested | conn_poller.h:83-87 | after an accepted re-arm, the entry's descriptor is registered with get_req_events of the entry as the callbacks left it, so EPOLLOUT is requested once the negotiator has queued a reply |
| Pool.Sweep | conn_pool.cpp:20-42 | kept plus closed entries are all the entries; reports are no more than the closed entries |
| Pool.SweepKept | conn_pool.cpp:22-41 | the kept entries are exactly those younger than ttl, in their original order |
| Pool.Expiring | conn_pool.cpp:26-31 | the banners of the expired connected entries, one per entry in list order, built from the front of the list |
| Pool.SweepReports | conn_pool.cpp:26-31 | a banner is reported for exactly the expired connected entries; the reports equal Pool.Expiring, so each such entry is reported once and in list order |
| Pool.SweepFds | conn_pool.cpp:26-33 | exactly the descriptors of the expired entries are closed |
| Pool.SweepDistinct | conn_pool.cpp:20-42 | the sweep keeps ids and descriptors unique |
| Pool.SweepKeepsConsistent | conn_pool.cpp:20-42 | the sweep keeps the invariant with the expired descriptors unregistered |
| Pool.SweepKeepsRegistered | conn_pool.cpp:32-35 | the sweep keeps full registration |
| Pool.ConnPool.constructor | conn_pool.h:57-64 | a new pool has no entries, ces_size 0, no connections, no provider, nothing registered |
| Pool.ConnPool.GetQueueSize | conn_pool.h:34 | returns the number of entries |
| Pool.ConnPool.GetTotalConnections | conn_pool.h:33 | returns total_connections |
| Pool.ConnPool.SetProv | conn_pool.h:39 | sets the provider flag |
| Pool.ConnPool.GetProv | conn_pool.h:40 | returns the provider flag |
| Pool.ConnPool.AddFd | conn_pool.cpp:167-185 | appends one unconnected entry, increments ces_size whether or not the registration succeeded, registers it for EPOLLOUT, and changes nothing else |
| Pool.ConnPool.CheckTimeouts | conn_pool.cpp:20-42 | the fields become what Sweep gives: survivors in order, reports, closes and unregistrations of the expired entries; the invariant is kept |
| Pool.ConnPool.Unregister | conn_pool.cpp:32 | poller.remove takes the entry's descriptor out of the interest list |
| Pool.ConnPool.ExpireEntries | conn_pool.cpp:22-41 | the loop of check_timeouts computes Sweep, decrementing ces_size once per erased entry |
| Pool.ConnPool.CheckSockets | conn_pool.cpp:187-201 | a no-op on an empty list; otherwise the buffer grows to ces_size and the state is what the poller's dispatch leaves; exits exactly when poll fails; the invariant is kept |
| Connector.Line | connector.cpp:222-226 | one line of the results file; its shape is stated by Connector.LineShape |
| Connector.LineShape | connector.cpp:222-226 | a line starts with the address and ends with a newline; with safe address and text it holds no other newline |
| Connector.VisitEntry | connector.cpp:95-167 | one iteration of check_sockets' loop; stated by Connector.VisitEntryShape and Connector.ScanEntry |
| Connector.VisitEntryShape | connector.cpp:95-167 | one visit never keeps and closes the same entry; a kept entry is unexpired with its descriptor and start time, and stays connected with its text only extended; a line only for a connected entry, which is closed; a connection counted exactly when the connect completes |
| Connector.Scan | connector.cpp:92-168 | one walk keeps, reports, closes and counts at most as many entries as the list has |
| Connector.ScanPrefix | connector.cpp:92-168 | walking the first n entries gives a prefix of each result of the whole walk |
| Connector.ScanEntry | connector.cpp:95-167 | what the i-th entry adds: expired is closed (its line written if connected); POLLOUT with SO_ERROR 0 keeps it connected under the peer address and counts it; a nonzero code closes it; a failed getsockopt drops it silently; POLLIN on a connected entry appends escape(data), or at end of stream writes its line and closes it; otherwise it is kept unchanged |
| Connector.ScanEvents | connector.cpp:107-165 | in the whole walk's result: the connected entry under its peer address, the closed descriptor of a refused connect, the entry with escape(data) appended, the line and the closed descriptor at end of stream |
| Connector.ScanConnects | connector.cpp:123-129 | the connections counted are exactly the unexpired entries with POLLOUT and SO_ERROR 0 (Connector.CountConnects) |
| Connector.ScanKept | connector.cpp:96-138 | a kept entry is not expired, comes from an entry with the same descriptor and start time, and stays connected if it was |
| Connector.ScanExpired | connector.cpp:96-105 | every expired entry is closed, and reported if it was connected |
| Connector.ScanLines | connector.cpp:96-164 | every line written belongs to an entry that was connected |
| Connector.ScanKeepsBanners | connector.cpp:107-165 | when POLLOUT is reported only for requested entries, a connected entry is either reported or kept with its address and its text only extended |
| Connector.UnrequestedPollOutDropsBanner | connector.cpp:108-121 | a connected entry given POLLOUT with a failed getsockopt is dropped unreported and unclosed |
| Connector.VisitKeepsEntryOk | connector.cpp:141-151 | one visit keeps the text empty while unconnected and made only of escaped characters |
| Connector.ScanKeepsEntryOk | connector.cpp:92-168 | a walk keeps every entry well formed |
| Connector.ScanValid | connector.cpp:92-168 | a walk never adds entries, keeps every descriptor at most maxfd and keeps every entry well formed |
| Connector.Connector.constructor | connector.cpp:18-22 | the results file is appended to or truncated; the list is empty |
| Connector.Connector.MakePollVector | connector.cpp:59-77 | one request per entry in list order, POLLIN when connected, POLLOUT otherwise, revents 0 |
| Connector.Connector.CheckSockets | connector.cpp:79-169 | an interrupted poll changes nothing; a failed one is fatal; otherwise list, results, closes and connections are Scan's; ces_size stays the list length; the new fields are Checked of the old |
| Connector.Connector.Walk | connector.cpp:92-168 | the loop, erasing in place, ends in Scan's state with ces_size equal to the list length |
| Connector.Connector.WalkStep | connector.cpp:95-167 | one turn of the loop keeps its invariant: the list is the entries kept so far followed by those not yet visited, and the results, closes and connection count have grown as Scan says for the entries visited |
| Connector.Connector.Visit | connector.cpp:95-167 | one iteration updates or erases the entry exactly as VisitEntry says, changing ces_size with the list |
| Connector.Connector.Admit | connector.cpp:193-212 | admits only when running and below maxcon; a line is consumed when one remains, and the input is marked done when none remains; a failed newcon skips the round; otherwise one unconnected entry is appended and counted and maxfd raised |
| Connector.Connector.Die | connector.cpp:171-175 | clears the running flag |
| Connector.Connector.Begin | connector.cpp:182-212 | the signal, if it arrived, clears running; then admission: a line is read only when running and below maxcon, newcon failing skips the round, otherwise one unconnected entry is appended and counted and maxfd raised; the new fields are Begun of the old |
| Connector.Connector.Begun | connector.cpp:193-212 | the fields after the signal and admission, as a function of those before |
| Connector.Connector.Checked | connector.cpp:79-169 | the fields after check_sockets, and whether poll failed, as a function of those before |
| Connector.Connector.NextRound | connector.cpp:182-219 | one iteration of go's loop as a function of the fields: Begun, then Checked unless newcon failed |
| Connector.Connector.Play | connector.cpp:181-219 | go's loop as a fold of NextRound over the rounds, checking the loop condition before each |
| Connector.Connector.RunRound | connector.cpp:184-218 | one iteration: the signal stops running; admission consumes a line and appends the new entry unless newcon failed, which skips the rest; then the list, results, closes and connection count are those of Scan over the list with the new entry; fatal exactly when poll failed; the invariant is kept; the new fields and fatal are NextRound of the old fields |
| Connector.Connector.Go | connector.cpp:177-220 | sets running, then the final fields and the outcome are Play over the rounds from the old fields with running set; keeps ces_size == \|ces\| <= maxcon; counts no more lines than it read; the results file only grows; a normal end has an empty list and no input or no running |

## Left out

- System calls are inputs: socket, connect, inet_pton, read, write, close,
  getpeername, getsockopt, poll, epoll_ctl and epoll_wait.
  The model has no file descriptors of its own.
- Clocks are integer timestamps. The pool compares nanoseconds with
  `ttl * 10^9`; the older driver compares seconds.
- The 4096-byte bound on one read is not modelled. A read may deliver any
  number of bytes.
- Errors printed with perror or cerr, the progress line of `go`, and the
  results stream's flushing are I/O and are left out.
- `std::atomic<bool> running`: the signal handler becomes `Die`. A signal is
  taken at the start of a round.
- main.cpp (option parsing) is glue and is not part of this model.
- connector.h declares a newer, rate-controlled driver that has no
  implementation in these files. Its setters, `run` and `cont` are left out.
  The connector.cpp constructor does not initialise `ces_size`,
  `total_connections`, `total_lines` or `maxfd`; here they start at zero.
- negotiator.h declares `crunch(fd, buffer, n)`, which telnet.h does not
  match. `has_write_data` and `pop_write_queue` are declared nowhere. The
  pool uses the value-level negotiator of `negotiator.dfy`. The pool does not
  hold the `TelnetNegotiator` object itself, so the socket writes of a
  provided negotiator appear as queued chunks written by `write_event`.
- The pool's `maxfd` field is never used by the modelled code and is left
  out. The `new_banner` and `prov` callables become a log and a flag.
- Poller.ConnPoller.constructor: epoll_create1 is taken to succeed. Its
  failure, which throws errno and is passed on by the pool's constructor, is
  not modelled, so Pool.ConnPool.constructor cannot fail either.
- Pool.ReadEvent: an id that is no longer in the list leaves the state
  unchanged and returns true. In the source that would be a use of a freed
  entry, and Pool.CallbackFailsIffErased shows it cannot arise within one
  event.
- Pool.WriteEvent: a partial write sends only the accepted prefix of the
  popped chunk and drops the rest, as the source does.
- Connector.Connector.Go: the loop runs over a finite list of rounds and
  reports `OutOfRounds` if it is still going when they end.
- Connector.ScanKeepsBanners: this holds only when the kernel reports
  POLLOUT for requested entries alone.
  Connector.UnrequestedPollOutDropsBanner shows what happens otherwise.
- Connector.Connector.CheckSockets: when getsockopt fails, the entry is
  erased without closing its descriptor. This is modelled as written: the
  descriptor is not added to the closed log.
