/** The negotiator as the connection pool of conn_pool.cpp uses it: `crunch`
    consumes received bytes and returns the text to keep, `has_write_data`
    tells whether reply chunks are waiting, and `pop_write_queue` takes the
    oldest one. Those two queue operations are called by the pool but declared
    in none of the shown headers; here the queue holds exactly the chunks the
    Telnet machine of telnet.cpp produces, in order, so the pool writes what
    telnet_negotiator would have written itself. */
module Negotiator {
  import opened Common
  import Telnet

  /** A negotiator's state: the Telnet machine and its queue of reply chunks. */
  datatype Negotiator = Negotiator(machine: Telnet.Config, pending: seq<seq<Byte>>)

  /** What a provider hands out for a new connection: the machine in state
      normal with nothing queued. */
  function Provide(): (n: Negotiator)
    ensures n.machine.st == Telnet.Normal && n.pending == []
  {
    Negotiator(Telnet.Config(Telnet.Normal, 0), [])
  }

  /** crunch: run the machine over the bytes and queue its replies behind the
      ones already waiting. */
  function Crunch(n: Negotiator, bytes: seq<Byte>): (r: (Negotiator, seq<Byte>))
    ensures Telnet.IAC !in r.1 && IsSubseq(r.1, bytes)
    ensures |r.0.pending| >= |n.pending| && r.0.pending[..|n.pending|] == n.pending
  {
    var run := Telnet.Run(n.machine, bytes);
    Telnet.RunTextIsSubseq(n.machine, bytes);
    (Negotiator(run.config, n.pending + run.replies), run.text)
  }

  predicate HasWriteData(n: Negotiator)
  {
    n.pending != []
  }

  /** pop_write_queue: the oldest chunk, and the negotiator without it. */
  function PopWriteQueue(n: Negotiator): (r: (seq<Byte>, Negotiator))
    requires HasWriteData(n)
    ensures [r.0] + r.1.pending == n.pending && r.1.machine == n.machine
  {
    (n.pending[0], n.(pending := n.pending[1..]))
  }

  /** Crunching two buffers in turn queues the same chunks and keeps the same
      text as crunching their concatenation once. */
  lemma CrunchAppend(n: Negotiator, a: seq<Byte>, b: seq<Byte>)
    ensures var (n1, t1) := Crunch(n, a);
            var (n2, t2) := Crunch(n1, b);
            Crunch(n, a + b) == (n2, t1 + t2)
  {
    Telnet.RunAppend(n.machine, a, b);
    var ra := Telnet.Run(n.machine, a);
    var rb := Telnet.Run(ra.config, b);
    assert n.pending + (ra.replies + rb.replies) == (n.pending + ra.replies) + rb.replies;
  }
}
