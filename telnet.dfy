/** The Telnet option negotiator of telnet.h / telnet.cpp.

    `crunch` reads a buffer one byte at a time through a three-state machine
    (normal, cmd1, cmd2) whose state lives in the fields `st` and `cmd`, keeps
    the bytes that are not part of a command sequence, and answers every
    IAC <command> <option> triple with reply chunks written straight to the
    socket. The pure functions Step and Run are the specification; the class
    TelnetNegotiator is the object with its fields, and its Crunch method is
    proved to follow Run. The socket writes become the appended log `written`. */
module Telnet {
  import opened Common

  // Command bytes of section 3 of RFC 854 ("TELNET COMMAND STRUCTURE").
  const IAC: Byte := 0xFF   // called CMD in telnet.cpp
  const DONT: Byte := 0xFE
  const DO: Byte := 0xFD
  const WONT: Byte := 0xFC
  const WILL: Byte := 0xFB
  const SB: Byte := 0xFA
  const SE: Byte := 0xF0
  const ECHO: Byte := 1
  /** Negotiate About Window Size, RFC 1073. */
  const NAWS: Byte := 31

  /** The canned answer to IAC DO NAWS: IAC WILL NAWS ... */
  const WillNaws: seq<Byte> := [IAC, WILL, NAWS]
  /** ... followed by a subnegotiation announcing width 80 and height 24. */
  const NawsSubneg: seq<Byte> := [IAC, SB, NAWS, 0, 80, 0, 24, IAC, SE]

  datatype State = Normal | Cmd1 | Cmd2

  /** The persistent fields of a negotiator: `st` and the pending `cmd`. */
  datatype Config = Config(st: State, cmd: Byte)

  /** The state after some input, the text kept for the result, and the reply
      chunks written to the socket, in order. */
  datatype Outcome = Outcome(config: Config, text: seq<Byte>, replies: seq<seq<Byte>>)

  /** The reciprocity rule for every option but window size: a DO is refused
      with WONT, a WILL is accepted with DO, anything else is echoed. */
  function Answer(cmd: Byte): (r: Byte)
    ensures cmd == DO ==> r == WONT
    ensures cmd == WILL ==> r == DO
    ensures cmd != DO && cmd != WILL ==> r == cmd
  {
    if cmd == DO then WONT
    else if cmd == WILL then DO
    else cmd
  }

  /** One iteration of the loop in crunch. */
  function Step(c: Config, ch: Byte): Outcome
  {
    match c.st
    case Normal =>
      if ch == IAC then Outcome(Config(Cmd1, c.cmd), [], [])
      else Outcome(c, [ch], [])
    case Cmd1 =>
      Outcome(Config(Cmd2, ch), [], [])
    case Cmd2 =>
      if c.cmd == DO && ch == NAWS then
        Outcome(Config(Normal, c.cmd), [], [WillNaws, NawsSubneg])
      else
        // crunch overwrites the field cmd with the answer before replying
        Outcome(Config(Normal, Answer(c.cmd)), [], [[IAC, Answer(c.cmd), ch]])
  }

  /** The whole buffer, processed from the first byte to the last. */
  function Run(c: Config, bytes: seq<Byte>): (r: Outcome)
    ensures |r.text| <= |bytes|
    ensures IAC !in r.text
    ensures forall k :: 0 <= k < |r.replies| ==> |r.replies[k]| >= 3 && r.replies[k][0] == IAC
    decreases |bytes|
  {
    if bytes == [] then Outcome(c, [], [])
    else
      var prev := Run(c, bytes[..|bytes| - 1]);
      var last := Step(prev.config, bytes[|bytes| - 1]);
      Outcome(last.config, prev.text + last.text, prev.replies + last.replies)
  }

  /** In state normal a byte other than IAC is kept and the state stays normal;
      IAC moves to cmd1 and is dropped. In cmd1 any byte becomes the pending
      command. In cmd2 the option is answered and the state is normal again,
      whatever the bytes were: no input is rejected. */
  lemma StepCases(c: Config, ch: Byte)
    ensures c.st == Normal && ch != IAC ==> Step(c, ch) == Outcome(c, [ch], [])
    ensures c.st == Normal && ch == IAC ==> Step(c, ch) == Outcome(Config(Cmd1, c.cmd), [], [])
    ensures c.st == Cmd1 ==> Step(c, ch) == Outcome(Config(Cmd2, ch), [], [])
    ensures c.st == Cmd2 ==> Step(c, ch).config.st == Normal && Step(c, ch).text == []
    ensures c.st == Cmd2 && c.cmd == DO && ch == NAWS ==>
      Step(c, ch).replies == [[0xFF, 0xFB, 31], [0xFF, 0xFA, 31, 0, 80, 0, 24, 0xFF, 0xF0]]
    ensures c.st == Cmd2 && !(c.cmd == DO && ch == NAWS) ==>
      Step(c, ch).replies == [[0xFF, Answer(c.cmd), ch]]
  {
  }

  /** Processing `a` and then `b` (two calls of crunch, the state kept in the
      fields in between) is the same as processing `a + b` in one call. */
  lemma {:induction false} RunAppend(c: Config, a: seq<Byte>, b: seq<Byte>)
    ensures var ra := Run(c, a);
            var rb := Run(ra.config, b);
            Run(c, a + b) == Outcome(rb.config, ra.text + rb.text, ra.replies + rb.replies)
    decreases |b|
  {
    if b == [] {
      assert a + b == a;
    } else {
      var b' := b[..|b| - 1];
      RunAppend(c, a, b');
      assert (a + b)[..|a + b| - 1] == a + b';
      assert (a + b)[|a + b| - 1] == b[|b| - 1];
    }
  }

  /** The kept text is the input with bytes deleted (order is kept). */
  lemma {:induction false} RunTextIsSubseq(c: Config, bytes: seq<Byte>)
    ensures IsSubseq(Run(c, bytes).text, bytes)
    decreases |bytes|
  {
    if bytes != [] {
      var init := bytes[..|bytes| - 1];
      var x := bytes[|bytes| - 1];
      RunTextIsSubseq(c, init);
      assert init + [x] == bytes;
      var prev := Run(c, init);
      if Step(prev.config, x).text == [] {
        SubseqExtendRight(prev.text, init, x);
        assert prev.text + [] == prev.text;
      } else {
        SubseqExtendBoth(prev.text, init, x);
      }
    }
  }

  /** Starting in state normal, input without IAC passes through unchanged and
      nothing is written. */
  lemma {:induction false} PlainTextPassesThrough(c: Config, bytes: seq<Byte>)
    requires c.st == Normal && IAC !in bytes
    ensures Run(c, bytes) == Outcome(c, bytes, [])
    decreases |bytes|
  {
    if bytes != [] {
      PlainTextPassesThrough(c, bytes[..|bytes| - 1]);
      assert bytes[..|bytes| - 1] + [bytes[|bytes| - 1]] == bytes;
    }
  }

  /** A full command triple, started in state normal, produces no text, comes
      back to normal and writes the replies of the rule: the two NAWS chunks
      for DO window-size, otherwise one 3-byte chunk with the answer. */
  lemma CommandTriple(k: Byte, cmd: Byte, opt: Byte)
    ensures var r := Run(Config(Normal, k), [IAC, cmd, opt]);
            && r.config.st == Normal
            && r.text == []
            && (cmd == DO && opt == NAWS ==> r.replies == [WillNaws, NawsSubneg])
            && (!(cmd == DO && opt == NAWS) ==> r.replies == [[IAC, Answer(cmd), opt]])
  {
    var c := Config(Normal, k);
    var bs: seq<Byte> := [IAC, cmd, opt];
    assert bs[..2] == [IAC, cmd] && bs[..2][..1] == [IAC] && [IAC][..0] == [];
    assert Run(c, [IAC]).config == Config(Cmd1, k);
    assert Run(c, [IAC, cmd]).config == Config(Cmd2, cmd);
    assert Run(c, [IAC, cmd]).replies == [];
  }

  /** Two configurations that agree on everything the machine can observe:
      the state, and the pending command once it is about to be used. */
  predicate Agree(c1: Config, c2: Config)
  {
    c1.st == c2.st && (c1.st == Cmd2 ==> c1.cmd == c2.cmd)
  }

  /** The initial value of `cmd` (left indeterminate by the constructor in
      telnet.cpp) never shows: runs from agreeing configurations keep agreeing
      and produce the same text and the same replies. */
  lemma {:induction false} UnobservableCmd(c1: Config, c2: Config, bytes: seq<Byte>)
    requires Agree(c1, c2)
    ensures Agree(Run(c1, bytes).config, Run(c2, bytes).config)
    ensures Run(c1, bytes).text == Run(c2, bytes).text
    ensures Run(c1, bytes).replies == Run(c2, bytes).replies
    decreases |bytes|
  {
    if bytes != [] {
      UnobservableCmd(c1, c2, bytes[..|bytes| - 1]);
    }
  }

  /** A telnet_negotiator object: the socket it answers on, the fields `st`
      and `cmd` that persist between calls of crunch, and the log of the
      chunks it has written to the socket. */
  class TelnetNegotiator {
    const sockfd: int
    var st: State
    var cmd: Byte
    var written: seq<seq<Byte>>

    /** The machine's fields as a value. */
    function Machine(): Config
      reads this
    {
      Config(st, cmd)
    }

    /** A new negotiator starts in state normal and has written nothing. */
    constructor (sockfd: int)
      ensures this.sockfd == sockfd
      ensures st == Normal && written == []
    {
      this.sockfd := sockfd;
      st := Normal;
      written := [];
    }

    /** crunch(buffer, n): returns the text of the buffer with the command
        sequences stripped, writes the replies, and leaves the machine where
        Run leaves it, so a command cut between two buffers is completed by
        the next call (RunAppend). */
    method Crunch(buffer: seq<Byte>) returns (s: seq<Byte>)
      modifies this
      ensures var r := Run(old(Machine()), buffer);
              && Machine() == r.config
              && s == r.text
              && written == old(written) + r.replies
    {
      s := [];
      var i := 0;
      while i < |buffer|
        invariant 0 <= i <= |buffer|
        invariant var r := Run(old(Machine()), buffer[..i]);
                  Machine() == r.config && s == r.text && written == old(written) + r.replies
      {
        assert buffer[..i + 1][..i] == buffer[..i];
        var ch := buffer[i];
        match st {
          case Normal =>
            if ch == IAC {
              st := Cmd1;
            } else {
              s := s + [ch];
            }
          case Cmd1 =>
            cmd := ch;
            st := Cmd2;
          case Cmd2 =>
            if cmd == DO && ch == NAWS {
              written := written + [[255, 251, 31]];
              written := written + [[255, 250, 31, 0, 80, 0, 24, 255, 240]];
            } else {
              if cmd == DO {
                cmd := WONT;
              } else if cmd == WILL {
                cmd := DO;
              }
              written := written + [[0xff, cmd, ch]];
            }
            st := Normal;
        }
        i := i + 1;
      }
      assert buffer[..i] == buffer;
    }
  }

  /** telnet_provider: hands out a new negotiator for each socket. */
  class TelnetProvider {
    constructor () { }

    method Provide(sockfd: int) returns (n: TelnetNegotiator)
      ensures fresh(n)
      ensures n.sockfd == sockfd && n.st == Normal && n.written == []
    {
      n := new TelnetNegotiator(sockfd);
    }
  }
}
