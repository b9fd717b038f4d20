/** connector::escape (connector.cpp): the text read from a connection is made
    printable before it is stored. Each byte is handled on its own: a printable
    byte (isprint in the C locale: 0x20 to 0x7E) and the tab are copied, six
    control characters get a C-style two-character escape, and every other byte
    becomes a backslash, an `x` and two lower-case hex digits.

    The switch in the source also has a case for the backslash, but it is only
    reached for bytes that are not printable, and the backslash is printable, so
    that case is dead and a backslash is copied as it is. The escape is
    therefore not injective (EscapeNotInjective); it can be undone only on
    input that holds no backslash (UnescapeEscape). */
module Escape {
  import opened Common

  const HexDigits: string := "0123456789abcdef"
  const Backslash: Byte := 0x5C

  /** isprint in the C locale. A byte above 0x7F is a negative `char` in the
      source, and isprint is false for it. */
  predicate IsPrint(b: Byte)
  {
    0x20 <= b <= 0x7E
  }

  /** The characters escape may produce: printable ASCII and the tab. */
  predicate IsSafe(c: char)
  {
    (' ' <= c <= '~') || c == '\t'
  }

  /** The text escape appends for one byte. */
  function EscapeByte(b: Byte): (r: string)
    ensures 1 <= |r| <= 4
    ensures |r| == 1 <==> IsPrint(b) || b == 0x09
    ensures |r| > 1 ==> r[0] == '\\'
    ensures forall k :: 0 <= k < |r| ==> IsSafe(r[k])
  {
    if IsPrint(b) then [b as char]
    else if b == Backslash then "\\\\"   // unreachable: the backslash is printable
    else if b == 0x07 then "\\a"
    else if b == 0x08 then "\\b"
    else if b == 0x0C then "\\f"
    else if b == 0x0A then "\\n"
    else if b == 0x0D then "\\r"
    else if b == 0x0B then "\\v"
    else if b == 0x09 then [b as char]   // the tab is printed as it is
    else "\\x" + [HexDigits[b / 16], HexDigits[b % 16]]
  }

  /** escape(s): the bytes' escapes, one after the other. */
  function Escape(s: seq<Byte>): (r: string)
    ensures |s| <= |r| <= 4 * |s|
    ensures forall k :: 0 <= k < |r| ==> IsSafe(r[k])
  {
    if s == [] then "" else EscapeByte(s[0]) + Escape(s[1..])
  }

  /** Escaping works byte by byte, so it distributes over concatenation. */
  lemma {:induction false} EscapeAppend(a: seq<Byte>, b: seq<Byte>)
    ensures Escape(a + b) == Escape(a) + Escape(b)
    decreases |a|
  {
    if a == [] {
      assert a + b == b;
    } else {
      assert (a + b)[0] == a[0] && (a + b)[1..] == a[1..] + b;
      EscapeAppend(a[1..], b);
    }
  }

  /** Text made only of printable bytes (the backslash included) is left
      exactly as it is. */
  lemma {:induction false} PrintableUnchanged(s: seq<Byte>)
    requires forall k :: 0 <= k < |s| ==> IsPrint(s[k])
    ensures Escape(s) == seq(|s|, k requires 0 <= k < |s| => s[k] as char)
    decreases |s|
  {
    if s != [] {
      PrintableUnchanged(s[1..]);
    }
  }

  /** The six control characters get their two-character escapes, the tab is
      kept, and every other non-printable byte (0x7F and above included) gets
      a hex escape of its unsigned value. */
  lemma EscapeByteCases(b: Byte)
    ensures b == 0x07 ==> EscapeByte(b) == "\\a"
    ensures b == 0x08 ==> EscapeByte(b) == "\\b"
    ensures b == 0x0C ==> EscapeByte(b) == "\\f"
    ensures b == 0x0A ==> EscapeByte(b) == "\\n"
    ensures b == 0x0D ==> EscapeByte(b) == "\\r"
    ensures b == 0x0B ==> EscapeByte(b) == "\\v"
    ensures b == 0x09 ==> EscapeByte(b) == "\t"
    ensures b == Backslash ==> EscapeByte(b) == "\\"
    ensures !IsPrint(b) && b !in {0x07, 0x08, 0x09, 0x0A, 0x0B, 0x0C, 0x0D} ==>
      EscapeByte(b) == ['\\', 'x', HexDigits[b / 16], HexDigits[b % 16]]
  {
  }

  /** Two different inputs with the same escape: the NUL byte, and the four
      printable bytes backslash, x, 0, 0. */
  lemma EscapeNotInjective()
    ensures Escape([0x00]) == Escape([0x5C, 0x78, 0x30, 0x30]) == "\\x00"
  {
    var s: seq<Byte> := [0x5C, 0x78, 0x30, 0x30];
    assert s[1..] == [0x78, 0x30, 0x30];
    assert s[1..][1..] == [0x30, 0x30];
    assert s[1..][1..][1..] == [0x30];
    assert Escape([0x30]) == "0";
  }

  /** The value of a hex digit as escape writes them. */
  function HexValue(c: char): Option<int>
  {
    if '0' <= c <= '9' then Some(c as int - '0' as int)
    else if 'a' <= c <= 'f' then Some(c as int - 'a' as int + 10)
    else None
  }

  /** The byte a two-character escape stands for, the intended backslash
      escape included. */
  function ControlByte(c: char): Option<Byte>
  {
    if c == 'a' then Some(0x07)
    else if c == 'b' then Some(0x08)
    else if c == 'f' then Some(0x0C)
    else if c == 'n' then Some(0x0A)
    else if c == 'r' then Some(0x0D)
    else if c == 'v' then Some(0x0B)
    else if c == '\\' then Some(Backslash)
    else None
  }

  function Prepend(b: Byte, rest: Option<seq<Byte>>): Option<seq<Byte>>
  {
    match rest
    case None => None
    case Some(t) => Some([b] + t)
  }

  /** Reads escaped text back into bytes; None if it is not of the form
      escape produces. */
  function Unescape(r: string): Option<seq<Byte>>
    decreases |r|
  {
    if r == [] then Some([])
    else if r[0] == '\\' then
      if |r| >= 2 && ControlByte(r[1]).Some? then
        Prepend(ControlByte(r[1]).value, Unescape(r[2..]))
      else if |r| >= 4 && r[1] == 'x' && HexValue(r[2]).Some? && HexValue(r[3]).Some? then
        var v := HexValue(r[2]).value * 16 + HexValue(r[3]).value;
        if 0 <= v < 0x100 then Prepend(v, Unescape(r[4..])) else None
      else None
    else if IsSafe(r[0]) then Prepend(r[0] as int, Unescape(r[1..]))
    else None
  }

  lemma HexDigitsValue(d: int)
    requires 0 <= d < 16
    ensures HexValue(HexDigits[d]) == Some(d)
  {
  }

  /** Unescaping undoes the escape of one byte other than the backslash. */
  lemma UnescapeEscapeByte(b: Byte, rest: string)
    requires b != Backslash
    ensures Unescape(EscapeByte(b) + rest) == Prepend(b, Unescape(rest))
  {
    var r := EscapeByte(b) + rest;
    if IsPrint(b) || b == 0x09 {
      assert r[0] == b as char && r[1..] == rest;
    } else if b in {0x07, 0x08, 0x0A, 0x0B, 0x0C, 0x0D} {
      assert r[2..] == rest;
    } else {
      HexDigitsValue(b / 16);
      HexDigitsValue(b % 16);
      assert r[4..] == rest;
    }
  }

  /** On input without a backslash the escape is undone by Unescape, so two
      such inputs never share an escape. */
  lemma {:induction false} UnescapeEscape(s: seq<Byte>)
    requires Backslash !in s
    ensures Unescape(Escape(s)) == Some(s)
    decreases |s|
  {
    if s != [] {
      UnescapeEscape(s[1..]);
      UnescapeEscapeByte(s[0], Escape(s[1..]));
      assert [s[0]] + s[1..] == s;
    }
  }
}
