/** The line assembler of the UART receive interrupt (modules/uart0.c):
    characters typed on the serial port are echoed and collected into a
    32-character line buffer, with backspace handling, until a newline or
    a full buffer marks the line ready; the line is then held until it is
    collected. */
module Uart {
  import opened Wrappers

  /** COMMAND_BUF_LEN: the longest line; the buffer has one more byte for
      the terminating NUL. */
  const COMMAND_BUF_LEN: nat := 32

  const NUL: bv8 := 0
  const BACKSPACE: bv8 := 0x08
  const DEL: bv8 := 0x7f
  const NEWLINE: bv8 := 0x0a
  const RETURN: bv8 := 0x0d
  const SPACE: bv8 := 0x20

  /** A character that is stored in the line rather than acted on. */
  predicate Ordinary(c: bv8)
  {
    c != NUL && c != BACKSPACE && c != DEL && c != NEWLINE && c != RETURN
  }

  // ---------------------------------------------------------------------
  // The line discipline as a value
  // ---------------------------------------------------------------------

  /** The characters collected so far, and the completed line while one
      waits to be collected. */
  datatype Assembler = Assembler(pending: seq<bv8>, ready: Option<seq<bv8>>)

  const EMPTY: Assembler := Assembler([], None)

  /** The assembler states reachable from EMPTY: a pending line shorter
      than the buffer, none while a line is ready, and no NUL in either. */
  predicate Good(a: Assembler)
  {
    |a.pending| < COMMAND_BUF_LEN &&
    (forall i | 0 <= i < |a.pending| :: a.pending[i] != NUL) &&
    (a.ready.Some? ==>
      a.pending == [] && |a.ready.value| <= COMMAND_BUF_LEN &&
      forall i | 0 <= i < |a.ready.value| :: a.ready.value[i] != NUL)
  }

  /** One received character: the new state and the characters echoed. */
  function Step(a: Assembler, c: bv8): (r: (Assembler, seq<bv8>))
    ensures Good(a) ==> Good(r.0)
  {
    if a.ready.Some? then (a, [])
    else if c == BACKSPACE || c == DEL then
      if |a.pending| > 0 then (Assembler(a.pending[..|a.pending| - 1], None), [BACKSPACE, SPACE, BACKSPACE])
      else (a, [])
    else if c == NEWLINE || c == RETURN then (Assembler([], Some(a.pending)), [NEWLINE])
    else if c == NUL then (a, [])
    else if |a.pending| + 1 == COMMAND_BUF_LEN then (Assembler([], Some(a.pending + [c])), [c, NEWLINE])
    else (Assembler(a.pending + [c], None), [c])
  }

  /** A run of received characters: the final state and everything echoed. */
  function Run(a: Assembler, cs: seq<bv8>): (r: (Assembler, seq<bv8>))
    ensures Good(a) ==> Good(r.0)
    decreases |cs|
  {
    if cs == [] then (a, [])
    else
      var first := Step(a, cs[0]);
      var rest := Run(first.0, cs[1..]);
      (rest.0, first.1 + rest.1)
  }

  /** While a line waits to be collected every character is ignored: no
      echo and no change. */
  lemma {:induction false} IgnoredWhileReady(a: Assembler, cs: seq<bv8>)
    requires a.ready.Some?
    ensures Run(a, cs) == (a, [])
    decreases |cs|
  {
    if cs != [] {
      assert Step(a, cs[0]) == (a, []);
      IgnoredWhileReady(a, cs[1..]);
      var e: seq<bv8> := [];
      assert e + e == e;
    }
  }

  /** Ordinary characters that still fit are appended and echoed as they
      are. */
  lemma {:induction false} TypedCharacters(p: seq<bv8>, s: seq<bv8>)
    requires |p| + |s| < COMMAND_BUF_LEN
    requires forall i | 0 <= i < |s| :: Ordinary(s[i])
    ensures Run(Assembler(p, None), s) == (Assembler(p + s, None), s)
    decreases |s|
  {
    if s != [] {
      assert Step(Assembler(p, None), s[0]) == (Assembler(p + [s[0]], None), [s[0]]);
      TypedCharacters(p + [s[0]], s[1..]);
      assert p + [s[0]] + s[1..] == p + s;
      assert [s[0]] + s[1..] == s;
    } else {
      assert p + s == p;
    }
  }

  /** A line shorter than the buffer typed and ended by a return or a
      newline becomes the ready line; the echo is the line and a newline. */
  lemma TypedLine(s: seq<bv8>, end: bv8)
    requires |s| < COMMAND_BUF_LEN && (end == NEWLINE || end == RETURN)
    requires forall i | 0 <= i < |s| :: Ordinary(s[i])
    ensures Run(EMPTY, s + [end]) == (Assembler([], Some(s)), s + [NEWLINE])
  {
    TypedCharacters([], s);
    assert [] + s == s;
    var mid := Run(EMPTY, s);
    assert mid == (Assembler(s, None), s);
    RunOne(Assembler(s, None), end);
    var last := Run(mid.0, [end]);
    assert last == (Assembler([], Some(s)), [NEWLINE]);
    RunSplits(EMPTY, s, [end]);
  }

  /** Thirty-two ordinary characters complete the line on their own; the
      echo is the line and a newline. */
  lemma FullLine(s: seq<bv8>)
    requires |s| == COMMAND_BUF_LEN
    requires forall i | 0 <= i < |s| :: Ordinary(s[i])
    ensures Run(EMPTY, s) == (Assembler([], Some(s)), s + [NEWLINE])
  {
    var init := s[..COMMAND_BUF_LEN - 1];
    assert s == init + [s[COMMAND_BUF_LEN - 1]];
    var c := s[COMMAND_BUF_LEN - 1];
    TypedCharacters([], init);
    assert [] + init == init;
    var mid := Run(EMPTY, init);
    assert mid == (Assembler(init, None), init);
    RunOne(Assembler(init, None), c);
    var last := Run(mid.0, [c]);
    assert last == (Assembler([], Some(s)), [c, NEWLINE]);
    RunSplits(EMPTY, init, [c]);
    assert init + [c, NEWLINE] == s + [NEWLINE];
  }

  /** A run of one character is a step. */
  lemma RunOne(a: Assembler, c: bv8)
    ensures Run(a, [c]) == Step(a, c)
  {
    assert [c][1..] == [];
    assert Step(a, c).1 + [] == Step(a, c).1;
  }

  /** Feeding two runs one after the other is feeding their concatenation. */
  lemma {:induction false} RunSplits(a: Assembler, xs: seq<bv8>, ys: seq<bv8>)
    ensures Run(a, xs + ys) == (Run(Run(a, xs).0, ys).0, Run(a, xs).1 + Run(Run(a, xs).0, ys).1)
    decreases |xs|
  {
    if xs != [] {
      var f := Step(a, xs[0]);
      assert (xs + ys)[0] == xs[0] && (xs + ys)[1..] == xs[1..] + ys;
      RunSplits(f.0, xs[1..], ys);
      var mid := Run(f.0, xs[1..]);
      var last := Run(mid.0, ys);
      assert Run(a, xs) == (mid.0, f.1 + mid.1);
      assert Run(f.0, xs[1..] + ys) == (last.0, mid.1 + last.1);
      assert Run(a, xs + ys) == (last.0, f.1 + (mid.1 + last.1));
      assert f.1 + (mid.1 + last.1) == (f.1 + mid.1) + last.1;
    } else {
      assert xs + ys == ys;
      assert [] + Run(a, ys).1 == Run(a, ys).1;
    }
  }

  /** A backspace right after an ordinary character that did not fill the
      line takes it back: the state is as before. */
  lemma BackspaceUndoes(a: Assembler, c: bv8, erase: bv8)
    requires a.ready.None? && |a.pending| + 1 < COMMAND_BUF_LEN && Ordinary(c)
    requires erase == BACKSPACE || erase == DEL
    ensures Step(Step(a, c).0, erase).0 == a
  {
    assert (a.pending + [c])[..|a.pending|] == a.pending;
  }

  /** The C string in a buffer: the bytes before the first NUL. */
  function LineOf(buf: seq<bv8>): (s: seq<bv8>)
    ensures |s| <= |buf| && s == buf[..|s|]
    ensures forall i | 0 <= i < |s| :: s[i] != NUL
    ensures |s| < |buf| ==> buf[|s|] == NUL
  {
    if buf == [] || buf[0] == NUL then [] else [buf[0]] + LineOf(buf[1..])
  }

  /** A NUL after non-NUL bytes ends the C string there. */
  lemma {:induction false} LineOfEndsAt(buf: seq<bv8>, k: nat)
    requires k < |buf| && buf[k] == NUL
    requires forall i | 0 <= i < k :: buf[i] != NUL
    ensures LineOf(buf) == buf[..k]
  {
    var s := LineOf(buf);
    if |s| > k {
      assert s[k] == buf[k];
    }
  }

  /** EOF of the C library, and the result get_char gives on a receive
      error. */
  const EOF: int := -1
  const RX_ERROR: int := -2

  /** get_char, the stdin read of the serial stream: `available` and
      `error` are the receiver's status bits and `data` the data register.
      With nothing received the result is EOF; a byte received with an
      error gives -2; otherwise the byte itself. */
  function GetChar(available: bool, error: bool, data: bv8): (r: int)
    ensures r == EOF <==> !available
    ensures r == RX_ERROR <==> available && error
    ensures r >= 0 <==> available && !error
    ensures r >= 0 ==> r == data as int
  {
    if !available then EOF
    else if error then RX_ERROR
    else data as int
  }

  // ---------------------------------------------------------------------
  // The buffer and its interrupt handler
  // ---------------------------------------------------------------------

  /** received_text, next_ptr and received_flag. */
  class LineBuffer {
    const text: array<bv8>
    var nextPtr: nat
    var receivedFlag: bool

    /** The pending characters are stored before next_ptr, which stays
        below the buffer length; while the flag is set next_ptr is 0 and the
        buffer holds a NUL-terminated line. */
    predicate Valid()
      reads this, text
    {
      text.Length == COMMAND_BUF_LEN + 1 &&
      nextPtr < COMMAND_BUF_LEN &&
      (forall i | 0 <= i < nextPtr :: text[i] != NUL) &&
      (receivedFlag ==> nextPtr == 0 && |LineOf(text[..])| < text.Length)
    }

    /** What the buffer holds, as an assembler state. */
    function State(): Assembler
      requires Valid()
      reads this, text
    {
      Assembler(text[..nextPtr], if receivedFlag then Some(LineOf(text[..])) else None)
    }

    constructor()
      ensures Valid() && State() == EMPTY && fresh(text)
    {
      text := new bv8[COMMAND_BUF_LEN + 1];
      nextPtr := 0;
      receivedFlag := false;
    }

    /** Marks the line ending at `k` as ready: NUL at `k`, next_ptr back to
        0 and the flag set. */
    method Complete(k: nat)
      requires text.Length == COMMAND_BUF_LEN + 1 && k < text.Length
      requires forall i | 0 <= i < k :: text[i] != NUL
      modifies this, text
      ensures text[..] == old(text[..])[k := NUL]
      ensures nextPtr == 0 && receivedFlag
      ensures Valid() && State() == Assembler([], Some(old(text[..k])))
    {
      text[k] := NUL;
      nextPtr := 0;
      receivedFlag := true;
      assert text[..k] == old(text[..k]);
      LineOfEndsAt(text[..], k);
    }

    /** uart0_intr_handler: one received character `c` moves the buffer as
        Step moves its state, and the characters Step echoes are the ones
        written to the port. Only the byte at the old next_ptr and the
        terminator slot 32 can change. */
    method IntrHandler(c: bv8) returns (echo: seq<bv8>)
      requires Valid()
      modifies this, text
      ensures Valid()
      ensures (State(), echo) == Step(old(State()), c)
      ensures forall i | 0 <= i < text.Length && i != old(nextPtr) && i != COMMAND_BUF_LEN :: text[i] == old(text[i])
    {
      ghost var s0 := State();
      if receivedFlag {
        return [];
      }
      if c == BACKSPACE || c == DEL {
        if nextPtr > 0 {
          echo := [BACKSPACE, SPACE, BACKSPACE];
          nextPtr := nextPtr - 1;
          assert text[..nextPtr] == s0.pending[..|s0.pending| - 1];
        } else {
          echo := [];
        }
      } else if c == NEWLINE || c == RETURN {
        echo := [NEWLINE];
        Complete(nextPtr);
        assert State() == Assembler([], Some(s0.pending));
      } else if c != NUL {
        echo := [c];
        text[nextPtr] := c;
        nextPtr := nextPtr + 1;
        assert text[..nextPtr] == s0.pending + [c];
        if nextPtr == COMMAND_BUF_LEN {
          echo := echo + [NEWLINE];
          Complete(nextPtr);
          assert State() == Assembler([], Some(s0.pending + [c]));
          assert echo == [c, NEWLINE];
        } else {
          assert State() == Assembler(s0.pending + [c], None);
        }
      } else {
        echo := [];
      }
    }

    /** uart0_line_received: whether a line is ready. */
    function LineReceived(): (r: bool)
      requires Valid()
      reads this, text
      ensures r <==> State().ready.Some?
    {
      receivedFlag
    }

    /** uart0_get_line: clears the flag and hands back the buffer, whose C
        string is the ready line when there was one. */
    method GetLine() returns (buf: seq<bv8>)
      requires Valid()
      modifies this
      ensures Valid() && !receivedFlag && nextPtr == old(nextPtr)
      ensures buf == text[..]
      ensures old(State()).ready.Some? ==> LineOf(buf) == old(State()).ready.value && State() == EMPTY
    {
      receivedFlag := false;
      buf := text[..];
    }
  }
}
