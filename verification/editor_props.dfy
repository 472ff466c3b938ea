/**
 * What the editor keeps true from one received byte to the next: the line
 * holds printable ASCII only, the last buffer slot holds a NUL, the escape
 * flags are nested, the history ring is well formed and browsing never
 * points past the oldest entry. Every step of the fixed build keeps it and
 * never faults; a step of the C code as written keeps it whenever it does
 * not fault.
 */
module EditorProps {
  import opened Bytes
  import opened Wrappers
  import Config
  import opened History
  import opened HistoryProps
  import opened EshState
  import opened HistBuffer
  import opened Editor
  import ParseArgs
  import ArgParser

  /** The edit buffer's part of the invariant. */
  predicate LineOk(e: Esh) {
    && |e.buffer| == Config.BufferLen + 1
    && e.buffer[Config.BufferLen] == NUL
    && AllPrint(e.buffer[..Held(e)])
  }

  /** History is well formed, and a browse index always names an existing entry. */
  predicate Browsable(h: Hist) {
    && Tidy(h)
    && h.idx >= 0
    && (h.idx != 0 ==> Nth(h, h.idx - 1) != -1)
  }

  /** Everything but the escape flags. */
  predicate Sound(e: Esh) {
    Ready(e) && LineOk(e) && Browsable(e.hist)
  }

  predicate Inv(e: Esh) {
    Sound(e) && Nested(e.flags)
  }

  /** A step of build `b` either faults (only the C code as written can) or keeps the invariant. */
  predicate Kept(b: Build, r: Result<Esh>) {
    (b == Fixed ==> r.Ok?) && (r.Ok? ==> Sound(r.value))
  }

  /** The same for a step that can also fire callbacks, escape flags included. */
  predicate Stepped(b: Build, r: Result<(Esh, seq<Event>)>) {
    (b == Fixed ==> r.Ok?) && (r.Ok? ==> Inv(r.value.0))
  }

  /** Changing only the escape flags keeps everything else. */
  lemma FlagsOnly(e: Esh, f: Flags)
    requires Sound(e) && Nested(f)
    ensures Inv(e.(flags := f))
  {
    assert e.(flags := f).buffer[..Held(e)] == e.buffer[..Held(e)];
  }

  /* ---------------------------------------------------------------- */
  /* Small facts                                                      */
  /* ---------------------------------------------------------------- */

  lemma PrintNotNul(s: seq<Byte>)
    requires AllPrint(s)
    ensures NUL !in s
  {
  }

  lemma TidyAnyIdx(h: Hist, i: int)
    requires Tidy(h)
    ensures Tidy(h.(idx := i))
  {
    var f :| 0 <= f < Len && TidySeq(Lin(h), f);
    assert Lin(h.(idx := i)) == Lin(h);
  }

  /** Browsing further back than an existing entry finds nothing new only past the oldest one. */
  lemma NthMonotone(h: Hist, n: int, m: int)
    requires Valid(h) && Nth(h, n) != -1 && 0 <= m <= n
    ensures Nth(h, m) != -1
  {
    NthIsScan(h, n);
    NthIsScan(h, m);
  }

  /* ---------------------------------------------------------------- */
  /* Substitution and the handlers                                    */
  /* ---------------------------------------------------------------- */

  /** Loading a printable entry that fits gives a printable, terminated line. */
  lemma LoadEntryKeeps(b: Build, e: Esh, o: int)
    requires Shaped(e) && LineOk(e) && 0 <= o < Len
    requires AllPrint(Entry(e.hist.ring, o)) && |Entry(e.hist.ring, o)| < Config.BufferLen
    ensures Load(b, e, o).Ok? && LineOk(Load(b, e, o).value) && Ready(Load(b, e, o).value)
  {
    var w := Entry(e.hist.ring, o);
    var l := Load(b, e, o).value;
    assert l.buffer[Config.BufferLen] == e.buffer[Config.BufferLen] by {
      assert l.buffer[|w| + 1..][Config.BufferLen - |w| - 1] == e.buffer[|w| + 1..][Config.BufferLen - |w| - 1];
    }
    assert l.buffer[..Held(l)] == w;
  }

  /** Substituting a browsed entry never faults and keeps the invariant, in either build. */
  lemma SubstituteKeeps(b: Build, e: Esh)
    requires Sound(e)
    ensures Substitute(b, e).Ok?
    ensures Sound(Substitute(b, e).value.0)
    ensures Substitute(b, e).value.0.hist.idx == 0
  {
    if e.hist.idx != 0 {
      var o := Nth(e.hist, e.hist.idx - 1);
      NthEntryFits(e.hist, e.hist.idx - 1);
      LoadEntryKeeps(b, e, o);
      TidyAnyIdx(e.hist, 0);
    }
  }

  lemma AllPrintJoin(a: seq<Byte>, c: Byte, d: seq<Byte>)
    requires AllPrint(a) && IsPrint(c) && AllPrint(d)
    ensures AllPrint(a + [c] + d) && AllPrint(a + d)
  {
    assert forall k :: 0 <= k < |a + d| ==> (a + d)[k] == (if k < |a| then a[k] else d[k - |a|]);
  }

  lemma InsertKeeps(b: Build, s: Esh, c: Byte)
    requires Sound(s) && s.cnt < Config.BufferLen && IsPrint(c)
    ensures Kept(b, InsDel(b, s, c))
  {
    var line := s.buffer[..s.cnt];
    assert s.buffer[..s.ins] == line[..s.ins] && s.buffer[s.ins..s.cnt] == line[s.ins..];
    AllPrintJoin(line[..s.ins], c, line[s.ins..]);
  }

  lemma ParkKeeps(s: Esh)
    requires Sound(s) && s.cnt >= Config.BufferLen
    ensures Sound(Park(s))
  {
  }

  lemma HandleCharKeeps(b: Build, e: Esh, c: Byte)
    requires Sound(e) && IsPrint(c)
    ensures Kept(b, HandleChar(b, e, c))
  {
    SubstituteKeeps(b, e);
    var s := Substitute(b, e).value.0;
    if s.cnt < Config.BufferLen {
      InsertKeeps(b, s, c);
      assert HandleChar(b, e, c) == InsDel(b, s, c);
    } else {
      ParkKeeps(s);
      assert HandleChar(b, e, c) == Ok(Park(s));
    }
  }

  lemma DeleteKeeps(b: Build, s: Esh)
    requires Sound(s) && 0 < s.cnt <= Config.BufferLen && s.ins > 0
    ensures Kept(b, InsDel(b, s, NUL))
  {
    var line := s.buffer[..s.cnt];
    assert s.buffer[..s.ins - 1] == line[..s.ins - 1] && s.buffer[s.ins..s.cnt] == line[s.ins..];
    AllPrintJoin(line[..s.ins - 1], ' ', line[s.ins..]);
  }

  /** What a line that reached `execute_command` reads as once terminated. */
  lemma TerminatedLine(s: Esh)
    requires Sound(s) && s.cnt < Config.BufferLen
    ensures UntilNul(s.buffer[s.cnt := NUL]) == s.buffer[..s.cnt]
    ensures NUL !in s.buffer[..s.cnt]
  {
    PrintNotNul(s.buffer[..s.cnt]);
    TerminateAt(s.buffer, s.cnt);
  }

  lemma CompleteKeeps(s: Esh)
    requires Sound(s) && s.hist.idx == 0
    ensures Sound(Complete(s).0)
  {
    if s.cnt < Config.BufferLen {
      TerminatedLine(s);
      var e2 := s.(buffer := s.buffer[s.cnt := NUL]);
      if !CommandIsNop(e2.buffer) {
        AddKeepsTidy(s.hist, s.buffer[..s.cnt]);
      }
    }
  }

  lemma ExecuteCommandKeeps(b: Build, e: Esh)
    requires Sound(e)
    ensures ExecuteCommand(b, e).Ok?
    ensures Sound(ExecuteCommand(b, e).value.0)
  {
    SubstituteKeeps(b, e);
    CompleteKeeps(Substitute(b, e).value.0);
  }

  /** Backspace and DEL, once any browsed entry is substituted. */
  lemma BackspaceKeeps(b: Build, e: Esh)
    requires Sound(e)
    ensures Kept(b, Backspace(b, e))
  {
    SubstituteKeeps(b, e);
    var s := Substitute(b, e).value.0;
    if s.cnt > 0 && s.cnt <= Config.BufferLen && (b == AsWritten || s.ins > 0) {
      if s.ins > 0 {
        DeleteKeeps(b, s);
      }
      assert Backspace(b, e) == InsDel(b, s, NUL);
    } else {
      assert Backspace(b, e) == Ok(s);
    }
  }

  /* What a completed line fires, stated against the tokenizer. */

  /** An overflowed line goes whole to the overflow callback. */
  lemma CompleteOverflowed(s: Esh)
    requires Sound(s) && s.cnt >= Config.BufferLen
    ensures Complete(s).1 == [Overflow(s.slots.overflow, s.buffer[..Config.BufferLen])]
    ensures Complete(s).0.hist == s.hist
  {
    OverflowLine(s);
  }

  /** A blank line fires nothing and stays out of history. */
  lemma CompleteBlank(s: Esh)
    requires Sound(s) && s.cnt < Config.BufferLen
    requires forall k :: 0 <= k < s.cnt ==> s.buffer[k] == ' '
    ensures Complete(s).1 == [] && Complete(s).0.hist == s.hist
  {
    TerminatedLine(s);
  }

  /**
   * Any other line is added to history and, with at most ArgcMax words,
   * handed to the command callback as exactly its words. With more, the
   * overflow callback sees the rewritten line only up to the first NUL the
   * split left in it.
   */
  lemma CompleteWords(s: Esh)
    requires Sound(s) && s.cnt < Config.BufferLen
    requires exists k :: 0 <= k < s.cnt && s.buffer[k] != ' '
    ensures var line := s.buffer[..s.cnt];
            var words := ArgParser.Tokenize(line);
            && Complete(s).0.hist == Add(s.hist, line).0
            && |words| >= 1
            && (|words| <= Config.ArgcMax ==> Complete(s).1 == [Command(s.slots.command, words)])
            && (|words| > Config.ArgcMax ==>
                  Complete(s).1 == [Overflow(s.slots.overflow, UntilNul(ArgParser.Rewrite(line)))])
  {
    var line := s.buffer[..s.cnt];
    TerminatedLine(s);
    var e2 := s.(buffer := s.buffer[s.cnt := NUL]);
    assert e2.buffer[..e2.cnt] == line;
    var k :| 0 <= k < s.cnt && s.buffer[k] != ' ';
    assert !CommandIsNop(e2.buffer) by {
      assert UntilNul(e2.buffer)[k] == line[k];
    }
    var words := ArgParser.Tokenize(line);
    assert |words| >= 1 by {
      ArgParser.NoWordsIffBlank(line);
      assert line[k] != ' ';
    }
    var p := ParseArgs.Parse(e2.buffer, e2.cnt, e2.argv);
    assert Complete(s).0.hist == Add(s.hist, line).0;
    if |words| <= Config.ArgcMax {
      assert words[..|words|] == words;
    } else {
      UntilNulPrefix(ArgParser.Rewrite(line), p.buffer);
    }
  }

  /** An overflowed line reads as all of the buffer but its last, NUL, slot. */
  lemma OverflowLine(s: Esh)
    requires Sound(s) && s.cnt >= Config.BufferLen
    ensures UntilNul(s.buffer) == s.buffer[..Config.BufferLen]
  {
    PrintNotNul(s.buffer[..Config.BufferLen]);
    UntilNulOf(s.buffer[..Config.BufferLen], s.buffer[Config.BufferLen..]);
    assert s.buffer == s.buffer[..Config.BufferLen] + s.buffer[Config.BufferLen..];
  }

  lemma HandleCtrlKeeps(b: Build, e: Esh, c: Byte)
    requires Sound(e) && e.flags == NoEscape
    ensures Stepped(b, HandleCtrl(b, e, c))
  {
    var r := HandleCtrl(b, e, c);
    if c == '\n' {
      ExecuteCommandKeeps(b, e);
    } else if c == BS || c == DEL {
      BackspaceKeeps(b, e);
      assert r == Quiet(Backspace(b, e));
    } else if c == ESC {
      FlagsOnly(e, Flags(true, false, false));
    } else if c == ETX {
      ClearKeeps(e);
      assert r == Ok((e.(cnt := 0, ins := 0), []));
    } else {
      assert r == Ok((e, []));
    }
  }

  /** Emptying the line keeps everything else. */
  lemma ClearKeeps(e: Esh)
    requires Sound(e) && e.flags == NoEscape
    ensures Inv(e.(cnt := 0, ins := 0))
  {
    assert e.(cnt := 0, ins := 0).buffer[..0] == [];
  }

  lemma BrowseKeeps(b: Build, e: Esh, c: Byte)
    requires Sound(e) && (c == 'A' || c == 'B')
    ensures Kept(b, Browse(b, e, c))
  {
    var h := e.hist;
    if c == 'A' && Nth(h, h.idx) != -1 {
      assert Browse(b, e, c) == Ok(e.(hist := h.(idx := h.idx + 1)));
      BrowseTo(e, h.idx + 1);
    } else if c == 'A' {
      assert Browse(b, e, c) == Ok(e);
    } else if h.idx > 1 {
      assert Browse(b, e, c) == Ok(e.(hist := h.(idx := h.idx - 1)));
      NthMonotone(h, h.idx - 1, h.idx - 2);
      BrowseTo(e, h.idx - 1);
    } else {
      assert Browse(b, e, c) == Restore(b, e.(hist := h.(idx := 0)));
      BrowseTo(e, 0);
      RestoreKeeps(b, e.(hist := h.(idx := 0)));
    }
  }

  /** Terminating the line at `cnt` keeps the invariant. */
  lemma RestoreKeeps(b: Build, e: Esh)
    requires Sound(e)
    ensures Kept(b, Restore(b, e))
  {
    if e.cnt <= Config.BufferLen {
      var r := Restore(b, e).value;
      assert r.buffer[..e.cnt] == e.buffer[..e.cnt];
    }
  }

  /** Moving the browse index to an entry that exists keeps the invariant. */
  lemma BrowseTo(e: Esh, i: int)
    requires Sound(e) && i >= 0 && (i != 0 ==> Nth(e.hist, i - 1) != -1)
    ensures Sound(e.(hist := e.hist.(idx := i)))
  {
    TidyAnyIdx(e.hist, i);
    assert e.(hist := e.hist.(idx := i)).buffer[..Held(e)] == e.buffer[..Held(e)];
  }

  lemma CursorMoveKeeps(b: Build, e: Esh, m: Motion)
    requires Sound(e)
    ensures Kept(b, CursorMove(b, e, m))
  {
    SubstituteKeeps(b, e);
  }

  lemma KeyKeeps(b: Build, e: Esh, c: Byte)
    requires Sound(e)
    ensures Kept(b, Key(b, e, c))
  {
    if c == 'A' || c == 'B' {
      BrowseKeeps(b, e, c);
    } else if c in {'C', 'D', 'H', 'F'} {
      CursorMoveKeeps(b, e, KeyMotion(b, e, c));
    }
  }

  lemma HandleEscKeeps(b: Build, e: Esh, c: Byte)
    requires Inv(e) && (e.flags.bracket || e.flags.numeric)
    ensures b == Fixed ==> HandleEsc(b, e, c).Ok?
    ensures HandleEsc(b, e, c).Ok? ==> Inv(HandleEsc(b, e, c).value)
  {
    if !IsDigit(c) {
      KeyKeeps(b, e.(flags := EscFlags(e.flags, c)), c);
    }
  }

  /* ---------------------------------------------------------------- */
  /* Receiving bytes                                                  */
  /* ---------------------------------------------------------------- */

  /**
   * One received byte keeps the invariant; the fixed build never faults.
   * So the buffer only ever holds printable ASCII, however the bytes come.
   */
  lemma RxKeeps(b: Build, e: Esh, c: Byte)
    requires Inv(e)
    ensures Stepped(b, Rx(b, e, c))
  {
    if e.flags.bracket || e.flags.numeric {
      HandleEscKeeps(b, e, c);
      assert Rx(b, e, c) == Quiet(HandleEsc(b, e, c));
    } else if e.flags.escape {
      FlagsOnly(e, if c == '[' || c == 'O' then e.flags.(bracket := true)
                   else e.flags.(escape := false, bracket := false));
    } else {
      assert e.flags == NoEscape;
      if IsPrint(c) && IsAscii(c) {
        HandleCharKeeps(b, e, c);
        assert Rx(b, e, c) == Quiet(HandleChar(b, e, c));
      } else {
        HandleCtrlKeeps(b, e, c);
        assert Rx(b, e, c) == HandleCtrl(b, e, c);
      }
    }
  }

  /** Any input keeps the invariant; the fixed build never faults. */
  lemma {:induction false} RunKeeps(b: Build, e: Esh, input: seq<Byte>)
    requires Inv(e)
    ensures Stepped(b, Run(b, e, input))
    decreases |input|
  {
    if input != [] {
      RxKeeps(b, e, input[0]);
      if Rx(b, e, input[0]).Ok? {
        var s := Rx(b, e, input[0]).value.0;
        RunKeeps(b, s, input[1..]);
      }
    }
  }
}
