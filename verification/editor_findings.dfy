/**
 * Three places where esh.c leaves its buffer or its line, each shown on the
 * C code as written and set against the fixed build, which EditorProps
 * proves fault-free.
 */
module EditorFindings {
  import opened Bytes
  import opened Wrappers
  import Config
  import opened History
  import opened HistoryProps
  import opened EshState
  import opened HistBuffer
  import opened Editor
  import opened EditorProps

  /* ---------------------------------------------------------------- */
  /* Backspace at the start of a line                                 */
  /* ---------------------------------------------------------------- */

  /**
   * `handle_ctrl` guards backspace only against an empty or overflowed
   * line, so with the cursor at the start `ins_del` moves the line to
   * `buffer[-1]`. The fixed build leaves the line alone.
   */
  lemma BackspaceAtStart(e: Esh)
    requires Sound(e) && e.hist.idx == 0 && 0 < e.cnt <= Config.BufferLen && e.ins == 0
    ensures Backspace(AsWritten, e) == Failed(OutOfBounds(-1))
    ensures Backspace(Fixed, e) == Ok(e)
  {
  }

  /** A fresh line, one byte typed, Home, backspace: the C code faults. */
  lemma BackspaceAtStartReached(e: Esh)
    requires Inv(e) && e.flags == NoEscape && e.hist.idx == 0 && e.cnt == 0
    ensures Run(AsWritten, e, ['x', ESC, '[', 'H', BS]) == Failed(OutOfBounds(-1))
  {
    var b := AsWritten;
    TypeAtEnd(b, e, 'x');
    var e1 := Rx(b, e, 'x').value.0;
    OpenBracket(b, e1);
    var e3 := e1.(flags := Flags(true, true, false));
    HomeKey(b, e3);
    var e4 := e1.(ins := 0);
    BackspaceAtStart(e4);
    FaultsAt(b, e4, [BS], []);
    FaultsAt(b, e3, ['H'], [BS]);
    FaultsAt(b, e1.(flags := Flags(true, false, false)), ['['], ['H', BS]);
    FaultsAt(b, e1, [ESC], ['[', 'H', BS]);
    FaultsAt(b, e, ['x'], [ESC, '[', 'H', BS]);
  }

  /** The same keys on the fixed build leave a sound line. */
  lemma BackspaceAtStartFixed(e: Esh)
    requires Inv(e) && e.flags == NoEscape && e.hist.idx == 0 && e.cnt == 0
    ensures Run(Fixed, e, ['x', ESC, '[', 'H', BS]).Ok?
  {
    RunKeeps(Fixed, e, ['x', ESC, '[', 'H', BS]);
  }

  /** Typing a printable byte at the end of a line that has room. */
  lemma TypeAtEnd(b: Build, e: Esh, c: Byte)
    requires Inv(e) && e.flags == NoEscape && e.hist.idx == 0 && e.ins == e.cnt < Config.BufferLen
    requires IsPrint(c) && IsAscii(c)
    ensures Rx(b, e, c).Ok? && Rx(b, e, c).value.1 == []
    ensures var e1 := Rx(b, e, c).value.0;
            && Inv(e1) && e1.flags == NoEscape && e1.hist.idx == 0
            && e1.cnt == e.cnt + 1 && e1.ins == e1.cnt
  {
    RxKeeps(b, e, c);
    assert Rx(b, e, c) == Quiet(HandleChar(b, e, c));
  }

  /** ESC then `[` opens a bracket sequence and changes nothing else. */
  lemma OpenBracket(b: Build, e: Esh)
    requires Inv(e) && e.flags == NoEscape
    ensures Rx(b, e, ESC) == Ok((e.(flags := Flags(true, false, false)), []))
    ensures Rx(b, e.(flags := Flags(true, false, false)), '[') == Ok((e.(flags := Flags(true, true, false)), []))
  {
    assert Rx(b, e, ESC) == HandleCtrl(b, e, ESC);
  }

  /** Home in a bracket sequence while not browsing, in either build. */
  lemma HomeKey(b: Build, e: Esh)
    requires Inv(e) && e.flags == Flags(true, true, false) && e.hist.idx == 0
    ensures Rx(b, e, 'H') == Ok((e.(flags := NoEscape, ins := 0), []))
  {
    var e0 := e.(flags := EscFlags(e.flags, 'H'));
    assert e0 == e.(flags := NoEscape);
    assert Rx(b, e, 'H') == Quiet(HandleEsc(b, e, 'H'));
    assert HandleEsc(b, e, 'H') == Key(b, e0, 'H');
  }

  /** A fault in the rest of the input is a fault of the whole. */
  lemma FaultsAt(b: Build, e: Esh, c: seq<Byte>, rest: seq<Byte>)
    requires Ready(e) && |c| == 1
    ensures Rx(b, e, c[0]).Failed? ==> Run(b, e, c + rest) == Failed(Rx(b, e, c[0]).fault)
    ensures Rx(b, e, c[0]).Ok? && Run(b, Rx(b, e, c[0]).value.0, rest).Failed? ==>
              Run(b, e, c + rest) == Failed(Run(b, Rx(b, e, c[0]).value.0, rest).fault)
  {
    assert (c + rest)[0] == c[0] && (c + rest)[1..] == rest;
  }

  /* ---------------------------------------------------------------- */
  /* Down arrow in the overflow state                                 */
  /* ---------------------------------------------------------------- */

  /**
   * Coming back down to the line being edited redraws it with
   * `esh_restore`, which stores a NUL at `buffer[cnt]`; once the line has
   * overflowed, `cnt` is one past the last slot. The fixed build leaves the
   * buffer alone, its last slot already holding a NUL.
   */
  lemma DownInOverflow(e: Esh)
    requires Sound(e) && e.cnt == Config.BufferLen + 1 && e.hist.idx <= 1
    ensures Browse(AsWritten, e, 'B') == Failed(OutOfBounds(Config.BufferLen + 1))
    ensures Browse(Fixed, e, 'B') == Ok(e.(hist := e.hist.(idx := 0)))
  {
  }

  /** A full line, one byte more, then Down: the C code faults. */
  lemma DownInOverflowReached(e: Esh)
    requires Inv(e) && e.flags == NoEscape && e.hist.idx == 0 && e.cnt == Config.BufferLen
    ensures Run(AsWritten, e, ['x', ESC, '[', 'B']) == Failed(OutOfBounds(Config.BufferLen + 1))
  {
    var b := AsWritten;
    var e1 := Park(e);
    assert Rx(b, e, 'x') == Quiet(HandleChar(b, e, 'x'));
    RxKeeps(b, e, 'x');
    OpenBracket(b, e1);
    var e3 := e1.(flags := Flags(true, true, false));
    DownInOverflow(e1);
    assert Rx(b, e3, 'B') == Quiet(HandleEsc(b, e3, 'B'));
    assert HandleEsc(b, e3, 'B') == Browse(b, e1, 'B');
    FaultsAt(b, e3, ['B'], []);
    FaultsAt(b, e1.(flags := Flags(true, false, false)), ['['], ['B']);
    FaultsAt(b, e1, [ESC], ['[', 'B']);
    FaultsAt(b, e, ['x'], [ESC, '[', 'B']);
  }

  /** The same keys on the fixed build leave a sound line. */
  lemma DownInOverflowFixed(e: Esh)
    requires Inv(e) && e.flags == NoEscape && e.hist.idx == 0 && e.cnt == Config.BufferLen
    ensures Run(Fixed, e, ['x', ESC, '[', 'B']).Ok?
  {
    RunKeeps(Fixed, e, ['x', ESC, '[', 'B']);
  }

  /* ---------------------------------------------------------------- */
  /* Home while browsing                                              */
  /* ---------------------------------------------------------------- */

  /**
   * `handle_esc` works out Home's distance, minus the insertion point,
   * before `cursor_move` substitutes the browsed entry, whose length then
   * becomes the insertion point. So Home lands `ins` bytes before the end
   * of the entry rather than at its start. The fixed build goes to 0.
   */
  lemma HomeWhileBrowsing(e: Esh)
    requires Sound(e) && e.hist.idx != 0
    ensures var w := Entry(e.hist.ring, Nth(e.hist, e.hist.idx - 1));
            && Key(AsWritten, e, 'H').Ok?
            && Key(AsWritten, e, 'H').value.ins == (if e.ins <= |w| then |w| - e.ins else 0)
            && Key(Fixed, e, 'H').Ok?
            && Key(Fixed, e, 'H').value.ins == 0
  {
    var w := Entry(e.hist.ring, Nth(e.hist, e.hist.idx - 1));
    SubstitutedEntry(AsWritten, e);
    SubstitutedEntry(Fixed, e);
    HomeAsWritten(e, |w|);
    HomeFixed(e);
  }

  /** Home as written: back by the old insertion point from the substituted line's. */
  lemma HomeAsWritten(e: Esh, n: nat)
    requires Shaped(e) && Substitute(AsWritten, e).Ok? && Substitute(AsWritten, e).value.0.ins == n
    ensures Key(AsWritten, e, 'H').Ok?
    ensures Key(AsWritten, e, 'H').value.ins == (if e.ins <= n then n - e.ins else 0)
  {
    assert Key(AsWritten, e, 'H') == CursorMove(AsWritten, e, KeyMotion(AsWritten, e, 'H'));
  }

  /** Home on the fixed build: the start of whatever line is being edited. */
  lemma HomeFixed(e: Esh)
    requires Shaped(e) && Substitute(Fixed, e).Ok?
    ensures Key(Fixed, e, 'H').Ok? && Key(Fixed, e, 'H').value.ins == 0
  {
    assert Key(Fixed, e, 'H') == CursorMove(Fixed, e, KeyMotion(Fixed, e, 'H'));
  }

  /** Substituting a browsed entry leaves the cursor at its end. */
  lemma SubstitutedEntry(b: Build, e: Esh)
    requires Sound(e) && e.hist.idx != 0
    ensures var w := Entry(e.hist.ring, Nth(e.hist, e.hist.idx - 1));
            && Substitute(b, e).Ok?
            && Substitute(b, e).value.0.cnt == |w|
            && Substitute(b, e).value.0.ins == |w|
  {
    var o := Nth(e.hist, e.hist.idx - 1);
    NthEntryFits(e.hist, e.hist.idx - 1);
    LoadEntry(b, e, o);
  }

  /** Loading a ring entry short enough for the line. */
  lemma LoadEntry(b: Build, e: Esh, o: int)
    requires Shaped(e) && 0 <= o < Len && |Entry(e.hist.ring, o)| < Config.BufferLen
    ensures Load(b, e, o).Ok?
    ensures Load(b, e, o).value.cnt == |Entry(e.hist.ring, o)|
    ensures Load(b, e, o).value.ins == |Entry(e.hist.ring, o)|
  {
  }

  /**
   * The line "ab" with the cursor at its end, one step up to the entry
   * "hello", then Home: the cursor lands after "hel".
   */
  lemma HomeLandsMidEntry(slots: Slots, argv: seq<nat>)
    requires |argv| == Config.ArgcMax
    ensures var e := Browsed(slots, argv);
            && Sound(e)
            && Key(AsWritten, e, 'H').Ok? && Key(AsWritten, e, 'H').value.ins == 3
            && Key(Fixed, e, 'H').Ok? && Key(Fixed, e, 'H').value.ins == 0
  {
    var e := Browsed(slots, argv);
    BrowsedSound(slots, argv);
    HomeWhileBrowsing(e);
  }

  const Hello: seq<Byte> := ['h', 'e', 'l', 'l', 'o']

  /** The state of the example above, just after the Up arrow. */
  function Browsed(slots: Slots, argv: seq<nat>): (e: Esh)
    ensures e.cnt == 2 && e.ins == 2 && e.hist.idx == 1
  {
    var h := Add(Hist(InitBuffer(), 0, 0), Hello).0;
    Esh(['a', 'b'] + seq(Config.BufferLen - 1, _ => NUL), argv, 2, 2, NoEscape, h.(idx := 1), slots)
  }

  /** The history of the example: one entry, "hello", right after the tail. */
  lemma HelloHistory()
    ensures var h := Add(Hist(InitBuffer(), 0, 0), Hello).0;
            && Tidy(h.(idx := 1)) && Valid(h)
            && Nth(h.(idx := 1), 0) != -1
            && Entry(h.ring, Nth(h.(idx := 1), 0)) == Hello
  {
    var h0 := Hist(InitBuffer(), 0, 0);
    var h := Add(h0, Hello).0;
    InitTidy(0);
    AddKeepsTidy(h0, Hello);
    AddThenNth(h0, Hello);
    TidyAnyIdx(h, 1);
    assert Scan(h.(idx := 1)) == Scan(h);
  }

  lemma BrowsedSound(slots: Slots, argv: seq<nat>)
    requires |argv| == Config.ArgcMax
    ensures var e := Browsed(slots, argv);
            Sound(e) && Entry(e.hist.ring, Nth(e.hist, 0)) == Hello
  {
    HelloHistory();
    var e := Browsed(slots, argv);
    assert e.buffer[..Held(e)] == ['a', 'b'];
  }
}
