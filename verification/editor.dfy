/**
 * The line editor of esh.c: `esh_rx` and the handlers it dispatches to, as
 * pure steps over the instance record. A step either faults (the C code
 * would write outside its buffer) or yields the next record together with
 * the callbacks it fired. Terminal output is not modelled.
 */
module Editor {
  import opened Bytes
  import opened Wrappers
  import Config
  import opened History
  import opened EshState
  import opened HistBuffer
  import ParseArgs
  import ArgParser

  /** What every handler relies on: the usual layout, and no NUL inside the line. */
  predicate Ready(e: Esh) {
    Shaped(e) && NUL !in e.buffer[..Held(e)]
  }

  /** A step that fires no callback. */
  function Quiet(r: Result<Esh>): (q: Result<(Esh, seq<Event>)>)
    ensures q.Ok? <==> r.Ok?
    ensures q.Ok? ==> q.value == (r.value, [])
    ensures q.Failed? ==> q.fault == r.fault
  {
    match r
    case Ok(e) => Ok((e, []))
    case Failed(f) => Failed(f)
  }

  /* ---------------------------------------------------------------- */
  /* Editing the line                                                 */
  /* ---------------------------------------------------------------- */

  /** The `memmove` and store of an insertion at `ins`, with the redraw's terminator. */
  function Insert(b: Build, e: Esh, c: Byte): (r: Result<Esh>)
    requires Shaped(e) && e.cnt < Config.BufferLen && c != NUL
    ensures r.Ok? && Shaped(r.value)
    ensures r.value == e.(buffer := r.value.buffer, cnt := e.cnt + 1, ins := e.ins + 1)
    ensures r.value.buffer[..r.value.cnt] == e.buffer[..e.ins] + [c] + e.buffer[e.ins..e.cnt]
    ensures forall k :: r.value.cnt < k < |e.buffer| ==> r.value.buffer[k] == e.buffer[k]
    ensures r.value.buffer[Config.BufferLen] in {e.buffer[Config.BufferLen], NUL}
  {
    var buf := e.buffer[..e.ins] + [c] + e.buffer[e.ins..e.cnt] + e.buffer[e.cnt + 1..];
    assert buf[..e.cnt + 1] == e.buffer[..e.ins] + [c] + e.buffer[e.ins..e.cnt];
    var e1 := e.(buffer := buf, cnt := e.cnt + 1, ins := e.ins + 1);
    if e.ins != e.cnt then Restore(b, e1) else Ok(e1)
  }

  /** The `memmove` of a deletion before `ins`, which starts at `buffer[ins - 1]`. */
  function Delete(b: Build, e: Esh): (r: Result<Esh>)
    requires Shaped(e) && e.cnt <= Config.BufferLen
    ensures e.ins == 0 ==> r == Failed(OutOfBounds(-1))
    ensures e.ins > 0 ==>
              && r.Ok? && Shaped(r.value)
              && r.value == e.(buffer := r.value.buffer, cnt := e.cnt - 1, ins := e.ins - 1)
              && r.value.buffer[..r.value.cnt] == e.buffer[..e.ins - 1] + e.buffer[e.ins..e.cnt]
              && (forall k :: r.value.cnt < k < |e.buffer| ==> r.value.buffer[k] == e.buffer[k])
              && r.value.buffer[Config.BufferLen] in {e.buffer[Config.BufferLen], NUL}
  {
    if e.ins == 0 then Failed(OutOfBounds(-1))
    else
      var buf := e.buffer[..e.ins - 1] + e.buffer[e.ins..e.cnt] + e.buffer[e.cnt - 1..];
      assert buf[..e.cnt - 1] == e.buffer[..e.ins - 1] + e.buffer[e.ins..e.cnt];
      var e1 := e.(buffer := buf, cnt := e.cnt - 1, ins := e.ins - 1);
      if e.ins != e.cnt then Restore(b, e1) else Ok(e1)
  }

  /**
   * `ins_del`: insert `c` before the insertion point, or with `c` = NUL
   * delete the byte before it, shifting the rest of the line with one
   * `memmove`. Deleting at the start of the line moves the line to
   * `buffer[-1]`.
   */
  function InsDel(b: Build, e: Esh, c: Byte): (r: Result<Esh>)
    requires Shaped(e) && e.cnt <= Config.BufferLen && (c != NUL ==> e.cnt < Config.BufferLen)
    ensures r.Ok? ==> Shaped(r.value) && r.value.cnt <= Config.BufferLen
    ensures r.Ok? ==> r.value == e.(buffer := r.value.buffer, cnt := r.value.cnt, ins := r.value.ins)
    ensures r.Ok? ==> forall k :: r.value.cnt < k < |e.buffer| ==> r.value.buffer[k] == e.buffer[k]
    ensures r.Ok? && NUL !in e.buffer[..e.cnt] ==> NUL !in r.value.buffer[..r.value.cnt]
    ensures r.Ok? ==> r.value.buffer[Config.BufferLen] in {e.buffer[Config.BufferLen], NUL}
    ensures c != NUL ==>
              && r.Ok?
              && r.value.cnt == e.cnt + 1 && r.value.ins == e.ins + 1
              && r.value.buffer[..r.value.cnt] == e.buffer[..e.ins] + [c] + e.buffer[e.ins..e.cnt]
    ensures c == NUL && e.ins == 0 ==> r == Failed(OutOfBounds(-1))
    ensures c == NUL && e.ins > 0 ==>
              && r.Ok?
              && r.value.cnt == e.cnt - 1 && r.value.ins == e.ins - 1
              && r.value.buffer[..r.value.cnt] == e.buffer[..e.ins - 1] + e.buffer[e.ins..e.cnt]
  {
    assert e.buffer[..e.cnt] == e.buffer[..e.ins] + e.buffer[e.ins..e.cnt];
    if c != NUL then Insert(b, e, c)
    else
      assert e.ins > 0 ==> e.buffer[..e.ins] == e.buffer[..e.ins - 1] + [e.buffer[e.ins - 1]];
      Delete(b, e)
  }

  /**
   * The distance a cursor key asks for. The C code works it out before
   * substituting a browsed entry; the fixed build resolves Home and End
   * against the line it actually moves in.
   */
  datatype Motion = By(n: int) | ToStart | ToEnd

  /**
   * `cursor_move`: substitute a browsed entry, then move the insertion point
   * by the requested distance, clamped to the line.
   */
  function CursorMove(b: Build, e: Esh, m: Motion): (r: Result<Esh>)
    requires Shaped(e)
    ensures r.Ok? <==> Substitute(b, e).Ok?
    ensures r.Ok? ==>
              var s := Substitute(b, e).value.0;
              && r.value == s.(ins := r.value.ins)
              && (m.By? && 0 <= s.ins + m.n <= s.cnt ==> r.value.ins == s.ins + m.n)
              && (m.By? && s.ins + m.n < 0 ==> r.value.ins == 0)
              && (m.By? && s.ins + m.n > s.cnt ==> r.value.ins == s.cnt)
              && (m == ToStart ==> r.value.ins == 0)
              && (m == ToEnd ==> r.value.ins == s.cnt)
  {
    var s :- Substitute(b, e);
    var e1 := s.0;
    var n := match m
      case By(d) => d
      case ToStart => -(e1.ins as int)
      case ToEnd => e1.cnt - e1.ins;
    var n' := if e1.ins + n < 0 then -(e1.ins as int) else if e1.ins + n > e1.cnt then e1.cnt - e1.ins else n;
    Ok(e1.(ins := e1.ins + n'))
  }

  /* ---------------------------------------------------------------- */
  /* The three handlers                                               */
  /* ---------------------------------------------------------------- */

  /** The overflow state: `cnt` one past the end and a NUL kept in the last slot. */
  function Park(e: Esh): (p: Esh)
    requires Shaped(e)
    ensures Shaped(p) && p == e.(buffer := p.buffer, cnt := Config.BufferLen + 1)
    ensures p.buffer[..Config.BufferLen] == e.buffer[..Config.BufferLen] && p.buffer[Config.BufferLen] == NUL
  {
    e.(cnt := Config.BufferLen + 1, buffer := e.buffer[Config.BufferLen := NUL])
  }

  /**
   * `handle_char`: insert a printable byte while the line has room;
   * otherwise enter (or stay in) the overflow state.
   */
  function HandleChar(b: Build, e: Esh, c: Byte): (r: Result<Esh>)
    requires Shaped(e) && IsPrint(c)
    ensures r.Ok? ==> Shaped(r.value) && r.value.hist.idx == 0
    ensures r.Ok? && NUL !in e.buffer[..Held(e)] ==> NUL !in r.value.buffer[..Held(r.value)]
    ensures e.hist.idx == 0 && e.cnt < Config.BufferLen ==>
              && r.Ok?
              && r.value.cnt == e.cnt + 1 && r.value.ins == e.ins + 1
              && r.value.buffer[..r.value.cnt] == e.buffer[..e.ins] + [c] + e.buffer[e.ins..e.cnt]
    ensures e.hist.idx == 0 && e.cnt >= Config.BufferLen ==> r == Ok(Park(e))
    // While browsing, the same two cases apply to the substituted line.
    ensures r.Ok? <==> Substitute(b, e).Ok?
    ensures r.Ok? ==>
              var s := Substitute(b, e).value.0;
              && (s.cnt < Config.BufferLen ==>
                    && r.value == s.(buffer := r.value.buffer, cnt := s.cnt + 1, ins := s.ins + 1)
                    && r.value.buffer[..r.value.cnt] == s.buffer[..s.ins] + [c] + s.buffer[s.ins..s.cnt])
              && (s.cnt >= Config.BufferLen ==> r.value == Park(s))
  {
    var s :- Substitute(b, e);
    var e1 := s.0;
    if e1.cnt < Config.BufferLen then InsDel(b, e1, c)
    else Ok(Park(e1))
  }

  /** `command_is_nop`: the line, read up to its NUL, is all white space. */
  predicate CommandIsNop(buffer: seq<Byte>) {
    forall k :: 0 <= k < |UntilNul(buffer)| ==> IsSpace(UntilNul(buffer)[k])
  }

  /** The loop of `command_is_nop`, which stops at the first NUL. */
  method CommandIsNopScan(buffer: seq<Byte>) returns (nop: bool)
    requires NUL in buffer
    ensures nop == CommandIsNop(buffer)
  {
    var line := UntilNul(buffer);
    assert |line| < |buffer|;
    var i := 0;
    while buffer[i] != NUL
      invariant i <= |line|
      invariant forall k :: 0 <= k < i ==> IsSpace(line[k])
      decreases |line| - i
    {
      if !IsSpace(buffer[i]) {
        return false;
      }
      i := i + 1;
    }
    return true;
  }

  /**
   * `execute_command` once any browsed entry has been substituted: an
   * overflowed line goes to the overflow callback. Otherwise the line is
   * terminated and, unless it is blank, added to history and split into
   * arguments: too many go to the overflow callback (which then sees the
   * rewritten buffer up to its first NUL, the line having been split in
   * place), otherwise
   * the command callback gets them. The line is emptied in every case.
   */
  function Complete(e: Esh): (r: (Esh, seq<Event>))
    requires Ready(e)
    ensures Ready(r.0) && r.0.cnt == 0 && r.0.ins == 0
    ensures r.0.flags == e.flags && r.0.slots == e.slots && r.0.hist.idx == e.hist.idx
    ensures |r.1| <= 1
  {
    if e.cnt >= Config.BufferLen then
      (e.(cnt := 0, ins := 0), [Overflow(e.slots.overflow, UntilNul(e.buffer))])
    else
      var e2 := e.(buffer := e.buffer[e.cnt := NUL]);
      assert e2.buffer[..e2.cnt] == e.buffer[..e.cnt];
      if CommandIsNop(e2.buffer) then (e2.(cnt := 0, ins := 0), [])
      else
        var h := Add(e2.hist, UntilNul(e2.buffer)).0;
        var p := ParseArgs.Parse(e2.buffer, e2.cnt, e2.argv);
        var e3 := e2.(buffer := p.buffer, argv := p.argv, hist := h, cnt := 0, ins := 0);
        if p.argc > Config.ArgcMax then (e3, [Overflow(e3.slots.overflow, UntilNul(p.buffer))])
        else if p.argc > 0 then
          (e3, [Command(e3.slots.command, ParseArgs.Arguments(p.buffer, p.argv, p.argc))])
        else (e3, [])
  }

  /** `execute_command`: substitute a browsed entry, then complete the line. */
  function ExecuteCommand(b: Build, e: Esh): (r: Result<(Esh, seq<Event>)>)
    requires Ready(e)
    ensures r.Ok? <==> Substitute(b, e).Ok?
    ensures r.Ok? ==> r.value == Complete(Substitute(b, e).value.0)
    ensures r.Ok? ==> Ready(r.value.0) && r.value.0.cnt == 0 && r.value.0.ins == 0
    ensures r.Ok? ==> r.value.0.flags == e.flags && r.value.0.slots == e.slots && r.value.0.hist.idx == 0
    ensures r.Ok? ==> |r.value.1| <= 1
  {
    var s :- Substitute(b, e);
    Ok(Complete(s.0))
  }

  /**
   * `handle_ctrl`: ESC opens an escape sequence, ^C abandons the line,
   * newline executes it, backspace and DEL delete before the cursor (the
   * C code guards only against an empty or overflowed line; the fixed
   * build also against a cursor at the start). Other bytes are ignored.
   */
  function HandleCtrl(b: Build, e: Esh, c: Byte): (r: Result<(Esh, seq<Event>)>)
    requires Ready(e)
    ensures r.Ok? ==> Ready(r.value.0)
    ensures c == ESC ==> r == Ok((e.(flags := e.flags.(escape := true)), []))
    ensures c == ETX ==> r.Ok? && r.value.1 == [] && r.value.0 == e.(cnt := 0, ins := 0)
    ensures c == '\n' ==> r == ExecuteCommand(b, e)
    ensures c !in {ESC, ETX, '\n', BS, DEL} ==> r == Ok((e, []))
    ensures c in {BS, DEL} ==> r == Quiet(Backspace(b, e))
  {
    if c == ESC then Ok((e.(flags := e.flags.(escape := true)), []))
    else if c == ETX then Ok((e.(cnt := 0, ins := 0), []))
    else if c == '\n' then ExecuteCommand(b, e)
    else if c == BS || c == DEL then Quiet(Backspace(b, e))
    else Ok((e, []))
  }

  /**
   * The backspace branch of `handle_ctrl`: substitute, then delete before
   * the cursor unless the line is empty or overflowed (the C code as
   * written), or also when the cursor is at the start (the fixed build).
   */
  function Backspace(b: Build, e: Esh): (r: Result<Esh>)
    requires Ready(e)
    ensures r.Ok? ==> Ready(r.value)
    ensures r.Ok? <==> (Substitute(b, e).Ok? &&
              var s := Substitute(b, e).value.0;
              !(s.cnt > 0 && s.cnt <= Config.BufferLen && s.ins == 0 && b == AsWritten))
    ensures Substitute(b, e).Ok? ==>
              var s := Substitute(b, e).value.0;
              && (0 < s.cnt <= Config.BufferLen && s.ins > 0 ==>
                    && r.Ok?
                    && r.value == s.(buffer := r.value.buffer, cnt := s.cnt - 1, ins := s.ins - 1)
                    && r.value.buffer[..r.value.cnt] == s.buffer[..s.ins - 1] + s.buffer[s.ins..s.cnt])
              && (0 < s.cnt <= Config.BufferLen && s.ins == 0 && b == AsWritten ==> r == Failed(OutOfBounds(-1)))
              && (!(0 < s.cnt <= Config.BufferLen) || (s.ins == 0 && b == Fixed) ==> r == Ok(s))
  {
    var s :- Substitute(b, e);
    var e1 := s.0;
    if e1.cnt > 0 && e1.cnt <= Config.BufferLen && (b == AsWritten || e1.ins > 0) then
      InsDel(b, e1, NUL)
    else Ok(e1)
  }

  /**
   * Up and Down arrows: move through history, never above the oldest
   * entry; coming back to 0 redraws the line being edited.
   */
  function Browse(b: Build, e: Esh, c: Byte): (r: Result<Esh>)
    requires Shaped(e) && (c == 'A' || c == 'B')
    ensures r.Ok? ==> r.value == e.(buffer := r.value.buffer, hist := e.hist.(idx := r.value.hist.idx))
    ensures c == 'A' && Nth(e.hist, e.hist.idx) != -1 ==> r == Ok(e.(hist := e.hist.(idx := e.hist.idx + 1)))
    ensures c == 'A' && Nth(e.hist, e.hist.idx) == -1 ==> r == Ok(e)
    ensures c == 'B' && e.hist.idx > 1 ==> r == Ok(e.(hist := e.hist.(idx := e.hist.idx - 1)))
    ensures c == 'B' && e.hist.idx <= 1 ==> r == Restore(b, e.(hist := e.hist.(idx := 0)))
  {
    var idx := if c == 'A' then e.hist.idx + 1 else if e.hist.idx != 0 then e.hist.idx - 1 else 0;
    var h := e.hist.(idx := idx);
    if idx != 0 then
      var offset := Nth(h, idx - 1);
      if offset >= 0 || c == 'B' then Ok(e.(hist := h))
      else Ok(e.(hist := h.(idx := idx - 1)))
    else Restore(b, e.(hist := h))
  }

  /** The flags after the last byte of a bracket or numeric sequence. */
  function EscFlags(f: Flags, c: Byte): (g: Flags)
    ensures IsDigit(c) ==> g == Flags(true, true, true)
    ensures !IsDigit(c) && f.numeric && c != '~' && !IsAlpha(c) ==> g == f
    ensures !IsDigit(c) && !(f.numeric && c != '~' && !IsAlpha(c)) ==> g == NoEscape
  {
    if IsDigit(c) then Flags(true, true, true)
    else if f.numeric then (if c == '~' || IsAlpha(c) then NoEscape else f)
    else NoEscape
  }

  /** The key an escape sequence's final byte selects: arrows, Home and End. */
  function Key(b: Build, e: Esh, c: Byte): (r: Result<Esh>)
    requires Shaped(e)
    ensures r.Ok? ==> Shaped(r.value) && r.value.flags == e.flags
    ensures r.Ok? && NUL !in e.buffer[..Held(e)] ==> NUL !in r.value.buffer[..Held(r.value)]
    ensures c !in {'A', 'B', 'C', 'D', 'H', 'F'} ==> r == Ok(e)
    ensures c == 'A' || c == 'B' ==> r == Browse(b, e, c)
    ensures c in {'C', 'D', 'H', 'F'} ==> r == CursorMove(b, e, KeyMotion(b, e, c))
  {
    if c == 'A' || c == 'B' then Browse(b, e, c)
    else if c in {'C', 'D', 'H', 'F'} then CursorMove(b, e, KeyMotion(b, e, c))
    else Ok(e)
  }

  /**
   * The motion of a cursor key: left and right by one; Home and End by the
   * distance to the ends of the line being edited, worked out as written
   * before any substitution.
   */
  function KeyMotion(b: Build, e: Esh, c: Byte): (m: Motion)
    ensures c == 'D' ==> m == By(-1)
    ensures c == 'C' ==> m == By(1)
    ensures c == 'H' ==> m == if b == AsWritten then By(-(e.ins as int)) else ToStart
    ensures c == 'F' ==> m == if b == AsWritten then By(e.cnt - e.ins) else ToEnd
  {
    if c == 'D' then By(-1)
    else if c == 'C' then By(1)
    else if c == 'H' then (if b == AsWritten then By(-(e.ins as int)) else ToStart)
    else (if b == AsWritten then By(e.cnt - e.ins) else ToEnd)
  }

  /**
   * `handle_esc`: a digit (re)enters numeric mode; any other byte ends a
   * bracket sequence, and a numeric one only at `~` or a letter. A byte
   * that is not a digit then selects a key.
   */
  function HandleEsc(b: Build, e: Esh, c: Byte): (r: Result<Esh>)
    requires Shaped(e)
    ensures r.Ok? ==> Shaped(r.value) && r.value.flags == EscFlags(e.flags, c)
    ensures r.Ok? && NUL !in e.buffer[..Held(e)] ==> NUL !in r.value.buffer[..Held(r.value)]
    ensures IsDigit(c) ==> r == Ok(e.(flags := Flags(true, true, true)))
    ensures !IsDigit(c) ==> r == Key(b, e.(flags := EscFlags(e.flags, c)), c)
  {
    if IsDigit(c) then Ok(e.(flags := Flags(true, true, true)))
    else Key(b, e.(flags := EscFlags(e.flags, c)), c)
  }

  /* ---------------------------------------------------------------- */
  /* Receiving bytes                                                  */
  /* ---------------------------------------------------------------- */

  /**
   * `esh_rx`: inside a bracket sequence every byte goes to `handle_esc`;
   * right after ESC only `[` or `O` continues the sequence; otherwise
   * printable ASCII is text and everything else a control byte.
   */
  function Rx(b: Build, e: Esh, c: Byte): (r: Result<(Esh, seq<Event>)>)
    requires Ready(e)
    ensures r.Ok? ==> Ready(r.value.0)
    ensures r.Ok? && r.value.1 != [] ==> !e.flags.escape && c == '\n'
    ensures !e.flags.bracket && !e.flags.numeric && e.flags.escape ==>
              r == Ok((e.(flags := if c == '[' || c == 'O' then e.flags.(bracket := true)
                                    else e.flags.(escape := false, bracket := false)), []))
    ensures e.flags.bracket || e.flags.numeric ==> r == Quiet(HandleEsc(b, e, c))
    ensures !e.flags.bracket && !e.flags.numeric && !e.flags.escape ==>
              r == if IsPrint(c) && IsAscii(c) then Quiet(HandleChar(b, e, c)) else HandleCtrl(b, e, c)
  {
    if e.flags.bracket || e.flags.numeric then Quiet(HandleEsc(b, e, c))
    else if e.flags.escape then
      Ok((e.(flags := if c == '[' || c == 'O' then e.flags.(bracket := true)
                      else e.flags.(escape := false, bracket := false)), []))
    else if IsPrint(c) && IsAscii(c) then Quiet(HandleChar(b, e, c))
    else HandleCtrl(b, e, c)
  }

  /** Feeding a whole input to `esh_rx`, byte by byte, collecting the callbacks fired. */
  function Run(b: Build, e: Esh, input: seq<Byte>): (r: Result<(Esh, seq<Event>)>)
    requires Ready(e)
    ensures r.Ok? ==> Ready(r.value.0)
    decreases |input|
  {
    if input == [] then Ok((e, []))
    else
      var s :- Rx(b, e, input[0]);
      var t :- Run(b, s.0, input[1..]);
      Ok((t.0, s.1 + t.1))
  }
}
