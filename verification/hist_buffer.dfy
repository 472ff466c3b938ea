/**
 * The part of esh_hist.c that touches the edit buffer: copying a history
 * entry into it (`clobber_cb`, `clobber_buffer`) and `esh_hist_substitute`,
 * which every editing key calls first so that a browsed entry becomes the
 * line being edited.
 */
module HistBuffer {
  import opened Bytes
  import opened Wrappers
  import Config
  import opened History
  import opened EshState

  /**
   * `clobber_cb`: append one byte to the line. The C code has no bound; a
   * byte that would land past the buffer is a fault.
   */
  function ClobberCb(st: Result<Esh>, c: Byte): (r: (Result<Esh>, bool))
    ensures !r.1
    ensures st.Failed? ==> r.0 == st
    ensures st.Ok? && st.value.cnt >= |st.value.buffer| ==> r.0 == Failed(OutOfBounds(st.value.cnt))
    ensures st.Ok? && st.value.cnt < |st.value.buffer| ==>
              && r.0.Ok? && r.0.value.buffer == st.value.buffer[st.value.cnt := c]
              && r.0.value == st.value.(buffer := r.0.value.buffer, cnt := st.value.cnt + 1, ins := st.value.ins + 1)
  {
    match st
    case Failed(_) => (st, false)
    case Ok(e) =>
      if e.cnt < |e.buffer| then
        (Ok(e.(buffer := e.buffer[e.cnt := c], cnt := e.cnt + 1, ins := e.ins + 1)), false)
      else (Failed(OutOfBounds(e.cnt)), false)
  }

  lemma {:induction false} FoldFailed(f: Fault, w: seq<Byte>)
    ensures FoldStop(ClobberCb, Failed(f), w) == Failed(f)
    decreases |w|
  {
    if w != [] {
      FoldFailed(f, w[1..]);
    }
  }

  /** Copying `w` byte by byte at `cnt`, as `for_each_char` drives `clobber_cb`. */
  lemma {:induction false} ClobberFold(e: Esh, w: seq<Byte>)
    requires e.cnt <= |e.buffer|
    ensures e.cnt + |w| <= |e.buffer| ==>
              FoldStop(ClobberCb, Ok(e), w)
                == Ok(e.(buffer := e.buffer[..e.cnt] + w + e.buffer[e.cnt + |w|..],
                         cnt := e.cnt + |w|, ins := e.ins + |w|))
    ensures e.cnt + |w| > |e.buffer| ==> FoldStop(ClobberCb, Ok(e), w) == Failed(OutOfBounds(|e.buffer|))
    decreases |w|
  {
    if w != [] {
      if e.cnt < |e.buffer| {
        var e1 := e.(buffer := e.buffer[e.cnt := w[0]], cnt := e.cnt + 1, ins := e.ins + 1);
        assert FoldStop(ClobberCb, Ok(e), w) == FoldStop(ClobberCb, Ok(e1), w[1..]);
        ClobberFold(e1, w[1..]);
        if e.cnt + |w| <= |e.buffer| {
          var A, C := e.buffer[..e.cnt], e.buffer[e.cnt + |w|..];
          assert e1.buffer[..e1.cnt] == A + [w[0]];
          assert e1.buffer[e1.cnt + |w[1..]|..] == C;
          assert (A + [w[0]]) + w[1..] + C == A + w + C by {
            assert [w[0]] + w[1..] == w;
          }
        }
      } else {
        FoldFailed(OutOfBounds(e.cnt), w[1..]);
      }
    } else {
      assert e.buffer[..e.cnt] + w + e.buffer[e.cnt..] == e.buffer;
    }
  }

  /**
   * `clobber_buffer`: an offset outside the ring leaves the state alone;
   * otherwise the line becomes the entry stored there, with the insertion
   * point at its end. Only an entry longer than the buffer faults.
   */
  function ClobberBuffer(e: Esh, offset: int): (r: Result<Esh>)
    requires Shaped(e)
    ensures offset < 0 || offset >= Len ==> r == Ok(e)
    ensures 0 <= offset < Len ==>
              var w := Entry(e.hist.ring, offset);
              && (|w| <= |e.buffer| ==>
                    && r.Ok?
                    && r.value == e.(buffer := r.value.buffer, cnt := |w|, ins := |w|)
                    && |r.value.buffer| == |e.buffer|
                    && r.value.buffer[..|w|] == w
                    && r.value.buffer[|w|..] == e.buffer[|w|..])
              && (|w| > |e.buffer| ==> r == Failed(OutOfBounds(|e.buffer|)))
  {
    if offset < 0 || offset >= Len then Ok(e)
    else
      var e0 := e.(cnt := 0, ins := 0);
      var w := Entry(e.hist.ring, offset);
      ClobberFold(e0, w);
      FoldStop(ClobberCb, Ok(e0), w)
  }

  /**
   * `clobber_buffer` followed by `esh_restore`: what substitution does to
   * the line once it has picked the ring offset to load.
   */
  function Load(b: Build, e: Esh, offset: int): (r: Result<Esh>)
    requires Shaped(e)
    ensures r.Ok? ==> Shaped(r.value) && r.value == e.(buffer := r.value.buffer, cnt := r.value.cnt, ins := r.value.ins)
    ensures r.Ok? && NUL !in e.buffer[..Held(e)] ==> NUL !in r.value.buffer[..Held(r.value)]
    // Nothing selected: the line stays as it was, only terminated.
    ensures offset < 0 || offset >= Len ==>
              && (r.Failed? <==> b == AsWritten && e.cnt > Config.BufferLen)
              && (r.Ok? ==> && r.value.cnt == e.cnt && r.value.ins == e.ins
                            && r.value.buffer[..Held(e)] == e.buffer[..Held(e)]
                            && (forall k :: Held(e) < k < |e.buffer| ==> r.value.buffer[k] == e.buffer[k])
                            && (e.cnt <= Config.BufferLen ==> r.value.buffer[e.cnt] == NUL)
                            && (e.cnt > Config.BufferLen ==> r.value.buffer == e.buffer))
    // An entry selected: it becomes the line.
    ensures 0 <= offset < Len ==>
              var w := Entry(e.hist.ring, offset);
              |w| < Config.BufferLen ==>
                && r.Ok?
                && r.value.cnt == |w| && r.value.ins == |w|
                && r.value.buffer[..|w|] == w && r.value.buffer[|w|] == NUL
                && r.value.buffer[|w| + 1..] == e.buffer[|w| + 1..]
  {
    var e1 :- ClobberBuffer(e, offset);
    Restore(b, e1)
  }

  /**
   * `esh_hist_substitute`. When browsing (`idx` ≠ 0) the selected entry
   * replaces the line, the line is terminated, browsing stops, and the
   * answer is true; otherwise nothing changes and the answer is false.
   */
  function Substitute(b: Build, e: Esh): (r: Result<(Esh, bool)>)
    requires Shaped(e)
    ensures e.hist.idx == 0 ==> r == Ok((e, false))
    ensures r.Ok? ==> (r.value.1 <==> e.hist.idx != 0)
    ensures r.Ok? ==> Shaped(r.value.0)
    ensures r.Ok? && e.hist.idx != 0 ==>
              r.value.0 == e.(buffer := r.value.0.buffer, cnt := r.value.0.cnt, ins := r.value.0.ins,
                              hist := e.hist.(idx := 0))
    ensures r.Ok? && NUL !in e.buffer[..Held(e)] ==> NUL !in r.value.0.buffer[..Held(r.value.0)]
    ensures e.hist.idx != 0 ==>
              var o := Nth(e.hist, e.hist.idx - 1);
              && (r.Failed? <==> Load(b, e, o).Failed?)
              && (r.Ok? ==> r.value.0 == Load(b, e, o).value.(hist := e.hist.(idx := 0)))
  {
    if e.hist.idx == 0 then Ok((e, false))
    else
      var e2 :- Load(b, e, Nth(e.hist, e.hist.idx - 1));
      Ok((e2.(hist := e2.hist.(idx := 0)), true))
  }
}
