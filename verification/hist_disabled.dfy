/**
 * The history interface when ESH_HIST_ALLOC is not defined (esh_hist.h): the
 * record keeps only a browse index and every operation is a stub. It is
 * related here to the real ring: the stubs answer exactly as a ring that
 * never holds an entry does.
 */
module HistDisabled {
  import opened Bytes
  import opened Wrappers
  import opened History
  import opened HistoryProps
  import opened EshState
  import opened HistBuffer
  import opened Editor

  /** `struct esh_hist` without a ring. */
  datatype Stub = Stub(idx: nat)

  /** `esh_hist_init`: nothing to set up, never an error. */
  function StubInit(s: Stub): (r: (Stub, bool))
    ensures !r.1 && r.0 == s
  {
    (s, false)
  }

  /** `esh_hist_nth`: there is never an n-th entry. */
  function StubNth(s: Stub, n: int): (o: int)
    ensures o < 0
  {
    -1
  }

  /** `esh_hist_add`: nothing fits, so the answer is always "overflowed". */
  function StubAdd(s: Stub, w: seq<Byte>): (r: (Stub, bool))
    ensures r.1 && r.0 == s
  {
    (s, true)
  }

  /** `esh_hist_for_each_char`: the callback is never called. */
  function StubForEachChar<S>(s: Stub, offset: int, cb: (S, Byte) -> (S, bool), st: S): (r: S)
    ensures r == FoldStop(cb, st, [])
  {
    st
  }

  /** `esh_hist_substitute`: never browsing, so never a substitution. */
  function StubSubstitute(e: Esh): (r: (Esh, bool))
    ensures r.0 == e && !r.1
  {
    (e, false)
  }

  /**
   * The stub's `nth` is the real one's on a freshly initialised ring, for
   * every count and every browse index.
   */
  lemma StubNthIsEmptyRing(s: Stub, n: int, idx: int)
    ensures StubNth(s, n) == Nth(Hist(InitBuffer(), 0, idx), n)
  {
    InitHasNoEntries(idx, n);
  }

  /**
   * The stub's `add` answers as the real one does for a string too long
   * for the ring: overflow, and afterwards no entry to find.
   */
  lemma StubAddIsOverflow(s: Stub, h: Hist, w: seq<Byte>, n: int)
    requires Valid(h) && NUL !in w && |w| + 1 > Len - 2
    ensures StubAdd(s, w).1 == Add(h, w).1
    ensures StubNth(StubAdd(s, w).0, n) == Nth(Add(h, w).0, n)
  {
    InitHasNoEntries(h.idx, n);
  }

  /**
   * With a ring that holds no entry the editor never leaves the line
   * being edited: Up finds nothing to show, and substituting does
   * nothing, as with the stubs.
   */
  lemma EmptyRingNeverBrowses(b: Build, e: Esh)
    requires Shaped(e) && e.hist == Hist(InitBuffer(), 0, 0)
    ensures Browse(b, e, 'A') == Ok(e)
    ensures Substitute(b, e) == Ok(StubSubstitute(e))
  {
    InitHasNoEntries(0, 0);
  }
}
