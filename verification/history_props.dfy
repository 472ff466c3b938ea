/**
 * Properties of the history ring: what adding and then looking up an entry
 * gives back, and the invariant that keeps every entry small enough for the
 * edit buffer.
 */
module HistoryProps {
  import opened Bytes
  import Config
  import opened History

  /* ---------------------------------------------------------------- */
  /* Looking up what was just added                                   */
  /* ---------------------------------------------------------------- */

  /** Skipping a stretch without terminators leaves the positions found unchanged. */
  lemma {:induction false} NulsSkip(d: seq<Byte>, a: nat, b: nat)
    requires a <= b <= |d|
    requires forall k :: a <= k < b ==> d[k] != NUL
    ensures NulsFrom(d, a) == NulsFrom(d, b)
    decreases b - a
  {
    if a < b {
      NulsSkip(d, a + 1, b);
    }
  }

  /** The slots the scan meets first after an add: the new entry, backwards, then the old terminator. */
  lemma ScanAfterAdd(h: Hist, w: seq<Byte>, k: nat)
    requires Valid(h) && h.ring[h.tail] == NUL && NUL !in w && |w| + 1 <= Len - 2
    requires k <= |w|
    ensures k < |w| ==> Scan(Add(h, w).0)[k] == w[|w| - 1 - k]
    ensures k == |w| ==> Scan(Add(h, w).0)[k] == NUL
  {
    var h' := Add(h, w).0;
    if k < |w| {
      assert Back(h'.tail, k + 1) == Fwd(h.tail, |w| - 1 - k + 1);
    } else {
      assert Back(h'.tail, k + 1) == h.tail;
      assert Ahead(h.tail, h.tail) == Len - 1;
    }
  }

  lemma EntryIs(ring: seq<Byte>, o: int, w: seq<Byte>)
    requires |ring| == Len && 0 <= o < Len && |w| < Len - 1
    requires forall k :: 0 <= k < |w| ==> ring[Fwd(o, k)] == w[k]
    requires ring[Fwd(o, |w|)] == NUL && NUL !in w
    ensures Entry(ring, o) == w
  {
    var e := Entry(ring, o);
    assert |e| == |w|;
  }

  /** After an add the first terminator the scan meets is the old one, just before the new entry. */
  lemma FirstNulAfterAdd(h: Hist, w: seq<Byte>)
    requires Valid(h) && h.ring[h.tail] == NUL && NUL !in w && |w| + 1 <= Len - 2
    ensures |NulsFrom(Scan(Add(h, w).0), 0)| > 0 && NulsFrom(Scan(Add(h, w).0), 0)[0] == |w|
  {
    var d := Scan(Add(h, w).0);
    forall k | 0 <= k < |w|
      ensures d[k] != NUL
    {
      ScanAfterAdd(h, w, k);
      assert w[|w| - 1 - k] in w;
    }
    ScanAfterAdd(h, w, |w|);
    NulsSkip(d, 0, |w|);
  }

  /** The bytes of the new entry lie forward from the slot after the old `tail`. */
  lemma NewEntry(h: Hist, w: seq<Byte>, h': Hist)
    requires Valid(h) && Valid(h') && NUL !in w && |w| + 1 <= Len - 2
    requires h'.tail == Fwd(h.tail, |w| + 1) && h'.ring[h'.tail] == NUL
    requires forall k :: 0 <= k < |w| ==> h'.ring[Fwd(h.tail, k + 1)] == w[k]
    ensures Entry(h'.ring, Fwd(h.tail, 1)) == w
  {
    var o := Fwd(h.tail, 1);
    forall k | 0 <= k < |w|
      ensures h'.ring[Fwd(o, k)] == w[k]
    {
      assert Fwd(o, k) == Fwd(h.tail, k + 1);
    }
    assert Fwd(o, |w|) == h'.tail;
    EntryIs(h'.ring, o, w);
  }

  /**
   * From a ring whose `tail` slot holds a terminator, a successful add of
   * `w` makes `w` the newest entry: `esh_hist_nth(0)` is the slot after the
   * old `tail`, and walking from there yields exactly `w`.
   */
  lemma AddThenNth(h: Hist, w: seq<Byte>)
    requires Valid(h) && h.ring[h.tail] == NUL && NUL !in w
    requires !Add(h, w).1
    ensures Nth(Add(h, w).0, 0) == Fwd(h.tail, 1)
    ensures Entry(Add(h, w).0.ring, Nth(Add(h, w).0, 0)) == w
  {
    var h' := Add(h, w).0;
    FirstNulAfterAdd(h, w);
    NthIsScan(h', 0);
    assert Back(h'.tail, |w|) == Fwd(h.tail, 1);
    NewEntry(h, w, h');
  }

  /** A freshly initialised ring holds no entry at all. */
  lemma InitHasNoEntries(idx: int, n: int)
    ensures Nth(Hist(InitBuffer(), 0, idx), n) == -1
  {
    var h := Hist(InitBuffer(), 0, idx);
    var d := Scan(h);
    forall k | 0 <= k < Len - 2
      ensures d[k] != NUL
    {
      assert Back(0, k + 1) == Len - k - 1;
    }
    NulsSkip(d, 0, Len - 2);
    NthIsScan(h, n);
  }

  /* ---------------------------------------------------------------- */
  /* The ring read from oldest to newest                              */
  /* ---------------------------------------------------------------- */

  /** The ring read forward from the slot after `tail`; it ends with the `tail` slot. */
  function Lin(h: Hist): (L: seq<Byte>)
    requires Valid(h)
    ensures |L| == Len
    ensures forall k :: 0 <= k < Len ==> L[k] == h.ring[Fwd(h.tail, k + 1)]
    ensures L[Len - 1] == h.ring[h.tail]
  {
    seq(Len, k requires 0 <= k < Len => h.ring[Fwd(h.tail, k + 1)])
  }

  /**
   * The shape of a linearised ring: `f` fill bytes never written, then
   * printable bytes and terminators, ending with a terminator, with a
   * terminator in every stretch as long as the edit buffer.
   */
  predicate TidySeq(L: seq<Byte>, f: int) {
    0 <= f < |L| && |L| == Len
    && (forall k :: 0 <= k < f ==> L[k] == FILL)
    && (forall k :: f <= k < |L| ==> L[k] == NUL || IsPrint(L[k]))
    && L[|L| - 1] == NUL
    && (forall a :: f <= a <= |L| - Config.BufferLen ==> NulWithin(L, a))
  }

  /** A terminator among the edit-buffer-length stretch of `L` starting at `a`. */
  predicate NulWithin(L: seq<Byte>, a: int)
    requires 0 <= a <= |L| - Config.BufferLen
  {
    NUL in L[a..a + Config.BufferLen]
  }

  /** The history invariant: every ring `esh_init` and `esh_hist_add` can leave behind has this shape. */
  predicate Tidy(h: Hist) {
    Valid(h) && exists f :: 0 <= f < Len && TidySeq(Lin(h), f)
  }

  lemma InitTidy(idx: int)
    ensures Tidy(Hist(InitBuffer(), 0, idx))
  {
    var h := Hist(InitBuffer(), 0, idx);
    var L := Lin(h);
    forall k | 0 <= k < Len - 1
      ensures L[k] == FILL
    {
      assert Fwd(0, k + 1) == k + 1;
    }
    assert TidySeq(L, Len - 1);
  }

  /**
   * One position of the ring read forward from the new `tail`, for any ring
   * related to the old one the way a successful `esh_hist_add` relates them.
   */
  lemma ShiftedSlot(ring: seq<Byte>, tail: int, w: seq<Byte>, ring': seq<Byte>, tail': int, k: int)
    requires |ring| == Len && |ring'| == Len && 0 <= tail < Len && |w| + 1 <= Len - 2
    requires tail' == Fwd(tail, |w| + 1) && ring'[tail'] == NUL
    requires forall k :: 0 <= k < |w| ==> ring'[Fwd(tail, k + 1)] == w[k]
    requires forall j :: 0 <= j < Len && Ahead(tail, j) > |w| ==> ring'[j] == ring[j]
    requires 0 <= k < Len
    ensures k < Len - (|w| + 1) ==> ring'[Fwd(tail', k + 1)] == ring[Fwd(tail, |w| + 1 + k + 1)]
    ensures k >= Len - (|w| + 1) ==> ring'[Fwd(tail', k + 1)] == (w + [NUL])[k - (Len - (|w| + 1))]
  {
    var d := |w| + 1;
    if k < Len - d {
      assert Fwd(tail', k + 1) == Fwd(tail, d + k + 1);
      assert Ahead(tail, Fwd(tail, d + k + 1)) == d + k;
    } else {
      var k' := k - (Len - d);
      assert Fwd(tail', k + 1) == Fwd(tail, k' + 1);
    }
  }

  /** The linearised ring after any change of the kind a successful add makes. */
  lemma ShiftedLin(h: Hist, w: seq<Byte>, h': Hist)
    requires Valid(h) && Valid(h') && |w| + 1 <= Len - 2
    requires h'.tail == Fwd(h.tail, |w| + 1) && h'.ring[h'.tail] == NUL
    requires forall k :: 0 <= k < |w| ==> h'.ring[Fwd(h.tail, k + 1)] == w[k]
    requires forall j :: 0 <= j < Len && Ahead(h.tail, j) > |w| ==> h'.ring[j] == h.ring[j]
    ensures Lin(h') == Lin(h)[|w| + 1..] + (w + [NUL])
  {
    var d := |w| + 1;
    var L, L' := Lin(h), Lin(h');
    var R := L[d..] + (w + [NUL]);
    forall k | 0 <= k < Len
      ensures L'[k] == R[k]
    {
      ShiftedSlot(h.ring, h.tail, w, h'.ring, h'.tail, k);
      if k < Len - d {
        assert R[k] == L[d + k];
      } else {
        assert R[k] == (w + [NUL])[k - (Len - d)];
      }
    }
    assert L' == R;
  }

  /** After a successful add the linearised ring has moved on by the entry and its terminator. */
  lemma LinAfterAdd(h: Hist, w: seq<Byte>)
    requires Valid(h) && NUL !in w && !Add(h, w).1
    ensures Lin(Add(h, w).0) == Lin(h)[|w| + 1..] + (w + [NUL])
  {
    ShiftedLin(h, w, Add(h, w).0);
  }

  /** A terminator lies in every long stretch of the shifted sequence. */
  lemma ShiftWindows(L: seq<Byte>, f: int, w: seq<Byte>, a: int)
    requires TidySeq(L, f) && |w| < Config.BufferLen
    requires var d := |w| + 1; d < |L| && (if f >= d then f - d else 0) <= a <= |L| - Config.BufferLen
    ensures NulWithin(L[|w| + 1..] + (w + [NUL]), a)
  {
    var d := |w| + 1;
    var L' := L[d..] + (w + [NUL]);
    var B := Config.BufferLen;
    if a + B <= |L| - d {
      assert NulWithin(L, a + d);
      assert L'[a..a + B] == L[a + d..a + d + B];
    } else if a <= |L| - d - 1 {
      assert L'[a..a + B][|L| - d - 1 - a] == L[|L| - 1];
    } else {
      assert L'[a..a + B][B - 1] == L'[|L| - 1];
    }
  }

  /** The invariant of the linearised ring survives appending a short printable entry. */
  lemma TidyShift(L: seq<Byte>, f: int, w: seq<Byte>)
    requires TidySeq(L, f) && AllPrint(w) && |w| < Config.BufferLen && |w| + 1 <= Len - 2
    ensures TidySeq(L[|w| + 1..] + (w + [NUL]), if f >= |w| + 1 then f - (|w| + 1) else 0)
  {
    var d := |w| + 1;
    var L' := L[d..] + (w + [NUL]);
    var f' := if f >= d then f - d else 0;
    forall k | 0 <= k < f'
      ensures L'[k] == FILL
    {
      assert L'[k] == L[k + d];
    }
    forall k | f' <= k < |L'|
      ensures L'[k] == NUL || IsPrint(L'[k])
    {
      if k < |L| - d {
        assert L'[k] == L[k + d];
      } else if k < |L| - 1 {
        assert L'[k] == w[k - (|L| - d)];
      }
    }
    forall a | f' <= a <= |L'| - Config.BufferLen
      ensures NulWithin(L', a)
    {
      ShiftWindows(L, f, w, a);
    }
  }

  /**
   * `esh_hist_add` keeps the history invariant for every command the line
   * editor can hand it: printable and shorter than the edit buffer.
   */
  lemma AddKeepsTidy(h: Hist, w: seq<Byte>)
    requires Tidy(h) && AllPrint(w) && |w| < Config.BufferLen
    ensures NUL !in w
    ensures Tidy(Add(h, w).0)
  {
    assert forall c :: c in w ==> IsPrint(c);
    var f :| 0 <= f < Len && TidySeq(Lin(h), f);
    LinAfterAdd(h, w);
    TidyShift(Lin(h), f, w);
  }

  /* ---------------------------------------------------------------- */
  /* What a lookup can hand to the edit buffer                        */
  /* ---------------------------------------------------------------- */

  /** A stretch of a tidy sequence at least as long as the edit buffer holds a terminator. */
  lemma LongStretchHasNul(L: seq<Byte>, f: int, p: int, e: seq<Byte>)
    requires TidySeq(L, f) && f <= p + 1 && |e| >= Config.BufferLen && p + 1 + |e| <= |L|
    requires forall k :: 0 <= k < |e| ==> e[k] == L[p + 1 + k]
    ensures NUL in e
  {
    assert NulWithin(L, p + 1);
    assert L[p + 1..p + 1 + Config.BufferLen] == e[..Config.BufferLen];
  }

  /** A stretch that starts after a terminator of a tidy sequence is printable and short. */
  lemma StretchInTidy(L: seq<Byte>, f: int, p: int, e: seq<Byte>)
    requires TidySeq(L, f) && 0 <= p < |L| && L[p] == NUL && NUL !in e
    requires p + 1 + |e| <= |L|
    requires forall k :: 0 <= k < |e| ==> e[k] == L[p + 1 + k]
    ensures AllPrint(e) && |e| < Config.BufferLen
  {
    assert p >= f;
    forall k | 0 <= k < |e|
      ensures IsPrint(e[k])
    {
      assert e[k] in e;
    }
    if |e| >= Config.BufferLen {
      LongStretchHasNul(L, f, p, e);
      assert false;
    }
  }

  /** The entry at the slot holding linear position `p + 1` is the stretch of `Lin` there. */
  lemma EntryInLin(h: Hist, p: int)
    requires Valid(h) && h.ring[h.tail] == NUL && 0 <= p < Len - 1
    ensures var e := Entry(h.ring, Fwd(h.tail, p + 2));
      p + 1 + |e| <= Len && forall k :: 0 <= k < |e| ==> e[k] == Lin(h)[p + 1 + k]
  {
    var o := Fwd(h.tail, p + 2);
    var e := Entry(h.ring, o);
    var L := Lin(h);
    assert Fwd(o, Len - 2 - p) == h.tail;
    forall k | 0 <= k < |e|
      ensures e[k] == L[p + 1 + k]
    {
      assert Fwd(o, k) == Fwd(h.tail, p + 2 + k);
    }
  }

  /**
   * Under the history invariant every entry a lookup can find is printable
   * and shorter than the edit buffer, so copying it in never overruns.
   */
  lemma NthEntryFits(h: Hist, n: int)
    requires Tidy(h) && Nth(h, n) != -1
    ensures AllPrint(Entry(h.ring, Nth(h, n))) && |Entry(h.ring, Nth(h, n))| < Config.BufferLen
  {
    var f :| 0 <= f < Len && TidySeq(Lin(h), f);
    var d := Scan(h);
    var z := NulsFrom(d, 0);
    NthIsScan(h, n);
    var K := z[n];
    var p := Len - 2 - K;
    assert Back(h.tail, K + 1) == Fwd(h.tail, p + 1);
    assert Lin(h)[p] == NUL;
    assert Nth(h, n) == Fwd(h.tail, p + 2);
    EntryInLin(h, p);
    StretchInTidy(Lin(h), f, p, Entry(h.ring, Nth(h, n)));
  }

  /** The history invariant includes the terminator in the `tail` slot that `esh_hist_add` relies on. */
  lemma TidyTailNul(h: Hist)
    requires Tidy(h)
    ensures h.ring[h.tail] == NUL
  {
    var f :| 0 <= f < Len && TidySeq(Lin(h), f);
  }
}
