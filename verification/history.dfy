/**
 * The command-history ring of `esh_hist.c`: a fixed ring of bytes holding
 * NUL-terminated commands one after another, the newest ending at `tail`.
 */
module History {
  import opened Bytes
  import Config

  const Len: nat := Config.HistLen

  /* ---------------------------------------------------------------- */
  /* The modulo helper                                                */
  /* ---------------------------------------------------------------- */

  /** C's `%` on `int`: the quotient truncates toward zero, so the remainder takes the dividend's sign. */
  function CRem(n: int, m: int): (r: int)
    requires m > 0
  {
    if n >= 0 then n % m else -((-n) % m)
  }

  lemma MulAtLeast(d: int, m: int)
    requires m > 0 && d >= 1
    ensures d * m >= m
  {
  }

  /** A quotient/remainder decomposition with the remainder in range is the Euclidean one. */
  lemma EuclidUnique(n: int, m: int, q: int, r: int)
    requires m > 0 && 0 <= r < m && n == q * m + r
    ensures n % m == r
  {
    var q0, r0 := n / m, n % m;
    assert n == q0 * m + r0;
    assert (q - q0) * m == r0 - r;
    if q > q0 {
      MulAtLeast(q - q0, m);
    } else if q < q0 {
      MulAtLeast(q0 - q, m);
    }
  }

  lemma CRemNegative(n: int, m: int)
    requires m > 0 && n < 0
    ensures CRem(n, m) >= 0 ==> CRem(n, m) == n % m
    ensures CRem(n, m) < 0 ==> CRem(n, m) + m == n % m
  {
    var a := -n;
    var t, q := a % m, a / m;
    assert a == q * m + t;
    if t == 0 {
      EuclidUnique(n, m, -q, 0);
    } else {
      EuclidUnique(n, m, -q - 1, m - t);
    }
  }

  /**
   * `modulo`: C's remainder, moved into [0, m) by adding the modulus when it
   * is negative. It is exactly the mathematical (Euclidean) residue.
   */
  function Modulo(n: int, m: int): (r: int)
    requires m > 0
    ensures 0 <= r < m
    ensures r == n % m
  {
    var rem := CRem(n, m);
    if n < 0 then
      CRemNegative(n, m);
      if rem < 0 then rem + m else rem
    else rem
  }

  /* ---------------------------------------------------------------- */
  /* The ring                                                         */
  /* ---------------------------------------------------------------- */

  /**
   * `struct esh_hist`: the ring, the slot holding the newest entry's
   * terminator, and how far back the user has browsed (0 = not browsing).
   */
  datatype Hist = Hist(ring: seq<Byte>, tail: int, idx: int)

  /** The shape every reachable `struct esh_hist` has. */
  predicate Valid(h: Hist) {
    |h.ring| == Len && 0 <= h.tail < Len
  }

  /** The slot `k` places after `base`, going round the ring. */
  function Fwd(base: int, k: int): (j: int)
    requires 0 <= base < Len && 0 <= k <= Len
    ensures 0 <= j < Len
  {
    if base + k < Len then base + k else base + k - Len
  }

  /** The slot `k` places before `base`, going round the ring. */
  function Back(base: int, k: int): (j: int)
    requires 0 <= base < Len && 0 <= k <= Len
    ensures 0 <= j < Len
  {
    if base - k >= 0 then base - k else base - k + Len
  }

  /** How many places after the slot following `tail` the slot `j` lies. */
  function Ahead(tail: int, j: int): (k: int)
    requires 0 <= tail < Len && 0 <= j < Len
    ensures 0 <= k < Len && Fwd(tail, k + 1) == j
  {
    if j > tail then j - tail - 1 else j - tail - 1 + Len
  }

  /** Stepping with C's `(i + 1) % LEN` and with `modulo(i - 1, LEN)`. */
  lemma StepMod(i: int)
    requires 0 <= i < Len
    ensures (i + 1) % Len == Fwd(i, 1)
    ensures Modulo(i - 1, Len) == Back(i, 1)
  {
  }

  /** `init_buffer`: a NUL in slot 0 and the fill byte everywhere else. */
  function InitBuffer(): (r: seq<Byte>)
    ensures |r| == Len
    ensures r[0] == NUL
    ensures forall k :: 1 <= k < Len ==> r[k] == FILL
  {
    [NUL] + seq(Len - 1, _ => FILL)
  }

  /**
   * `esh_hist_init` with the statically allocated ring: the ring is
   * initialised and no error is reported. `tail` and `idx` are whatever the
   * caller left there (zero after `esh_init`).
   */
  function HistInit(h: Hist): (r: (Hist, bool))
    requires 0 <= h.tail < Len
    ensures Valid(r.0) && !r.1
    ensures r.0.tail == h.tail && r.0.idx == h.idx
    ensures r.0.ring[0] == NUL && NUL !in r.0.ring[1..]
  {
    (h.(ring := InitBuffer()), false)
  }

  /* ---------------------------------------------------------------- */
  /* Adding an entry                                                  */
  /* ---------------------------------------------------------------- */

  /** The ring with `t` written forward starting just after `tail`. */
  function Written(ring: seq<Byte>, tail: int, t: seq<Byte>): (r: seq<Byte>)
    requires |ring| == Len && 0 <= tail < Len
  {
    seq(Len, j requires 0 <= j < Len =>
      if Ahead(tail, j) < |t| then t[Ahead(tail, j)] else ring[j])
  }

  /**
   * `esh_hist_add`: copy the command and its terminator into the ring after
   * the newest entry. When it would reach the slot just before `tail` the
   * ring is wiped instead and `true` (overflow) is returned.
   */
  function Add(h: Hist, w: seq<Byte>): (r: (Hist, bool))
    requires Valid(h)
    requires NUL !in w
    ensures Valid(r.0) && r.0.idx == h.idx
    ensures r.1 <==> |w| + 1 > Len - 2
    ensures r.1 ==> r.0.ring == InitBuffer() && r.0.tail == 0
    ensures !r.1 ==> r.0.tail == Fwd(h.tail, |w| + 1)
    ensures !r.1 ==> forall k :: 0 <= k < |w| ==> r.0.ring[Fwd(h.tail, k + 1)] == w[k]
    ensures !r.1 ==> r.0.ring[r.0.tail] == NUL
    ensures !r.1 ==> forall j :: 0 <= j < Len && Ahead(h.tail, j) > |w| ==> r.0.ring[j] == h.ring[j]
  {
    if |w| + 1 > Len - 2 then
      (h.(ring := InitBuffer(), tail := 0), true)
    else
      var tail' := Fwd(h.tail, |w| + 1);
      var ring' := Written(h.ring, h.tail, w + [NUL]);
      assert Ahead(h.tail, tail') == |w|;
      (h.(ring := ring', tail := tail'), false)
  }

  /** The ring once the terminator lands after all of `w`. */
  lemma WrittenDone(prev: seq<Byte>, tail: int, w: seq<Byte>, ring: seq<Byte>, i: int)
    requires |prev| == Len && |ring| == Len && 0 <= tail < Len && |w| <= Len - 2
    requires i == Fwd(tail, |w| + 1)
    requires forall j :: 0 <= j < Len ==>
      ring[j] == (if Ahead(tail, j) < |w| then w[Ahead(tail, j)] else prev[j])
    ensures ring[i := NUL] == Written(prev, tail, w + [NUL])
  {
    assert Ahead(tail, i) == |w|;
    assert forall j :: 0 <= j < Len ==> ring[i := NUL][j] == Written(prev, tail, w + [NUL])[j];
  }

  /** The loop of `esh_hist_add`, slot by slot. */
  method AddInPlace(h: Hist, w: seq<Byte>) returns (h': Hist, overflow: bool)
    requires Valid(h)
    requires NUL !in w
    ensures (h', overflow) == Add(h, w)
  {
    var ring := h.ring;
    var i := (h.tail + 1) % Len;
    var k := 0;
    StepMod(h.tail);
    while true
      invariant 0 <= k <= |w| && k <= Len - 2
      invariant i == Fwd(h.tail, k + 1)
      invariant |ring| == Len
      invariant forall j :: 0 <= j < Len ==>
        ring[j] == (if Ahead(h.tail, j) < k then w[Ahead(h.tail, j)] else h.ring[j])
      decreases Len - 2 - k
    {
      if i == Modulo(h.tail - 1, Len) {
        assert k == Len - 2;
        return h.(ring := InitBuffer(), tail := 0), true;
      }
      var c := if k < |w| then w[k] else NUL;
      if c != NUL {
        assert Ahead(h.tail, i) == k;
        ring := ring[i := c];
        k := k + 1;
        StepMod(i);
        i := (i + 1) % Len;
      } else {
        WrittenDone(h.ring, h.tail, w, ring, i);
        return h.(ring := ring[i := NUL], tail := i), false;
      }
    }
  }

  /* ---------------------------------------------------------------- */
  /* Finding the n-th newest entry                                    */
  /* ---------------------------------------------------------------- */

  /**
   * The slots `esh_hist_nth` examines, in the order it examines them: from
   * the one before `tail` backwards, stopping short of the one after `tail`.
   */
  function Scan(h: Hist): (d: seq<Byte>)
    requires Valid(h)
    ensures |d| == Len - 2
    ensures forall k :: 0 <= k < Len - 2 ==> d[k] == h.ring[Back(h.tail, k + 1)]
  {
    seq(Len - 2, k requires 0 <= k < Len - 2 => h.ring[Back(h.tail, k + 1)])
  }

  /** Positions, from `k` on and in increasing order, of the terminators in `d`. */
  function NulsFrom(d: seq<Byte>, k: nat): (z: seq<nat>)
    requires k <= |d|
    ensures forall j :: 0 <= j < |z| ==> k <= z[j] < |d| && d[z[j]] == NUL
    decreases |d| - k
  {
    if k == |d| then []
    else if d[k] == NUL then [k] + NulsFrom(d, k + 1)
    else NulsFrom(d, k + 1)
  }

  /**
   * The answer of the scan once it has examined `k` slots with `m` still to
   * skip: the slot after the next `m`-th terminator still ahead, or -1.
   * A negative `m` never reaches zero, so it always ends in -1.
   */
  function NthFrom(d: seq<Byte>, k: nat, m: int, tail: int): (o: int)
    requires k <= |d| <= Len && 0 <= tail < Len
    decreases |d| - k
  {
    if k == |d| then -1
    else if d[k] == NUL && m == 0 then Back(tail, k)
    else if d[k] == NUL then NthFrom(d, k + 1, m - 1, tail)
    else NthFrom(d, k + 1, m, tail)
  }

  /** The walk finds the slot after the `m`-th terminator ahead of it, or none. */
  lemma {:induction false} NthFromNuls(d: seq<Byte>, k: nat, m: int, tail: int)
    requires k <= |d| <= Len && 0 <= tail < Len
    ensures var z := NulsFrom(d, k);
            NthFrom(d, k, m, tail) == if 0 <= m < |z| then Back(tail, z[m]) else -1
    decreases |d| - k
  {
    if k < |d| {
      if d[k] == NUL && m != 0 {
        NthFromNuls(d, k + 1, m - 1, tail);
      } else if d[k] != NUL {
        NthFromNuls(d, k + 1, m, tail);
      }
    }
  }

  /** One examined slot: a terminator either ends the scan or uses up one skip. */
  lemma NthFromStep(d: seq<Byte>, k: nat, m: int, tail: int)
    requires k < |d| <= Len && 0 <= tail < Len
    ensures d[k] != NUL ==> NthFrom(d, k, m, tail) == NthFrom(d, k + 1, m, tail)
    ensures d[k] == NUL && m == 0 ==> NthFrom(d, k, m, tail) == Back(tail, k)
    ensures d[k] == NUL && m != 0 ==> NthFrom(d, k, m, tail) == NthFrom(d, k + 1, m - 1, tail)
  {
  }

  /**
   * `esh_hist_nth`: the offset at which the entry `n` back from the newest
   * begins, or -1 when there is no such entry. An offset always follows a
   * terminator, and is never one of the two slots after `tail`.
   */
  function Nth(h: Hist, n: int): (o: int)
    requires Valid(h)
    ensures o == -1 || (0 <= o < Len && h.ring[Back(o, 1)] == NUL)
    ensures o != Fwd(h.tail, 1) && o != Fwd(h.tail, 2)
    ensures n < 0 ==> o == -1
  {
    var d := Scan(h);
    var z := NulsFrom(d, 0);
    if 0 <= n < |z| then
      assert d[z[n]] == NUL;
      assert Back(Back(h.tail, z[n]), 1) == Back(h.tail, z[n] + 1);
      Back(h.tail, z[n])
    else -1
  }

  lemma NthIsScan(h: Hist, n: int)
    requires Valid(h)
    ensures Nth(h, n) == NthFrom(Scan(h), 0, n, h.tail)
  {
    NthFromNuls(Scan(h), 0, n, h.tail);
  }

  /** What examining slot `i`, the `k`-th of the scan, tells the loop of `esh_hist_nth`. */
  lemma ScanSlot(h: Hist, k: nat, m: int, i: int)
    requires Valid(h) && k < Len - 2 && i == Back(h.tail, k + 1)
    ensures h.ring[i] == NUL && m == 0 ==> (i + 1) % Len == NthFrom(Scan(h), k, m, h.tail)
    ensures h.ring[i] == NUL && m != 0 ==> NthFrom(Scan(h), k, m, h.tail) == NthFrom(Scan(h), k + 1, m - 1, h.tail)
    ensures h.ring[i] != NUL ==> NthFrom(Scan(h), k, m, h.tail) == NthFrom(Scan(h), k + 1, m, h.tail)
    ensures Modulo(i - 1, Len) == Back(h.tail, k + 2)
    ensures Back(h.tail, k + 2) == (h.tail + 1) % Len <==> k + 1 == Len - 2
  {
    StepMod(i);
    StepMod(h.tail);
    NthFromStep(Scan(h), k, m, h.tail);
  }

  /** Once every slot has been examined there is nothing left to find. */
  lemma ScanExhausted(h: Hist, m: int)
    requires Valid(h)
    ensures NthFrom(Scan(h), Len - 2, m, h.tail) == -1
  {
  }

  /** The loop of `esh_hist_nth`. */
  method NthInPlace(h: Hist, n: int) returns (o: int)
    requires Valid(h)
    ensures o == Nth(h, n)
  {
    o := ScanBack(h, n);
    NthIsScan(h, n);
  }

  /** The backwards walk from the slot before `tail`, answering as `NthFrom` does. */
  method ScanBack(h: Hist, n: int) returns (o: int)
    requires Valid(h)
    ensures o == NthFrom(Scan(h), 0, n, h.tail)
  {
    ghost var d := Scan(h);
    var start := Modulo(h.tail - 1, Len);
    var stop := (h.tail + 1) % Len;
    StepMod(h.tail);
    var i := start;
    var m := n;
    ghost var k: nat := 0;
    while i != stop
      invariant k <= Len - 2
      invariant i == Back(h.tail, k + 1) && stop == (h.tail + 1) % Len
      invariant i == stop <==> k == Len - 2
      invariant NthFrom(d, 0, n, h.tail) == NthFrom(d, k, m, h.tail)
      decreases Len - 2 - k
    {
      ScanSlot(h, k, m, i);
      if m != 0 && h.ring[i] == NUL {
        m := m - 1;
      } else if h.ring[i] == NUL {
        return (i + 1) % Len;
      }
      i := Modulo(i - 1, Len);
      k := k + 1;
    }
    ScanExhausted(h, m);
    return -1;
  }

  /* ---------------------------------------------------------------- */
  /* Walking an entry                                                 */
  /* ---------------------------------------------------------------- */

  /**
   * The entry stored at `offset`: the bytes from there up to the next
   * terminator, reading at most one lap of the ring short of a slot.
   */
  function Entry(ring: seq<Byte>, offset: int): (e: seq<Byte>)
    requires |ring| == Len && 0 <= offset < Len
    ensures |e| <= Len - 1 && NUL !in e
    ensures forall k :: 0 <= k < |e| ==> e[k] == ring[Fwd(offset, k)]
    ensures |e| < Len - 1 ==> ring[Fwd(offset, |e|)] == NUL
    ensures forall k :: 0 <= k < Len - 1 && ring[Fwd(offset, k)] == NUL ==> |e| <= k
  {
    var lap := seq(Len - 1, k requires 0 <= k < Len - 1 => ring[Fwd(offset, k)]);
    var e := UntilNul(lap);
    assert forall k :: 0 <= k < |e| ==> e[k] == lap[k];
    assert forall k :: 0 <= k < Len - 1 ==> lap[k] == ring[Fwd(offset, k)];
    e
  }

  /**
   * Feeding `w` to a callback that may ask to stop: the state after the
   * last byte it saw.
   */
  function FoldStop<S>(cb: (S, Byte) -> (S, bool), s: S, w: seq<Byte>): S
  {
    if w == [] then s
    else
      var (s', stop) := cb(s, w[0]);
      if stop then s' else FoldStop(cb, s', w[1..])
  }

  /**
   * `for_each_char`: hand every byte of the entry at `offset` to the
   * callback, in order, until it asks to stop. The callback's context is
   * the state `S` it threads through.
   */
  method ForEachChar<S>(ring: seq<Byte>, offset: int, cb: (S, Byte) -> (S, bool), s: S) returns (st: S)
    requires |ring| == Len && 0 <= offset < Len
    ensures st == FoldStop(cb, s, Entry(ring, offset))
  {
    ghost var e := Entry(ring, offset);
    var i := offset;
    st := s;
    ghost var k: nat := 0;
    while ring[i] != NUL
      invariant k <= Len - 1 && k <= |e|
      invariant i == Fwd(offset, k)
      invariant FoldStop(cb, s, e) == FoldStop(cb, st, e[k..])
      decreases Len - 1 - k
    {
      StepMod(offset);
      if i == Modulo(offset - 1, Len) {
        assert k == Len - 1 && e[k..] == [];
        return;
      }
      assert k < |e| && e[k] == ring[i];
      var (st', stop) := cb(st, ring[i]);
      assert e[k..][1..] == e[k + 1..];
      st := st';
      if stop {
        return;
      }
      StepMod(i);
      i := (i + 1) % Len;
      k := k + 1;
    }
    assert |e| == k && e[k..] == [];
  }
}
