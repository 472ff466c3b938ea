/**
 * Raw memory as the Rust bindings see it: bytes by address, C strings read
 * up to their NUL. Leaving the modelled memory while scanning is a fault
 * (in Rust, undefined behaviour).
 */
module CMem {
  import opened Bytes
  import opened Wrappers

  /** Memory: the byte at every address below |mem|. */
  type Mem = seq<Byte>

  /** Distance from `p` to the first NUL at or after it. */
  function CLen(mem: Mem, p: nat): (r: Result<nat>)
    ensures r.Ok? <==> exists k :: p <= k < |mem| && mem[k] == NUL
    ensures r.Ok? ==> p + r.value < |mem| && mem[p + r.value] == NUL
    ensures r.Ok? ==> forall k :: p <= k < p + r.value ==> mem[k] != NUL
    ensures r.Failed? ==> r.fault == OutOfBounds(if p < |mem| then |mem| else p)
    decreases |mem| - p
  {
    if p >= |mem| then Failed(OutOfBounds(p))
    else if mem[p] == NUL then Ok(0)
    else
      var n :- CLen(mem, p + 1);
      Ok(n + 1)
  }

  /**
   * The bindings' `strlen`: count bytes from `s` until a zero byte. The
   * loop never stops on its own without one; running off the memory is
   * reported as the fault it would be.
   */
  method Strlen(mem: Mem, s: nat) returns (r: Result<nat>)
    ensures r.Ok? ==> s + r.value < |mem| && mem[s + r.value] == NUL
    ensures r.Ok? ==> forall k :: s <= k < s + r.value ==> mem[k] != NUL
    ensures r.Failed? ==> forall k :: s <= k < |mem| ==> mem[k] != NUL
    ensures r == CLen(mem, s)
  {
    var i: nat := 0;
    while true
      invariant s + i <= |mem| || i == 0
      invariant forall k :: s <= k < s + i ==> mem[k] != NUL
      decreases |mem| - (s + i)
    {
      if s + i >= |mem| {
        return Failed(OutOfBounds(s + i));
      }
      if mem[s + i] == NUL {
        return Ok(i);
      }
      i := i + 1;
    }
  }

  /** The bytes of the C string at `p`, without its terminator. */
  function CString(mem: Mem, p: nat): (r: Result<seq<Byte>>)
    ensures r.Ok? <==> CLen(mem, p).Ok?
    ensures r.Ok? ==> |r.value| == CLen(mem, p).value && NUL !in r.value
    ensures r.Ok? ==> p + |r.value| < |mem| && mem[p..p + |r.value|] == r.value && mem[p + |r.value|] == NUL
    ensures r.Failed? ==> r.fault == CLen(mem, p).fault
  {
    var n :- CLen(mem, p);
    Ok(mem[p..p + n])
  }

  /** `buf` sits in memory from address `a` on. */
  predicate Holds(mem: Mem, a: nat, buf: seq<Byte>) {
    a + |buf| <= |mem| && mem[a..a + |buf|] == buf
  }

  /** The C string at `p` has length `n` when a NUL sits at `p + n` and none before it. */
  lemma {:induction false} CLenAt(mem: Mem, p: nat, n: nat)
    requires p + n < |mem| && mem[p + n] == NUL
    requires forall k :: p <= k < p + n ==> mem[k] != NUL
    ensures CLen(mem, p) == Ok(n)
    decreases n
  {
    if n > 0 {
      CLenAt(mem, p + 1, n - 1);
    }
  }

  /** The C string at `p` is `w` when `w` and then a NUL sit there. */
  lemma CStringAt(mem: Mem, p: nat, w: seq<Byte>)
    requires Holds(mem, p, w + [NUL]) && NUL !in w
    ensures CString(mem, p) == Ok(w)
  {
    var v := w + [NUL];
    forall k | p <= k < p + |w|
      ensures mem[k] != NUL
    {
      assert mem[k] == mem[p..p + |v|][k - p] == w[k - p];
    }
    assert mem[p + |w|] == mem[p..p + |v|][|w|];
    CLenAt(mem, p, |w|);
    assert mem[p..p + |w|] == mem[p..p + |v|][..|w|];
  }

  /** Part of a held buffer is held too. */
  lemma HeldPart(mem: Mem, a: nat, buf: seq<Byte>, x: nat, w: seq<Byte>)
    requires Holds(mem, a, buf) && x + |w| <= |buf| && buf[x..x + |w|] == w
    ensures Holds(mem, a + x, w)
  {
    forall k | a + x <= k < a + x + |w|
      ensures mem[k] == w[k - (a + x)]
    {
      assert mem[a..a + |buf|][k - a] == buf[k - a];
    }
  }

  /**
   * A C string inside a buffer that ends in a NUL reads the same through
   * memory as `UntilNul` reads it from the buffer.
   */
  lemma CStringOfHeld(mem: Mem, a: nat, buf: seq<Byte>, x: nat)
    requires Holds(mem, a, buf) && x < |buf| && buf[|buf| - 1] == NUL
    ensures CString(mem, a + x) == Ok(UntilNul(buf[x..]))
  {
    var u := UntilNul(buf[x..]);
    TerminatedRead(buf, x);
    HeldPart(mem, a, buf, x, u + [NUL]);
    CStringAt(mem, a + x, u);
  }

  /** In a buffer ending in a NUL, the string read from `x` is followed by its NUL. */
  lemma TerminatedRead(buf: seq<Byte>, x: nat)
    requires x < |buf| && buf[|buf| - 1] == NUL
    ensures var v := UntilNul(buf[x..]) + [NUL];
            x + |v| <= |buf| && buf[x..x + |v|] == v
  {
    var t := buf[x..];
    var u := UntilNul(t);
    assert t[|t| - 1] == NUL;
    assert |u| < |t|;
    assert t[..|u|] == u && t[|u|] == NUL;
    assert t[..|u| + 1] == t[..|u|] + [t[|u|]];
    assert buf[x..x + |u| + 1] == t[..|u| + 1];
  }
}
