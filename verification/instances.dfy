/**
 * Creating an instance and wiring its callbacks (esh.c): the STATIC pool of
 * ESH_INSTANCES records with its `n_allocated` counter, `esh_init`, and the
 * three `esh_register_*` functions.
 */
module Instances {
  import opened Bytes
  import opened Wrappers
  import Config
  import opened History
  import opened HistoryProps
  import opened EshState
  import opened Editor
  import opened EditorProps

  /** The counter `n_allocated` of the static pool. */
  datatype Pool = Pool(used: nat)

  predicate PoolOk(p: Pool) {
    p.used <= Config.Instances
  }

  /**
   * `allocate_esh`: hand out the next unused record, by its index in
   * `instances`, or NULL once all are taken.
   */
  function Allocate(p: Pool): (r: (Pool, Option<nat>))
    ensures p.used < Config.Instances ==> r == (Pool(p.used + 1), Some(p.used))
    ensures p.used >= Config.Instances ==> r == (p, None)
  {
    if p.used < Config.Instances then (Pool(p.used + 1), Some(p.used))
    else (p, None)
  }

  /** `free_last_allocated`: give the last record back, never going below none. */
  function FreeLast(p: Pool): (q: Pool)
    ensures p.used > 0 ==> q.used == p.used - 1
    ensures p.used == 0 ==> q == p
  {
    if p.used > 0 then Pool(p.used - 1) else p
  }

  /** The pool never hands out more records than it has, and each index at most once. */
  lemma AllocateBounded(p: Pool)
    requires PoolOk(p)
    ensures PoolOk(Allocate(p).0) && PoolOk(FreeLast(p))
    ensures Allocate(p).1.Some? ==> Allocate(p).1.value < Config.Instances
    ensures Allocate(p).1.Some? ==> Allocate(Allocate(p).0).1 != Allocate(p).1
  {
  }

  /** Freeing right after a successful allocation undoes it. */
  lemma FreeUndoesAllocate(p: Pool)
    requires Allocate(p).1.Some?
    ensures FreeLast(Allocate(p).0) == p
  {
  }

  /** The record after `memset(esh, 0, sizeof *esh)`. */
  function Zeroed(): (e: Esh)
    ensures |e.buffer| == Config.BufferLen + 1 && |e.argv| == Config.ArgcMax
    ensures forall k :: 0 <= k < |e.buffer| ==> e.buffer[k] == NUL
    ensures e.cnt == 0 && e.ins == 0 && e.flags == NoEscape
    ensures e.hist.tail == 0 && e.hist.idx == 0
  {
    Esh(seq(Config.BufferLen + 1, _ => NUL), seq(Config.ArgcMax, _ => 0), 0, 0, NoEscape,
        Hist(seq(Len, _ => NUL), 0, 0),
        Slots(Slot(None, 0), Slot(None, 0), Slot(None, 0)))
  }

  /**
   * `esh_init`: allocate, clear, install the built-in overflow printer,
   * initialise history. The C code clears the record before looking at
   * what `allocate_esh` returned, so with the pool exhausted it stores
   * through NULL; the fixed build reports no instance instead.
   */
  function EshInit(b: Build, p: Pool): (r: Result<(Pool, Option<(nat, Esh)>)>)
    ensures r.Failed? <==> b == AsWritten && p.used >= Config.Instances
    ensures r.Failed? ==> r.fault == NullDeref
    ensures r.Ok? ==> (r.value.1.Some? <==> p.used < Config.Instances)
    ensures r.Ok? && r.value.1.None? ==> r.value.0 == p
    ensures r.Ok? && r.value.1.Some? ==>
              && r.value.0 == Allocate(p).0
              && r.value.1.value.0 == p.used
              && var e := r.value.1.value.1;
                 && Inv(e) && e.cnt == 0 && e.ins == 0 && e.flags == NoEscape && e.hist.idx == 0
                 && e.slots == Slots(Slot(None, 0), Slot(None, 0), Slot(Some(InternalOverflow), 0))
  {
    var (p1, slot) := Allocate(p);
    if slot.None? then
      if b == AsWritten then Failed(NullDeref) else Ok((p1, None))
    else
      var e0 := Zeroed();
      var e1 := e0.(slots := e0.slots.(overflow := Slot(Some(InternalOverflow), 0)));
      var (h, err) := HistInit(e1.hist);
      if err then Ok((FreeLast(p1), None))
      else
        InitTidy(0);
        assert h == Hist(InitBuffer(), 0, 0);
        var e := e1.(hist := h);
        assert e.buffer[..Held(e)] == [];
        Ok((p1, Some((slot.value, e))))
  }

  /** Every instance the pool can hold initialises; the next call finds none. */
  lemma InitAllThenNone(b: Build)
    ensures EshInit(b, Pool(0)).Ok? && EshInit(b, Pool(0)).value.1.Some?
    ensures var p1 := EshInit(b, Pool(0)).value.0;
            p1 == Pool(Config.Instances)
            && (b == AsWritten ==> EshInit(b, p1) == Failed(NullDeref))
            && (b == Fixed ==> EshInit(b, p1) == Ok((p1, None)))
  {
  }

  /* ---------------------------------------------------------------- */
  /* Registering callbacks                                            */
  /* ---------------------------------------------------------------- */

  /** `esh_register_command`: replace the command slot. */
  function RegisterCommand(e: Esh, code: Option<Code>, arg: nat): (r: Esh)
    ensures r.slots.command == Slot(code, arg)
    ensures r == e.(slots := r.slots) && r.slots.printer == e.slots.printer && r.slots.overflow == e.slots.overflow
  {
    e.(slots := e.slots.(command := Slot(code, arg)))
  }

  /** `esh_register_print`: replace the print slot. */
  function RegisterPrint(e: Esh, code: Option<Code>, arg: nat): (r: Esh)
    ensures r.slots.printer == Slot(code, arg)
    ensures r == e.(slots := r.slots) && r.slots.command == e.slots.command && r.slots.overflow == e.slots.overflow
  {
    e.(slots := e.slots.(printer := Slot(code, arg)))
  }

  /**
   * `esh_register_overflow_callback`: replace the overflow slot; a NULL
   * handler puts back the built-in printer `esh_init` installs.
   */
  function RegisterOverflow(e: Esh, code: Option<Code>, arg: nat): (r: Esh)
    ensures code.Some? ==> r.slots.overflow == Slot(code, arg)
    ensures code.None? ==> r.slots.overflow == Slot(Some(InternalOverflow), arg)
    ensures r == e.(slots := r.slots) && r.slots.command == e.slots.command && r.slots.printer == e.slots.printer
  {
    e.(slots := e.slots.(overflow := Slot(if code.Some? then code else Some(InternalOverflow), arg)))
  }

  /** A later registration of the same kind replaces the earlier one, whatever it was. */
  lemma RegisterReplaces(e: Esh, c1: Option<Code>, a1: nat, c2: Option<Code>, a2: nat)
    ensures RegisterCommand(RegisterCommand(e, c1, a1), c2, a2) == RegisterCommand(e, c2, a2)
    ensures RegisterPrint(RegisterPrint(e, c1, a1), c2, a2) == RegisterPrint(e, c2, a2)
    ensures RegisterOverflow(RegisterOverflow(e, c1, a1), c2, a2) == RegisterOverflow(e, c2, a2)
  {
  }

  /** Registering changes no editing state, so the invariant survives it. */
  lemma RegisterKeepsInv(e: Esh, code: Option<Code>, arg: nat)
    requires Inv(e)
    ensures Inv(RegisterCommand(e, code, arg))
    ensures Inv(RegisterPrint(e, code, arg))
    ensures Inv(RegisterOverflow(e, code, arg))
  {
    assert RegisterCommand(e, code, arg).buffer[..Held(e)] == e.buffer[..Held(e)];
    assert RegisterPrint(e, code, arg).buffer[..Held(e)] == e.buffer[..Held(e)];
    assert RegisterOverflow(e, code, arg).buffer[..Held(e)] == e.buffer[..Held(e)];
  }

  /**
   * What a line completion fired reaches: the function and context in the
   * slot at the time. Registering a command handler and then completing a
   * line hands the words to that handler.
   */
  lemma CompletionUsesRegistered(e: Esh, code: Option<Code>, arg: nat)
    requires Ready(e)
    ensures var s := RegisterCommand(e, code, arg);
            forall ev :: ev in Complete(s).1 && ev.Command? ==> ev.slot == Slot(code, arg)
    ensures var s := RegisterOverflow(e, code, arg);
            forall ev :: ev in Complete(s).1 && ev.Overflow? ==>
              ev.slot == Slot(if code.Some? then code else Some(InternalOverflow), arg)
  {
  }
}
