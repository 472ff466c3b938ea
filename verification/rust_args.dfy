/**
 * The byte-slice Rust binding (esh_rust/src/lib.rs): `strlen` (CMem), the
 * bounds-checked argument accessor `EshArgArray`, `Esh::init`, and the
 * three trampolines that turn a C callback into a call of the user's Rust
 * function, which travels as the callback's context pointer.
 */
module RustArgs {
  import opened Bytes
  import opened Wrappers
  import Config
  import opened ArgParser
  import opened ParseArgs
  import opened CMem
  import opened EshState
  import opened Instances
  import opened CallbackArgs

  /** `usize` on the 64-bit targets the binding is built for. */
  const UsizeModulus: int := 0x1_0000_0000_0000_0000

  predicate IsI32(n: int) {
    -0x8000_0000 <= n < 0x8000_0000
  }

  /** `EshArgArray`: the `argc` and the contents of the `argv` array it points at. */
  datatype ArgArray = ArgArray(argc: int, argv: seq<nat>)

  /** `len`: `argc as usize`, which sign-extends a negative count. */
  function Len(a: ArgArray): (n: nat)
    requires IsI32(a.argc)
    ensures n < UsizeModulus
    ensures a.argc >= 0 ==> n == a.argc
    ensures a.argc < 0 ==> n == a.argc + UsizeModulus && n >= UsizeModulus - 0x8000_0000
  {
    if a.argc >= 0 then a.argc else a.argc + UsizeModulus
  }

  /**
   * `index`: an index at or past the count gives the empty argument;
   * otherwise the pointer is read and its C string returned. A pointer
   * read past the array, or a string that runs off memory, is a fault.
   */
  function Index(a: ArgArray, mem: Mem, i: nat): (r: Result<seq<Byte>>)
    requires IsI32(a.argc) && i < UsizeModulus
    ensures i >= Len(a) ==> r == Ok([])
    ensures i < Len(a) && i < |a.argv| ==> r == CString(mem, a.argv[i])
    ensures i < Len(a) && i >= |a.argv| ==> r == Failed(OutOfBounds(i))
  {
    if i >= Len(a) then Ok([])
    else if i >= |a.argv| then Failed(OutOfBounds(i))
    else CString(mem, a.argv[i])
  }

  /**
   * The accessor the command trampoline builds from a completed line:
   * its length is the number of words, each index below it reads that
   * word, and every index past it reads as empty, so no index faults.
   */
  lemma IndexReadsWords(buffer: seq<Byte>, cnt: nat, argv0: seq<nat>, mem: Mem, base: nat, i: nat)
    requires ParseReady(buffer, cnt, argv0)
    requires Holds(mem, base, Parse(buffer, cnt, argv0).buffer)
    requires Parse(buffer, cnt, argv0).argc <= Config.ArgcMax
    requires i < UsizeModulus
    ensures var p := Parse(buffer, cnt, argv0);
            var a := ArgArray(p.argc, Pointers(base, p.argv));
            var words := Tokenize(buffer[..cnt]);
            && IsI32(a.argc) && Len(a) == |words|
            && Index(a, mem, i) == Ok(if i < |words| then words[i] else [])
  {
    ArgvReadsTokens(buffer, cnt, argv0, mem, base);
  }

  /* ---------------------------------------------------------------- */
  /* Initialisation and callbacks                                     */
  /* ---------------------------------------------------------------- */

  /** `Esh::init`: the C pointer, with 0 as NULL, as an `Option`. */
  function Init(ptr: nat): (r: Option<nat>)
    ensures r.None? <==> ptr == 0
    ensures r.Some? ==> r.value == ptr
  {
    if ptr == 0 then None else Some(ptr)
  }

  /** The address of instance `k` of the static pool, placed at `base`. */
  function Address(base: nat, size: nat, k: Option<(nat, Esh)>): (a: nat)
    requires base > 0
    ensures k.None? <==> a == 0
  {
    if k.None? then 0 else base + size * k.value.0
  }

  /**
   * Over the fixed engine, `Esh::init` yields an instance exactly while
   * the static pool has one left.
   */
  lemma InitMatchesPool(p: Pool, base: nat, size: nat)
    requires base > 0
    ensures EshInit(Fixed, p).Ok?
    ensures Init(Address(base, size, EshInit(Fixed, p).value.1)).Some? <==> p.used < Config.Instances
  {
  }

  /** A call of one of the user's Rust functions, by the function's identity. */
  datatype Call =
    | PrintStr(f: nat, s: seq<Byte>)
    | RunCommand(f: nat, args: ArgArray)
    | NotifyOverflow(f: nat, s: seq<Byte>)

  /** `print_callback_wrapper`: the string up to its NUL, without it. */
  function PrintWrapper(mem: Mem, s: nat, f: nat): (r: Result<Call>)
    ensures r.Ok? <==> CLen(mem, s).Ok?
    ensures r.Ok? ==> r.value.PrintStr? && r.value.f == f && |r.value.s| == CLen(mem, s).value
    ensures r.Ok? ==> s + |r.value.s| < |mem| && mem[s..s + |r.value.s|] == r.value.s && mem[s + |r.value.s|] == NUL
  {
    var t :- CString(mem, s);
    Ok(PrintStr(f, t))
  }

  /** `command_callback_wrapper`: `argc` and `argv` wrapped, unread. */
  function CommandWrapper(argc: int, argv: seq<nat>, f: nat): (r: Call)
    ensures r.RunCommand? && r.f == f && r.args.argc == argc && r.args.argv == argv
  {
    RunCommand(f, ArgArray(argc, argv))
  }

  /** `overflow_callback_wrapper`: the buffer up to its first NUL. */
  function OverflowWrapper(mem: Mem, buf: nat, f: nat): (r: Result<Call>)
    ensures r.Ok? <==> CLen(mem, buf).Ok?
    ensures r.Ok? ==> r.value.NotifyOverflow? && r.value.f == f && |r.value.s| == CLen(mem, buf).value
    ensures r.Ok? ==> buf + |r.value.s| < |mem| && mem[buf..buf + |r.value.s|] == r.value.s && mem[buf + |r.value.s|] == NUL
  {
    var t :- CString(mem, buf);
    Ok(NotifyOverflow(f, t))
  }

  /** `register_print`: the print trampoline, with the user's function as context. */
  function RegisterPrint(e: Esh, f: nat): (r: Esh)
    ensures r.slots.printer == Slot(Some(PrintTrampoline), f)
    ensures r == e.(slots := r.slots) && r.slots.command == e.slots.command && r.slots.overflow == e.slots.overflow
  {
    Instances.RegisterPrint(e, Some(PrintTrampoline), f)
  }

  /** `register_command`. */
  function RegisterCommand(e: Esh, f: nat): (r: Esh)
    ensures r.slots.command == Slot(Some(CommandTrampoline), f)
    ensures r == e.(slots := r.slots) && r.slots.printer == e.slots.printer && r.slots.overflow == e.slots.overflow
  {
    Instances.RegisterCommand(e, Some(CommandTrampoline), f)
  }

  /** `register_overflow`. */
  function RegisterOverflow(e: Esh, f: nat): (r: Esh)
    ensures r.slots.overflow == Slot(Some(OverflowTrampoline), f)
    ensures r == e.(slots := r.slots) && r.slots.command == e.slots.command && r.slots.printer == e.slots.printer
  {
    Instances.RegisterOverflow(e, Some(OverflowTrampoline), f)
  }

  /**
   * The C engine calling through a slot with a string argument: a
   * trampoline of this binding runs its wrapper; any other function is
   * outside the model (`None`).
   */
  function FireString(mem: Mem, slot: Slot, s: nat): (r: Result<Option<Call>>)
    ensures slot.code != Some(PrintTrampoline) && slot.code != Some(OverflowTrampoline) ==> r == Ok(None)
  {
    if slot.code == Some(PrintTrampoline) then
      var c :- PrintWrapper(mem, s, slot.arg);
      Ok(Some(c))
    else if slot.code == Some(OverflowTrampoline) then
      var c :- OverflowWrapper(mem, s, slot.arg);
      Ok(Some(c))
    else Ok(None)
  }

  /** The C engine calling through its command slot. */
  function FireCommand(slot: Slot, argc: int, argv: seq<nat>): (r: Option<Call>)
    ensures slot.code != Some(CommandTrampoline) ==> r.None?
  {
    if slot.code == Some(CommandTrampoline) then Some(CommandWrapper(argc, argv, slot.arg)) else None
  }

  /**
   * Each registration routes the engine's calls to exactly the function
   * registered last, whatever was registered before, and an overflow
   * reaches it as the buffer's text up to the first NUL.
   */
  lemma DispatchReachesRegistered(e: Esh, f: nat, g: nat, mem: Mem, base: nat, buf: seq<Byte>, argc: int, argv: seq<nat>)
    requires Holds(mem, base, buf) && buf != [] && buf[|buf| - 1] == NUL
    ensures FireString(mem, RegisterOverflow(RegisterOverflow(e, g), f).slots.overflow, base)
            == Ok(Some(NotifyOverflow(f, UntilNul(buf))))
    ensures FireString(mem, RegisterPrint(RegisterPrint(e, g), f).slots.printer, base)
            == Ok(Some(PrintStr(f, UntilNul(buf))))
    ensures FireCommand(RegisterCommand(RegisterCommand(e, g), f).slots.command, argc, argv)
            == Some(RunCommand(f, ArgArray(argc, argv)))
  {
    CStringOfHeld(mem, base, buf, 0);
    assert buf[0..] == buf;
  }
}
