/**
 * The `esh_t` instance record (esh_internal.h) and the pieces of engine state
 * every step shares: the edit buffer with its count and insertion point, the
 * escape flags, the history ring and the three callback slots.
 */
module EshState {
  import opened Bytes
  import opened Wrappers
  import Config
  import opened History

  /**
   * Which behaviour a step follows where the C code can leave its buffer:
   * `AsWritten` runs into the fault, `Fixed` takes the evidently intended
   * branch instead. The two agree everywhere else.
   */
  datatype Build = AsWritten | Fixed

  /**
   * A function pointer the engine can hold: its built-in overflow printer,
   * one of the Rust binding's trampolines, or any other C function.
   */
  datatype Code =
    | InternalOverflow
    | CommandTrampoline
    | PrintTrampoline
    | OverflowTrampoline
    | Native(id: nat)

  /** A (function pointer, `void *` context) pair; `None` and 0 stand for NULL. */
  datatype Slot = Slot(code: Option<Code>, arg: nat)

  datatype Slots = Slots(command: Slot, printer: Slot, overflow: Slot)

  /** The bits IN_ESCAPE, IN_BRACKET_ESCAPE and IN_NUMERIC_ESCAPE of `flags`. */
  datatype Flags = Flags(escape: bool, bracket: bool, numeric: bool)

  const NoEscape: Flags := Flags(false, false, false)

  /** The three states an escape sequence can be in are nested. */
  predicate Nested(f: Flags) {
    (f.numeric ==> f.bracket) && (f.bracket ==> f.escape)
  }

  datatype Esh = Esh(
    buffer: seq<Byte>,   // ESH_BUFFER_LEN + 1 bytes
    argv: seq<nat>,      // ESH_ARGC_MAX offsets into `buffer`
    cnt: nat,            // bytes in the line; ESH_BUFFER_LEN + 1 once it overflowed
    ins: nat,            // insertion point
    flags: Flags,
    hist: Hist,
    slots: Slots)

  /** The layout every instance has, whatever its contents. */
  predicate Shaped(e: Esh) {
    && |e.buffer| == Config.BufferLen + 1
    && |e.argv| == Config.ArgcMax
    && e.ins <= e.cnt <= Config.BufferLen + 1
    && Valid(e.hist)
    && e.hist.idx >= 0
  }

  /** How many bytes of the line the buffer really holds. */
  function Held(e: Esh): (n: nat)
    ensures n <= e.cnt && n <= Config.BufferLen
    ensures e.cnt <= Config.BufferLen ==> n == e.cnt
  {
    if e.cnt <= Config.BufferLen then e.cnt else Config.BufferLen
  }

  /** What a line completion or an overflow hands to the registered callbacks. */
  datatype Event =
    | Command(slot: Slot, args: seq<seq<Byte>>)
    | Overflow(slot: Slot, line: seq<Byte>)

  /**
   * The buffer-changing part of `esh_restore`: it terminates the line at
   * `cnt` so it can be printed as a C string (the redraw itself is output).
   * In the overflow state `cnt` is one past the last slot; the fixed build
   * leaves the buffer alone there, its last slot already holding a NUL.
   */
  function Restore(b: Build, e: Esh): (r: Result<Esh>)
    requires |e.buffer| == Config.BufferLen + 1
    ensures r.Failed? <==> b == AsWritten && e.cnt > Config.BufferLen
    ensures r.Failed? ==> r.fault == OutOfBounds(e.cnt)
    ensures r.Ok? ==> r.value == e.(buffer := r.value.buffer) && |r.value.buffer| == |e.buffer|
    ensures r.Ok? && e.cnt <= Config.BufferLen ==>
              && r.value.buffer[e.cnt] == NUL
              && (forall k :: 0 <= k < |e.buffer| && k != e.cnt ==> r.value.buffer[k] == e.buffer[k])
              && (NUL !in e.buffer[..e.cnt] ==> UntilNul(r.value.buffer) == e.buffer[..e.cnt])
    ensures r.Ok? && e.cnt > Config.BufferLen ==> r.value == e
  {
    if e.cnt < |e.buffer| then
      TerminateAt(e.buffer, e.cnt);
      Ok(e.(buffer := e.buffer[e.cnt := NUL]))
    else if b == AsWritten then Failed(OutOfBounds(e.cnt))
    else Ok(e)
  }
}
