/**
 * The `&str` Rust binding (esh_rust/src/esh/lib.rs): the in-place
 * conversion of the C `argv` pointer array into an array of string views,
 * its callback trampolines, registration and `Esh::init`.
 *
 * The `argv` storage is modelled as pointer-sized words. A view is `W`
 * words wide (a pointer and a length, so 2 on real targets); view `k`
 * occupies words `W*k .. W*k+W`, which for W >= 1 starts at or after word
 * `k`, so converting from the right never overwrites a pointer still to
 * be read.
 */
module RustViews {
  import opened Bytes
  import opened Wrappers
  import Config
  import opened ArgParser
  import opened ParseArgs
  import opened CMem
  import opened EshState
  import opened Instances
  import opened CallbackArgs
  import RustArgs

  /** A `&str`: where its bytes start and how many there are. */
  datatype View = View(addr: nat, len: nat)

  /** One word of the `argv` storage: a raw C pointer, or word `j` of a view. */
  datatype Word = Ptr(addr: nat) | Part(view: View, j: nat)

  function Parts(v: View, W: nat): (ws: seq<Word>)
    ensures |ws| == W
    ensures forall j :: 0 <= j < W ==> ws[j] == Part(v, j)
  {
    seq(W, j requires 0 <= j < W => Part(v, j))
  }

  /** Storage holds view `v` in slot `k`. */
  predicate ViewAt(s: seq<Word>, W: nat, k: nat, v: View) {
    W * k + W <= |s| && s[W * k..W * k + W] == Parts(v, W)
  }

  /** Storing a view in slot `k`, leaving every other word alone. */
  function WriteView(s: seq<Word>, W: nat, k: nat, v: View): (t: seq<Word>)
    requires W * k + W <= |s|
    ensures |t| == |s| && ViewAt(t, W, k, v)
    ensures t[..W * k] == s[..W * k] && t[W * k + W..] == s[W * k + W..]
  {
    s[..W * k] + Parts(v, W) + s[W * k + W..]
  }

  lemma MulMono(W: nat, a: nat, b: nat)
    requires a <= b
    ensures W * a <= W * b
  {
    assert W * b == W * a + W * (b - a);
  }

  lemma MulStep(W: nat, k: nat)
    ensures W * k + W == W * (k + 1)
  {
  }

  /** Slot `k` starts at or after word `k`. */
  lemma SlotStart(W: nat, k: nat)
    requires W >= 1
    ensures k <= W * k
  {
    MulMono(k, 1, W);
  }

  /** Writing slot `k` keeps every view already in a slot above it. */
  lemma ViewAtKept(s: seq<Word>, t: seq<Word>, W: nat, k: nat, k2: nat, v: View)
    requires k < k2 && ViewAt(s, W, k2, v)
    requires |t| == |s| && W * k + W <= |s| && t[W * k + W..] == s[W * k + W..]
    ensures ViewAt(t, W, k2, v)
  {
    MulStep(W, k);
    MulMono(W, k + 1, k2);
    var a := W * k + W;
    var b := W * k2;
    assert t[b..b + W] == t[a..][b - a..b - a + W];
    assert s[b..b + W] == s[a..][b - a..b - a + W];
  }

  /** The words the conversion has not written yet still hold what they held. */
  predicate Untouched(words: seq<Word>, storage: seq<Word>, hi: nat, argc: nat, W: nat) {
    && hi <= argc <= |words| && |storage| == |words|
    && (hi == argc ==> storage == words)
    && (hi < argc ==> W * argc <= |words| && storage[W * argc..] == words[W * argc..])
    && storage[..hi] == words[..hi]
  }

  /** Each view from `hi` up to `argc` is the string its pointer names. */
  predicate ViewsRead(mem: Mem, words: seq<Word>, views: seq<View>, hi: nat, argc: nat)
    requires hi <= argc <= |words| && |views| == argc - hi
    requires forall k :: 0 <= k < argc ==> words[k].Ptr?
  {
    forall k :: hi <= k < argc ==>
      && CLen(mem, words[k].addr).Ok?
      && views[k - hi] == View(words[k].addr, CLen(mem, words[k].addr).value)
  }

  /** Each slot from `hi` up to `argc` holds its view. */
  predicate Stored(storage: seq<Word>, views: seq<View>, hi: nat, argc: nat, W: nat)
    requires hi <= argc && |views| == argc - hi
  {
    forall j :: 0 <= j < |views| ==> ViewAt(storage, W, hi + j, views[j])
  }

  /** Every slot from `hi` up to `argc` holds the view of its string. */
  predicate Finished(mem: Mem, words: seq<Word>, storage: seq<Word>, views: seq<View>, hi: nat, argc: nat, W: nat)
    requires hi <= argc <= |words| && |views| == argc - hi
    requires forall k :: 0 <= k < argc ==> words[k].Ptr?
  {
    ViewsRead(mem, words, views, hi, argc) && Stored(storage, views, hi, argc, W)
  }

  /**
   * The state of the conversion once slots `hi .. argc-1` are done: the
   * pointers below `hi` are untouched, every finished slot holds the view
   * of its string, and nothing past the last slot has been written.
   */
  predicate Converted(mem: Mem, words: seq<Word>, storage: seq<Word>, views: seq<View>, hi: nat, argc: nat, W: nat) {
    && W >= 1 && hi <= argc <= |words|
    && (forall k :: 0 <= k < argc ==> words[k].Ptr?)
    && |views| == argc - hi
    && Untouched(words, storage, hi, argc, W)
    && Finished(mem, words, storage, views, hi, argc, W)
  }

  /** Slot `hi-1` lies inside the storage once a slot above it has been written. */
  lemma RoomBelow(words: seq<Word>, storage: seq<Word>, hi: nat, argc: nat, W: nat)
    requires Untouched(words, storage, hi, argc, W) && 0 < hi < argc
    ensures W * (hi - 1) + W <= |storage|
  {
    MulStep(W, hi - 1);
    MulMono(W, hi, argc);
  }

  lemma UntouchedStep(words: seq<Word>, storage: seq<Word>, hi: nat, argc: nat, W: nat, v: View)
    requires W >= 1 && Untouched(words, storage, hi, argc, W) && hi > 0
    requires W * (hi - 1) + W <= |storage|
    ensures Untouched(words, WriteView(storage, W, hi - 1, v), hi - 1, argc, W)
  {
    var k := hi - 1;
    var s2 := WriteView(storage, W, k, v);
    SlotStart(W, k);
    assert s2[..k] == s2[..W * k][..k];
    assert storage[..k] == storage[..hi][..k];
    MulStep(W, k);
    MulMono(W, hi, argc);
    assert s2[W * argc..] == s2[W * k + W..][W * argc - (W * k + W)..];
    assert storage[W * argc..] == storage[W * k + W..][W * argc - (W * k + W)..];
  }

  lemma FinishedStep(mem: Mem, words: seq<Word>, storage: seq<Word>, views: seq<View>, hi: nat, argc: nat, W: nat, n: nat)
    requires hi <= argc <= |words| && |views| == argc - hi && |storage| == |words| && hi > 0
    requires forall k :: 0 <= k < argc ==> words[k].Ptr?
    requires Finished(mem, words, storage, views, hi, argc, W)
    requires W * (hi - 1) + W <= |storage|
    requires CLen(mem, words[hi - 1].addr) == Ok(n)
    ensures var v := View(words[hi - 1].addr, n);
            Finished(mem, words, WriteView(storage, W, hi - 1, v), [v] + views, hi - 1, argc, W)
  {
    var v := View(words[hi - 1].addr, n);
    ViewsReadStep(mem, words, views, hi, argc, n);
    StoredStep(storage, views, hi, argc, W, v);
  }

  lemma ViewsReadStep(mem: Mem, words: seq<Word>, views: seq<View>, hi: nat, argc: nat, n: nat)
    requires hi <= argc <= |words| && |views| == argc - hi && hi > 0
    requires forall k :: 0 <= k < argc ==> words[k].Ptr?
    requires ViewsRead(mem, words, views, hi, argc)
    requires CLen(mem, words[hi - 1].addr) == Ok(n)
    ensures ViewsRead(mem, words, [View(words[hi - 1].addr, n)] + views, hi - 1, argc)
  {
    var vs := [View(words[hi - 1].addr, n)] + views;
    assert forall j :: 0 <= j < |views| ==> vs[j + 1] == views[j];
  }

  lemma StoredStep(storage: seq<Word>, views: seq<View>, hi: nat, argc: nat, W: nat, v: View)
    requires hi <= argc && |views| == argc - hi && hi > 0
    requires Stored(storage, views, hi, argc, W)
    requires W * (hi - 1) + W <= |storage|
    ensures Stored(WriteView(storage, W, hi - 1, v), [v] + views, hi - 1, argc, W)
  {
    var s2 := WriteView(storage, W, hi - 1, v);
    forall j | 0 <= j < |views|
      ensures ViewAt(s2, W, hi + j, views[j])
    {
      ViewAtKept(storage, s2, W, hi - 1, hi + j, views[j]);
    }
    StoredCons(s2, v, views, hi, argc, W);
  }

  /** A view in slot `hi-1` in front of stored slots `hi ..` extends them by one. */
  lemma StoredCons(s: seq<Word>, v: View, views: seq<View>, hi: nat, argc: nat, W: nat)
    requires hi <= argc && |views| == argc - hi && hi > 0
    requires ViewAt(s, W, hi - 1, v)
    requires forall j :: 0 <= j < |views| ==> ViewAt(s, W, hi + j, views[j])
    ensures Stored(s, [v] + views, hi - 1, argc, W)
  {
    var vs := [v] + views;
    forall j | 0 <= j < |vs|
      ensures ViewAt(s, W, hi - 1 + j, vs[j])
    {
      if j > 0 {
        assert vs[j] == views[j - 1];
        assert hi - 1 + j == hi + (j - 1);
      }
    }
  }

  /** Converting slot `hi-1` extends the finished part by one. */
  lemma ConvertStep(mem: Mem, words: seq<Word>, storage: seq<Word>, views: seq<View>, hi: nat, argc: nat, W: nat, n: nat)
    requires Converted(mem, words, storage, views, hi, argc, W) && hi > 0
    requires W * (hi - 1) + W <= |storage|
    requires CLen(mem, words[hi - 1].addr) == Ok(n)
    ensures var v := View(words[hi - 1].addr, n);
            Converted(mem, words, WriteView(storage, W, hi - 1, v), [v] + views, hi - 1, argc, W)
  {
    var v := View(words[hi - 1].addr, n);
    UntouchedStep(words, storage, hi, argc, W, v);
    FinishedStep(mem, words, storage, views, hi, argc, W, n);
  }

  /** What the conversion leaves: a panic, or the storage and the slice read back from it. */
  datatype Mapping = Panicked | Mapped(storage: seq<Word>, views: seq<View>)

  /** The result `map_argv_to_slice` promises: slot `k` holds the view of string `k`. */
  predicate MapsArgv(mem: Mem, words: seq<Word>, argc: nat, W: nat, m: Mapping)
    requires argc <= |words| && forall k :: 0 <= k < argc ==> words[k].Ptr?
  {
    && m.Mapped?
    && |m.storage| == |words| && |m.views| == argc && W * argc <= |words|
    && m.storage[W * argc..] == words[W * argc..]
    && forall k :: 0 <= k < argc ==>
         && CLen(mem, words[k].addr).Ok?
         && m.views[k] == View(words[k].addr, CLen(mem, words[k].addr).value)
         && ViewAt(m.storage, W, k, m.views[k])
  }

  lemma ConvertedDone(mem: Mem, words: seq<Word>, storage: seq<Word>, views: seq<View>, argc: nat, W: nat)
    requires Converted(mem, words, storage, views, 0, argc, W)
    ensures MapsArgv(mem, words, argc, W, Mapped(storage, views))
  {
    assert forall k :: 0 <= k < argc ==> views[k - 0] == views[k];
  }

  /**
   * `map_argv_to_slice`. It panics, before touching anything, when C and
   * Rust disagree on the width of a view. Otherwise it walks `k` from
   * `argc - 1` down to 0, reads pointer `k`, measures its string and stores
   * the view in slot `k`; the result is the first `argc` slots. A string
   * without a terminator, or a slot past the storage, is a fault.
   */
  method MapArgvToSlice(mem: Mem, words: seq<Word>, argc: int, W: nat, cW: nat) returns (r: Result<Mapping>)
    requires W >= 1
    requires 0 <= argc <= |words|
    requires forall k :: 0 <= k < argc ==> words[k].Ptr?
    ensures r == Ok(Panicked) <==> W != cW
    ensures r.Failed? <==>
              W == cW && ((argc > 0 && W * argc > |words|) ||
                          exists k :: 0 <= k < argc && CLen(mem, words[k].addr).Failed?)
    ensures r.Ok? && W == cW ==> MapsArgv(mem, words, argc, W, r.value)
  {
    if W != cW {
      return Ok(Panicked);
    }
    var storage := words;
    var views: seq<View> := [];
    var hi: nat := argc;
    while hi > 0
      invariant Converted(mem, words, storage, views, hi, argc, W)
    {
      var k := hi - 1;
      assert storage[k] == storage[..hi][k];
      var n :- Strlen(mem, storage[k].addr);
      if hi < argc {
        RoomBelow(words, storage, hi, argc, W);
      }
      MulStep(W, k);
      if W * k + W > |storage| {
        return Failed(OutOfBounds(W * k + W - 1));
      }
      ConvertStep(mem, words, storage, views, hi, argc, W, n);
      var v := View(storage[k].addr, n);
      storage := WriteView(storage, W, k, v);
      views := [v] + views;
      hi := k;
    }
    ConvertedDone(mem, words, storage, views, argc, W);
    return Ok(Mapped(storage, views));
  }

  /* ---------------------------------------------------------------- */
  /* Callbacks                                                        */
  /* ---------------------------------------------------------------- */

  /** A call of one of the user's Rust functions, by the function's identity. */
  datatype Call =
    | PrintChar(f: nat, c: char)
    | RunCommand(f: nat, args: seq<seq<Byte>>)
    | NotifyOverflow(f: nat, s: seq<Byte>)

  /** What a trampoline does: panic, or call the user's function. */
  datatype Outcome = Panic | Called(call: Call)

  /** The raw `argv` array the C engine passes: one pointer per word. */
  function RawArgv(ps: seq<nat>): (ws: seq<Word>)
    ensures |ws| == |ps|
    ensures forall k :: 0 <= k < |ps| ==> ws[k] == Ptr(ps[k])
  {
    seq(|ps|, k requires 0 <= k < |ps| => Ptr(ps[k]))
  }

  /**
   * `command_callback_wrapper`: convert `argv` in place and call the user's
   * function with the views; each argument is the bytes of its C string.
   */
  method CommandWrapper(mem: Mem, words: seq<Word>, argc: int, W: nat, cW: nat, f: nat) returns (r: Result<Outcome>)
    requires W >= 1
    requires 0 <= argc <= |words|
    requires forall k :: 0 <= k < argc ==> words[k].Ptr?
    ensures r == Ok(Panic) <==> W != cW
    ensures r.Failed? <==>
              W == cW && ((argc > 0 && W * argc > |words|) ||
                          exists k :: 0 <= k < argc && CLen(mem, words[k].addr).Failed?)
    ensures r.Ok? && W == cW ==>
              && r.value.Called? && r.value.call.RunCommand? && r.value.call.f == f
              && |r.value.call.args| == argc
              && forall k :: 0 <= k < argc ==> CString(mem, words[k].addr) == Ok(r.value.call.args[k])
  {
    var m :- MapArgvToSlice(mem, words, argc, W, cW);
    if m.Panicked? {
      return Ok(Panic);
    }
    var args := seq(argc, k requires 0 <= k < argc => mem[m.views[k].addr..m.views[k].addr + m.views[k].len]);
    return Ok(Called(RunCommand(f, args)));
  }

  /**
   * The conversion over the `argv` array as esh_internal.h declares it:
   * `ESH_ARGC_MAX` pointer words and nothing more. With two-word views it
   * has room for only half that many, so a line of more words runs past it.
   */
  method DeclaredArgvCommand(mem: Mem, ps: seq<nat>, argc: int, f: nat) returns (r: Result<Outcome>)
    requires |ps| == Config.ArgcMax && 0 <= argc <= Config.ArgcMax
    ensures argc > Config.ArgcMax / 2 ==> r.Failed?
    ensures argc <= Config.ArgcMax / 2 && (forall k :: 0 <= k < argc ==> CLen(mem, ps[k]).Ok?) ==>
              r.Ok? && r.value.Called?
  {
    r := CommandWrapper(mem, RawArgv(ps), argc, 2, 2, f);
  }

  /**
   * The storage the conversion relies on: the pointer array overlaid with
   * room for `ESH_ARGC_MAX` views of `W` words each.
   */
  function UnionArgv(ps: seq<nat>, W: nat): (ws: seq<Word>)
    requires |ps| == Config.ArgcMax && W >= 1
    ensures |ws| == W * Config.ArgcMax
    ensures forall k :: 0 <= k < |ps| ==> ws[k] == Ptr(ps[k])
  {
    RawArgv(ps) + seq(W * Config.ArgcMax - |ps|, _ => Ptr(0))
  }

  /** Over that storage, any count up to `ESH_ARGC_MAX` of terminated strings reaches the user's function. */
  method UnionArgvCommand(mem: Mem, ps: seq<nat>, argc: int, W: nat, f: nat) returns (r: Result<Outcome>)
    requires |ps| == Config.ArgcMax && W >= 1 && 0 <= argc <= Config.ArgcMax
    requires forall k :: 0 <= k < argc ==> CLen(mem, ps[k]).Ok?
    ensures r.Ok? && r.value.Called? && r.value.call.RunCommand? && r.value.call.f == f
    ensures |r.value.call.args| == argc
    ensures forall k :: 0 <= k < argc ==> CString(mem, ps[k]) == Ok(r.value.call.args[k])
  {
    var words := UnionArgv(ps, W);
    assert W * Config.ArgcMax == W * argc + W * (Config.ArgcMax - argc);
    r := CommandWrapper(mem, words, argc, W, W, f);
  }

  /**
   * A completed printable line of at most `ESH_ARGC_MAX` words, converted
   * over that storage, reaches the user's function as exactly its words,
   * each valid UTF-8.
   */
  method LineReachesCommand(buffer: seq<Byte>, cnt: nat, argv0: seq<nat>, mem: Mem, base: nat, W: nat, f: nat)
    returns (r: Result<Outcome>)
    requires ParseReady(buffer, cnt, argv0) && AllPrint(buffer[..cnt]) && W >= 1
    requires Holds(mem, base, Parse(buffer, cnt, argv0).buffer)
    requires Parse(buffer, cnt, argv0).argc <= Config.ArgcMax
    ensures r.Ok? && r.value.Called? && r.value.call.RunCommand? && r.value.call.f == f
    ensures r.value.call.args == Tokenize(buffer[..cnt])
    ensures forall k :: 0 <= k < |r.value.call.args| ==> Utf8(r.value.call.args[k])
  {
    var p := Parse(buffer, cnt, argv0);
    var ps := Pointers(base, p.argv);
    ViewsSpellWords(buffer, cnt, argv0, mem, base);
    assert forall k :: 0 <= k < p.argc ==> RawArgv(ps)[k] == Ptr(ps[k]);
    r := UnionArgvCommand(mem, ps, p.argc, W, f);
    assert forall k :: 0 <= k < p.argc ==> r.value.call.args[k] == Tokenize(buffer[..cnt])[k];
  }

  /**
   * `overflow_callback_wrapper`, which this binding writes exactly as the
   * byte-slice binding does: the same call, with the buffer up to its first NUL.
   */
  function OverflowWrapper(mem: Mem, buf: nat, f: nat): (r: Result<Call>)
    ensures r.Ok? <==> RustArgs.OverflowWrapper(mem, buf, f).Ok?
    ensures r.Ok? ==> r.value == NotifyOverflow(f, RustArgs.OverflowWrapper(mem, buf, f).value.s)
    ensures r.Ok? ==> buf + |r.value.s| < |mem| && mem[buf..buf + |r.value.s|] == r.value.s && mem[buf + |r.value.s|] == NUL
  {
    var c :- RustArgs.OverflowWrapper(mem, buf, f);
    Ok(NotifyOverflow(f, c.s))
  }

  /** `print_callback_wrapper`: the byte widened to the `char` with that code point. */
  function PrintWrapper(c: Byte, f: nat): (r: Call)
    ensures r.PrintChar? && r.f == f && r.c as int == c as int
  {
    PrintChar(f, c as char)
  }

  /**
   * The C engine calling through its command slot: this binding's
   * trampoline runs the wrapper with the function registered in the slot;
   * any other function is outside the model (`None`).
   */
  method FireCommand(mem: Mem, slot: Slot, words: seq<Word>, argc: int, W: nat, cW: nat) returns (r: Result<Option<Outcome>>)
    requires W >= 1
    requires 0 <= argc <= |words|
    requires forall k :: 0 <= k < argc ==> words[k].Ptr?
    ensures slot.code != Some(CommandTrampoline) ==> r == Ok(None)
    ensures slot.code == Some(CommandTrampoline) && W == cW && r.Ok? ==>
              && r.value.Some? && r.value.value.Called? && r.value.value.call.RunCommand?
              && r.value.value.call.f == slot.arg
              && |r.value.value.call.args| == argc
              && forall k :: 0 <= k < argc ==> CString(mem, words[k].addr) == Ok(r.value.value.call.args[k])
  {
    if slot.code != Some(CommandTrampoline) {
      return Ok(None);
    }
    var o :- CommandWrapper(mem, words, argc, W, cW, slot.arg);
    return Ok(Some(o));
  }

  /** The C engine calling through its print or overflow slot. */
  function FireOther(mem: Mem, slot: Slot, c: Byte, buf: nat): (r: Result<Option<Call>>)
    ensures slot.code != Some(PrintTrampoline) && slot.code != Some(OverflowTrampoline) ==> r == Ok(None)
  {
    if slot.code == Some(PrintTrampoline) then Ok(Some(PrintWrapper(c, slot.arg)))
    else if slot.code == Some(OverflowTrampoline) then
      var o :- OverflowWrapper(mem, buf, slot.arg);
      Ok(Some(o))
    else Ok(None)
  }

  /**
   * The last registration of each kind decides which Rust function the
   * engine reaches: the print slot hands it the byte as a `char`, the
   * overflow slot the buffer's text up to its first NUL, and the command
   * slot is that function's (the rest is FireCommand's contract).
   */
  lemma DispatchReachesRegistered(e: Esh, f: nat, g: nat, mem: Mem, c: Byte, base: nat, buf: seq<Byte>)
    requires Holds(mem, base, buf) && buf != [] && buf[|buf| - 1] == NUL
    ensures FireOther(mem, RustArgs.RegisterPrint(RustArgs.RegisterPrint(e, g), f).slots.printer, c, base)
            == Ok(Some(PrintChar(f, c as char)))
    ensures FireOther(mem, RustArgs.RegisterOverflow(RustArgs.RegisterOverflow(e, g), f).slots.overflow, c, base)
            == Ok(Some(NotifyOverflow(f, UntilNul(buf))))
    ensures RustArgs.RegisterCommand(RustArgs.RegisterCommand(e, g), f).slots.command == Slot(Some(CommandTrampoline), f)
  {
    CStringOfHeld(mem, base, buf, 0);
    assert buf[0..] == buf;
  }

  /**
   * What the in-place conversion starts from after a line completes: raw
   * pointers into the parsed buffer, each leading to one word of the line,
   * and every word valid UTF-8, so the views `from_utf8_unchecked` builds
   * are sound `&str`s.
   */
  lemma ViewsSpellWords(buffer: seq<Byte>, cnt: nat, argv0: seq<nat>, mem: Mem, base: nat)
    requires ParseReady(buffer, cnt, argv0) && AllPrint(buffer[..cnt])
    requires Holds(mem, base, Parse(buffer, cnt, argv0).buffer)
    requires Parse(buffer, cnt, argv0).argc <= Config.ArgcMax
    ensures var p := Parse(buffer, cnt, argv0);
            var words := RawArgv(Pointers(base, p.argv));
            var line := buffer[..cnt];
            && 0 <= p.argc <= |words|
            && forall k :: 0 <= k < p.argc ==>
                 && words[k].Ptr?
                 && CString(mem, words[k].addr) == Ok(Tokenize(line)[k])
                 && Utf8(Tokenize(line)[k])
  {
    ArgvReadsTokens(buffer, cnt, argv0, mem, base);
    TokensAreUtf8(buffer[..cnt]);
  }
}
