/**
 * What a command callback finds behind `argv` once the engine has parsed a
 * line: each pointer leads, through memory, to exactly one word of the
 * line, and every word is valid UTF-8 because the editor only ever lets
 * printable ASCII into the buffer.
 */
module CallbackArgs {
  import opened Bytes
  import opened Wrappers
  import Config
  import opened ArgParser
  import opened ParseArgs
  import opened CMem
  import opened EshState
  import opened Editor
  import opened EditorProps

  /** The pointers `esh->argv` holds when the instance's buffer lives at `base`. */
  function Pointers(base: nat, argv: seq<nat>): (ps: seq<nat>)
    ensures |ps| == |argv|
    ensures forall k :: 0 <= k < |argv| ==> ps[k] == base + argv[k]
  {
    seq(|argv|, k requires 0 <= k < |argv| => base + argv[k])
  }

  /** Reading argument `k` through memory is reading it from the buffer. */
  lemma ArgvReadsArguments(buffer: seq<Byte>, argv: seq<nat>, n: nat, mem: Mem, base: nat)
    requires |buffer| == Config.BufferLen + 1 && buffer[Config.BufferLen] == NUL
    requires n <= |argv| && forall k :: 0 <= k < n ==> argv[k] < Config.BufferLen
    requires Holds(mem, base, buffer)
    ensures forall k :: 0 <= k < n ==>
              CString(mem, Pointers(base, argv)[k]) == Ok(Arguments(buffer, argv, n)[k])
  {
    var ps := Pointers(base, argv);
    var A := Arguments(buffer, argv, n);
    forall k | 0 <= k < n
      ensures CString(mem, ps[k]) == Ok(A[k])
    {
      var x := argv[k];
      assert ps[k] == base + x;
      assert A[k] == UntilNul(buffer[x..]);
      CStringOfHeld(mem, base, buffer, x);
    }
  }

  /**
   * After `esh_parse_args`, reading the C string behind each of the first
   * `argc` pointers gives the corresponding word of the line.
   */
  lemma ArgvReadsTokens(buffer: seq<Byte>, cnt: nat, argv0: seq<nat>, mem: Mem, base: nat)
    requires ParseReady(buffer, cnt, argv0)
    requires Holds(mem, base, Parse(buffer, cnt, argv0).buffer)
    requires Parse(buffer, cnt, argv0).argc <= Config.ArgcMax
    ensures var p := Parse(buffer, cnt, argv0);
            forall k :: 0 <= k < p.argc ==>
              CString(mem, Pointers(base, p.argv)[k]) == Ok(Tokenize(buffer[..cnt])[k])
  {
    var p := Parse(buffer, cnt, argv0);
    var words := Tokenize(buffer[..cnt]);
    var n: nat := p.argc;
    assert Arguments(p.buffer, p.argv, n) == words[..n];
    ArgvReadsArguments(p.buffer, p.argv, n, mem, base);
    assert forall k :: 0 <= k < n ==> Arguments(p.buffer, p.argv, n)[k] == words[k];
  }

  /* ---------------------------------------------------------------- */
  /* UTF-8                                                            */
  /* ---------------------------------------------------------------- */

  predicate Within(c: Byte, lo: int, hi: int) {
    lo <= c as int <= hi
  }

  /**
   * Length of the well-formed UTF-8 sequence `s` starts with, following
   * the byte ranges of section 4 of RFC 3629, or 0 when it starts with none.
   */
  function Utf8Head(s: seq<Byte>): (n: nat)
    requires s != []
    ensures n <= |s| && n <= 4
    ensures IsAscii(s[0]) ==> n == 1
  {
    var b := s[0] as int;
    if b <= 0x7F then 1
    else if 0xC2 <= b <= 0xDF then
      (if |s| >= 2 && Within(s[1], 0x80, 0xBF) then 2 else 0)
    else if 0xE0 <= b <= 0xEF then
      var lo := if b == 0xE0 then 0xA0 else 0x80;
      var hi := if b == 0xED then 0x9F else 0xBF;
      (if |s| >= 3 && Within(s[1], lo, hi) && Within(s[2], 0x80, 0xBF) then 3 else 0)
    else if 0xF0 <= b <= 0xF4 then
      var lo := if b == 0xF0 then 0x90 else 0x80;
      var hi := if b == 0xF4 then 0x8F else 0xBF;
      (if |s| >= 4 && Within(s[1], lo, hi) && Within(s[2], 0x80, 0xBF) && Within(s[3], 0x80, 0xBF)
       then 4 else 0)
    else 0
  }

  /** `s` is a sequence of well-formed UTF-8 characters, which `&str` requires. */
  predicate Utf8(s: seq<Byte>)
    decreases |s|
  {
    s == [] || (Utf8Head(s) > 0 && Utf8(s[Utf8Head(s)..]))
  }

  /** Every ASCII byte is a one-byte UTF-8 character. */
  lemma {:induction false} AsciiIsUtf8(s: seq<Byte>)
    requires forall k :: 0 <= k < |s| ==> IsAscii(s[k])
    ensures Utf8(s)
    decreases |s|
  {
    if s != [] {
      AsciiIsUtf8(s[1..]);
    }
  }

  /** The words of a printable line are valid UTF-8. */
  lemma TokensAreUtf8(line: seq<Byte>)
    requires AllPrint(line)
    ensures forall i :: 0 <= i < |Tokenize(line)| ==> Utf8(Tokenize(line)[i])
  {
    TokenizeKeeps(line, IsPrint);
    forall i | 0 <= i < |Tokenize(line)|
      ensures Utf8(Tokenize(line)[i])
    {
      AsciiIsUtf8(Tokenize(line)[i]);
    }
  }

  /**
   * What lets the Rust binding build `&str` views with
   * `from_utf8_unchecked`: every argument a line completion hands to the
   * command callback is valid UTF-8.
   */
  lemma CommandArgsAreUtf8(s: Esh)
    requires Sound(s)
    ensures forall ev :: ev in Complete(s).1 && ev.Command? ==>
              forall i :: 0 <= i < |ev.args| ==> Utf8(ev.args[i])
  {
    if s.cnt >= Config.BufferLen {
      CompleteOverflowed(s);
    } else if forall k :: 0 <= k < s.cnt ==> s.buffer[k] == ' ' {
      CompleteBlank(s);
    } else {
      CompleteWords(s);
      TokensAreUtf8(s.buffer[..s.cnt]);
    }
  }
}
