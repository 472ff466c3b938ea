/**
 * `esh_parse_args` and `consume_quoted` as the C code runs them: one pass over
 * the edit buffer with a read index `i` and a write index `dest <= i`, so the
 * rewrite can happen in the very buffer it reads. `ParseArgsInPlace` is shown
 * to produce exactly the closed form `Parse`, whose contract is stated against
 * the tokenizer specification in ArgParser.
 */
module ParseArgs {
  import opened Bytes
  import opened ArgParser
  import Config

  /** What `esh_parse_args` demands of its caller (esh.c guarantees both before calling it). */
  predicate ParseReady(buffer: seq<Byte>, cnt: nat, argv: seq<nat>) {
    && |buffer| == Config.BufferLen + 1
    && cnt < Config.BufferLen
    && |argv| == Config.ArgcMax
    && forall k :: 0 <= k < cnt ==> buffer[k] != NUL
  }

  /** The edit buffer, argc and argv after `esh_parse_args`. */
  datatype Parsed = Parsed(buffer: seq<Byte>, argc: int, argv: seq<nat>)

  /** The arguments a parsed buffer presents: argv[k] read up to its NUL. */
  function Arguments(buffer: seq<Byte>, argv: seq<nat>, n: nat): seq<seq<Byte>>
    requires n <= |argv|
    requires forall k :: 0 <= k < n ==> argv[k] <= |buffer|
  {
    seq(n, k requires 0 <= k < n => UntilNul(buffer[argv[k]..]))
  }

  /**
   * The result of `esh_parse_args`, stated in closed form: the rewritten line
   * and its terminator at the front of the buffer, the stale tail untouched,
   * a NUL in the last slot, and one stored offset per argument up to ArgcMax.
   */
  function Parse(buffer: seq<Byte>, cnt: nat, argv0: seq<nat>): (p: Parsed)
    requires ParseReady(buffer, cnt, argv0)
    ensures var line := buffer[..cnt];
            var rw := Rewrite(line);
            && p.argc == |Tokenize(line)|
            && |p.buffer| == |buffer|
            && |rw| <= cnt
            && p.buffer[..|rw|] == rw && p.buffer[|rw|] == NUL
            && p.buffer[Config.BufferLen] == NUL
            && (forall k :: |rw| < k < Config.BufferLen ==> p.buffer[k] == buffer[k])
            && |p.argv| == Config.ArgcMax
            && (forall k :: 0 <= k < Config.ArgcMax && k >= p.argc ==> p.argv[k] == argv0[k])
            && (forall k :: 0 <= k < Config.ArgcMax && k < p.argc ==> p.argv[k] <= |rw|)
            && var n := if p.argc < Config.ArgcMax then p.argc else Config.ArgcMax;
               Arguments(p.buffer, p.argv, n) == Tokenize(line)[..n]
  {
    var line := buffer[..cnt];
    var rw := Rewrite(line);
    var st := Starts(Lex(line), true, 0);
    RewriteLength(line);
    var out := (rw + [NUL] + buffer[|rw| + 1..])[Config.BufferLen := NUL];
    var argv := seq(Config.ArgcMax, k requires 0 <= k < Config.ArgcMax => if k < |st| then st[k] else argv0[k]);
    ParseFacts(buffer, cnt, argv0, out, argv);
    Parsed(out, |st|, argv)
  }

  /** The proof behind Parse's contract, on its closed-form result. */
  lemma ParseFacts(buffer: seq<Byte>, cnt: nat, argv0: seq<nat>, out: seq<Byte>, argv: seq<nat>)
    requires ParseReady(buffer, cnt, argv0)
    requires |Rewrite(buffer[..cnt])| <= cnt
    requires var rw := Rewrite(buffer[..cnt]);
             out == (rw + [NUL] + buffer[|rw| + 1..])[Config.BufferLen := NUL]
    requires var st := Starts(Lex(buffer[..cnt]), true, 0);
             argv == seq(Config.ArgcMax, k requires 0 <= k < Config.ArgcMax => if k < |st| then st[k] else argv0[k])
    ensures var line := buffer[..cnt];
            var rw := Rewrite(line);
            var argc := |Starts(Lex(line), true, 0)|;
            && argc == |Tokenize(line)|
            && |out| == |buffer|
            && |rw| <= cnt
            && out[..|rw|] == rw && out[|rw|] == NUL
            && out[Config.BufferLen] == NUL
            && (forall k :: |rw| < k < Config.BufferLen ==> out[k] == buffer[k])
            && |argv| == Config.ArgcMax
            && (forall k :: 0 <= k < Config.ArgcMax && k >= argc ==> argv[k] == argv0[k])
            && (forall k :: 0 <= k < Config.ArgcMax && k < argc ==> argv[k] <= |rw|)
            && var n := if argc < Config.ArgcMax then argc else Config.ArgcMax;
               Arguments(out, argv, n) == Tokenize(line)[..n]
  {
    var line := buffer[..cnt];
    var rw := Rewrite(line);
    var st := Starts(Lex(line), true, 0);
    RewriteLength(line);
    LexKeeps(line, 0, NotNul);
    WordsAtStarts(Lex(line), 0);
    assert SpellsWords(rw + [NUL], st, Tokenize(line), 0);
    assert out[..|rw| + 1] == rw + [NUL];
    var n := if |st| < Config.ArgcMax then |st| else Config.ArgcMax;
    forall k | 0 <= k < n
      ensures argv[k] <= |rw| && UntilNul(out[argv[k]..]) == Tokenize(line)[k]
    {
      assert argv[k] == st[k];
      assert WordAt(rw + [NUL], st[k], Tokenize(line)[k]);
      ArgumentAt(rw, out, st[k], Tokenize(line)[k]);
    }
  }

  /** A word spelled in the rewritten prefix reads back as that word. */
  lemma ArgumentAt(rw: seq<Byte>, out: seq<Byte>, x: nat, w: seq<Byte>)
    requires WordAt(rw + [NUL], x, w)
    requires |rw| < |out| && out[..|rw| + 1] == rw + [NUL]
    ensures x <= |rw| && UntilNul(out[x..]) == w
  {
    assert out[x..x + |w|] == (rw + [NUL])[x..x + |w|];
    assert out[x..] == w + out[x + |w|..];
    UntilNulOf(w, out[x + |w|..]);
  }

  lemma FindQuoteAgree(s1: seq<Byte>, s2: seq<Byte>, from: nat, q: Byte)
    requires |s1| == |s2| && from <= |s1|
    requires forall k :: from <= k < |s1| ==> s1[k] == s2[k]
    ensures FindQuote(s1, from, q) == FindQuote(s2, from, q)
    decreases |s1| - from
  {
    if from < |s1| {
      FindQuoteAgree(s1, s2, from + 1, q);
    }
  }

  /** Bytes at or above the write index are still the caller's. */
  lemma AgreeAbove(b: seq<Byte>, buffer: seq<Byte>, dest: nat, cnt: nat, x: nat, y: nat)
    requires |b| == |buffer| && dest <= x <= y <= cnt <= |b|
    requires forall k :: dest <= k < |b| ==> b[k] == buffer[k]
    ensures forall k :: x <= k < cnt ==> b[..cnt][k] == buffer[..cnt][k]
    ensures b[x..y] == buffer[..cnt][x..y]
  {
  }

  /** Copying byte `s` of `b` to `d` extends a copied run by that byte. */
  lemma CopyStep(b: seq<Byte>, b': seq<Byte>, dest: nat, d: nat, lo: nat, s: nat)
    requires dest <= d < |b'| && lo <= s < |b| && b'[dest..d] == b[lo..s]
    ensures b'[d := b[s]][dest..d + 1] == b[lo..s + 1]
  {
    assert b[lo..s + 1] == b[lo..s] + [b[s]];
    assert b'[d := b[s]][dest..d + 1] == b'[dest..d] + [b[s]];
  }

  /** `consume_quoted`: copy a quoted run's body down to `dest`, stopping on the closing quote. */
  method ConsumeQuoted(b: seq<Byte>, cnt: nat, src: nat, dest: nat) returns (b': seq<Byte>, src': nat, dest': nat)
    requires dest <= src < cnt <= |b|
    requires IsQuote(b[src])
    ensures src' == FindQuote(b[..cnt], src + 1, b[src])
    ensures dest' == dest + (src' - src - 1)
    ensures |b'| == |b|
    ensures b'[..dest] == b[..dest]
    ensures b'[dest..dest'] == b[src + 1..src']
    ensures forall k :: dest' <= k < |b| ==> b'[k] == b[k]
  {
    var quote := b[src];
    b' := b;
    src' := src + 1;
    dest' := dest;
    while src' < cnt
      invariant src + 1 <= src' <= cnt
      invariant dest' == dest + (src' - src - 1)
      invariant FindQuote(b[..cnt], src + 1, quote) == FindQuote(b[..cnt], src', quote)
      invariant |b'| == |b|
      invariant b'[..dest] == b[..dest]
      invariant b'[dest..dest'] == b[src + 1..src']
      invariant forall k :: dest' <= k < |b| ==> b'[k] == b[k]
      decreases cnt - src'
    {
      var c := b'[src'];
      if c == quote {
        break;
      }
      CopyStep(b, b', dest, dest', src + 1, src');
      b' := b'[dest' := c];
      dest' := dest' + 1;
      src' := src' + 1;
    }
  }

  /**
   * The loop invariant of `esh_parse_args` after reading `i` bytes: the
   * written prefix `b[..dest]` followed by the rewrite of the unread rest is
   * the rewrite of the whole line, the bytes from `dest` on are the caller's,
   * and the offsets recorded so far followed by those of the unread rest are
   * all the argument offsets.
   */
  ghost predicate Scanned(buffer: seq<Byte>, cnt: nat, argv0: seq<nat>, rw: seq<Byte>, st: seq<nat>, b: seq<Byte>, i: nat, dest: nat,
                          argc: int, argv: seq<nat>, lastWasSpace: bool, recorded: seq<nat>)
  {
    && ParseReady(buffer, cnt, argv0)
    && var line := buffer[..cnt];
    && dest <= cnt && dest <= i <= cnt + 1
    && |b| == |buffer|
    && (forall k :: dest <= k < |b| ==> b[k] == buffer[k])
    && rw == b[..dest] + Flatten(LexFrom(line, i))
    && st == recorded + Starts(LexFrom(line, i), lastWasSpace, dest)
    && argc == |recorded| && |argv| == Config.ArgcMax
    && (forall k :: 0 <= k < Config.ArgcMax ==> argv[k] == if k < |recorded| then recorded[k] else argv0[k])
  }

  /** Where a chunk opens an argument, the C code stores its offset while there is room, and counts it regardless. */
  predicate Opened(lws: bool, dest: nat, argc: int, argv: seq<nat>, argc': int, argv': seq<nat>) {
    && argc' == (if lws then argc + 1 else argc)
    && argv' == (if lws && 0 <= argc < |argv| then argv[argc := dest] else argv)
  }

  lemma OpenedKeeps(lws: bool, dest: nat, argc: int, argv: seq<nat>, argc': int, argv': seq<nat>,
                    recorded: seq<nat>, argv0: seq<nat>)
    requires Opened(lws, dest, argc, argv, argc', argv')
    requires argc == |recorded| && |argv| == |argv0|
    requires forall k :: 0 <= k < |argv| ==> argv[k] == if k < |recorded| then recorded[k] else argv0[k]
    ensures var rec' := if lws then recorded + [dest] else recorded;
            && argc' == |rec'| && |argv'| == |argv0|
            && forall k :: 0 <= k < |argv'| ==> argv'[k] == if k < |rec'| then rec'[k] else argv0[k]
  {
  }

  lemma RecordOpen(recorded: seq<nat>, lws: bool, dest: nat, S: seq<nat>)
    ensures recorded + ((if lws then [dest] else []) + S) == (if lws then recorded + [dest] else recorded) + S
  {
    if !lws {
      assert [] + S == S;
    }
  }

  lemma ScanStart(buffer: seq<Byte>, cnt: nat, argv0: seq<nat>)
    requires ParseReady(buffer, cnt, argv0)
    ensures Scanned(buffer, cnt, argv0, Rewrite(buffer[..cnt]), Starts(Lex(buffer[..cnt]), true, 0), buffer, 0, 0, 0, argv0, true, [])
  {
  }

  lemma ScanSpace(buffer: seq<Byte>, cnt: nat, argv0: seq<nat>, rw: seq<Byte>, st: seq<nat>, b: seq<Byte>, i: nat, dest: nat,
                  argc: int, argv: seq<nat>, lws: bool, recorded: seq<nat>)
    requires Scanned(buffer, cnt, argv0, rw, st, b, i, dest, argc, argv, lws, recorded)
    requires i < cnt && b[i] == ' '
    ensures Scanned(buffer, cnt, argv0, rw, st, b[dest := NUL], i + 1, dest + 1, argc, argv, true, recorded)
  {
    var line := buffer[..cnt];
    assert line[i] == ' ';
    var R := LexFrom(line, i + 1);
    assert LexFrom(line, i) == [Gap] + R;
    FlattenCons(Gap, R);
    StartsGap(R, lws, dest);
    assert b[dest := NUL][..dest + 1] == b[..dest] + [NUL];
  }

  /** Consuming one chunk `t` of the line, wherever its bytes came from. */
  lemma ScanChunk(buffer: seq<Byte>, cnt: nat, argv0: seq<nat>, rw: seq<Byte>, st: seq<nat>, b: seq<Byte>, i: nat, dest: nat,
                  argc: int, argv: seq<nat>, lws: bool, recorded: seq<nat>, argc': int, argv': seq<nat>,
                  t: seq<Byte>, b': seq<Byte>, i': nat, dest': nat)
    requires Scanned(buffer, cnt, argv0, rw, st, b, i, dest, argc, argv, lws, recorded)
    requires Opened(lws, dest, argc, argv, argc', argv')
    requires dest' == dest + |t|
    requires i < i' <= cnt + 1 && dest' <= cnt && dest' <= i'
    requires LexFrom(buffer[..cnt], i) == [Chunk(t)] + LexFrom(buffer[..cnt], i')
    requires |b'| == |b| && b'[..dest'] == b[..dest] + t
    requires forall k :: dest' <= k < |b| ==> b'[k] == b[k]
    ensures Scanned(buffer, cnt, argv0, rw, st, b', i', dest', argc', argv', false,
                    if lws then recorded + [dest] else recorded)
  {
    var R := LexFrom(buffer[..cnt], i');
    ChunkText(rw, b[..dest], t, R, b'[..dest']);
    ChunkStarts(st, recorded, t, R, lws, dest);
    OpenedKeeps(lws, dest, argc, argv, argc', argv', recorded, argv0);
  }

  lemma ChunkText(rw: seq<Byte>, before: seq<Byte>, t: seq<Byte>, R: seq<Lexeme>, prefix: seq<Byte>)
    requires rw == before + Flatten([Chunk(t)] + R) && prefix == before + t
    ensures rw == prefix + Flatten(R)
  {
    FlattenCons(Chunk(t), R);
  }

  lemma ChunkStarts(st: seq<nat>, recorded: seq<nat>, t: seq<Byte>, R: seq<Lexeme>, lws: bool, dest: nat)
    requires st == recorded + Starts([Chunk(t)] + R, lws, dest)
    ensures st == (if lws then recorded + [dest] else recorded) + Starts(R, false, dest + |t|)
  {
    StartsChunk(t, R, lws, dest);
    RecordOpen(recorded, lws, dest, Starts(R, false, dest + |t|));
  }

  lemma ScanByte(buffer: seq<Byte>, cnt: nat, argv0: seq<nat>, rw: seq<Byte>, st: seq<nat>, b: seq<Byte>, i: nat, dest: nat,
                 argc: int, argv: seq<nat>, lws: bool, recorded: seq<nat>, argc': int, argv': seq<nat>)
    requires Scanned(buffer, cnt, argv0, rw, st, b, i, dest, argc, argv, lws, recorded)
    requires i < cnt && b[i] != ' ' && !IsQuote(b[i])
    requires Opened(lws, dest, argc, argv, argc', argv')
    ensures Scanned(buffer, cnt, argv0, rw, st, b[dest := b[i]], i + 1, dest + 1, argc', argv', false,
                    if lws then recorded + [dest] else recorded)
  {
    var line := buffer[..cnt];
    assert line[i] == b[i];
    assert LexFrom(line, i) == [Chunk([b[i]])] + LexFrom(line, i + 1);
    assert b[dest := b[i]][..dest + 1] == b[..dest] + [b[i]];
    ScanChunk(buffer, cnt, argv0, rw, st, b, i, dest, argc, argv, lws, recorded, argc', argv', [b[i]], b[dest := b[i]], i + 1, dest + 1);
  }

  lemma ScanQuote(buffer: seq<Byte>, cnt: nat, argv0: seq<nat>, rw: seq<Byte>, st: seq<nat>, b: seq<Byte>, i: nat, dest: nat,
                  argc: int, argv: seq<nat>, lws: bool, recorded: seq<nat>, argc': int, argv': seq<nat>,
                  b': seq<Byte>, i': nat, dest': nat)
    requires Scanned(buffer, cnt, argv0, rw, st, b, i, dest, argc, argv, lws, recorded)
    requires i < cnt && IsQuote(b[i])
    requires Opened(lws, dest, argc, argv, argc', argv')
    requires i' == FindQuote(b[..cnt], i + 1, b[i])
    requires dest' == dest + (i' - i - 1)
    requires |b'| == |b|
    requires b'[..dest] == b[..dest]
    requires b'[dest..dest'] == b[i + 1..i']
    requires forall k :: dest' <= k < |b| ==> b'[k] == b[k]
    ensures Scanned(buffer, cnt, argv0, rw, st, b', i' + 1, dest', argc', argv', false,
                    if lws then recorded + [dest] else recorded)
  {
    QuoteCopied(buffer, cnt, b, i, dest, b', i', dest');
    var t := buffer[..cnt][i + 1..i'];
    assert |t| == i' - i - 1 && dest' == dest + |t| && i' <= cnt;
    ScanChunk(buffer, cnt, argv0, rw, st, b, i, dest, argc, argv, lws, recorded, argc', argv', t, b', i' + 1, dest');
  }

  /** What `consume_quoted` leaves behind, restated against the caller's line. */
  lemma QuoteCopied(buffer: seq<Byte>, cnt: nat, b: seq<Byte>, i: nat, dest: nat, b': seq<Byte>, i': nat, dest': nat)
    requires |b| == |buffer| && dest <= i < cnt <= |b|
    requires forall k :: dest <= k < |b| ==> b[k] == buffer[k]
    requires IsQuote(b[i]) && i' == FindQuote(b[..cnt], i + 1, b[i])
    requires |b'| == |b| && dest <= dest' <= |b|
    requires b'[..dest] == b[..dest]
    requires b'[dest..dest'] == b[i + 1..i']
    ensures b[i] == buffer[..cnt][i]
    ensures i' == FindQuote(buffer[..cnt], i + 1, buffer[..cnt][i])
    ensures b'[..dest'] == b[..dest] + buffer[..cnt][i + 1..i']
    ensures LexFrom(buffer[..cnt], i) == [Chunk(buffer[..cnt][i + 1..i'])] + LexFrom(buffer[..cnt], i' + 1)
  {
    var line := buffer[..cnt];
    assert line[i] == b[i];
    var j := FindQuote(line, i + 1, line[i]);
    AgreeAbove(b, buffer, dest, cnt, i + 1, j);
    FindQuoteAgree(b[..cnt], line, i + 1, b[i]);
    assert b'[..dest'] == b'[..dest] + b'[dest..dest'];
    assert IsQuote(line[i]);
  }

  lemma ScanDone(buffer: seq<Byte>, cnt: nat, argv0: seq<nat>, rw: seq<Byte>, st: seq<nat>, b: seq<Byte>, i: nat, dest: nat,
                 argc: int, argv: seq<nat>, lws: bool, recorded: seq<nat>)
    requires Scanned(buffer, cnt, argv0, rw, st, b, i, dest, argc, argv, lws, recorded)
    requires rw == Rewrite(buffer[..cnt]) && st == Starts(Lex(buffer[..cnt]), true, 0)
    requires i >= cnt
    ensures Parsed(b[dest := NUL][Config.BufferLen := NUL], argc, argv) == Parse(buffer, cnt, argv0)
  {
    var line := buffer[..cnt];
    assert LexFrom(line, i) == [];
    assert rw == b[..dest];
    assert st == recorded;
    assert b[dest := NUL] == rw + [NUL] + buffer[|rw| + 1..];
    assert argv == seq(Config.ArgcMax, k requires 0 <= k < Config.ArgcMax => if k < |st| then st[k] else argv0[k]);
  }

  /**
   * One pass of the loop in `esh_parse_args`: a space ends the current
   * argument, a quote hands over to `consume_quoted`, any other byte is copied
   * down; a byte that follows a space first opens a new argument.
   */
  method ScanStep(ghost buffer: seq<Byte>, cnt: nat, ghost argv0: seq<nat>, ghost rw: seq<Byte>, ghost st: seq<nat>, b: seq<Byte>, i: nat, dest: nat,
                  argc: int, argv: seq<nat>, lastWasSpace: bool, ghost recorded: seq<nat>)
    returns (b': seq<Byte>, i': nat, dest': nat, argc': int, argv': seq<nat>, lastWasSpace': bool, ghost recorded': seq<nat>)
    requires Scanned(buffer, cnt, argv0, rw, st, b, i, dest, argc, argv, lastWasSpace, recorded)
    requires i < cnt
    ensures Scanned(buffer, cnt, argv0, rw, st, b', i', dest', argc', argv', lastWasSpace', recorded')
    ensures i < i'
  {
    if b[i] == ' ' {
      ScanSpace(buffer, cnt, argv0, rw, st, b, i, dest, argc, argv, lastWasSpace, recorded);
      return b[dest := NUL], i + 1, dest + 1, argc, argv, true, recorded;
    }
    argc', argv' := OpenArgument(lastWasSpace, dest, argc, argv);
    recorded' := if lastWasSpace then recorded + [dest] else recorded;
    lastWasSpace' := false;
    if b[i] == '\'' || b[i] == '"' {
      b', i', dest' := QuoteStep(buffer, cnt, argv0, rw, st, b, i, dest, argc, argv, lastWasSpace, recorded, argc', argv');
    } else {
      ScanByte(buffer, cnt, argv0, rw, st, b, i, dest, argc, argv, lastWasSpace, recorded, argc', argv');
      b', i', dest' := b[dest := b[i]], i + 1, dest + 1;
    }
  }

  /** A byte after a space opens an argument: its offset is stored while `argv` has room, and counted regardless. */
  method OpenArgument(lastWasSpace: bool, dest: nat, argc: int, argv: seq<nat>) returns (argc': int, argv': seq<nat>)
    requires argc >= 0 && |argv| == Config.ArgcMax
    ensures Opened(lastWasSpace, dest, argc, argv, argc', argv')
  {
    argc', argv' := argc, argv;
    if lastWasSpace {
      if argc' < Config.ArgcMax as int {
        argv' := argv'[argc' := dest];
      }
      argc' := argc' + 1;
    }
  }

  /** A quote hands the rest of the run over to `consume_quoted`, and reading resumes after the closing quote. */
  method QuoteStep(ghost buffer: seq<Byte>, cnt: nat, ghost argv0: seq<nat>, ghost rw: seq<Byte>, ghost st: seq<nat>, b: seq<Byte>, i: nat, dest: nat,
                   ghost argc: int, ghost argv: seq<nat>, ghost lws: bool, ghost recorded: seq<nat>, ghost argc': int, ghost argv': seq<nat>)
    returns (b': seq<Byte>, i': nat, dest': nat)
    requires Scanned(buffer, cnt, argv0, rw, st, b, i, dest, argc, argv, lws, recorded)
    requires i < cnt && IsQuote(b[i])
    requires Opened(lws, dest, argc, argv, argc', argv')
    ensures Scanned(buffer, cnt, argv0, rw, st, b', i', dest', argc', argv', false,
                    if lws then recorded + [dest] else recorded)
    ensures i < i'
  {
    var src;
    b', src, dest' := ConsumeQuoted(b, cnt, i, dest);
    ScanQuote(buffer, cnt, argv0, rw, st, b, i, dest, argc, argv, lws, recorded, argc', argv', b', src, dest');
    i' := src + 1;
  }

  /**
   * `esh_parse_args`: the rewrite happens in the very buffer it reads, with the
   * write index `dest` never passing the read index `i`.
   */
  method ParseArgsInPlace(buffer: seq<Byte>, cnt: nat, argv0: seq<nat>) returns (out: seq<Byte>, argc: int, argv: seq<nat>)
    requires ParseReady(buffer, cnt, argv0)
    ensures Parsed(out, argc, argv) == Parse(buffer, cnt, argv0)
  {
    ghost var recorded: seq<nat> := [];
    var b: seq<Byte> := buffer;
    argc := 0;
    argv := argv0;
    var lastWasSpace := true;
    var dest: nat := 0;
    var i: nat := 0;
    ghost var rw := Rewrite(buffer[..cnt]);
    ghost var st := Starts(Lex(buffer[..cnt]), true, 0);
    ScanStart(buffer, cnt, argv0);
    while i < cnt
      invariant Scanned(buffer, cnt, argv0, rw, st, b, i, dest, argc, argv, lastWasSpace, recorded)
      decreases cnt + 1 - i
    {
      b, i, dest, argc, argv, lastWasSpace, recorded := ScanStep(buffer, cnt, argv0, rw, st, b, i, dest, argc, argv, lastWasSpace, recorded);
    }
    ScanDone(buffer, cnt, argv0, rw, st, b, i, dest, argc, argv, lastWasSpace, recorded);
    b := b[dest := NUL];
    b := b[Config.BufferLen := NUL];
    out := b;
  }
}
