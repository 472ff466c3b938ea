/**
 * The sh-like argument tokenizer (esh_argparser.c). A command line is split on
 * unquoted ASCII spaces; a `'` or `"` opens a quoted run that ends at the next
 * identical quote or at the end of the line, and whose body is copied verbatim.
 * The C code rewrites the edit buffer in place into NUL-separated arguments.
 *
 * The pure specification works on lexemes: every unquoted space is a `Gap`,
 * every other byte and every quoted run is a `Chunk` of output bytes.
 */
module ArgParser {
  import opened Bytes
  import Config

  predicate IsQuote(c: Byte) {
    c == '\'' || c == '"'
  }

  datatype Lexeme = Gap | Chunk(text: seq<Byte>)

  /** Index of the first `q` in `s` at or after `from`, or |s| when there is none. */
  function FindQuote(s: seq<Byte>, from: nat, q: Byte): (j: nat)
    requires from <= |s|
    ensures from <= j <= |s|
    ensures j < |s| ==> s[j] == q
    decreases |s| - from
  {
    if from == |s| || s[from] == q then from else FindQuote(s, from + 1, q)
  }

  /**
   * The lexemes of a command line from index `i` on, read left to right: a
   * space is a gap, a quote opens a run up to the next identical quote (or the
   * end of the line), any other byte is a one-byte chunk.
   */
  function LexFrom(s: seq<Byte>, i: nat): seq<Lexeme>
    decreases |s| - i
  {
    if i >= |s| then []
    else if s[i] == ' ' then [Gap] + LexFrom(s, i + 1)
    else if IsQuote(s[i]) then
      var j := FindQuote(s, i + 1, s[i]);
      [Chunk(s[i + 1..j])] + LexFrom(s, j + 1)
    else [Chunk([s[i]])] + LexFrom(s, i + 1)
  }

  function Lex(s: seq<Byte>): seq<Lexeme> {
    LexFrom(s, 0)
  }

  /** What one lexeme contributes to the rewritten buffer. */
  function Piece(x: Lexeme): seq<Byte> {
    if x.Gap? then [NUL] else x.text
  }

  function Flatten(L: seq<Lexeme>): seq<Byte> {
    if L == [] then [] else Piece(L[0]) + Flatten(L[1..])
  }

  /** The rewritten buffer contents, without the final terminator. */
  function Rewrite(s: seq<Byte>): seq<Byte> {
    Flatten(Lex(s))
  }

  /** Index of the first gap at or after `k`, or |L|. */
  function WordEnd(L: seq<Lexeme>, k: nat): (n: nat)
    requires k <= |L|
    ensures k <= n <= |L|
    ensures n < |L| ==> L[n].Gap?
    ensures forall j :: k <= j < n ==> L[j].Chunk?
    decreases |L| - k
  {
    if k == |L| || L[k].Gap? then k else WordEnd(L, k + 1)
  }

  /** The arguments: every maximal run of chunks, concatenated. */
  function Words(L: seq<Lexeme>): seq<seq<Byte>>
    decreases |L|
  {
    if L == [] then []
    else if L[0].Gap? then Words(L[1..])
    else
      var n := WordEnd(L, 1);
      [Flatten(L[..n])] + Words(L[n..])
  }

  /** The sh-like split of a command line. */
  function Tokenize(s: seq<Byte>): seq<seq<Byte>> {
    Words(Lex(s))
  }

  /**
   * Offsets into the rewritten buffer at which arguments start: a chunk that
   * follows a gap (or the start of the line) opens an argument. `base` is the
   * offset of `L`'s first lexeme.
   */
  function Starts(L: seq<Lexeme>, afterGap: bool, base: nat): seq<nat>
    decreases |L|
  {
    if L == [] then []
    else if L[0].Gap? then Starts(L[1..], true, base + 1)
    else (if afterGap then [base] else []) + Starts(L[1..], false, base + |L[0].text|)
  }

  predicate AllChunks(L: seq<Lexeme>) {
    forall j :: 0 <= j < |L| ==> L[j].Chunk?
  }

  /** Every byte that a chunk of `L` contributes satisfies `P`. */
  predicate ChunksSatisfy(L: seq<Lexeme>, P: Byte -> bool) {
    forall j, k :: 0 <= j < |L| && L[j].Chunk? && 0 <= k < |L[j].text| ==> P(L[j].text[k])
  }

  // ---------------------------------------------------------------------------
  // Facts about the pure specification

  lemma {:induction false} FlattenAppend(A: seq<Lexeme>, B: seq<Lexeme>)
    ensures Flatten(A + B) == Flatten(A) + Flatten(B)
    decreases |A|
  {
    if A == [] {
      assert A + B == B;
    } else {
      assert (A + B)[1..] == A[1..] + B;
      FlattenAppend(A[1..], B);
    }
  }

  /** Bytes of `s` that satisfy `P` stay so in every chunk. */
  lemma ChunksSatisfyCons(x: Lexeme, R: seq<Lexeme>, P: Byte -> bool)
    requires x.Chunk? ==> forall k :: 0 <= k < |x.text| ==> P(x.text[k])
    requires ChunksSatisfy(R, P)
    ensures ChunksSatisfy([x] + R, P)
  {
    forall a, k | 0 <= a < |[x] + R| && ([x] + R)[a].Chunk? && 0 <= k < |([x] + R)[a].text|
      ensures P(([x] + R)[a].text[k])
    {
      if a > 0 {
        assert ([x] + R)[a] == R[a - 1];
      }
    }
  }

  /** Bytes of `s` that satisfy `P` stay so in every chunk. */
  lemma {:induction false} LexKeeps(s: seq<Byte>, i: nat, P: Byte -> bool)
    requires forall j :: 0 <= j < |s| ==> P(s[j])
    ensures ChunksSatisfy(LexFrom(s, i), P)
    decreases |s| - i
  {
    if i < |s| {
      if s[i] == ' ' {
        LexKeeps(s, i + 1, P);
        ChunksSatisfyCons(Gap, LexFrom(s, i + 1), P);
      } else if IsQuote(s[i]) {
        var j := FindQuote(s, i + 1, s[i]);
        LexKeeps(s, j + 1, P);
        ChunksSatisfyCons(Chunk(s[i + 1..j]), LexFrom(s, j + 1), P);
      } else {
        LexKeeps(s, i + 1, P);
        ChunksSatisfyCons(Chunk([s[i]]), LexFrom(s, i + 1), P);
      }
    }
  }

  /** Flattening chunks whose bytes satisfy `P` yields only bytes satisfying `P`. */
  lemma {:induction false} FlattenChunksKeep(L: seq<Lexeme>, P: Byte -> bool)
    requires AllChunks(L) && ChunksSatisfy(L, P)
    ensures forall k :: 0 <= k < |Flatten(L)| ==> P(Flatten(L)[k])
    decreases |L|
  {
    if L != [] {
      FlattenChunksKeep(L[1..], P);
      assert ChunksSatisfy(L[1..], P) by {
        forall a, k | 0 <= a < |L[1..]| && L[1..][a].Chunk? && 0 <= k < |L[1..][a].text|
          ensures P(L[1..][a].text[k])
        {
          assert L[1..][a] == L[a + 1];
        }
      }
      var F := Flatten(L);
      assert F == L[0].text + Flatten(L[1..]);
      forall k | 0 <= k < |F| ensures P(F[k]) {
        if k >= |L[0].text| {
          assert F[k] == Flatten(L[1..])[k - |L[0].text|];
        }
      }
    }
  }

  /** Inside one argument the start offsets only move forward by the chunk lengths. */
  lemma {:induction false} StartsAcrossChunks(C: seq<Lexeme>, R: seq<Lexeme>, base: nat)
    requires AllChunks(C)
    ensures Starts(C + R, false, base) == Starts(R, false, base + |Flatten(C)|)
    decreases |C|
  {
    if C == [] {
      assert C + R == R;
    } else {
      assert (C + R)[1..] == C[1..] + R;
      assert (C + R)[0] == C[0];
      StartsAcrossChunks(C[1..], R, base + |C[0].text|);
    }
  }

  lemma StartsAtGap(R: seq<Lexeme>, base: nat)
    requires R == [] || R[0].Gap?
    ensures Starts(R, false, base) == Starts(R, true, base)
  {
  }

  predicate NotNul(c: Byte) {
    c != NUL
  }

  lemma ChunksSatisfySlice(L: seq<Lexeme>, P: Byte -> bool, a: nat, b: nat)
    requires ChunksSatisfy(L, P) && a <= b <= |L|
    ensures ChunksSatisfy(L[a..b], P)
  {
    forall j, k | 0 <= j < |L[a..b]| && L[a..b][j].Chunk? && 0 <= k < |L[a..b][j].text|
      ensures P(L[a..b][j].text[k])
    {
      assert L[a..b][j] == L[a + j];
    }
  }

  /** `F` holds the word `w` at offset `x`, followed by a NUL. */
  predicate WordAt(F: seq<Byte>, x: int, w: seq<Byte>) {
    NUL !in w && 0 <= x && x + |w| < |F| && F[x .. x + |w|] == w && F[x + |w|] == NUL
  }

  lemma WordAtShift(p: seq<Byte>, F: seq<Byte>, x: int, w: seq<Byte>)
    requires WordAt(F, x, w)
    ensures WordAt(p + F, x + |p|, w)
  {
    assert (p + F)[x + |p| .. x + |p| + |w|] == F[x .. x + |w|];
    assert (p + F)[x + |p| + |w|] == F[x + |w|];
  }

  /** Every recorded offset, taken relative to `base`, spells the matching word in `F`. */
  predicate SpellsWords(F: seq<Byte>, S: seq<nat>, W: seq<seq<Byte>>, base: nat) {
    && |S| == |W|
    && forall k :: 0 <= k < |S| ==> base <= S[k] && WordAt(F, S[k] - base, W[k])
  }

  lemma SpellsWordsShift(p: seq<Byte>, F: seq<Byte>, S: seq<nat>, W: seq<seq<Byte>>, base: nat)
    requires SpellsWords(F, S, W, base + |p|)
    ensures SpellsWords(p + F, S, W, base)
  {
    forall k | 0 <= k < |S| ensures base <= S[k] && WordAt(p + F, S[k] - base, W[k]) {
      WordAtShift(p, F, S[k] - base - |p|, W[k]);
    }
  }

  /** The first word of a line that starts with a chunk, and what follows it. */
  lemma FirstWord(L: seq<Lexeme>, base: nat)
    requires L != [] && L[0].Chunk?
    requires ChunksSatisfy(L, NotNul)
    ensures var n := WordEnd(L, 1);
            var w := Flatten(L[..n]);
            && Starts(L, true, base) == [base] + Starts(L[n..], true, base + |w|)
            && Words(L) == [w] + Words(L[n..])
            && Flatten(L) + [NUL] == w + (Flatten(L[n..]) + [NUL])
            && WordAt(Flatten(L) + [NUL], 0, w)
  {
    var n := WordEnd(L, 1);
    FirstWordStarts(L, base, n);
    FirstWordText(L, n);
  }

  lemma FirstWordStarts(L: seq<Lexeme>, base: nat, n: nat)
    requires L != [] && L[0].Chunk? && n == WordEnd(L, 1)
    ensures Starts(L, true, base) == [base] + Starts(L[n..], true, base + |Flatten(L[..n])|)
  {
    var C := L[..n];
    var R := L[n..];
    var b1 := base + |L[0].text|;
    SplitTail(L, n);
    FirstWordShape(L, n);
    assert Starts(L, true, base) == [base] + Starts(L[1..], false, b1);
    StartsAcrossChunks(C[1..], R, b1);
    StartsAtGap(R, base + |Flatten(C)|);
    ConsEqual(base, base, Starts(L[1..], false, b1), Starts(R, true, base + |Flatten(C)|));
  }

  lemma SplitTail<T>(L: seq<T>, n: nat)
    requires 1 <= n <= |L|
    ensures L[1..] == L[..n][1..] + L[n..]
  {
  }

  /** The chunks after the first one in the first word, and the word's length. */
  lemma FirstWordShape(L: seq<Lexeme>, n: nat)
    requires L != [] && L[0].Chunk? && n == WordEnd(L, 1)
    ensures AllChunks(L[..n][1..])
    ensures |Flatten(L[..n])| == |L[0].text| + |Flatten(L[..n][1..])|
    ensures L[n..] == [] || L[n..][0].Gap?
  {
    var C := L[..n];
    assert C == [L[0]] + C[1..];
    FlattenCons(L[0], C[1..]);
  }

  lemma FirstWordText(L: seq<Lexeme>, n: nat)
    requires L != [] && L[0].Chunk? && n == WordEnd(L, 1)
    requires ChunksSatisfy(L, NotNul)
    ensures Flatten(L) + [NUL] == Flatten(L[..n]) + (Flatten(L[n..]) + [NUL])
    ensures WordAt(Flatten(L) + [NUL], 0, Flatten(L[..n]))
  {
    FlattenSplit(L, n);
    FirstWordNoNul(L, n);
    GapFirst(L[n..]);
    WordBeforeNul(Flatten(L[..n]), Flatten(L[n..]) + [NUL]);
  }

  lemma FlattenSplit(L: seq<Lexeme>, n: nat)
    requires n <= |L|
    ensures Flatten(L) + [NUL] == Flatten(L[..n]) + (Flatten(L[n..]) + [NUL])
  {
    assert L == L[..n] + L[n..];
    FlattenAppend(L[..n], L[n..]);
  }

  lemma FirstWordNoNul(L: seq<Lexeme>, n: nat)
    requires L != [] && L[0].Chunk? && n == WordEnd(L, 1)
    requires ChunksSatisfy(L, NotNul)
    ensures forall k :: 0 <= k < |Flatten(L[..n])| ==> NotNul(Flatten(L[..n])[k])
  {
    assert AllChunks(L[..n]);
    ChunksSatisfySlice(L, NotNul, 0, n);
    FlattenChunksKeep(L[..n], NotNul);
  }

  lemma GapFirst(R: seq<Lexeme>)
    requires R == [] || R[0].Gap?
    ensures (Flatten(R) + [NUL])[0] == NUL
  {
    if R != [] {
      assert Flatten(R) == [NUL] + Flatten(R[1..]);
    }
  }

  lemma WordBeforeNul(w: seq<Byte>, FR: seq<Byte>)
    requires forall k :: 0 <= k < |w| ==> NotNul(w[k])
    requires FR != [] && FR[0] == NUL
    ensures WordAt(w + FR, 0, w)
  {
    assert (w + FR)[0 .. |w|] == w;
    assert (w + FR)[|w|] == FR[0];
  }

  lemma SpellsWordsCons(F: seq<Byte>, x: nat, w: seq<Byte>, S: seq<nat>, W: seq<seq<Byte>>, base: nat)
    requires base <= x && WordAt(F, x - base, w)
    requires SpellsWords(F, S, W, base)
    ensures SpellsWords(F, [x] + S, [w] + W, base)
  {
    var S' := [x] + S;
    var W' := [w] + W;
    forall k | 0 <= k < |S'| ensures base <= S'[k] && WordAt(F, S'[k] - base, W'[k]) {
      if k > 0 {
        assert S'[k] == S[k - 1] && W'[k] == W[k - 1];
      }
    }
  }

  lemma WordsAtStartsChunk(L: seq<Lexeme>, base: nat, n: nat, w: seq<Byte>)
    requires L != [] && L[0].Chunk?
    requires ChunksSatisfy(L, NotNul)
    requires n == WordEnd(L, 1) && w == Flatten(L[..n])
    requires SpellsWords(Flatten(L[n..]) + [NUL], Starts(L[n..], true, base + |w|), Words(L[n..]), base + |w|)
    ensures SpellsWords(Flatten(L) + [NUL], Starts(L, true, base), Words(L), base)
  {
    FirstWord(L, base);
    var R := L[n..];
    SpellsWordsShift(w, Flatten(R) + [NUL], Starts(R, true, base + |w|), Words(R), base);
    SpellsWordsCons(Flatten(L) + [NUL], base, w, Starts(R, true, base + |w|), Words(R), base);
  }

  lemma WordsAtStartsGap(L: seq<Lexeme>, base: nat)
    requires L != [] && L[0].Gap?
    requires SpellsWords(Flatten(L[1..]) + [NUL], Starts(L[1..], true, base + 1), Words(L[1..]), base + 1)
    ensures SpellsWords(Flatten(L) + [NUL], Starts(L, true, base), Words(L), base)
  {
    assert Flatten(L) + [NUL] == [NUL] + (Flatten(L[1..]) + [NUL]);
    SpellsWordsShift([NUL], Flatten(L[1..]) + [NUL], Starts(L[1..], true, base + 1), Words(L[1..]), base);
  }

  /**
   * The link between the offsets the tokenizer records and the arguments:
   * from the k-th start offset, the rewritten buffer (with its terminator)
   * holds exactly the k-th word followed by a NUL.
   */
  lemma {:induction false} WordsAtStarts(L: seq<Lexeme>, base: nat)
    requires ChunksSatisfy(L, NotNul)
    ensures SpellsWords(Flatten(L) + [NUL], Starts(L, true, base), Words(L), base)
    decreases |L|
  {
    if L == [] {
    } else if L[0].Gap? {
      ChunksSatisfySlice(L, NotNul, 1, |L|);
      WordsAtStarts(L[1..], base + 1);
      WordsAtStartsGap(L, base);
    } else {
      var n := WordEnd(L, 1);
      var w := Flatten(L[..n]);
      ChunksSatisfySlice(L, NotNul, n, |L|);
      WordsAtStarts(L[n..], base + |w|);
      WordsAtStartsChunk(L, base, n, w);
    }
  }

  /** Every byte of every word comes from a chunk, so it keeps what the chunks have. */
  lemma {:induction false} WordsKeep(L: seq<Lexeme>, P: Byte -> bool)
    requires ChunksSatisfy(L, P)
    ensures forall i, k :: 0 <= i < |Words(L)| && 0 <= k < |Words(L)[i]| ==> P(Words(L)[i][k])
    decreases |L|
  {
    if L == [] {
    } else if L[0].Gap? {
      ChunksSatisfySlice(L, P, 1, |L|);
      WordsKeep(L[1..], P);
    } else {
      var n := WordEnd(L, 1);
      assert AllChunks(L[..n]);
      ChunksSatisfySlice(L, P, 0, n);
      ChunksSatisfySlice(L, P, n, |L|);
      FlattenChunksKeep(L[..n], P);
      WordsKeep(L[n..], P);
      var W := Words(L);
      assert W == [Flatten(L[..n])] + Words(L[n..]);
      forall i, k | 0 <= i < |W| && 0 <= k < |W[i]| ensures P(W[i][k]) {
        if i > 0 {
          assert W[i] == Words(L[n..])[i - 1];
        }
      }
    }
  }

  /**
   * Tokenizing never invents a byte: a property every byte of the line has
   * holds of every byte of every argument (quotes and spaces are consumed,
   * everything else is copied).
   */
  lemma TokenizeKeeps(s: seq<Byte>, P: Byte -> bool)
    requires forall j :: 0 <= j < |s| ==> P(s[j])
    ensures forall i, k :: 0 <= i < |Tokenize(s)| && 0 <= k < |Tokenize(s)[i]| ==> P(Tokenize(s)[i][k])
  {
    LexKeeps(s, 0, P);
    WordsKeep(Lex(s), P);
  }

  // ---------------------------------------------------------------------------
  // Shape of the rewritten buffer

  lemma FlattenCons(x: Lexeme, R: seq<Lexeme>)
    ensures Flatten([x] + R) == Piece(x) + Flatten(R)
  {
    assert ([x] + R)[1..] == R;
  }

  lemma StartsGap(R: seq<Lexeme>, afterGap: bool, base: nat)
    ensures Starts([Gap] + R, afterGap, base) == Starts(R, true, base + 1)
  {
    assert ([Gap] + R)[1..] == R;
  }

  lemma StartsChunk(t: seq<Byte>, R: seq<Lexeme>, afterGap: bool, base: nat)
    ensures Starts([Chunk(t)] + R, afterGap, base) == (if afterGap then [base] else []) + Starts(R, false, base + |t|)
  {
    assert ([Chunk(t)] + R)[1..] == R;
  }

  /** The rewrite never lengthens the line. */
  lemma {:induction false} RewriteLengthFrom(s: seq<Byte>, i: nat)
    requires i <= |s|
    ensures |Flatten(LexFrom(s, i))| <= |s| - i
    decreases |s| - i, 2
  {
    if i < |s| {
      if IsQuote(s[i]) {
        QuoteLength(s, i, FindQuote(s, i + 1, s[i]));
      } else {
        var x := if s[i] == ' ' then Gap else Chunk([s[i]]);
        assert LexFrom(s, i) == [x] + LexFrom(s, i + 1);
        FlattenCons(x, LexFrom(s, i + 1));
        assert |Piece(x)| == 1;
        RewriteLengthFrom(s, i + 1);
      }
    }
  }

  /** A quote at `k` makes the rewrite strictly shorter: the quote byte itself is dropped. */
  lemma {:induction false} RewriteShortensFrom(s: seq<Byte>, i: nat, k: nat)
    requires i <= k < |s| && IsQuote(s[k])
    ensures |Flatten(LexFrom(s, i))| < |s| - i
    decreases |s| - i
  {
    if IsQuote(s[i]) {
      var j := FindQuote(s, i + 1, s[i]);
      QuoteLength(s, i, j);
    } else {
      var x := if s[i] == ' ' then Gap else Chunk([s[i]]);
      assert LexFrom(s, i) == [x] + LexFrom(s, i + 1);
      FlattenCons(x, LexFrom(s, i + 1));
      assert |Piece(x)| == 1;
      RewriteShortensFrom(s, i + 1, k);
    }
  }

  /** A quoted run starting at `i` contributes its body only: at least one byte, the opening quote, is gone. */
  lemma QuoteLength(s: seq<Byte>, i: nat, j: nat)
    requires i < |s| && IsQuote(s[i]) && j == FindQuote(s, i + 1, s[i])
    ensures |Flatten(LexFrom(s, i))| < |s| - i
    decreases |s| - i, 1
  {
    var t := s[i + 1..j];
    var R := LexFrom(s, j + 1);
    LexQuote(s, i, j);
    FlattenCons(Chunk(t), R);
    AfterQuoteLength(s, j);
  }

  /** What follows the closing quote at `j` (or the end of the line) is no longer than the rest of the line. */
  lemma AfterQuoteLength(s: seq<Byte>, j: nat)
    requires j <= |s|
    ensures |Flatten(LexFrom(s, j + 1))| <= |s| - j
    decreases |s| - j, 0
  {
    if j < |s| {
      RewriteLengthFrom(s, j + 1);
    } else {
      LexEnd(s, j + 1);
    }
  }

  lemma LexEnd(s: seq<Byte>, i: nat)
    requires i >= |s|
    ensures LexFrom(s, i) == [] && Flatten(LexFrom(s, i)) == []
  {
  }

  lemma RewriteLength(s: seq<Byte>)
    ensures |Rewrite(s)| <= |s|
    ensures (exists k :: 0 <= k < |s| && IsQuote(s[k])) ==> |Rewrite(s)| < |s|
  {
    RewriteLengthFrom(s, 0);
    if exists k :: 0 <= k < |s| && IsQuote(s[k]) {
      var k :| 0 <= k < |s| && IsQuote(s[k]);
      RewriteShortensFrom(s, 0, k);
    }
  }

  function SpaceToNul(c: Byte): Byte {
    if c == ' ' then NUL else c
  }

  /** `F` is the bytes of `s` from `i` on, with every space turned into a NUL. */
  predicate SpacesNulled(F: seq<Byte>, s: seq<Byte>, i: nat) {
    && i <= |s| && |F| == |s| - i
    && forall k :: i <= k < |s| ==> F[k - i] == SpaceToNul(s[k])
  }

  lemma SpacesNulledCons(c: Byte, F: seq<Byte>, s: seq<Byte>, i: nat)
    requires i < |s| && s[i] == c && SpacesNulled(F, s, i + 1)
    ensures SpacesNulled([SpaceToNul(c)] + F, s, i)
  {
    var G := [SpaceToNul(c)] + F;
    forall k | i <= k < |s| ensures G[k - i] == SpaceToNul(s[k]) {
      if k > i {
        assert G[k - i] == F[k - (i + 1)];
      }
    }
  }

  /** Without quotes, each space becomes exactly one NUL and nothing else changes. */
  lemma {:induction false} RewriteWithoutQuotesFrom(s: seq<Byte>, i: nat)
    requires i <= |s|
    requires forall k :: 0 <= k < |s| ==> !IsQuote(s[k])
    ensures SpacesNulled(Flatten(LexFrom(s, i)), s, i)
    decreases |s| - i
  {
    if i < |s| {
      RewriteWithoutQuotesFrom(s, i + 1);
      var x := if s[i] == ' ' then Gap else Chunk([s[i]]);
      assert !IsQuote(s[i]);
      assert LexFrom(s, i) == [x] + LexFrom(s, i + 1);
      FlattenCons(x, LexFrom(s, i + 1));
      assert Piece(x) == [SpaceToNul(s[i])];
      SpacesNulledCons(s[i], Flatten(LexFrom(s, i + 1)), s, i);
    }
  }

  lemma RewriteWithoutQuotes(s: seq<Byte>)
    requires forall k :: 0 <= k < |s| ==> !IsQuote(s[k])
    ensures |Rewrite(s)| == |s|
    ensures forall k :: 0 <= k < |s| ==> Rewrite(s)[k] == SpaceToNul(s[k])
  {
    RewriteWithoutQuotesFrom(s, 0);
  }

  /** Lexing the tail of `p + r` is lexing `r`: the lexer has no memory across lexemes. */
  lemma {:induction false} LexFromSuffix(p: seq<Byte>, r: seq<Byte>, i: nat)
    ensures LexFrom(p + r, |p| + i) == LexFrom(r, i)
    decreases |r| - i
  {
    if i < |r| {
      if IsQuote(r[i]) {
        var j := FindQuote(r, i + 1, r[i]);
        LexFromSuffix(p, r, j + 1);
        LexFromSuffixQuote(p, r, i, j);
      } else {
        LexFromSuffix(p, r, i + 1);
        LexFromSuffixByte(p, r, i);
      }
    }
  }

  lemma LexFromSuffixByte(p: seq<Byte>, r: seq<Byte>, i: nat)
    requires i < |r| && !IsQuote(r[i])
    requires LexFrom(p + r, |p| + i + 1) == LexFrom(r, i + 1)
    ensures LexFrom(p + r, |p| + i) == LexFrom(r, i)
  {
    assert (p + r)[|p| + i] == r[i];
  }

  lemma LexFromSuffixQuote(p: seq<Byte>, r: seq<Byte>, i: nat, j: nat)
    requires i < |r| && IsQuote(r[i]) && j == FindQuote(r, i + 1, r[i])
    requires LexFrom(p + r, |p| + j + 1) == LexFrom(r, j + 1)
    ensures LexFrom(p + r, |p| + i) == LexFrom(r, i)
  {
    var s := p + r;
    ShiftedQuote(p, r, i, j);
    var c := Chunk(r[i + 1..j]);
    var rest := LexFrom(r, j + 1);
    LexQuoteTo(s, |p| + i, |p| + j, c, rest);
    LexQuoteTo(r, i, j, c, rest);
  }

  /** A quoted run of `r` is the same quoted run of `p + r`, shifted by |p|. */
  lemma ShiftedQuote(p: seq<Byte>, r: seq<Byte>, i: nat, j: nat)
    requires i < |r| && IsQuote(r[i]) && j == FindQuote(r, i + 1, r[i])
    ensures var s := p + r;
            && |p| + i < |s| && s[|p| + i] == r[i]
            && |p| + j == FindQuote(s, |p| + i + 1, s[|p| + i])
            && Chunk(s[|p| + i + 1..|p| + j]) == Chunk(r[i + 1..j])
  {
    SliceShift(p, r, i, j);
    FindQuoteShift(p, r, i + 1, r[i]);
  }

  /** `LexQuote`, with the chunk and the lexemes after it named by the caller. */
  lemma LexQuoteTo(s: seq<Byte>, i: nat, j: nat, c: Lexeme, rest: seq<Lexeme>)
    requires i < |s| && IsQuote(s[i]) && j == FindQuote(s, i + 1, s[i])
    requires c == Chunk(s[i + 1..j]) && rest == LexFrom(s, j + 1)
    ensures LexFrom(s, i) == [c] + rest
  {
    LexQuote(s, i, j);
  }

  lemma ConsEqual<T>(x: T, y: T, A: seq<T>, B: seq<T>)
    requires x == y && A == B
    ensures [x] + A == [y] + B
  {
  }

  /** One step of the lexer at a quote. */
  lemma LexQuote(s: seq<Byte>, i: nat, j: nat)
    requires i < |s| && IsQuote(s[i]) && j == FindQuote(s, i + 1, s[i])
    ensures LexFrom(s, i) == [Chunk(s[i + 1..j])] + LexFrom(s, j + 1)
  {
  }

  lemma SliceShift(p: seq<Byte>, r: seq<Byte>, i: nat, j: nat)
    requires i < |r| && i + 1 <= j <= |r|
    ensures (p + r)[|p| + i] == r[i]
    ensures (p + r)[|p| + i + 1..|p| + j] == r[i + 1..j]
  {
  }

  /** Searching the tail of `p + r` finds the same quote as searching `r`. */
  lemma {:induction false} FindQuoteShift(p: seq<Byte>, r: seq<Byte>, from: nat, q: Byte)
    requires from <= |r|
    ensures FindQuote(p + r, |p| + from, q) == |p| + FindQuote(r, from, q)
    decreases |r| - from
  {
    if from < |r| {
      assert (p + r)[|p| + from] == r[from];
      if r[from] != q {
        FindQuoteShift(p, r, from + 1, q);
      }
    }
  }

  /** A closed quoted run becomes one chunk holding exactly its body. */
  lemma QuotedRun(q: Byte, body: seq<Byte>, rest: seq<Byte>)
    requires IsQuote(q) && q !in body
    ensures Lex([q] + body + [q] + rest) == [Chunk(body)] + Lex(rest)
  {
    var p := [q] + body + [q];
    var s := p + rest;
    assert s == [q] + body + [q] + rest;
    FindQuoteAt(s, 1, q, |body| + 1);
    assert s[1..|body| + 1] == body;
    LexFromSuffix(p, rest, 0);
  }

  /** A quote left open runs to the end of the line. */
  lemma OpenQuotedRun(q: Byte, body: seq<Byte>)
    requires IsQuote(q) && q !in body
    ensures Lex([q] + body) == [Chunk(body)]
  {
    var s := [q] + body;
    FindQuoteAt(s, 1, q, |s|);
    assert s[1..|s|] == body;
    assert LexFrom(s, |s| + 1) == [];
  }

  /** No byte skipped by FindQuote is the quote it looks for. */
  lemma {:induction false} FindQuoteFirst(s: seq<Byte>, from: nat, q: Byte)
    requires from <= |s|
    ensures forall k :: from <= k < FindQuote(s, from, q) ==> s[k] != q
    decreases |s| - from
  {
    if from < |s| && s[from] != q {
      FindQuoteFirst(s, from + 1, q);
    }
  }

  /** FindQuote returns the first matching index. */
  lemma FindQuoteAt(s: seq<Byte>, from: nat, q: Byte, j: nat)
    requires from <= j <= |s|
    requires j < |s| ==> s[j] == q
    requires forall k :: from <= k < j ==> s[k] != q
    ensures FindQuote(s, from, q) == j
    decreases |s| - from
  {
    if from < j {
      FindQuoteAt(s, from + 1, q, j);
    }
  }

  /** A line holds no argument exactly when it is nothing but spaces. */
  lemma {:induction false} NoWordsIffBlankFrom(s: seq<Byte>, i: nat)
    requires i <= |s|
    ensures Words(LexFrom(s, i)) == [] <==> forall k :: i <= k < |s| ==> s[k] == ' '
    decreases |s| - i
  {
    if i < |s| {
      if s[i] == ' ' {
        NoWordsIffBlankFrom(s, i + 1);
        assert ([Gap] + LexFrom(s, i + 1))[1..] == LexFrom(s, i + 1);
      } else {
        assert LexFrom(s, i)[0].Chunk?;
      }
    }
  }

  lemma NoWordsIffBlank(s: seq<Byte>)
    ensures Tokenize(s) == [] <==> forall k :: 0 <= k < |s| ==> s[k] == ' '
  {
    NoWordsIffBlankFrom(s, 0);
  }

  // ---------------------------------------------------------------------------
  // Lexing a line piece by piece

  /** A run of bytes that are neither spaces nor quotes. */
  predicate Plain(w: seq<Byte>) {
    forall c :: c in w ==> c != ' ' && !IsQuote(c)
  }

  /** The lexemes of a plain run: one single-byte chunk per byte. */
  function Singles(w: seq<Byte>): seq<Lexeme> {
    seq(|w|, k requires 0 <= k < |w| => Chunk([w[k]]))
  }

  /** A plain run lexes byte by byte, whatever follows it. */
  lemma {:induction false} LexPlain(w: seq<Byte>, r: seq<Byte>)
    requires Plain(w)
    ensures Lex(w + r) == Singles(w) + Lex(r)
    decreases |w|
  {
    if w == [] {
      assert w + r == r;
      assert Singles(w) == [];
    } else {
      var s := w + r;
      var t := w[1..] + r;
      assert s == [w[0]] + t;
      assert w[0] in w;
      assert forall c :: c in w[1..] ==> c in w;
      assert s[0] == w[0];
      assert Lex(s) == [Chunk([w[0]])] + LexFrom(s, 1);
      LexFromSuffix([w[0]], t, 0);
      LexPlain(w[1..], r);
      assert Singles(w) == [Chunk([w[0]])] + Singles(w[1..]);
    }
  }

  /** An unquoted space is a gap, whatever follows it. */
  lemma LexSpace(r: seq<Byte>)
    ensures Lex([' '] + r) == [Gap] + Lex(r)
  {
    LexFromSuffix([' '], r, 0);
  }

  lemma {:induction false} FlattenSingles(w: seq<Byte>)
    ensures Flatten(Singles(w)) == w
    decreases |w|
  {
    if w != [] {
      assert Singles(w)[1..] == Singles(w[1..]);
      FlattenSingles(w[1..]);
      assert w == [w[0]] + w[1..];
    }
  }

  /** Chunks up to a gap (or the end) make exactly one argument: their bytes run together. */
  lemma WordsChunksThenGap(C: seq<Lexeme>, R: seq<Lexeme>)
    requires C != [] && AllChunks(C)
    requires R == [] || R[0].Gap?
    ensures Words(C + R) == [Flatten(C)] + Words(R)
  {
    var L := C + R;
    WordEndAt(L, 1, |C|);
    assert L[..|C|] == C;
    assert L[|C|..] == R;
  }

  lemma {:induction false} WordEndAt(L: seq<Lexeme>, k: nat, n: nat)
    requires k <= n <= |L|
    requires forall j :: k <= j < n ==> L[j].Chunk?
    requires n == |L| || L[n].Gap?
    ensures WordEnd(L, k) == n
    decreases n - k
  {
    if k < n {
      WordEndAt(L, k + 1, n);
    }
  }

  /** A gap contributes no argument. */
  lemma WordsGap(R: seq<Lexeme>)
    ensures Words([Gap] + R) == Words(R)
  {
    assert ([Gap] + R)[1..] == R;
  }

  /** A leading space adds no argument and becomes one NUL of the rewrite. */
  lemma TokenizeSpace(r: seq<Byte>)
    ensures Tokenize([' '] + r) == Tokenize(r)
    ensures Rewrite([' '] + r) == [NUL] + Rewrite(r)
  {
    LexSpace(r);
    WordsGap(Lex(r));
    FlattenCons(Gap, Lex(r));
  }

  /** A quoted run ended by a space (or the end of the line) is one argument: its body. */
  lemma TokenizeQuoted(q: Byte, body: seq<Byte>, r: seq<Byte>)
    requires IsQuote(q) && q !in body
    requires r == [] || r[0] == ' '
    ensures Tokenize([q] + body + [q] + r) == [body] + Tokenize(r)
    ensures Rewrite([q] + body + [q] + r) == body + Rewrite(r)
  {
    QuotedRun(q, body, r);
    assert Lex(r) == [] || Lex(r)[0].Gap?;
    WordsChunksThenGap([Chunk(body)], Lex(r));
    FlattenCons(Chunk(body), Lex(r));
    FlattenCons(Chunk(body), []);
    assert [Chunk(body)] + [] == [Chunk(body)];
    assert body + [] == body;
  }

  /** A plain word ended by a space (or the end of the line) is one argument, copied unchanged. */
  lemma TokenizePlainWord(w: seq<Byte>, r: seq<Byte>)
    requires w != [] && Plain(w)
    requires r == [] || r[0] == ' '
    ensures Tokenize(w + r) == [w] + Tokenize(r)
    ensures Rewrite(w + r) == w + Rewrite(r)
  {
    LexPlain(w, r);
    FlattenSingles(w);
    assert Lex(r) == [] || Lex(r)[0].Gap?;
    WordsChunksThenGap(Singles(w), Lex(r));
    FlattenAppend(Singles(w), Lex(r));
  }
}
