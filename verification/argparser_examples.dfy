/**
 * The two worked examples of esh_argparser.h, proved against the tokenizer
 * specification: the arguments the command callback receives and the buffer
 * contents after the rewrite. Each is an instance of a general shape lemma,
 * so that the solver never has to evaluate the lexer on a whole literal line.
 */
module ArgParserExamples {
  import opened Bytes
  import opened ArgParser

  /** Three plain words, a run of three spaces after the first, and a quoted last argument. */
  lemma ThreeWordsThenQuoted(a: seq<Byte>, b: seq<Byte>, c: seq<Byte>, q: Byte, body: seq<Byte>)
    requires a != [] && b != [] && c != [] && Plain(a) && Plain(b) && Plain(c)
    requires IsQuote(q) && q !in body
    ensures var line := a + ([' ', ' ', ' '] + (b + ([' '] + (c + ([' '] + ([q] + body + [q]))))));
            && Tokenize(line) == [a, b, c, body]
            && Rewrite(line) == a + ([NUL, NUL, NUL] + (b + ([NUL] + (c + ([NUL] + body)))))
  {
    var s3 := b + ([' '] + (c + ([' '] + ([q] + body + [q]))));
    TwoWordsThenQuoted(b, c, q, body);
    TripleSpace(s3);
    TokenizePlainWord(a, [' ', ' ', ' '] + s3);
  }

  lemma TwoWordsThenQuoted(b: seq<Byte>, c: seq<Byte>, q: Byte, body: seq<Byte>)
    requires b != [] && c != [] && Plain(b) && Plain(c)
    requires IsQuote(q) && q !in body
    ensures var s := b + ([' '] + (c + ([' '] + ([q] + body + [q]))));
            && Tokenize(s) == [b, c, body]
            && Rewrite(s) == b + ([NUL] + (c + ([NUL] + body)))
  {
    var s7 := [q] + body + [q];
    QuotedAlone(q, body);
    WordThenSpace(c, s7);
    WordThenSpace(b, c + ([' '] + s7));
  }

  lemma QuotedAlone(q: Byte, body: seq<Byte>)
    requires IsQuote(q) && q !in body
    ensures Tokenize([q] + body + [q]) == [body]
    ensures Rewrite([q] + body + [q]) == body
  {
    TokenizeQuoted(q, body, []);
    assert [q] + body + [q] + [] == [q] + body + [q];
  }

  /** A plain word and the space after it. */
  lemma WordThenSpace(w: seq<Byte>, r: seq<Byte>)
    requires w != [] && Plain(w)
    ensures Tokenize(w + ([' '] + r)) == [w] + Tokenize(r)
    ensures Rewrite(w + ([' '] + r)) == w + ([NUL] + Rewrite(r))
  {
    TokenizeSpace(r);
    TokenizePlainWord(w, [' '] + r);
  }

  lemma TripleSpace(s: seq<Byte>)
    ensures Tokenize([' ', ' ', ' '] + s) == Tokenize(s)
    ensures Rewrite([' ', ' ', ' '] + s) == [NUL, NUL, NUL] + Rewrite(s)
  {
    TokenizeSpace(s);
    TokenizeSpace([' '] + s);
    TokenizeSpace([' ', ' '] + s);
    assert [' '] + ([' '] + s) == [' ', ' '] + s;
    assert [' '] + ([' ', ' '] + s) == [' ', ' ', ' '] + s;
    assert [NUL] + ([NUL] + ([NUL] + Rewrite(s))) == [NUL, NUL, NUL] + Rewrite(s);
  }

  /** A plain word followed directly by three quoted runs, with nothing between them. */
  lemma GluedRuns(a: seq<Byte>, q1: Byte, b1: seq<Byte>, q2: Byte, b2: seq<Byte>, q3: Byte, b3: seq<Byte>)
    requires a != [] && Plain(a)
    requires IsQuote(q1) && q1 !in b1 && IsQuote(q2) && q2 !in b2 && IsQuote(q3) && q3 !in b3
    ensures var line := a + ([q1] + b1 + [q1] + ([q2] + b2 + [q2] + ([q3] + b3 + [q3])));
            && Tokenize(line) == [a + (b1 + (b2 + b3))]
            && Rewrite(line) == a + (b1 + (b2 + b3))
  {
    var r3 := [q3] + b3 + [q3];
    var r2 := [q2] + b2 + [q2] + r3;
    var r1 := [q1] + b1 + [q1] + r2;
    var runs := [Chunk(b1), Chunk(b2), Chunk(b3)];
    ThreeRuns(q1, b1, q2, b2, q3, b3);
    LexPlain(a, r1);
    var C := Singles(a) + runs;
    assert AllChunks(C);
    assert C + [] == C;
    WordsChunksThenGap(C, []);
    FlattenSingles(a);
    FlattenAppend(Singles(a), runs);
    FlattenRuns(b1, b2, b3);
  }

  lemma ThreeRuns(q1: Byte, b1: seq<Byte>, q2: Byte, b2: seq<Byte>, q3: Byte, b3: seq<Byte>)
    requires IsQuote(q1) && q1 !in b1 && IsQuote(q2) && q2 !in b2 && IsQuote(q3) && q3 !in b3
    ensures Lex([q1] + b1 + [q1] + ([q2] + b2 + [q2] + ([q3] + b3 + [q3]))) == [Chunk(b1), Chunk(b2), Chunk(b3)]
  {
    var r3 := [q3] + b3 + [q3];
    QuotedRun(q3, b3, []);
    assert r3 + [] == r3;
    var r2 := [q2] + b2 + [q2] + r3;
    QuotedRun(q2, b2, r3);
    QuotedRun(q1, b1, r2);
  }

  lemma FlattenRuns(b1: seq<Byte>, b2: seq<Byte>, b3: seq<Byte>)
    ensures Flatten([Chunk(b1), Chunk(b2), Chunk(b3)]) == b1 + (b2 + b3)
  {
    FlattenCons(Chunk(b1), [Chunk(b2), Chunk(b3)]);
    FlattenCons(Chunk(b2), [Chunk(b3)]);
    FlattenCons(Chunk(b3), []);
  }

  /**
   * Runs of spaces separate arguments, and a quoted run keeps its space; the
   * line is `git   config user.name "My Name"`, given in its pieces.
   */
  lemma GitConfig(a: seq<Byte>, b: seq<Byte>, c: seq<Byte>, body: seq<Byte>)
    requires a == "git" && b == "config" && c == "user.name" && body == "My Name"
    ensures var line := a + ([' ', ' ', ' '] + (b + ([' '] + (c + ([' '] + (['"'] + body + ['"']))))));
            && Tokenize(line) == ["git", "config", "user.name", "My Name"]
            && Rewrite(line) + [NUL] == "git\0\0\0config\0user.name\0My Name\0"
  {
    assert Plain("git") && Plain("config") && Plain("user.name");
    ThreeWordsThenQuoted(a, b, c, '"', body);
    GitConfigText(a, b, c, body);
  }

  lemma GitConfigText(a: seq<Byte>, b: seq<Byte>, c: seq<Byte>, body: seq<Byte>)
    requires a == "git" && b == "config" && c == "user.name" && body == "My Name"
    ensures a + ([NUL, NUL, NUL] + (b + ([NUL] + (c + ([NUL] + body))))) + [NUL] == "git\0\0\0config\0user.name\0My Name\0"
  {
  }

  /**
   * Quoted runs glued to each other and to plain bytes make a single
   * argument; the line is `why" would you ever"'"'"do this??"`.
   */
  lemma GluedQuotes(a: seq<Byte>, b1: seq<Byte>, b2: seq<Byte>, b3: seq<Byte>)
    requires a == "why" && b1 == " would you ever" && b2 == "\"" && b3 == "do this??"
    ensures var line := a + (['"'] + b1 + ['"'] + (['\''] + b2 + ['\''] + (['"'] + b3 + ['"'])));
            && Tokenize(line) == ["why would you ever\"do this??"]
            && Rewrite(line) + [NUL] == "why would you ever\"do this??\0"
  {
    assert Plain("why");
    GluedRuns(a, '"', b1, '\'', b2, '"', b3);
    GluedQuotesText(a, b1, b2, b3);
  }

  lemma GluedQuotesText(a: seq<Byte>, b1: seq<Byte>, b2: seq<Byte>, b3: seq<Byte>)
    requires a == "why" && b1 == " would you ever" && b2 == "\"" && b3 == "do this??"
    ensures a + (b1 + (b2 + b3)) == "why would you ever\"do this??"
  {
  }
}
