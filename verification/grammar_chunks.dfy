/** The parser for the grammar breakdown a language model returns: the
    reply is read line by line, a line starting `CHUNK:` opens a new chunk
    of the sentence, a line starting `EXPLANATION:` gives that chunk its
    explanation, and other non-blank lines continue whichever of the two
    was last opened. Every line is stripped before it is looked at.

    The model reads each line once into a `Line` (what the loop's `if`
    chain decides about it) and runs the loop's state machine over those. */
module GrammarChunks {
  import opened Wrappers
  import opened Text
  import opened Collections

  const ChunkTag: String := "CHUNK:"
  const ExplanationTag: String := "EXPLANATION:"

  /** One entry of the reply: `{'sentence': ..., 'explanation': ...}`. */
  datatype Chunk = Chunk(sentence: String, explanation: String)

  /** A line as the loop sees it: a chunk header or an explanation header
      with the stripped text after its tag, a non-blank other line with its
      stripped text, or a blank line. */
  datatype Line = Opens(text: String) | Explains(text: String) | Continues(text: String) | Blank

  /** `collecting`: nothing yet, the sentence text, or the explanation. */
  datatype Mode = Idle | InChunk | InExplanation

  /** The loop's variables: the chunks emitted so far, the open chunk's
      text (`None` before the first `CHUNK:` line), its explanation (`None`
      until an `EXPLANATION:` line), and what continuation lines extend. */
  datatype Parser = Parser(chunks: seq<Chunk>, current: Option<String>, explanation: Option<String>, mode: Mode)

  const Init := Parser([], None, None, Idle)

  /** The branch of the loop body a line takes. The `CHUNK:` test comes
      first, so a line starting with both tags is a chunk header. */
  function Classify(line: String): (l: Line)
    ensures l.Continues? ==> l.text != [] && l.text == Strip(line)
    ensures l.Blank? <==> Strip(line) == []
    ensures l.Opens? <==> StartsWith(Strip(line), ChunkTag)
    ensures l.Explains? <==> !StartsWith(Strip(line), ChunkTag) && StartsWith(Strip(line), ExplanationTag)
  {
    var s := Strip(line);
    if StartsWith(s, ChunkTag) then Opens(Strip(s[|ChunkTag|..]))
    else if StartsWith(s, ExplanationTag) then Explains(Strip(s[|ExplanationTag|..]))
    else if s == [] then Blank
    else Continues(s)
  }

  /** `content.split('\n')`, each line classified. */
  function Lex(content: String): (ls: seq<Line>)
    ensures |ls| == |Split(content, '\n')|
    ensures forall k :: 0 <= k < |ls| ==> ls[k] == Classify(Split(content, '\n')[k])
  {
    var lines := Split(content, '\n');
    seq(|lines|, k requires 0 <= k < |lines| => Classify(lines[k]))
  }

  /** The chunk emitted for an open chunk: both texts stripped, and a
      missing explanation read as the empty one. */
  function Close(sentence: String, explanation: Option<String>): (c: Chunk)
    ensures Trimmed(c.sentence) && Trimmed(c.explanation)
    ensures explanation.None? ==> c.explanation == []
  {
    Chunk(Strip(sentence), Strip(explanation.GetOr([])))
  }

  /** The chunks with the open chunk, if any, emitted. */
  function Flush(p: Parser): seq<Chunk> {
    if p.current.Some? then p.chunks + [Close(p.current.value, p.explanation)] else p.chunks
  }

  /** One pass of the loop body. */
  function Step(p: Parser, l: Line): Parser {
    match l
    case Opens(t) => Parser(Flush(p), Some(t), None, InChunk)
    case Explains(t) => p.(explanation := Some(t), mode := InExplanation)
    case Continues(s) =>
      if p.mode == InExplanation then p.(explanation := Some(p.explanation.GetOr([]) + "\n" + s))
      else if p.mode == InChunk then p.(current := Some(p.current.GetOr([]) + s))
      else p
    case Blank => p
  }

  /** The loop over `ls`, starting from `p`. */
  function Run(p: Parser, ls: seq<Line>): Parser
    decreases |ls|
  {
    if ls == [] then p
    else Step(Run(p, ls[..|ls| - 1]), ls[|ls| - 1])
  }

  /** The parsed reply: the loop over the lines of `content`, then the last
      open chunk emitted. */
  function Parse(content: String): seq<Chunk> {
    Flush(Run(Init, Lex(content)))
  }

  /** The number of chunk headers. */
  function Headers(ls: seq<Line>): nat {
    if ls == [] then 0
    else Headers(ls[..|ls| - 1]) + (if ls[|ls| - 1].Opens? then 1 else 0)
  }

  /** The chunks a state will have produced once flushed. */
  function Pending(p: Parser): nat {
    |p.chunks| + (if p.current.Some? then 1 else 0)
  }

  /** The loop only extends the sentence once a chunk is open. */
  predicate Consistent(p: Parser) {
    p.mode == InChunk ==> p.current.Some?
  }

  // ---------------------------------------------------------------------
  // One step
  // ---------------------------------------------------------------------

  /** Each chunk header adds one pending chunk and no other line does;
      emitted chunks are never changed, and an open chunk stays open. */
  lemma StepPending(p: Parser, l: Line)
    requires Consistent(p)
    ensures Consistent(Step(p, l))
    ensures Pending(Step(p, l)) == Pending(p) + (if l.Opens? then 1 else 0)
    ensures |p.chunks| <= |Step(p, l).chunks| && Step(p, l).chunks[..|p.chunks|] == p.chunks
    ensures Step(p, l).current.Some? <==> p.current.Some? || l.Opens?
  {
  }

  /** Running over `a + b` is running over `a`, then over `b`. */
  lemma {:induction false} RunAppend(p: Parser, a: seq<Line>, b: seq<Line>)
    ensures Run(p, a + b) == Run(Run(p, a), b)
    decreases |b|
  {
    if b == [] {
      assert a + b == a;
    } else {
      var n := |b|;
      assert (a + b)[..|a + b| - 1] == a + b[..n - 1];
      assert (a + b)[|a + b| - 1] == b[n - 1];
      RunAppend(p, a, b[..n - 1]);
    }
  }

  // ---------------------------------------------------------------------
  // Counting and order
  // ---------------------------------------------------------------------

  /** The pending count grows by exactly the number of chunk headers, and
      the chunks already emitted stay at the front, in order. */
  lemma {:induction false} RunPending(p: Parser, ls: seq<Line>)
    requires Consistent(p)
    ensures Consistent(Run(p, ls))
    ensures Pending(Run(p, ls)) == Pending(p) + Headers(ls)
    ensures |p.chunks| <= |Run(p, ls).chunks| && Run(p, ls).chunks[..|p.chunks|] == p.chunks
    ensures Run(p, ls).current.Some? <==> p.current.Some? || Headers(ls) > 0
    decreases |ls|
  {
    if ls != [] {
      var front := ls[..|ls| - 1];
      RunPending(p, front);
      var q := Run(p, front);
      StepPending(q, ls[|ls| - 1]);
      assert Run(p, ls).chunks[..|p.chunks|] == q.chunks[..|p.chunks|];
    }
  }

  /** One chunk per chunk header of the reply, no more and no fewer. */
  lemma ChunkCount(content: String)
    ensures |Parse(content)| == Headers(Lex(content))
  {
    RunPending(Init, Lex(content));
  }

  /** Lines before the first chunk header leave no trace: neither sentence
      text nor an explanation given there reaches any chunk. */
  lemma Preamble(pre: seq<Line>, rest: seq<Line>)
    requires Headers(pre) == 0
    requires rest != [] && rest[0].Opens?
    ensures Run(Init, pre + rest) == Run(Init, rest)
  {
    RunPending(Init, pre);
    var q := Run(Init, pre);
    assert Step(q, rest[0]) == Step(Init, rest[0]);
    assert rest == [rest[0]] + rest[1..];
    RunAppend(Init, pre, rest);
    RunAppend(q, [rest[0]], rest[1..]);
    RunAppend(Init, [rest[0]], rest[1..]);
    assert [rest[0]][..0] == [];
  }

  // ---------------------------------------------------------------------
  // Blocks
  // ---------------------------------------------------------------------

  predicate AllContinue(ls: seq<Line>) {
    forall k :: 0 <= k < |ls| ==> ls[k].Continues?
  }

  /** The continuation texts concatenated with no separator. */
  function Glued(ls: seq<Line>): String
    requires AllContinue(ls)
  {
    if ls == [] then []
    else Glued(ls[..|ls| - 1]) + ls[|ls| - 1].text
  }

  /** The continuation texts, each preceded by a line break. */
  function OnNewLines(ls: seq<Line>): String
    requires AllContinue(ls)
  {
    if ls == [] then []
    else OnNewLines(ls[..|ls| - 1]) + "\n" + ls[|ls| - 1].text
  }

  /** A chunk header followed by continuation lines: the open chunk (if
      any) is emitted, and the new chunk's sentence is the header's text
      with the continuations glued on, with no explanation yet. */
  lemma {:induction false} ChunkBlock(p: Parser, t: String, more: seq<Line>)
    requires AllContinue(more)
    ensures Run(p, [Opens(t)] + more) == Parser(Flush(p), Some(t + Glued(more)), None, InChunk)
    decreases |more|
  {
    var ls := [Opens(t)] + more;
    if more == [] {
      assert ls[..0] == [];
      assert t + Glued(more) == t;
    } else {
      var n := |more|;
      assert ls[..n] == [Opens(t)] + more[..n - 1];
      assert ls[n] == more[n - 1];
      ChunkBlock(p, t, more[..n - 1]);
      var g, x := Glued(more[..n - 1]), more[n - 1].text;
      assert Glued(more) == g + x;
      assert t + (g + x) == (t + g) + x;
    }
  }

  /** An explanation header followed by continuation lines: the
      explanation is replaced by the header's text followed by the
      continuations on lines of their own; nothing else changes. */
  lemma {:induction false} ExplanationBlock(p: Parser, t: String, more: seq<Line>)
    requires AllContinue(more)
    ensures Run(p, [Explains(t)] + more) == p.(explanation := Some(t + OnNewLines(more)), mode := InExplanation)
    decreases |more|
  {
    var ls := [Explains(t)] + more;
    if more == [] {
      assert ls[..0] == [];
      assert t + OnNewLines(more) == t;
    } else {
      var n := |more|;
      assert ls[..n] == [Explains(t)] + more[..n - 1];
      assert ls[n] == more[n - 1];
      ExplanationBlock(p, t, more[..n - 1]);
      var g, x := OnNewLines(more[..n - 1]), more[n - 1].text;
      assert OnNewLines(more) == g + "\n" + x;
      assert t + (g + "\n" + x) == (t + g) + "\n" + x;
    }
  }

  /** A chunk header and its continuations with no explanation header is
      emitted with the empty explanation. */
  lemma NoExplanation(t: String, more: seq<Line>)
    requires AllContinue(more)
    ensures Flush(Run(Init, [Opens(t)] + more)) == [Chunk(Strip(t + Glued(more)), [])]
  {
    ChunkBlock(Init, t, more);
  }

  /** A later explanation header replaces the earlier explanation. */
  lemma LaterExplanation(p: Parser, t1: String, t2: String, mid: seq<Line>)
    requires AllContinue(mid)
    ensures Run(p, [Explains(t1)] + mid + [Explains(t2)]) == p.(explanation := Some(t2), mode := InExplanation)
  {
    var ls := [Explains(t1)] + mid + [Explains(t2)];
    ExplanationBlock(p, t1, mid);
    assert ls[..|ls| - 1] == [Explains(t1)] + mid;
  }

  // ---------------------------------------------------------------------
  // Round trip
  // ---------------------------------------------------------------------

  /** A chunk the reply format can carry on two lines. */
  predicate Carried(c: Chunk) {
    && Trimmed(c.sentence) && Trimmed(c.explanation)
    && '\n' !in c.sentence && '\n' !in c.explanation
  }

  /** Every chunk of `cs` can be carried. */
  predicate AllCarried(cs: seq<Chunk>) {
    cs == [] || (AllCarried(cs[..|cs| - 1]) && Carried(cs[|cs| - 1]))
  }

  /** The two lines that carry each chunk. */
  function Render(cs: seq<Chunk>): (lines: seq<String>)
    ensures |lines| == 2 * |cs|
  {
    if cs == [] then []
    else Render(cs[..|cs| - 1]) + [ChunkTag + cs[|cs| - 1].sentence, ExplanationTag + cs[|cs| - 1].explanation]
  }

  /** The lines of `Render(cs)` as the loop sees them. */
  function Shapes(cs: seq<Chunk>): (ls: seq<Line>)
    ensures |ls| == 2 * |cs|
  {
    if cs == [] then []
    else Shapes(cs[..|cs| - 1]) + [Opens(cs[|cs| - 1].sentence), Explains(cs[|cs| - 1].explanation)]
  }

  /** A tag followed by trimmed text is already stripped and starts with
      the tag. */
  lemma TagLine(tag: String, s: String)
    requires Trimmed(tag) && tag != [] && Trimmed(s)
    ensures Strip(tag + s) == tag + s
    ensures StartsWith(tag + s, tag) && (tag + s)[|tag|..] == s
  {
    var t := tag + s;
    assert t[0] == tag[0];
    assert t[|t| - 1] == if s == [] then tag[|tag| - 1] else s[|s| - 1];
    StripTrimmed(t);
    assert t[..|tag|] == tag;
  }

  lemma ClassifyOpens(s: String)
    requires Trimmed(s)
    ensures Classify(ChunkTag + s) == Opens(s)
  {
    TagLine(ChunkTag, s);
    StripTrimmed(s);
  }

  lemma ClassifyExplains(s: String)
    requires Trimmed(s)
    ensures Classify(ExplanationTag + s) == Explains(s)
  {
    TagLine(ExplanationTag, s);
    StripTrimmed(s);
    assert (ExplanationTag + s)[0] != ChunkTag[0];
  }

  /** After the lines of `cs`, the last chunk is open with its explanation
      and all earlier ones are emitted. */
  lemma {:induction false} ShapesRun(cs: seq<Chunk>)
    requires AllCarried(cs)
    ensures cs == [] ==> Run(Init, Shapes(cs)) == Init
    ensures cs != [] ==>
              Run(Init, Shapes(cs)) ==
                Parser(cs[..|cs| - 1], Some(cs[|cs| - 1].sentence), Some(cs[|cs| - 1].explanation), InExplanation)
    decreases |cs|
  {
    if cs != [] {
      var n := |cs|;
      var c := cs[n - 1];
      var front := Shapes(cs[..n - 1]);
      ShapesRun(cs[..n - 1]);
      if n > 1 {
        FlushLast(cs[..n - 2], cs[n - 2]);
        assert cs[..n - 1] == cs[..n - 2] + [cs[n - 2]];
      }
      RunAppend(Init, front, [Opens(c.sentence), Explains(c.explanation)]);
      RunPair(Run(Init, front), c.sentence, c.explanation);
    }
  }

  /** Emitting an open chunk that can be carried appends it as it is. */
  lemma FlushLast(front: seq<Chunk>, c: Chunk)
    requires Carried(c)
    ensures Flush(Parser(front, Some(c.sentence), Some(c.explanation), InExplanation)) == front + [c]
  {
    CloseCarried(c);
  }

  /** A carried chunk closes to itself. */
  lemma CloseCarried(c: Chunk)
    requires Carried(c)
    ensures Close(c.sentence, Some(c.explanation)) == c
  {
    StripTrimmed(c.sentence);
    StripTrimmed(c.explanation);
  }

  /** A chunk header and its explanation header emit the open chunk and
      open a new one with that explanation. */
  lemma RunPair(q: Parser, sentence: String, explanation: String)
    ensures Run(q, [Opens(sentence), Explains(explanation)]) == Parser(Flush(q), Some(sentence), Some(explanation), InExplanation)
  {
    var pair := [Opens(sentence), Explains(explanation)];
    assert pair[..1] == [Opens(sentence)];
    assert pair[..1][..0] == [];
    assert Run(q, pair[..1]) == Step(q, Opens(sentence));
  }

  /** Each rendered line classifies as its shape, and none holds a line
      break. */
  lemma {:induction false} RenderShapes(cs: seq<Chunk>, k: nat)
    requires AllCarried(cs)
    requires k < 2 * |cs|
    ensures '\n' !in Render(cs)[k]
    ensures Classify(Render(cs)[k]) == Shapes(cs)[k]
    decreases |cs|
  {
    var n := |cs|;
    var c := cs[n - 1];
    if k < 2 * (n - 1) {
      RenderShapes(cs[..n - 1], k);
    } else if k == 2 * (n - 1) {
      assert Render(cs)[k] == ChunkTag + c.sentence;
      assert Shapes(cs)[k] == Opens(c.sentence);
      CarriedLines(c);
    } else {
      assert Render(cs)[k] == ExplanationTag + c.explanation;
      assert Shapes(cs)[k] == Explains(c.explanation);
      CarriedLines(c);
    }
  }

  /** The two lines of a carried chunk hold no line break and classify as
      its header lines. */
  lemma CarriedLines(c: Chunk)
    requires Carried(c)
    ensures '\n' !in ChunkTag + c.sentence && Classify(ChunkTag + c.sentence) == Opens(c.sentence)
    ensures '\n' !in ExplanationTag + c.explanation && Classify(ExplanationTag + c.explanation) == Explains(c.explanation)
  {
    ClassifyOpens(c.sentence);
    ClassifyExplains(c.explanation);
    NoBreak(ChunkTag, c.sentence);
    NoBreak(ExplanationTag, c.explanation);
  }

  /** A tag followed by text without a line break has none. */
  lemma NoBreak(tag: String, s: String)
    requires tag == ChunkTag || tag == ExplanationTag
    requires '\n' !in s
    ensures '\n' !in tag + s
  {
    assert '\n' !in tag;
  }

  /** The rendered text, split into lines and classified, gives the
      shapes back. */
  lemma LexRender(cs: seq<Chunk>)
    requires AllCarried(cs)
    requires cs != []
    ensures Lex(Join(Render(cs), "\n")) == Shapes(cs)
  {
    var lines := Render(cs);
    forall k | 0 <= k < |lines| ensures '\n' !in lines[k] {
      RenderShapes(cs, k);
    }
    SplitJoin(lines, '\n');
    var ls := Lex(Join(lines, "\n"));
    forall k | 0 <= k < |lines| ensures ls[k] == Shapes(cs)[k] {
      RenderShapes(cs, k);
    }
  }

  /** Flushing the state the shapes leave emits every chunk. */
  lemma FlushShapes(cs: seq<Chunk>)
    requires AllCarried(cs)
    ensures Flush(Run(Init, Shapes(cs))) == cs
  {
    ShapesRun(cs);
    if cs != [] {
      var c := cs[|cs| - 1];
      StripTrimmed(c.sentence);
      StripTrimmed(c.explanation);
      assert Close(c.sentence, Some(c.explanation)) == c;
      LastElement(cs);
    }
  }

  /** Rendering chunks on their two lines each and parsing the text gives
      the chunks back. */
  lemma RoundTrip(cs: seq<Chunk>)
    requires AllCarried(cs)
    ensures Parse(Join(Render(cs), "\n")) == cs
  {
    var content := Join(Render(cs), "\n");
    if cs == [] {
      assert content == [];
      var blank: seq<String> := [[]];
      assert Split(content, '\n') == blank;
      StripTrimmed([]);
      var ls := Lex(content);
      assert ls == [Blank];
      assert ls[..0] == [];
    } else {
      LexRender(cs);
      FlushShapes(cs);
    }
  }
}
