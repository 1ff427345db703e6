/**
 * The parse loop of `main`: walks the lexemes of successive chunks and feeds
 * each (predecessor, lexeme) transition to `Distr.add`. A chunk is one
 * whitespace-delimited word of the input; the predecessor of its first
 * lexeme is the last lexeme of the previous chunk, or the starting lexeme
 * for the very first one.
 */
module Parser {
  import opened Wrappers
  import opened Sequences
  import opened Lexer
  import opened Transitions
  import opened Distribution

  /** The lexemes of each chunk. */
  function TokenizeAll(chunks: seq<string>): (tss: seq<seq<Lexeme>>)
    ensures |tss| == |chunks|
    ensures forall c :: 0 <= c < |chunks| ==> tss[c] == Tokenize(chunks[c])
  {
    if chunks == [] then [] else TokenizeAll(chunks[..|chunks| - 1]) + [Tokenize(chunks[|chunks| - 1])]
  }

  /** All lexemes of the input, chunk after chunk. */
  function Lexemes(chunks: seq<string>): seq<Lexeme>
  {
    Flatten(TokenizeAll(chunks))
  }

  /** The stream whose consecutive pairs the parse loop adds: the starting lexeme, then all lexemes. */
  function Stream(chunks: seq<string>): seq<Lexeme>
  {
    [STARTING_LEX] + Lexemes(chunks)
  }

  /** Every chunk's list of lexemes is non-empty. */
  ghost predicate NoEmptyChunk(tss: seq<seq<Lexeme>>)
  {
    forall c :: 0 <= c < |tss| ==> tss[c] != []
  }

  /**
   * Every chunk yields at least one lexeme. The token loop dereferences the
   * first match of a chunk before it tests for the end, so a chunk with no
   * lexeme at all is undefined behaviour there.
   */
  ghost predicate EveryChunkLexes(chunks: seq<string>)
  {
    NoEmptyChunk(TokenizeAll(chunks))
  }

  /**
   * The predecessor the loop pairs with lexeme `j` of chunk `c`: the previous
   * lexeme of the same chunk, else the last lexeme of the previous chunk,
   * else the starting lexeme.
   */
  function Predecessor(tss: seq<seq<Lexeme>>, c: nat, j: nat): Lexeme
    requires NoEmptyChunk(tss)
    requires c < |tss| && j < |tss[c]|
  {
    if j > 0 then tss[c][j - 1]
    else if c == 0 then STARTING_LEX
    else Last(tss[c - 1])
  }

  lemma FlattenSnoc(tss: seq<seq<Lexeme>>, c: nat)
    requires c < |tss|
    ensures Flatten(tss[..c + 1]) == Flatten(tss[..c]) + tss[c]
  {
    assert tss[..c + 1][..c] == tss[..c];
  }

  /** The lexemes of all chunks: those before chunk `c`, those of chunk `c`, those after it. */
  lemma FlattenSplit(tss: seq<seq<Lexeme>>, c: nat)
    requires c < |tss|
    ensures Flatten(tss) == Flatten(tss[..c]) + tss[c] + Flatten(tss[c + 1..])
  {
    assert tss == tss[..c + 1] + tss[c + 1..];
    FlattenAppend(tss[..c + 1], tss[c + 1..]);
    FlattenSnoc(tss, c);
  }

  /**
   * The linking rule: lexeme `j` of chunk `c` sits in the stream right after
   * `Predecessor(tss, c, j)`, so the transition the loop adds for it is one
   * consecutive pair of the stream.
   */
  lemma LinkRule(tss: seq<seq<Lexeme>>, c: nat, j: nat)
    requires NoEmptyChunk(tss)
    requires c < |tss| && j < |tss[c]|
    ensures var s := [STARTING_LEX] + Flatten(tss); var p := |Flatten(tss[..c])| + j;
      && p + 1 < |s|
      && s[p] == Predecessor(tss, c, j)
      && s[p + 1] == tss[c][j]
  {
    FlattenSplit(tss, c);
    PredecessorShape(tss, c, j);
    IndexAround(STARTING_LEX, Flatten(tss[..c]), tss[c], Flatten(tss[c + 1..]), j);
  }

  /** The predecessor is the previous lexeme of the chunk, else the last lexeme before the chunk, else the starting lexeme. */
  lemma PredecessorShape(tss: seq<seq<Lexeme>>, c: nat, j: nat)
    requires NoEmptyChunk(tss)
    requires c < |tss| && j < |tss[c]|
    ensures var before := Flatten(tss[..c]);
      Predecessor(tss, c, j) == if j > 0 then tss[c][j - 1] else if before == [] then STARTING_LEX else Last(before)
  {
    if c > 0 {
      FlattenSnoc(tss, c - 1);
      assert tss[..c - 1 + 1] == tss[..c];
      LastOfAppend(Flatten(tss[..c - 1]), tss[c - 1]);
    } else {
      assert tss[..c] == [];
    }
  }

  lemma LastOfAppend(xs: seq<Lexeme>, ys: seq<Lexeme>)
    requires ys != []
    ensures xs + ys != [] && Last(xs + ys) == Last(ys)
  {
  }

  /** Positions around element `j` of the middle part of `[x] + before + ts + after`. */
  lemma IndexAround(x: Lexeme, before: seq<Lexeme>, ts: seq<Lexeme>, after: seq<Lexeme>, j: nat)
    requires j < |ts|
    ensures var s := [x] + before + ts + after; var p := |before| + j;
      && p + 1 < |s|
      && s[p + 1] == ts[j]
      && s[p] == (if j > 0 then ts[j - 1] else if before == [] then x else Last(before))
  {
  }

  /** The lexemes of chunk `c` sit in the stream right after the starting lexeme and the lexemes of the chunks before it. */
  lemma StreamWindow(tss: seq<seq<Lexeme>>, c: nat)
    requires c < |tss|
    ensures var s := [STARTING_LEX] + Flatten(tss); var p := |Flatten(tss[..c])|;
      && p + |tss[c]| < |s|
      && s[p + 1..p + |tss[c]| + 1] == tss[c]
  {
    FlattenSplit(tss, c);
    Window(STARTING_LEX, Flatten(tss[..c]), tss[c], Flatten(tss[c + 1..]));
  }

  lemma Window(x: Lexeme, before: seq<Lexeme>, ts: seq<Lexeme>, after: seq<Lexeme>)
    ensures var s := [x] + before + ts + after;
      && |before| + |ts| < |s|
      && s[|before| + 1..|before| + |ts| + 1] == ts
  {
    var s := [x] + before + ts + after;
    assert s == ([x] + before) + ts + after;
  }

  /**
   * The token loop over the lexemes of one chunk, with the source's three
   * cursors: `prevChunkLast` (the last lexeme of the previous chunk, cleared
   * once the chunk's second lexeme is reached and set to the chunk's own last
   * lexeme at its end), `last` (the lexeme just stored) and `prevIt` (the
   * previous lexeme of the chunk). The chunk's lexemes sit in the stream `s`
   * right after position `p`, up to which the stream is already linked; the
   * stream is linked up to position `q` afterwards.
   */
  method LinkChunk(d: Distr, tokens: seq<Lexeme>, carried: Option<Lexeme>, ghost start: Model, ghost s: seq<Lexeme>, ghost p: nat)
      returns (prevChunkLast: Option<Lexeme>, ghost q: nat)
    requires d.Valid()
    requires tokens != [] && p + |tokens| < |s|
    requires s[p + 1..p + |tokens| + 1] == tokens
    requires carried.None? ==> p == 0 && s[0] == STARTING_LEX
    requires carried.Some? ==> carried.value == s[p]
    requires d.model == Extend(start, s, p + 1)
    modifies d`model
    ensures d.Valid()
    ensures q == p + |tokens| < |s|
    ensures d.model == Extend(start, s, q + 1)
    ensures prevChunkLast == Some(s[q])
  {
    prevChunkLast := carried;
    var prevIt: Option<Lexeme> := None;
    var j := 0;
    q := p + |tokens|;
    while true
      invariant 0 <= j < |tokens|
      invariant d.Valid()
      invariant d.model == Extend(start, s, p + 1 + j)
      invariant j == 0 ==> prevIt == None && prevChunkLast == carried
      invariant j > 0 ==> prevIt == Some(tokens[j - 1]) && prevChunkLast == None
      decreases |tokens| - j
    {
      var pred :=
        if prevChunkLast.Some? then prevChunkLast.value
        else if prevIt.None? then STARTING_LEX
        else prevIt.value;
      assert pred == s[p + j];
      ghost var before := d.model;
      var last := d.Add(pred, tokens[j]);
      AddLinks(start, s, p + 1 + j, before, d.model, pred, tokens[j]);
      prevIt := Some(tokens[j]);
      j := j + 1;
      if j == |tokens| {
        prevChunkLast := Some(last);
        break;
      } else if prevChunkLast.Some? {
        prevChunkLast := None;
      }
    }
  }

  /** Adding the transition between lexemes `n - 1` and `n` of the stream extends the linked prefix by one. */
  lemma AddLinks(start: Model, s: seq<Lexeme>, n: nat, before: Model, after: Model, pred: Lexeme, next: Lexeme)
    requires 1 <= n < |s| && before == Extend(start, s, n)
    requires pred == s[n - 1] && next == s[n] && after == AddEntry(before, pred, next)
    ensures after == Extend(start, s, n + 1)
  {
  }

  /**
   * The parse loop: links the lexemes of each chunk in turn, carrying the
   * last lexeme of one chunk over as the predecessor of the next chunk's
   * first. It adds exactly the consecutive pairs of the stream.
   */
  method Parse(d: Distr, chunks: seq<string>)
    requires d.Valid()
    requires EveryChunkLexes(chunks)
    modifies d`model
    ensures d.Valid()
    ensures d.model == Extend(old(d.model), Stream(chunks), |Stream(chunks)|)
  {
    ghost var start := d.model;
    ghost var tss := TokenizeAll(chunks);
    ghost var s := [STARTING_LEX] + Flatten(tss);
    ghost var p := 0;
    var prevChunkLast: Option<Lexeme> := None;
    var c := 0;
    while c < |chunks|
      invariant 0 <= c <= |chunks|
      invariant d.Valid()
      invariant p == |Flatten(tss[..c])| && p < |s|
      invariant d.model == Extend(start, s, p + 1)
      invariant prevChunkLast == if c == 0 then None else Some(s[p])
      invariant c == 0 ==> p == 0
    {
      var tokens := Tokenize(chunks[c]);
      assert tokens == tss[c] && tokens != [];
      StreamWindow(tss, c);
      prevChunkLast, p := LinkChunk(d, tokens, prevChunkLast, start, s, p);
      FlattenSnoc(tss, c);
      c := c + 1;
    }
    assert tss[..c] == tss;
  }
}
