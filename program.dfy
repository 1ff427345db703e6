/**
 * The flow of `main`: parse every chunk into a fresh `Distr`, report when
 * the input gave no lexeme at all, and otherwise generate.
 */
module Program {
  import opened Lexer
  import opened Transitions
  import opened Distribution
  import opened Parser
  import opened Generator

  /** What `main` produces: nothing to generate from, or a generation together with the number of distinct lexemes. */
  datatype Report = NoParsableData | Text(generation: Generation, uniqueLexCount: nat)

  /** Every lexeme looked up along a walk of a closed table that starts from a key is a key. */
  lemma {:induction false} WalkInTable(m: Model, ws: seq<Lexeme>, draws: seq<nat>, k: nat)
    requires Closed(m) && STARTING_LEX in m && IsWalk(m, ws, draws) && k <= |ws|
    ensures LookedUp(ws, k) in m
  {
    if k > 0 {
      WalkInTable(m, ws, draws, k - 1);
      var succ := Successors(m, LookedUp(ws, k - 1));
      assert ws[k - 1] == Choose(succ, draws[k - 1]);
      assert ws[k - 1] in m[LookedUp(ws, k - 1)];
    }
  }

  /** Each step of a walk of the built table is a transition observed in the stream. */
  lemma WalkObserved(s: seq<Lexeme>, ws: seq<Lexeme>, draws: seq<nat>, k: nat)
    requires IsWalk(Build(s), ws, draws) && k < |ws|
    ensures Observed(s, LookedUp(ws, k), ws[k])
  {
    var x := LookedUp(ws, k);
    ExtendSuccessors(s, |s|, x);
    var succ := Followers(s, |s|, x);
    assert Successors(Build(s), x) == succ;
    var j :| 0 <= j < |succ| && ws[k] == succ[j];
    FollowersObserved(s, |s|, x, j);
  }

  /** The table built from the input is empty exactly when there are no chunks, and otherwise has one key per distinct lexeme of the stream. */
  lemma InputTable(chunks: seq<string>)
    requires EveryChunkLexes(chunks)
    ensures chunks == [] <==> |Build(Stream(chunks))| == 0
    ensures chunks != [] ==> |Build(Stream(chunks))| == |set x | x in Stream(chunks)|
  {
    var s := Stream(chunks);
    if chunks != [] {
      var tss := TokenizeAll(chunks);
      assert tss[|tss| - 1] != [];
      assert |s| >= 2;
      BuildKeys(s);
      assert s[0] in Build(s);
      BuildCount(s);
    } else {
      assert s == [STARTING_LEX];
      BuildKeys(s);
    }
  }

  /**
   * A generation from the table built from a stream only takes observed
   * transitions, and aborts only at a lexeme that ends the stream and
   * occurs nowhere before.
   */
  lemma GenerationFromInput(s: seq<Lexeme>, draws: seq<nat>, g: Generation)
    requires |s| >= 2 && s[0] == STARTING_LEX
    requires Generated(Build(s), draws, g)
    ensures forall k :: 0 <= k < |g.emitted| ==> Observed(s, LookedUp(g.emitted, k), g.emitted[k])
    ensures g.outcome.Aborted? ==>
              var x := g.outcome.error.lexeme;
              x == s[|s| - 1] && forall i :: 0 <= i < |s| - 1 ==> s[i] != x
    ensures g.outcome.Aborted? ==> g.emitted != []
  {
    forall k | 0 <= k < |g.emitted|
      ensures Observed(s, LookedUp(g.emitted, k), g.emitted[k])
    {
      WalkObserved(s, g.emitted, draws, k);
    }
    if g.outcome.Aborted? {
      BuildKeys(s);
      assert STARTING_LEX in Build(s);
      BuildClosed(s);
      WalkInTable(Build(s), g.emitted, draws, |g.emitted|);
      DeadEnd(s, g.outcome.error.lexeme);
      assert s[0] != g.outcome.error.lexeme;
    }
  }

  /**
   * `main` on the chunks of the input: when there is no lexeme the result
   * says so; otherwise the generation meets its promise for the table the
   * input builds, every step of it is a transition observed in the input,
   * an abort happens only at a lexeme that ends the input and occurs
   * nowhere before (so never at the first lookup), and the count of distinct lexemes is that of the input
   * stream.
   */
  method Run(chunks: seq<string>, draws: seq<nat>) returns (r: Report)
    requires EveryChunkLexes(chunks)
    ensures chunks == [] <==> r.NoParsableData?
    ensures r.Text? ==> Generated(Build(Stream(chunks)), draws, r.generation)
    ensures r.Text? ==> r.uniqueLexCount == |set x | x in Stream(chunks)|
    ensures r.Text? ==> forall k :: 0 <= k < |r.generation.emitted| ==>
              Observed(Stream(chunks), LookedUp(r.generation.emitted, k), r.generation.emitted[k])
    ensures r.Text? && r.generation.outcome.Aborted? ==>
              var x, s := r.generation.outcome.error.lexeme, Stream(chunks);
              x == s[|s| - 1] && forall i :: 0 <= i < |s| - 1 ==> s[i] != x
    ensures r.Text? && r.generation.outcome.Aborted? ==> r.generation.emitted != []
  {
    var d := new Distr();
    Parse(d, chunks);
    InputTable(chunks);
    var count := d.UniqueLexCount();
    if count == 0 {
      return NoParsableData;
    }
    var g := Generate(d, draws);
    GenerationFromInput(Stream(chunks), draws, g);
    r := Text(g, count);
  }
}
