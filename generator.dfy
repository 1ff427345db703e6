/**
 * The generation loop of `main`: a random walk over the transition table
 * that starts from the starting lexeme, prints each lexeme it reaches
 * (preceded by a space unless it is punctuation) and stops at the first
 * terminator lexeme reached after more than `SOFT_LEX_LIMIT` steps.
 *
 * The engine outputs are a finite sequence `draws`, one per successful
 * lookup; the walk ends with `OutOfDraws` when they run out.
 */
module Generator {
  import opened Wrappers
  import opened Sequences
  import opened Lexer
  import opened Transitions
  import opened Distribution

  /** `kSoftLexLimit`: the number of steps after which the walk may stop at a terminator. */
  const SOFT_LEX_LIMIT: nat := 500

  /** What is printed before a lexeme other than the first: nothing before punctuation, a space otherwise. */
  function Gap(lex: Lexeme): string
  {
    if IsPunctuation(lex) then "" else " "
  }

  /** The text printed for a sequence of lexemes: the first one, then each later one after its gap. */
  function Layout(ws: seq<Lexeme>): string
    requires ws != []
  {
    if |ws| == 1 then ws[0] else Layout(ws[..|ws| - 1]) + Gap(ws[|ws| - 1]) + ws[|ws| - 1]
  }

  lemma LayoutSnoc(ws: seq<Lexeme>, w: Lexeme)
    requires ws != []
    ensures Layout(ws + [w]) == Layout(ws) + Gap(w) + w
  {
    assert (ws + [w])[..|ws|] == ws;
  }

  /** Punctuation attaches to the word before it; other lexemes are separated by one space. */
  lemma LayoutExample()
    ensures Layout(["Hello", ",", "world", "..."]) == "Hello, world..."
  {
    LayoutSnoc(["Hello"], ",");
    LayoutSnoc(["Hello", ","], "world");
    LayoutSnoc(["Hello", ",", "world"], "...");
    assert Layout(["Hello"]) == "Hello";
    assert Gap(",") == "" by { assert IsPunct(','); }
    assert Gap("world") == " ";
    assert Gap("...") == "";
    assert ["Hello"] + [","] == ["Hello", ","];
    assert ["Hello", ","] + ["world"] == ["Hello", ",", "world"];
    assert ["Hello", ",", "world"] + ["..."] == ["Hello", ",", "world", "..."];
  }

  /**
   * Only spaces are added: dropping every character that no lexeme can
   * contain recovers the lexemes, concatenated.
   */
  lemma {:induction false} LayoutKeepsLexemes(ws: seq<Lexeme>)
    requires ws != []
    requires forall k, i :: 0 <= k < |ws| && 0 <= i < |ws[k]| ==> IsLexChar(ws[k][i])
    ensures Kept(Layout(ws)) == Flatten(ws)
  {
    var last := ws[|ws| - 1];
    KeptAllLex(last);
    if |ws| == 1 {
      assert Flatten(ws) == Flatten(ws[..0]) + ws[0];
    } else {
      var init := ws[..|ws| - 1];
      LayoutKeepsLexemes(init);
      KeptAppend(Layout(init) + Gap(last), last);
      KeptAppend(Layout(init), Gap(last));
      assert Kept(Gap(last)) == [] by {
        if !IsPunctuation(last) {
          assert Gap(last) == [' '] + [];
          KeptAppend([' '], []);
        }
      }
    }
  }

  /** The lexeme looked up to draw lexeme `k` of the walk: the starting lexeme, then each drawn lexeme in turn. */
  function LookedUp(ws: seq<Lexeme>, k: nat): Lexeme
    requires k <= |ws|
  {
    if k == 0 then STARTING_LEX else ws[k - 1]
  }

  /** `ws` is drawn from the table `m`: each lexeme is the choice, by its own draw, from the list of the lexeme looked up for it. */
  ghost predicate IsWalk(m: Model, ws: seq<Lexeme>, draws: seq<nat>)
  {
    && |ws| <= |draws|
    && forall k {:trigger LookedUp(ws, k)} :: 0 <= k < |ws| ==>
         Successors(m, LookedUp(ws, k)) != [] && ws[k] == Choose(Successors(m, LookedUp(ws, k)), draws[k])
  }

  /** A walk extended by the choice its next draw makes is still a walk. */
  lemma IsWalkSnoc(m: Model, ws: seq<Lexeme>, draws: seq<nat>, w: Lexeme)
    requires IsWalk(m, ws, draws) && |ws| < |draws|
    requires Successors(m, LookedUp(ws, |ws|)) != []
    requires w == Choose(Successors(m, LookedUp(ws, |ws|)), draws[|ws|])
    ensures IsWalk(m, ws + [w], draws)
  {
    var ws' := ws + [w];
    forall k | 0 <= k < |ws'|
      ensures Successors(m, LookedUp(ws', k)) != [] && ws'[k] == Choose(Successors(m, LookedUp(ws', k)), draws[k])
    {
      assert LookedUp(ws', k) == LookedUp(ws, k);
    }
  }

  /** No step after the soft limit has reached the terminator. */
  ghost predicate Running(ws: seq<Lexeme>)
  {
    forall k :: SOFT_LEX_LIMIT < k < |ws| ==> ws[k] != TERMINATOR_LEX
  }

  /** The walk ends at its first terminator after more than `SOFT_LEX_LIMIT` steps. */
  ghost predicate StopsAt(ws: seq<Lexeme>)
  {
    && |ws| > SOFT_LEX_LIMIT + 1
    && ws[|ws| - 1] == TERMINATOR_LEX
    && forall k :: SOFT_LEX_LIMIT < k < |ws| - 1 ==> ws[k] != TERMINATOR_LEX
  }

  /** How the generation ends: the terminator was reached (the count is the final `i`), a lookup aborted, or the engine outputs ran out. */
  datatype Outcome = Finished(lexemeCount: nat) | Aborted(error: LookupError) | OutOfDraws

  /** The outcome, the lexemes printed in order and the text printed. */
  datatype Generation = Generation(outcome: Outcome, emitted: seq<Lexeme>, text: string)

  /** Everything the generation loop promises about its result, for the table `m` and engine outputs `draws`. */
  ghost predicate Generated(m: Model, draws: seq<nat>, g: Generation)
  {
    && IsWalk(m, g.emitted, draws)
    && match g.outcome
       case Finished(count) =>
         && StopsAt(g.emitted)
         && count == |g.emitted|
         && g.text == Layout(g.emitted) + "\n"
       case Aborted(error) =>
         && Running(g.emitted)
         && |g.emitted| < |draws|
         && error.lexeme == LookedUp(g.emitted, |g.emitted|)
         && Successors(m, error.lexeme) == []
         && g.text == (if g.emitted == [] then "" else Layout(g.emitted))
       case OutOfDraws =>
         && Running(g.emitted)
         && |g.emitted| == |draws|
         && g.text == (if g.emitted == [] then "" else Layout(g.emitted))
  }

  /** With `k` lexemes printed, none of them after the soft limit a terminator, one more lexeme keeps the walk running unless it stops it. */
  lemma RunningSnoc(ws: seq<Lexeme>, w: Lexeme)
    requires Running(ws)
    ensures Running(ws + [w]) <== !(|ws| > SOFT_LEX_LIMIT && w == TERMINATOR_LEX)
    ensures StopsAt(ws + [w]) <== |ws| > SOFT_LEX_LIMIT && w == TERMINATOR_LEX
  {
  }

  /** Two walks of the same table with the same engine outputs agree wherever both are defined. */
  lemma {:induction false} WalksAgree(m: Model, draws: seq<nat>, ws1: seq<Lexeme>, ws2: seq<Lexeme>, k: nat)
    requires IsWalk(m, ws1, draws) && IsWalk(m, ws2, draws)
    requires k < |ws1| && k < |ws2|
    ensures ws1[k] == ws2[k]
  {
    if k > 0 {
      WalksAgree(m, draws, ws1, ws2, k - 1);
    }
    assert LookedUp(ws1, k) == LookedUp(ws2, k);
  }

  /** The walk of the shorter of two is a prefix of the other. */
  lemma WalkPrefix(m: Model, draws: seq<nat>, ws1: seq<Lexeme>, ws2: seq<Lexeme>)
    requires IsWalk(m, ws1, draws) && IsWalk(m, ws2, draws) && |ws1| <= |ws2|
    ensures ws1 == ws2[..|ws1|]
  {
    forall k | 0 <= k < |ws1|
      ensures ws1[k] == ws2[k]
    {
      WalksAgree(m, draws, ws1, ws2, k);
    }
  }

  /**
   * The generation is determined by the table and the engine outputs: two
   * results that both meet the promise are the same.
   */
  lemma GeneratedUnique(m: Model, draws: seq<nat>, g1: Generation, g2: Generation)
    requires Generated(m, draws, g1) && Generated(m, draws, g2)
    ensures g1 == g2
  {
    if |g1.emitted| <= |g2.emitted| {
      EmittedUnique(m, draws, g1, g2);
    } else {
      EmittedUnique(m, draws, g2, g1);
    }
    assert g1.emitted == g2.emitted;
  }

  lemma EmittedUnique(m: Model, draws: seq<nat>, g1: Generation, g2: Generation)
    requires Generated(m, draws, g1) && Generated(m, draws, g2)
    requires |g1.emitted| <= |g2.emitted|
    ensures g1.emitted == g2.emitted && g1.outcome == g2.outcome
  {
    var ws1, ws2 := g1.emitted, g2.emitted;
    WalkPrefix(m, draws, ws1, ws2);
    if |ws1| < |ws2| {
      OnlyStopsCutShort(m, draws, g1, ws2);
      assert false;
    }
    assert ws1 == ws2;
    var ws := ws1;
    if g1.outcome.Finished? || g2.outcome.Finished? {
      // A stopped walk reached the terminator after the limit, so it is not running.
      assert !Running(ws) by {
        assert SOFT_LEX_LIMIT < |ws| - 1 && ws[|ws| - 1] == TERMINATOR_LEX;
      }
    }
  }

  /**
   * A longer walk under the same draws passes where a generation ended only
   * when the generation stopped there: it did not abort, since its next
   * lookup has a successor, and it had draws left. The longer walk has then
   * gone past the stop.
   */
  lemma OnlyStopsCutShort(m: Model, draws: seq<nat>, g: Generation, ws: seq<Lexeme>)
    requires Generated(m, draws, g) && IsWalk(m, ws, draws)
    requires |g.emitted| < |ws| && g.emitted == ws[..|g.emitted|]
    ensures g.outcome.Finished?
    ensures !Running(ws) && !StopsAt(ws)
  {
    var n := |g.emitted|;
    assert LookedUp(g.emitted, n) == LookedUp(ws, n) by {
      if n > 0 {
        assert g.emitted[n - 1] == ws[n - 1];
      }
    }
    assert Successors(m, LookedUp(ws, n)) != [];
    assert g.outcome.Finished?;
    assert ws[n - 1] == g.emitted[n - 1] == TERMINATOR_LEX;
    assert SOFT_LEX_LIMIT < n - 1 < |ws| - 1;
  }

  /** A successful lookup leaves the table as it was. */
  lemma InternKnown(m: Model, x: Lexeme)
    requires Successors(m, x) != []
    ensures m[x := Successors(m, x)] == m
  {
  }

  /**
   * The generation loop: draws the first lexeme after the starting one, then
   * repeatedly prints the current lexeme, draws its successor, prints a space
   * before it unless it is punctuation, and stops after printing a terminator
   * reached after more than `SOFT_LEX_LIMIT` steps, with a newline. `i` counts
   * the steps and ends one past the last, which is the number of lexemes printed.
   */
  method Generate(d: Distr, draws: seq<nat>) returns (g: Generation)
    requires d.Valid()
    modifies d
    ensures d.Valid()
    ensures Generated(old(d.model), draws, g)
    ensures g.outcome.Aborted? ==> d.model == old(d.model)[g.outcome.error.lexeme := []]
    ensures !g.outcome.Aborted? ==> d.model == old(d.model)
  {
    ghost var m0 := d.model;
    if |draws| == 0 {
      return Generation(OutOfDraws, [], "");
    }
    var r := d.NextLex(STARTING_LEX, draws[0]);
    if r.Failure? {
      return Generation(Aborted(r.error), [], "");
    }
    InternKnown(m0, STARTING_LEX);
    var lex := r.value;
    var emitted := [lex];
    var text := "";
    var i := 0;
    while true
      invariant |emitted| == i + 1 <= |draws|
      invariant lex == emitted[i]
      invariant text + lex == Layout(emitted)
      invariant d.Valid() && d.model == m0
      invariant IsWalk(m0, emitted, draws)
      invariant Running(emitted)
      decreases |draws| - |emitted|
    {
      text := text + lex;
      if |emitted| == |draws| {
        return Generation(OutOfDraws, emitted, text);
      }
      ghost var before := emitted;
      r := d.NextLex(lex, draws[|emitted|]);
      if r.Failure? {
        return Generation(Aborted(r.error), emitted, text);
      }
      InternKnown(m0, lex);
      lex := r.value;
      if !IsPunctuation(lex) {
        text := text + " ";
      }
      emitted := emitted + [lex];
      IsWalkSnoc(m0, before, draws, lex);
      LayoutSnoc(before, lex);
      RunningSnoc(before, lex);
      i := i + 1;
      if i > SOFT_LEX_LIMIT && lex == TERMINATOR_LEX {
        text := text + lex + "\n";
        i := i + 1;
        return Generation(Finished(i), emitted, text);
      }
    }
  }
}
