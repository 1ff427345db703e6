/**
 * The `Distr` object: the transition table, updated in place while the
 * input is parsed, and the sampler that draws a successor from it through
 * a cache of uniform integer distributions, one per list length.
 *
 * The pseudo-random engine is an oracle: each draw consumes one engine
 * output `draw`, and the distribution with bounds `[lo, hi]` maps it to
 * `lo + draw % (hi - lo + 1)`.
 */
module Distribution {
  import opened Wrappers
  import opened Lexer
  import opened Transitions

  /** A uniform integer distribution over `[bounds.0, bounds.1]`, applied to one engine output. */
  function Uniform(bounds: (int, int), draw: nat): (k: int)
    requires bounds.0 <= bounds.1
    ensures bounds.0 <= k <= bounds.1
  {
    bounds.0 + draw % (bounds.1 - bounds.0 + 1)
  }

  /** The successor `nextLex` returns for a non-empty list and one engine output. */
  function Choose(succ: seq<Lexeme>, draw: nat): (x: Lexeme)
    requires succ != []
    ensures exists k :: 0 <= k < |succ| && x == succ[k]
  {
    succ[Uniform((0, |succ| - 1), draw)]
  }

  /** In a table where every listed lexeme is a key, the drawn successor is a key. */
  lemma ChooseIsKey(m: Model, c: Lexeme, draw: nat)
    requires Closed(m) && Successors(m, c) != []
    ensures Choose(Successors(m, c), draw) in m
  {
    var k :| 0 <= k < |m[c]| && Choose(m[c], draw) == m[c][k];
  }

  /** How many of the engine outputs `start .. start + n - 1` make `Choose` return `x`. */
  function Hits(succ: seq<Lexeme>, x: Lexeme, start: nat, n: nat): nat
    requires succ != []
  {
    if n == 0 then 0
    else Hits(succ, x, start, n - 1) + (if Choose(succ, start + n - 1) == x then 1 else 0)
  }

  lemma {:induction false} HitsFront(succ: seq<Lexeme>, x: Lexeme, start: nat, n: nat)
    requires succ != [] && n > 0
    ensures Hits(succ, x, start, n) == (if Choose(succ, start) == x then 1 else 0) + Hits(succ, x, start + 1, n - 1)
  {
    if n > 1 {
      HitsFront(succ, x, start, n - 1);
    }
  }

  /** The first `|succ|` engine outputs pick the entries of the list one by one. */
  lemma ChooseBelowSize(succ: seq<Lexeme>, draw: nat)
    requires draw < |succ|
    ensures Choose(succ, draw) == succ[draw]
  {
    assert draw % |succ| == draw;
  }

  /** The choice depends on the engine output modulo the list length only. */
  lemma ChoosePeriodic(succ: seq<Lexeme>, draw: nat)
    requires succ != []
    ensures Choose(succ, draw + |succ|) == Choose(succ, draw)
  {
    var m := |succ|;
    var q, r := draw / m, draw % m;
    assert draw == q * m + r;
    assert draw + m == (q + 1) * m + r;
    assert (draw + m) % m == r by {
      LemmaModUnique(draw + m, m, q + 1, r);
    }
  }

  lemma LemmaModUnique(a: int, m: int, q: int, r: int)
    requires m > 0 && 0 <= r < m && a == q * m + r
    ensures a % m == r
  {
    var q', r' := a / m, a % m;
    assert a == q' * m + r';
    if q' > q {
      assert q' * m >= (q + 1) * m by { LemmaMulMonotone(q + 1, q', m); }
    } else if q' < q {
      assert q * m >= (q' + 1) * m by { LemmaMulMonotone(q' + 1, q, m); }
    }
  }

  lemma LemmaMulMonotone(a: int, b: int, m: int)
    requires a <= b && m > 0
    ensures a * m <= b * m
  {
    assert b * m - a * m == (b - a) * m;
  }

  lemma {:induction false} HitsFromZero(succ: seq<Lexeme>, x: Lexeme, n: nat)
    requires succ != [] && n <= |succ|
    ensures Hits(succ, x, 0, n) == multiset(succ[..n])[x]
  {
    if n > 0 {
      HitsFromZero(succ, x, n - 1);
      ChooseBelowSize(succ, n - 1);
      assert succ[..n] == succ[..n - 1] + [succ[n - 1]];
    }
  }

  /**
   * Frequency through multiplicity: over any `|succ|` consecutive engine
   * outputs, `Choose` returns `x` exactly as many times as `x` occurs in the list.
   */
  lemma {:induction false} ChooseFrequency(succ: seq<Lexeme>, x: Lexeme, start: nat)
    requires succ != []
    ensures Hits(succ, x, start, |succ|) == multiset(succ)[x]
  {
    if start == 0 {
      HitsFromZero(succ, x, |succ|);
      assert succ[..|succ|] == succ;
    } else {
      ChooseFrequency(succ, x, start - 1);
      HitsFront(succ, x, start - 1, |succ|);
      ChoosePeriodic(succ, start - 1);
    }
  }

  /** The error `nextLex` reports before aborting: the lexeme has no recorded successor. */
  datatype LookupError = NoSuccessor(lexeme: Lexeme)

  class Distr {
    /** `m_model`: each lexeme stored once as a key, with its successor list. */
    var model: Model
    /** `m_uniform_sitribution_states`: the distribution cached per list length minus one, as its bounds. */
    var uniformStates: map<int, (int, int)>

    /** Each cached distribution, keyed by a list length minus one, ranges over the indices of such a list. */
    ghost predicate Valid()
      reads this
    {
      forall k :: k in uniformStates ==> 0 <= k && uniformStates[k] == (0, k)
    }

    constructor ()
      ensures Valid()
      ensures model == map[] && uniformStates == map[]
    {
      model := map[];
      uniformStates := map[];
    }

    /** `uniqueLexCount`: the number of distinct lexemes interned. */
    function UniqueLexCount(): (n: nat)
      reads this
      ensures n == |model.Keys|
    {
      |model|
    }

    /** `add(curLex, nextLex)`: records one transition and returns the stored lexeme equal to `next`. */
    method Add(cur: Lexeme, next: Lexeme) returns (stored: Lexeme)
      requires Valid()
      modifies this`model
      ensures Valid()
      ensures model == AddEntry(old(model), cur, next)
      ensures stored == next && stored in model
    {
      if next !in model {
        model := model[next := []];
      }
      var succ := if cur in model then model[cur] else [];
      model := model[cur := succ + [next]];
      stored := next;
    }

    /**
     * `nextLex(curLex)`: looks `cur` up (interning it with an empty list when
     * it is absent), fails when its list is empty, and otherwise draws an
     * entry of the list through the distribution cached for the list's length.
     */
    method NextLex(cur: Lexeme, draw: nat) returns (r: Result<Lexeme, LookupError>)
      requires Valid()
      modifies this
      ensures Valid()
      ensures model == old(model)[cur := Successors(old(model), cur)]
      ensures Successors(old(model), cur) == [] ==>
                r == Failure(NoSuccessor(cur)) && uniformStates == old(uniformStates)
      ensures Successors(old(model), cur) != [] ==>
                var size := |Successors(old(model), cur)|;
                && uniformStates == old(uniformStates)[size - 1 := (0, size - 1)]
                && r == Success(Choose(Successors(old(model), cur), draw))
    {
      if cur !in model {
        model := model[cur := []];
      }
      var succ := model[cur];
      var size := |succ|;
      if size == 0 {
        return Failure(NoSuccessor(cur));
      }
      if size - 1 !in uniformStates {
        uniformStates := uniformStates[size - 1 := (0, size - 1)];
      }
      var k := Uniform(uniformStates[size - 1], draw);
      r := Success(succ[k]);
    }
  }
}
