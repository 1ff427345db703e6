/**
 * The transition table as a value: each distinct lexeme is a key exactly
 * once, and owns the ordered list of the lexemes observed right after it,
 * one entry per observed transition (duplicates kept).
 */
module Transitions {
  import opened Lexer

  type Model = map<Lexeme, seq<Lexeme>>

  /** `kStartingLex`: the synthetic predecessor of the first lexeme of the input. */
  const STARTING_LEX: Lexeme := "."

  /** `kTerminatorLex`: the lexeme that ends a generated text; the same as the starting one. */
  const TERMINATOR_LEX: Lexeme := STARTING_LEX

  /** The successor list of `c`, empty when `c` is not a key. */
  function Successors(m: Model, c: Lexeme): seq<Lexeme>
  {
    if c in m then m[c] else []
  }

  /** Every lexeme in any successor list is itself a key. */
  ghost predicate Closed(m: Model)
  {
    forall c, x :: c in m && x in m[c] ==> x in m
  }

  /**
   * The table after `add(cur, next)`: a new `next` is interned first, with an
   * empty list; then `next` is appended to the list of `cur` (created empty
   * when `cur` is new).
   */
  function AddEntry(m: Model, cur: Lexeme, next: Lexeme): Model
    decreases if next in m then 0 else 1
  {
    if next !in m then AddEntry(m[next := []], cur, next)
    else m[cur := Successors(m, cur) + [next]]
  }

  /**
   * What `add` does to the table: both lexemes become keys, `next` is
   * appended to the list of `cur`, a new `next` gets an empty list, and no
   * other list changes.
   */
  lemma AddEntryEffect(m: Model, cur: Lexeme, next: Lexeme)
    ensures AddEntry(m, cur, next).Keys == m.Keys + {cur, next}
    ensures AddEntry(m, cur, next)[cur] == Successors(m, cur) + [next]
    ensures forall c :: c in m && c != cur ==> AddEntry(m, cur, next)[c] == m[c]
    ensures next != cur && next !in m ==> AddEntry(m, cur, next)[next] == []
  {
  }

  /** Adding a transition keeps every listed lexeme a key. */
  lemma AddEntryClosed(m: Model, cur: Lexeme, next: Lexeme)
    requires Closed(m)
    ensures Closed(AddEntry(m, cur, next))
  {
  }

  /** Adding one transition extends the successor list of its predecessor only. */
  lemma SuccessorsAfterAdd(m: Model, cur: Lexeme, next: Lexeme, x: Lexeme)
    ensures Successors(AddEntry(m, cur, next), x) == Successors(m, x) + (if x == cur then [next] else [])
  {
  }

  /** The last lexeme of a non-empty stream. */
  function Last(s: seq<Lexeme>): Lexeme
    requires s != []
  {
    s[|s| - 1]
  }

  /**
   * The table after the consecutive pairs of the first `n` lexemes of the
   * stream `s` are added to `m`, in stream order: each of those lexemes but
   * the first is added as the successor of the one before it.
   */
  function Extend(m: Model, s: seq<Lexeme>, n: nat): Model
    requires n <= |s|
  {
    if n < 2 then m
    else AddEntry(Extend(m, s, n - 1), s[n - 2], s[n - 1])
  }

  /** The table only grows: no key disappears and every old list is a prefix of the new one. */
  lemma {:induction false} ExtendGrows(m: Model, s: seq<Lexeme>, n: nat)
    requires n <= |s|
    ensures m.Keys <= Extend(m, s, n).Keys
    ensures forall c :: c in m ==> m[c] <= Extend(m, s, n)[c]
  {
    if n >= 2 {
      var before := Extend(m, s, n - 1);
      ExtendGrows(m, s, n - 1);
      AddEntryEffect(before, s[n - 2], s[n - 1]);
      forall c | c in m
        ensures m[c] <= Extend(m, s, n)[c]
      {
        SuccessorsAfterAdd(before, s[n - 2], s[n - 1], c);
      }
    }
  }

  /** The table built from an empty one by adding the consecutive pairs of `s`. */
  function Build(s: seq<Lexeme>): Model
  {
    Extend(map[], s, |s|)
  }

  /** The lexemes that follow an occurrence of `x` among the first `n` lexemes of `s`, in order, one per occurrence. */
  function Followers(s: seq<Lexeme>, n: nat, x: Lexeme): seq<Lexeme>
    requires n <= |s|
  {
    if n < 2 then []
    else Followers(s, n - 1, x) + (if s[n - 2] == x then [s[n - 1]] else [])
  }

  /** The table built from a prefix is empty below two lexemes, and otherwise keyed by exactly the lexemes of the prefix. */
  lemma {:induction false} ExtendKeys(s: seq<Lexeme>, n: nat)
    requires n <= |s|
    ensures n < 2 ==> Extend(map[], s, n) == map[]
    ensures n >= 2 ==> Extend(map[], s, n).Keys == set i | 0 <= i < n :: s[i]
  {
    if n >= 2 {
      ExtendKeys(s, n - 1);
      AddEntryEffect(Extend(map[], s, n - 1), s[n - 2], s[n - 1]);
      assert Extend(map[], s, n).Keys == Extend(map[], s, n - 1).Keys + {s[n - 2], s[n - 1]};
      ElementsStep(s, n);
      if n == 2 {
        assert (set i | 0 <= i < n - 1 :: s[i]) == {s[0]};
      }
    }
  }

  lemma ElementsStep(s: seq<Lexeme>, n: nat)
    requires 2 <= n <= |s|
    ensures (set i | 0 <= i < n :: s[i]) == (set i | 0 <= i < n - 1 :: s[i]) + {s[n - 2], s[n - 1]}
  {
  }

  /** The table built from a prefix gives each lexeme the list of its observed successors, in order. */
  lemma {:induction false} ExtendSuccessors(s: seq<Lexeme>, n: nat, x: Lexeme)
    requires n <= |s|
    ensures Successors(Extend(map[], s, n), x) == Followers(s, n, x)
  {
    if n >= 2 {
      ExtendSuccessors(s, n - 1, x);
      SuccessorsAfterAdd(Extend(map[], s, n - 1), s[n - 2], s[n - 1], x);
    }
  }

  /** Every lexeme listed in the table built from a prefix is one of its keys. */
  lemma {:induction false} ExtendClosed(s: seq<Lexeme>, n: nat)
    requires n <= |s|
    ensures Closed(Extend(map[], s, n))
  {
    if n >= 2 {
      ExtendClosed(s, n - 1);
      AddEntryClosed(Extend(map[], s, n - 1), s[n - 2], s[n - 1]);
    }
  }

  /** `y` directly follows an occurrence of `x` somewhere in the stream. */
  ghost predicate Observed(s: seq<Lexeme>, x: Lexeme, y: Lexeme)
  {
    exists i :: 0 <= i < |s| - 1 && s[i] == x && s[i + 1] == y
  }

  /** Every recorded successor of `x` was observed right after `x` in the prefix. */
  lemma {:induction false} FollowersObserved(s: seq<Lexeme>, n: nat, x: Lexeme, k: nat)
    requires n <= |s| && k < |Followers(s, n, x)|
    ensures exists i :: 0 <= i && i + 1 < n && s[i] == x && s[i + 1] == Followers(s, n, x)[k]
  {
    var prev := Followers(s, n - 1, x);
    if k < |prev| {
      FollowersObserved(s, n - 1, x, k);
    } else {
      assert s[n - 2] == x && s[n - 1] == Followers(s, n, x)[k];
    }
  }

  /** Every lexeme of a prefix but its last has at least one recorded successor. */
  lemma {:induction false} FollowersOfEarlier(s: seq<Lexeme>, n: nat, i: nat)
    requires n <= |s| && i + 1 < n
    ensures Followers(s, n, s[i]) != []
  {
    if i + 2 < n {
      FollowersOfEarlier(s, n - 1, i);
    }
  }

  /** The built table is empty for a stream with no pair, and otherwise keyed by exactly the lexemes of the stream. */
  lemma BuildKeys(s: seq<Lexeme>)
    ensures |s| < 2 ==> Build(s) == map[]
    ensures |s| >= 2 ==> Build(s).Keys == set x | x in s
  {
    ExtendKeys(s, |s|);
    if |s| >= 2 {
      assert (set i | 0 <= i < |s| :: s[i]) == set x | x in s by {
        forall x | x in s
          ensures x in set i | 0 <= i < |s| :: s[i]
        {
          var i :| 0 <= i < |s| && s[i] == x;
        }
      }
    }
  }

  /** Every lexeme listed in the built table is one of its keys. */
  lemma BuildClosed(s: seq<Lexeme>)
    ensures Closed(Build(s))
  {
    ExtendClosed(s, |s|);
  }

  /**
   * A lexeme of a built table with an empty successor list is the last
   * lexeme of the stream and occurs nowhere earlier in it.
   */
  lemma DeadEnd(s: seq<Lexeme>, x: Lexeme)
    requires x in Build(s) && Successors(Build(s), x) == []
    ensures x == s[|s| - 1]
    ensures forall i :: 0 <= i < |s| - 1 ==> s[i] != x
  {
    BuildKeys(s);
    ExtendSuccessors(s, |s|, x);
    forall i | 0 <= i < |s| - 1
      ensures s[i] != x
    {
      FollowersOfEarlier(s, |s|, i);
    }
  }

  /** The number of keys of a built table is the number of distinct lexemes of its stream. */
  lemma BuildCount(s: seq<Lexeme>)
    requires |s| >= 2
    ensures |Build(s)| == |set x | x in s|
  {
    BuildKeys(s);
    assert Build(s).Keys == set x | x in s;
  }
}
