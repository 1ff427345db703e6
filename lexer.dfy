/**
 * The lexer: splits one whitespace-free chunk of the input into lexemes with
 * the four-alternative pattern
 *     ([[:w:]]+[-'][[:w:]]+) | ([[:w:]]+) | ([.]{3}) | ([[:punct:]])
 * searched leftmost-first, and classifies lexemes for the generator's spacing.
 * Character classes are those of the default "C" locale.
 */
module Lexer {
  import opened Wrappers
  import opened Sequences

  type Lexeme = string

  // ---------------------------------------------------------------------
  // Character classes of the "C" locale
  // ---------------------------------------------------------------------

  predicate IsAlnum(c: char)
  {
    '0' <= c <= '9' || 'A' <= c <= 'Z' || 'a' <= c <= 'z'
  }

  /** `[[:w:]]`: an alphanumeric character or the underscore. */
  predicate IsWordChar(c: char)
  {
    IsAlnum(c) || c == '_'
  }

  /** `ispunct`: a printable, non-space, non-alphanumeric ASCII character. */
  predicate IsPunct(c: char)
  {
    '!' <= c <= '~' && !IsAlnum(c)
  }

  /** The characters `[-']` that may join two word runs into one lexeme. */
  predicate IsJoiner(c: char)
  {
    c == '-' || c == '\''
  }

  /** A character some alternative of the pattern can consume. */
  predicate IsLexChar(c: char)
  {
    IsWordChar(c) || IsPunct(c)
  }

  // ---------------------------------------------------------------------
  // The four alternatives, each matched at the start of a string
  // ---------------------------------------------------------------------

  /** Length of the longest prefix of `s` made of word characters. */
  function WordRun(s: string): (n: nat)
    ensures n <= |s|
    ensures forall i :: 0 <= i < n ==> IsWordChar(s[i])
    ensures n < |s| ==> !IsWordChar(s[n])
  {
    if s != [] && IsWordChar(s[0]) then 1 + WordRun(s[1..]) else 0
  }

  /**
   * `[[:w:]]+[-'][[:w:]]+`. Both runs are greedy; backtracking the first run
   * cannot help, since a shorter run is followed by a word character.
   */
  function MatchJoined(s: string): Option<nat>
  {
    var a := WordRun(s);
    if 0 < a && a + 1 < |s| && IsJoiner(s[a]) && IsWordChar(s[a + 1])
    then Some(a + 1 + WordRun(s[a + 1..]))
    else None
  }

  /** `[[:w:]]+`. */
  function MatchWord(s: string): Option<nat>
  {
    var a := WordRun(s);
    if 0 < a then Some(a) else None
  }

  /** `[.]{3}`. */
  function MatchEllipsis(s: string): Option<nat>
  {
    if 3 <= |s| && s[..3] == "..." then Some(3) else None
  }

  /** `[[:punct:]]`. */
  function MatchPunct(s: string): Option<nat>
  {
    if 0 < |s| && IsPunct(s[0]) then Some(1) else None
  }

  /**
   * The alternation at the start of `s`: the first alternative that matches
   * wins, and its length is the length of the lexeme.
   */
  function MatchAt(s: string): (r: Option<nat>)
    ensures r.Some? ==> 0 < r.value <= |s|
    ensures r.Some? ==> forall i :: 0 <= i < r.value ==> IsLexChar(s[i])
    ensures s != [] ==> (r.None? <==> !IsLexChar(s[0]))
  {
    if MatchJoined(s).Some? then
      MatchJoined(s)
    else if MatchWord(s).Some? then MatchWord(s)
    else if MatchEllipsis(s).Some? then MatchEllipsis(s)
    else MatchPunct(s)
  }

  /**
   * The lexemes of a chunk, as the regex token iterator yields them: search
   * for the leftmost match, emit it, continue after it. A character at which
   * no alternative matches is skipped.
   */
  function Tokenize(s: string): (ts: seq<Lexeme>)
    ensures forall i :: 0 <= i < |ts| ==> ts[i] != []
    decreases |s|
  {
    if s == [] then []
    else match MatchAt(s)
      case None => Tokenize(s[1..])
      case Some(n) => [s[..n]] + Tokenize(s[n..])
  }

  /** The generator's `is_punctation`: the whole lexeme is `...` or one punctuation character. */
  predicate IsPunctuation(lex: Lexeme)
  {
    lex == "..." || (|lex| == 1 && IsPunct(lex[0]))
  }

  // ---------------------------------------------------------------------
  // Categories of lexemes
  // ---------------------------------------------------------------------

  /** The four alternatives, in priority order. */
  datatype Kind = JoinedWord | Word | Ellipsis | Punctuation

  predicate AllWord(t: string)
  {
    0 < |t| && forall i :: 0 <= i < |t| ==> IsWordChar(t[i])
  }

  /** `t`, as a whole, is a lexeme of category `k`. */
  ghost predicate OfKind(t: string, k: Kind)
  {
    match k
    case JoinedWord =>
      exists a :: 0 < a < |t| - 1 && AllWord(t[..a]) && IsJoiner(t[a]) && AllWord(t[a + 1..])
    case Word => AllWord(t)
    case Ellipsis => t == "..."
    case Punctuation => |t| == 1 && IsPunct(t[0])
  }

  /** `t` belongs to at least one category. */
  ghost predicate Categorized(t: string)
  {
    exists k :: OfKind(t, k)
  }

  /** The categories are disjoint except for `_`, which is both a word and a punctuation character. */
  lemma KindsOverlap(t: string, k1: Kind, k2: Kind)
    ensures OfKind(t, k1) && OfKind(t, k2) && k1 != k2 ==> t == "_" && {k1, k2} == {Word, Punctuation}
  {
    if t == "..." {
      assert !IsWordChar(t[0]);
    }
    if |t| == 1 {
      assert t == [t[0]];
    }
  }

  // ---------------------------------------------------------------------
  // Properties of the tokenizer
  // ---------------------------------------------------------------------

  /** The lexeme matched at the start of `s` belongs to the category of the alternative that matched it. */
  lemma MatchAtKind(s: string)
    requires MatchAt(s).Some?
    ensures OfKind(s[..MatchAt(s).value], JoinedWord) <== MatchJoined(s).Some?
    ensures OfKind(s[..MatchAt(s).value], Word) <== MatchJoined(s).None? && MatchWord(s).Some?
    ensures Categorized(s[..MatchAt(s).value])
  {
    var n := MatchAt(s).value;
    var t := s[..n];
    var a := WordRun(s);
    if MatchJoined(s).Some? {
      var b := WordRun(s[a + 1..]);
      assert t[..a] == s[..a];
      assert t[a + 1..] == s[a + 1..][..b];
      assert OfKind(t, JoinedWord);
    } else if MatchWord(s).Some? {
      assert OfKind(t, Word);
    } else if MatchEllipsis(s).Some? {
      assert OfKind(t, Ellipsis);
    } else {
      assert OfKind(t, Punctuation);
    }
  }

  /** Every lexeme of a chunk belongs to one of the four categories. */
  lemma {:induction false} TokenKinds(s: string)
    ensures forall i :: 0 <= i < |Tokenize(s)| ==> Categorized(Tokenize(s)[i])
    decreases |s|
  {
    if s != [] {
      match MatchAt(s)
      case None =>
        TokenKinds(s[1..]);
        var ts := Tokenize(s);
        assert ts == Tokenize(s[1..]);
        forall i | 0 <= i < |ts|
          ensures Categorized(ts[i])
        {
          assert ts[i] == Tokenize(s[1..])[i];
        }
      case Some(n) =>
        MatchAtKind(s);
        TokenKinds(s[n..]);
        var ts := Tokenize(s);
        assert ts == [s[..n]] + Tokenize(s[n..]);
        forall i | 0 <= i < |ts|
          ensures Categorized(ts[i])
        {
          if i > 0 {
            assert ts[i] == Tokenize(s[n..])[i - 1];
          }
        }
    }
  }

  /** The word run of a prefix is the word run of the whole string, cut at the prefix. */
  lemma {:induction false} WordRunPrefix(s: string, n: nat)
    requires n <= |s|
    ensures WordRun(s[..n]) == if WordRun(s) < n then WordRun(s) else n
  {
    if n > 0 && IsWordChar(s[0]) {
      assert s[..n][1..] == s[1..][..n - 1];
      WordRunPrefix(s[1..], n - 1);
    }
  }

  lemma SliceOfPrefix(s: string, n: nat, i: nat)
    requires i <= n <= |s|
    ensures s[..n][i..] == s[i..][..n - i]
  {
  }

  /** The lexeme matched at the start of `s`, scanned on its own, is matched whole by the same alternative. */
  lemma MatchAtStable(s: string)
    requires MatchAt(s).Some?
    ensures MatchAt(s[..MatchAt(s).value]) == MatchAt(s)
  {
    var n := MatchAt(s).value;
    var t := s[..n];
    var a := WordRun(s);
    WordRunPrefix(s, n);
    if MatchJoined(s).Some? {
      var b := WordRun(s[a + 1..]);
      WordRunPrefix(s[a + 1..], b);
      SliceOfPrefix(s, n, a + 1);
      assert t[a] == s[a] && t[a + 1] == s[a + 1];
    } else if MatchWord(s).Some? {
    } else if MatchEllipsis(s).Some? {
      assert t[..3] == "...";
    } else {
      assert MatchPunct(t) == Some(1);
    }
  }

  /** Re-scanning any lexeme of a chunk yields exactly that lexeme: lexemes are stable under the tokenizer. */
  lemma {:induction false} TokensAreStable(s: string)
    ensures forall i :: 0 <= i < |Tokenize(s)| ==> Tokenize(Tokenize(s)[i]) == [Tokenize(s)[i]]
    decreases |s|
  {
    if s != [] {
      match MatchAt(s)
      case None =>
        TokensAreStable(s[1..]);
      case Some(n) =>
        var t := s[..n];
        MatchAtStable(s);
        assert t[..n] == t && t[n..] == [];
        TokensAreStable(s[n..]);
    }
  }

  /** The characters of `s` that some alternative can consume, in order. */
  function Kept(s: string): (r: string)
  {
    if s == [] then [] else (if IsLexChar(s[0]) then [s[0]] else []) + Kept(s[1..])
  }

  lemma {:induction false} KeptAppend(a: string, b: string)
    ensures Kept(a + b) == Kept(a) + Kept(b)
  {
    if a != [] {
      assert (a + b)[1..] == a[1..] + b;
      KeptAppend(a[1..], b);
    } else {
      assert a + b == b;
    }
  }

  lemma {:induction false} KeptAllLex(t: string)
    requires forall i :: 0 <= i < |t| ==> IsLexChar(t[i])
    ensures Kept(t) == t
  {
    if t != [] {
      KeptAllLex(t[1..]);
    }
  }

  /** The lexemes of a chunk, concatenated, are the chunk without the characters no alternative matches. */
  lemma {:induction false} TokenizeKeepsText(s: string)
    ensures Flatten(Tokenize(s)) == Kept(s)
    decreases |s|
  {
    if s != [] {
      match MatchAt(s)
      case None =>
        TokenizeKeepsText(s[1..]);
      case Some(n) =>
        TokenizeKeepsText(s[n..]);
        assert s == s[..n] + s[n..];
        KeptAppend(s[..n], s[n..]);
        KeptAllLex(s[..n]);
        FlattenCons(s[..n], Tokenize(s[n..]));
    }
  }

  /** A chunk yields no lexeme exactly when none of its characters is a word or punctuation character. */
  lemma {:induction false} TokenizeEmpty(s: string)
    ensures Tokenize(s) == [] <==> forall i :: 0 <= i < |s| ==> !IsLexChar(s[i])
    decreases |s|
  {
    if s != [] {
      match MatchAt(s)
      case None =>
        TokenizeEmpty(s[1..]);
        assert forall i :: 1 <= i < |s| ==> s[i] == s[1..][i - 1];
      case Some(n) =>
    }
  }

  function Dots(n: nat): string
  {
    seq(n, _ => '.')
  }

  function Repeat(x: Lexeme, k: nat): seq<Lexeme>
  {
    if k == 0 then [] else [x] + Repeat(x, k - 1)
  }

  /** A run of n dots yields n / 3 ellipses followed by n % 3 single dots. */
  lemma {:induction false} TokenizeDots(n: nat)
    ensures Tokenize(Dots(n)) == Repeat("...", n / 3) + Repeat(".", n % 3)
  {
    var s := Dots(n);
    if n >= 3 {
      assert s[..3] == "...";
      assert MatchAt(s) == Some(3);
      assert s[3..] == Dots(n - 3);
      TokenizeDots(n - 3);
      assert Repeat("...", n / 3) == ["..."] + Repeat("...", (n - 3) / 3);
    } else if n > 0 {
      assert MatchAt(s) == Some(1);
      assert s[..1] == ".";
      assert s[1..] == Dots(n - 1);
      TokenizeDots(n - 1);
    }
  }

  /** The joined-word alternative takes the first joint only: `a-b-c` yields `a-b`, `-`, `c`. */
  lemma TokenizeHyphens()
    ensures Tokenize("a-b-c") == ["a-b", "-", "c"]
  {
    var s := "a-b-c";
    assert WordRun(s[2..]) == 1;
    assert MatchAt(s) == Some(3);
    assert s[..3] == "a-b" && s[3..] == "-c";
    assert Tokenize(s) == ["a-b"] + Tokenize("-c");
    assert MatchAt("-c") == Some(1);
    assert "-c"[..1] == "-" && "-c"[1..] == "c";
    assert Tokenize("-c") == ["-"] + Tokenize("c");
    assert MatchAt("c") == Some(1);
    assert "c"[..1] == "c" && "c"[1..] == [];
    assert Tokenize("c") == ["c"];
  }

  /**
   * `is_punctation` accepts a lexeme of the tokenizer exactly when it is not
   * a (joined) word, with the one exception of `_`, which the tokenizer
   * treats as a word.
   */
  lemma PunctuationOfLexeme(t: Lexeme)
    requires Tokenize(t) == [t]
    ensures IsPunctuation(t) <==> t == "_" || !(OfKind(t, JoinedWord) || OfKind(t, Word))
  {
    TokenKinds(t);
    assert Tokenize(t)[0] == t;
    var k :| OfKind(t, k);
    if IsPunctuation(t) && t != "_" {
      var p := if t == "..." then Ellipsis else Punctuation;
      assert OfKind(t, p);
      if OfKind(t, JoinedWord) { KindsOverlap(t, JoinedWord, p); }
      if OfKind(t, Word) { KindsOverlap(t, Word, p); }
    }
    if t == "_" {
      assert IsPunct('_');
    }
  }
}
