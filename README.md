# gen-similar-text in Dafny

`gen-similar-text.cpp` reads a text and splits it into whitespace-separated
chunks. It cuts each chunk into lexemes with a four-alternative regex: joined
words such as `don't` or `well-known`, words, the ellipsis `...`, and single
punctuation characters. From these it builds a first-order Markov chain, the
`Distr` object: every distinct lexeme is stored once, as a key, together with
the list of lexemes seen right after it, one entry per observed transition.
It then random-walks the chain from the starting lexeme `.` and prints each
lexeme it reaches, with a space before it unless it is punctuation. The walk
stops at the first `.` drawn after more than 500 steps.

This project models that core:

- `Lexer` (lexer.dfy) is the tokenizer and `is_punctation`. They are pure
  recursive functions over `string`, with "C" locale character classes.
- `Transitions` (transitions.dfy) describes the transition table as a value:
  - the effect of one `add`;
  - the fold of `add` over consecutive pairs of a stream (`Extend`, `Build`);
  - what the built table contains.
- `Distribution` (distribution.dfy) is the `Distr` class:
  - its `model` and `uniformStates` fields are maps updated in place by `Add`
    and `NextLex`;
  - the uniform choice of a successor, with its frequency property.
- `Parser` (parser.dfy) is the parse loop of `main`:
  - the inner token loop with its three cursors (`LinkChunk`);
  - the outer chunk loop (`Parse`);
  - the proof that together they add exactly the consecutive pairs of the
    starting lexeme followed by all lexemes.
- `Generator` (generator.dfy) is the generation loop, a method over a `Distr`.
  It is specified by what the printed walk is, where it stops and what text it
  prints. A lemma shows that this determines the result.
- `Program` (program.dfy) is the flow of `main`:
  - parse into a fresh `Distr`;
  - report when there is no data;
  - otherwise generate.

  It also has the properties that hold only for a table built from an input.
- `Sequences` and `Wrappers` (sequences.dfy, wrappers.dfy) hold `Flatten` and
  `Option`/`Result`.

The pseudo-random engine is a parameter. `draws` is a finite sequence of
engine outputs, one consumed per successful `nextLex`. The uniform integer
distribution with bounds `[lo, hi]` maps an output `d` to
`lo + d % (hi - lo + 1)`. Running out of draws ends generation with the
`OutOfDraws` outcome. This also bounds the loop, which the program does not
bound.

`abort()` after "Can't find next token" is the `Failure(NoSuccessor(x))`
result of `NextLex` and the `Aborted` outcome of generation.

## Model

| member | source | states |
|---|---|---|
| Lexer.WordRun | gen-similar-text.cpp:128-129 | `[[:w:]]+` taken greedily: every character before the returned length is a word character (alphanumeric or `_`), and the next one is not |
| Lexer.MatchAt | gen-similar-text.cpp:127-131 | the alternation matches a non-empty prefix made of word or punctuation characters, and matches nothing at a position exactly when that character is neither |
| Lexer.Tokenize | gen-similar-text.cpp:133 | every lexeme the token iterator yields is non-empty |
| Lexer.KindsOverlap | gen-similar-text.cpp:128-131 | the four categories (joined word, word, ellipsis, punctuation character) are disjoint except for `_`, which is both a word and a punctuation character |
| Lexer.MatchAtKind | gen-similar-text.cpp:127-131 | the lexeme found at a position belongs to the category of the first alternative that matches there, so a joined word wins over a word |
| Lexer.TokenKinds | gen-similar-text.cpp:127-133 | every lexeme of a chunk belongs to one of the four categories |
| Lexer.MatchAtStable | gen-similar-text.cpp:127-131 | the lexeme matched at a position, scanned on its own, is matched whole by the same alternative |
| Lexer.TokensAreStable | gen-similar-text.cpp:127-133 | scanning any lexeme of a chunk again yields exactly that one lexeme |
| Lexer.TokenizeKeepsText | gen-similar-text.cpp:127-133 | the lexemes of a chunk, concatenated, are the chunk with every character that is neither a word nor a punctuation character removed |
| Lexer.TokenizeEmpty | gen-similar-text.cpp:133-135 | a chunk yields no lexeme exactly when none of its characters is a word or punctuation character |
| Lexer.TokenizeDots | gen-similar-text.cpp:130-131 | a run of n dots yields n / 3 ellipses followed by n % 3 single dots |
| Lexer.TokenizeHyphens | gen-similar-text.cpp:128-131 | `a-b-c` yields `a-b`, `-`, `c`: a joined word takes only its first joint |
| Lexer.PunctuationOfLexeme | gen-similar-text.cpp:174-176 | on a lexeme of the tokenizer, `is_punctation` holds exactly when the lexeme is neither a word nor a joined word, or is `_` |
| Transitions.AddEntryEffect | gen-similar-text.cpp:57-64 | after `add(cur, next)` the keys are the old keys plus `cur` and `next`; `cur`'s list is its old list (empty if new) with `next` appended; a new `next` gets an empty list; every other list is unchanged |
| Transitions.AddEntryClosed | gen-similar-text.cpp:62-63 | `add` keeps every lexeme in any list a key |
| Transitions.SuccessorsAfterAdd | gen-similar-text.cpp:63 | `add(cur, next)` extends the list of `cur` by `next` at its end and changes no other list |
| Transitions.ExtendGrows | gen-similar-text.cpp:57-64 | the table only grows under a sequence of `add`s: no key disappears and every old list is a prefix of its new list |
| Transitions.ExtendKeys | gen-similar-text.cpp:137-142 | linking a prefix of the stream builds a table keyed by exactly the lexemes of the prefix (empty below two lexemes) |
| Transitions.ExtendSuccessors | gen-similar-text.cpp:137-142 | in the table built from a prefix, each lexeme's list is the lexemes that follow its occurrences, in order, one per occurrence |
| Transitions.ExtendClosed | gen-similar-text.cpp:62-63 | in the table built from a prefix every listed lexeme is a key |
| Transitions.FollowersOfEarlier | gen-similar-text.cpp:137-142 | every lexeme of a prefix except its last has at least one recorded successor |
| Transitions.FollowersObserved | gen-similar-text.cpp:137-142 | every recorded successor of `x` was observed right after an occurrence of `x` |
| Transitions.BuildKeys | gen-similar-text.cpp:137-142 | the table built from a stream of at least two lexemes is keyed by exactly the distinct lexemes of the stream, and is empty otherwise |
| Transitions.BuildClosed | gen-similar-text.cpp:62-63 | every lexeme listed in the built table is a key |
| Transitions.DeadEnd | gen-similar-text.cpp:72-77 | a key of the built table whose list is empty, the one case in which `nextLex` aborts, is the last lexeme of the stream and occurs nowhere before it |
| Transitions.BuildCount | gen-similar-text.cpp:55 | `uniqueLexCount` of the built table is the number of distinct lexemes of the stream |
| Distribution.Uniform | gen-similar-text.cpp:81-83 | a draw of the uniform distribution with bounds `[lo, hi]` lies within the bounds |
| Distribution.Choose | gen-similar-text.cpp:80-84 | the successor drawn from a non-empty list is an entry of the list at an index in range |
| Distribution.ChooseBelowSize | gen-similar-text.cpp:80-84 | engine outputs below the list's length pick the entry at that index |
| Distribution.ChoosePeriodic | gen-similar-text.cpp:80-84 | the choice depends on the engine output modulo the list's length only |
| Distribution.ChooseFrequency | gen-similar-text.cpp:79-84 | over any `|list|` consecutive engine outputs, a lexeme is drawn exactly as many times as it occurs in the list: the naive list with duplicates weights each successor by its observed frequency |
| Distribution.ChooseIsKey | gen-similar-text.cpp:62-63 | in a table where every listed lexeme is a key, the drawn successor is a key |
| Distribution.Distr.constructor | gen-similar-text.cpp:48-49 | a new `Distr` has an empty table and no cached distribution |
| Distribution.Distr.UniqueLexCount | gen-similar-text.cpp:55 | `uniqueLexCount` is the number of keys |
| Distribution.Distr.Add | gen-similar-text.cpp:57-64 | `add` turns the table into `AddEntry(old table, cur, next)` and returns the stored key equal to `next`; the distribution cache is untouched |
| Distribution.Distr.NextLex | gen-similar-text.cpp:70-85 | `nextLex` interns an absent `cur` with an empty list. An empty list means abort with `NoSuccessor(cur)` and no change to the cache. Otherwise the distribution with bounds `[0, size - 1]` is cached under `size - 1`, and the result is the entry that distribution picks |
| Parser.LinkRule | gen-similar-text.cpp:137-149 | lexeme `j` of chunk `c` directly follows, in the stream `"." + all lexemes`, its predecessor in the loop: the previous lexeme of its chunk, else the last lexeme of the previous chunk, else `"."` |
| Parser.LinkChunk | gen-similar-text.cpp:133-152 | the token loop, with the cursors `prevChunkLast`, `last` and `prevIt`, adds exactly the stream's consecutive pairs that end at the chunk's lexemes, and hands the chunk's last lexeme on as `prevChunkLast` |
| Parser.Parse | gen-similar-text.cpp:116-155 | the parse loop turns the table into the fold of `add` over all consecutive pairs of the stream `"." + all lexemes of all chunks` |
| Generator.LayoutSnoc | gen-similar-text.cpp:182-186 | printing one more lexeme appends a space unless the lexeme is punctuation, then the lexeme |
| Generator.LayoutExample | gen-similar-text.cpp:182-186 | `Hello` `,` `world` `...` is printed as `Hello, world...` |
| Generator.LayoutKeepsLexemes | gen-similar-text.cpp:182-186 | the printed text, with every character that no lexeme contains removed, is the printed lexemes concatenated: only spaces are added |
| Generator.IsWalkSnoc | gen-similar-text.cpp:185 | a walk extended by the successor its next draw picks is still a walk |
| Generator.RunningSnoc | gen-similar-text.cpp:188 | one more lexeme stops the walk exactly when more than 500 steps were taken and it is the terminator `.` |
| Generator.WalksAgree | gen-similar-text.cpp:178-185 | two walks of one table under the same draws agree at every step both reach |
| Generator.WalkPrefix | gen-similar-text.cpp:178-185 | of two walks of one table under the same draws, the shorter is a prefix of the longer |
| Generator.OnlyStopsCutShort | gen-similar-text.cpp:184-193 | a generation that a longer walk under the same draws passes stopped at the terminator (it neither aborted nor ran out of draws) |
| Generator.GeneratedUnique | gen-similar-text.cpp:178-194 | the generation's promise determines its result: the outcome, the printed lexemes and the text are the same for any two results that meet it |
| Generator.InternKnown | gen-similar-text.cpp:72 | a lookup of a lexeme with a non-empty list leaves the table as it was |
| Generator.Generate | gen-similar-text.cpp:178-194 | the generation loop prints a walk of the table: its first lexeme is drawn from `"."`'s list and each later one from the list of the lexeme before it. It stops at the first `.` after more than 500 steps, prints that `.` and a newline, and ends with `i` equal to the number of lexemes printed (at least 502). Otherwise it aborts with the lexeme whose list is empty, and only then does the table change, by that lexeme interned with an empty list |
| Program.WalkInTable | gen-similar-text.cpp:62-63 | every lexeme looked up along a walk of a closed table that starts from a key is a key |
| Program.WalkObserved | gen-similar-text.cpp:184-185 | every step of a walk of the table built from a stream is a transition observed in the stream |
| Program.InputTable | gen-similar-text.cpp:157-163 | after parsing, `uniqueLexCount` is 0 exactly when there were no chunks; otherwise it is the number of distinct lexemes among `"."` and the input's lexemes |
| Program.GenerationFromInput | gen-similar-text.cpp:178-194 | generating from a built table takes only observed transitions; it aborts only at a lexeme that ends the input and occurs nowhere before it, and never at the first lookup of `"."` |
| Program.Run | gen-similar-text.cpp:116-197 | `main` reports "no parsable data" exactly for an input without chunks. Otherwise it generates from the table the input builds, taking only transitions observed in the input, aborting only at the input's final lexeme when that lexeme occurs nowhere earlier, and reporting the number of distinct lexemes |

## Left out

- Opening and reading `text.txt` and the error when it cannot be opened (gen-similar-text.cpp:104-108) are left out, because they are file I/O. The input is the sequence of its chunks.
- Whitespace chunking by `in >> chunk` (gen-similar-text.cpp:120) is left out, because it is stream I/O. The chunks are a parameter.
- `dump()` and the `DBG` lines (gen-similar-text.cpp:87-97, 114, 124, 135, 150, 154, 161, 165, 172-173, 196-197) are not modelled, because they are diagnostics only. The text `OUT` prints is `Generation.text`.
- `std::random_device` and `mt19937` (gen-similar-text.cpp:51-52) are replaced by the `draws` parameter, because their internals are foreign code.
- The exact way `uniform_int_distribution` maps engine outputs is left out for the same reason. It is modelled as `lo + output % (hi - lo + 1)`, one output per draw.
- The probabilistic claim that successors are drawn in proportion to their counts is stated only through the list's multiplicities (`Distribution.ChooseFrequency`). Probability is outside the model.
- The stability of key addresses in `unordered_map` (gen-similar-text.cpp:59-62) is left out, because it is a container guarantee. `add` returns the stored lexeme by value.
- A chunk that yields no lexeme, for instance one made only of non-ASCII characters, makes the token loop dereference an end iterator (gen-similar-text.cpp:133-135). That is undefined behaviour, so `Parser.Parse` and `Program.Run` require every chunk to yield at least one lexeme (`Parser.EveryChunkLexes`; `Lexer.TokenizeEmpty` says which chunks do).
- The generation loop need not end: an input such as `a a` never reaches `.` again. The model covers that case only within the draws supplied, via the `OutOfDraws` outcome.
- Overflow of the `int` counter `i` in a long generation is not modelled, because the counter stays below the number of draws.
- Generator.Generate: when the draws run out just before a lookup whose list is empty, it reports `OutOfDraws` where the program would abort, because the draw is taken before the lookup.
- `abort()` is modelled as an outcome and not as process termination. The message it prints is not modelled.
- Distribution.Distr.Valid: does not include "every listed lexeme is a key", because that is a cost choice for the verifier. The property is proved about each `add` (`Transitions.AddEntryClosed`) and about the table the parse loop builds (`Transitions.BuildClosed`).
- Locales other than the default "C" locale are left out, because `main` never changes the locale. Lexemes are `string`s of `char`, and characters outside ASCII are neither word nor punctuation characters.
