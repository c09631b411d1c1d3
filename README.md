# CompFacts core, modelled in Dafny

CompFacts generates random computer "facts" from a context-free grammar and
posts them to Twitter on a schedule. This project models its core:

- **posting** (`pystr.dfy`, `escape.dfy`, `store.dfy`, `scheduler.dfy`):
  - `escape_for_twitter`, the single `re.sub` that puts a backtick into
    mentions, hashtags, cashtags and domain-like tokens;
  - the `facts` table behind `Database`, as the sequence of its rows;
  - `PostScheduler`: its posting step, retry backoff, scheduling window and
    stop. The clock, the jitter, the generated facts and the outcome of
    publishing are all inputs.
- **grammar** (`grammar.dfy`, `grammar_text.dfy`):
  - `check_grammar`, a recursive walk with a memo set;
  - `produce`, a random expansion driven by an explicit stream of
    `random.random()` draws, with `__CONTINUEnn__` gates that prune the
    rest of a production;
  - `FactBuilder.fact`;
  - the text `build_grammar_text` writes: hand-written grammar lines copied,
    and each corpus line turned into a rule `name -> "LINE"`.
- **corpus** (`corpus.dfy`):
  - `WikiNameListExtractor`. Its two regular expressions are modelled as
    leftmost, lazy scans. The class has `extract_line_fragment`,
    `extract_line`, `word_count`, `reset` and the `extract` loop with its
    `_prev_line` / `_names` state.
  - The corpus-name derivation of `get_corpus_text_names`.

`\w`, `\d`, Unicode whitespace and `upper()`/`lower()` are properties of the
Unicode tables, so they are a parameter: `PyStr.CharInfo`. Its `Valid()`
predicate fixes what the tables agree on for ASCII. The escape examples of
the test file are proved for every table that satisfies `Valid()`.

Notes on the source's behaviour:

- `check_grammar` treats a gate like any other nonterminal: it looks up its
  productions and raises when it has none.
- A pruning gate yields `''`, not nothing.
- `escape_for_twitter` is not idempotent (`TwitterEscape.EscapeNotIdempotent`).
- In `extract`, a filtered-out name skips the `_prev_line` update
  (`Corpus.FilteredCellKeepsSeparator`).

## Model

| member | source | states |
|---|---|---|
| TwitterEscape.MatchAt | src/compfacts/posting.py:222-224 | the alternatives are tried in pattern order; a match lies inside the text (2 characters for `@#$`, 4 for a domain) |
| TwitterEscape.Escape | src/compfacts/posting.py:227-240 | escaping removes nothing and adds at most one backtick per two characters |
| TwitterEscape.HitsAreLeftmostMatches | src/compfacts/posting.py:227-240 | the matches `re.sub` rewrites are genuine matches, in order, non-overlapping, and every position the scan did not skip starts no match |
| TwitterEscape.EscapeIsInsertion | src/compfacts/posting.py:228-240 | the escaped text is the input with one backtick per match: after the first character of `@x`/`#x`/`$x`, after the first two of `a.bc` |
| TwitterEscape.EscapeLength | src/compfacts/posting.py:227-240 | the escaped text is exactly one character longer per match, so never shorter |
| TwitterEscape.EscapeUnchangedIff | src/compfacts/posting.py:227-240 | a text is returned unchanged if and only if the pattern does not match in it |
| TwitterEscape.NoTriggerUnchanged | src/compfacts/posting.py:222-240 | text without `@`, `#`, `$` or `.` is returned unchanged |
| TwitterEscape.EscapeFromSuffix | src/compfacts/posting.py:222-240 | whether and how the scan rewrites from a position depends only on the text from there on |
| TwitterEscape.EscapeMentionExample | src/compfacts/posting_test.py:45-47 | `something @kitten function` becomes `something @`kitten function` |
| TwitterEscape.EscapeMultiExample | src/compfacts/posting_test.py:61-63 | `Game.com $uper f@ntastic` becomes ``Game.`com $`uper f@`ntastic`` |
| TwitterEscape.EscapeNumericExample | src/compfacts/posting_test.py:65-68 | a dollar before a digit and digits around a dot are left alone; `#1` and `@0` are escaped |
| TwitterEscape.EscapeNotIdempotent | src/compfacts/posting.py:227-240 | escaping `x.ab.cd` twice differs from escaping it once: overlapping domain tokens are found only on a second pass |
| FactStore.LastTimestamp | src/compfacts/posting.py:53-62 | `MAX(timestamp)`: 0 for an empty table, otherwise an upper bound attained by some row |
| FactStore.Cutoff | src/compfacts/posting.py:71-72 | a falsy `after_timestamp` (None or 0) means now; any other value is used as given |
| FactStore.MatchingMembers | src/compfacts/posting.py:75-77 | the `WHERE timestamp <= t` filter keeps exactly the stored rows with `timestamp <= t` |
| FactStore.Query | src/compfacts/posting.py:75-77 | the query returns at most 100 rows, each stored and each with `timestamp <= t` |
| FactStore.QueryIsNewestMatches | src/compfacts/posting.py:75-77 | the result is the last (up to) 100 matching rows, newest first |
| FactStore.QueryComplete | src/compfacts/posting.py:75-77 | a matching row is left out only when the limit of 100 is reached |
| FactStore.QueryIdsDescending | src/compfacts/posting.py:75-77 | with AUTOINCREMENT ids, the rows come back in strictly decreasing id order |
| FactStore.Database.constructor | src/compfacts/posting.py:26-51 | opening keeps the rows already stored and the id sequence where it stands; a new file gives an empty table whose ids start at 1 |
| FactStore.Database.InsertFact | src/compfacts/posting.py:64-66 | one row is appended with the next id and the current time; the id invariant is kept |
| FactStore.Database.GetLastTimestamp | src/compfacts/posting.py:53-62 | 0 on an empty table, otherwise the largest stored timestamp: at least every one and equal to one |
| FactStore.Database.GetFacts | src/compfacts/posting.py:68-82 | the cursor's `(timestamp, fact)` pairs, at most 100, all at or before the cutoff |
| FactStore.InsertOrderExample | src/compfacts/posting_test.py:22-41 | three inserted facts come back newest first, and an empty table reports 0 |
| Poster.NextPost | src/compfacts/posting.py:119-124 | the next post time lies within `deviation` of last post plus interval |
| Poster.ScheduledPostEligible | src/compfacts/posting.py:137-142 | a post scheduled by `next_post_timestamp` passes the too-early guard if and only if the jitter is above `-deviation` |
| Poster.RetryDelay | src/compfacts/posting.py:160-162 | `min(retry_delay * fail_count, 3600)`: linear below the cap, the cap above it, never more than an hour |
| Poster.Eligible | src/compfacts/posting.py:137-142 | with a non-negative deviation, the guard passes exactly when some jitter `next_post_timestamp` may draw would already have made the post due before now |
| Poster.DefaultSettings | src/compfacts/posting.py:86-87 | with the default arguments a post goes out 4 to 8 hours after the last, and retries wait 30 seconds per failure up to an hour from the 120th failure on |
| Poster.RetryDelayGrows | src/compfacts/posting.py:160-162 | more consecutive failures never shorten the wait |
| Poster.NewFact | src/compfacts/posting.py:126-135 | the first candidate whose escaped text is at most 120 characters, with that escaped text; None exactly when none fits |
| Poster.PostScheduler.constructor | src/compfacts/posting.py:86-98 | a scheduler over the database, not running, with no failures and an empty queue |
| Poster.PostScheduler.NextPostTimestamp | src/compfacts/posting.py:119-124 | within `deviation` of the table's last timestamp plus the interval |
| Poster.PostScheduler.SchedulePost | src/compfacts/posting.py:109-117 | while running, one post is entered at the next post time; otherwise nothing changes |
| Poster.PostScheduler.Run | src/compfacts/posting.py:102-107 | running is set and the first post is entered |
| Poster.PostScheduler.CheckMinTimestamp | src/compfacts/posting.py:137-142 | the guard passes exactly when now is more than `interval - deviation` after every stored post (after time 0 when none is stored) |
| Poster.PostScheduler.PostFact | src/compfacts/posting.py:144-172 | stopped: nothing changes; too early: only a reschedule; no fitting fact: nothing changes; otherwise the fact is the first candidate whose escaped text fits; publish failure: the escaped fact is sent, one more failure and a capped retry, no row; success: counter reset, the raw fact stored under the next id and the id advanced, the next post entered |
| Poster.PostScheduler.Stop | src/compfacts/posting.py:174-179 | not running and every pending event cancelled |
| Poster.PostedThenScheduled | src/compfacts/posting.py:168-172 | after a success the next post is due `interval + jitter` after the stored post |
| Grammar.ClosedHoldsReachable | src/compfacts/grammar.py:91-120 | a set of checked nonterminals closed under right-hand-side references holds everything reachable from it |
| Grammar.CheckGrammar | src/compfacts/grammar.py:91-120 | when `is_nonempty()` (a parameter) is false, nothing happens; otherwise the memo grows only by grammar keys; an error names a nonterminal reachable from the start with no productions; without error every newly seen nonterminal has productions whose nonterminals are all seen; each nonterminal is walked at most once |
| Grammar.ValidateGrammar | src/compfacts/grammar.py:22-25 | construction raises if and only if `is_nonempty()` (a parameter) holds and some nonterminal reachable from the start symbol has no productions |
| Grammar.Choose | src/compfacts/grammar.py:137 | `random.choice` picks a valid index |
| Grammar.ParseInt | src/compfacts/grammar.py:144-145 | `int()` of ASCII digits is their decimal value, negated after a `-`, unchanged after a `+`; the empty string, a lone sign and any other non-digit character fail |
| Grammar.GatePercentOfDigits | src/compfacts/grammar.py:143-145 | `strip('_CONTINUE')` stops at the digits, so a gate `__CONTINUEnn__` has the percentage `nn` |
| Grammar.Continue100Passes | src/compfacts/grammar.py:143-151 | `__CONTINUE100__` never prunes: one draw is consumed and the production goes on |
| Grammar.Continue50Prunes | src/compfacts/grammar.py:143-149 | `__CONTINUE50__` yields `''` and ends the production whenever the draw is above one half |
| Grammar.Produce | src/compfacts/grammar.py:123-156 | a successful expansion consumes at least one draw and leaves a suffix of the stream |
| Grammar.ProduceSeq | src/compfacts/grammar.py:140-156 | expanding a right-hand side leaves a suffix of the stream |
| Grammar.ProduceSound | src/compfacts/grammar.py:123-156 | whatever `produce` yields is the yield of a derivation that follows the grammar, with gates either passed or pruning |
| Grammar.ProduceComplete | src/compfacts/grammar.py:123-156 | every derivation is produced, by draws that choose its productions and gate outcomes, leaving the following draws untouched |
| Grammar.Fact | src/compfacts/grammar.py:78-83 | `fact()` succeeds exactly when `produce` does, and its text is the joined yield of a derivation from the start symbol that follows the grammar |
| Grammar.FactOfDerivation | src/compfacts/grammar.py:78-83 | `fact()` is the joined yield of the derivation the draws follow |
| Grammar.PruneEndsProduction | src/compfacts/grammar.py:143-149 | a draw above `nn/100` yields `''` and abandons the rest of the production |
| Grammar.FullGatePasses | src/compfacts/grammar.py:143-151 | a gate of 100 percent or more never prunes: it consumes one draw and the production goes on |
| GrammarText.Stripped | src/compfacts/grammar.py:41 | a stripped line neither begins nor ends with ASCII whitespace |
| GrammarText.KeptAppend | src/compfacts/grammar.py:40-44 | each line is kept or skipped on its own: the kept lines of two stretches of a file concatenate |
| GrammarText.KeptLine | src/compfacts/grammar.py:41-44 | a line is kept, stripped, unless it is blank or a `#` comment |
| GrammarText.KeptNotSkipped | src/compfacts/grammar.py:43-44 | no kept line is blank or a comment |
| GrammarText.Terminal | src/compfacts/grammar.py:58-65 | the terminal text of a corpus line holds no double quote |
| GrammarText.Rule | src/compfacts/grammar.py:62-66 | a rule line starts with `name -> "` and ends with `"` and a newline |
| GrammarText.RuleQuotes | src/compfacts/grammar.py:58-66 | the only double quotes of a rule line are the two that delimit its terminal, which is the quote-replaced, upper-cased line |
| GrammarText.TerminalOfAscii | src/compfacts/grammar.py:58-65 | on an ASCII line without double quotes the terminal is the line in ASCII capitals |
| GrammarText.WriteGrammarFile | src/compfacts/grammar.py:37-47 | one grammar file appends its kept lines, each with a newline, in file order |
| GrammarText.WriteCorpus | src/compfacts/grammar.py:52-66 | one corpus file appends one rule per kept line, in file order |
| GrammarText.BuildGrammarText | src/compfacts/grammar.py:27-68 | the buffer is every grammar file's kept lines, then every corpus's rules under the name its path gives |
| PyStr.Before | src/compfacts/corpus.py:46-47 | `s.split(sep, 1)[0]`: a prefix without `sep`, ending where `sep` first occurs, or all of `s` |
| PyStr.LStrip | src/compfacts/corpus.py:70 | `lstrip(chars)`: a suffix whose first character is not stripped, preceded only by stripped characters |
| Corpus.Shortest | src/compfacts/corpus.py:20-21 | the lazy group tried from `n` characters up ends inside the text and is at least `n` long |
| Corpus.ShortestFinds | src/compfacts/corpus.py:20-21 | the lazy group `[\w'. -]*?` takes the fewest characters after which the closing delimiter follows |
| Corpus.Search | src/compfacts/corpus.py:34-39 | a reported match starts at or after the search position and ends inside the text |
| Corpus.Source | src/compfacts/corpus.py:34-44 | the text a name is read from is a piece of the fragment |
| Corpus.SearchFinds | src/compfacts/corpus.py:34-39 | a reported match is a match, no match starts further left, and its group is the shortest at that start |
| Corpus.SearchFailsOnlyWithoutMatch | src/compfacts/corpus.py:34-39 | no match is reported only when the pattern matches nowhere |
| Corpus.SourceOrder | src/compfacts/corpus.py:34-44 | the source text is the linked group if that pattern matches, else the bold group, else the whole fragment |
| Corpus.LinkedGroupUnique | src/compfacts/corpus.py:20 | in `LINE_LINKED_RE` the group cannot hold `]`, so at one start there is one group length |
| Corpus.BoldStopsAtFirstClose | src/compfacts/corpus.py:21 | `LINE_BOLD_RE` ends at the first `''` after the opening one |
| Corpus.WordCount | src/compfacts/corpus.py:91-95 | `split()` finds no word exactly when the string is all whitespace |
| Corpus.WordCountIsWordStarts | src/compfacts/corpus.py:91-95 | `len(s.split())` is the number of positions where a word begins |
| Corpus.Candidate | src/compfacts/corpus.py:46-48 | the cut and stripped source text is a piece of the fragment, holds no `(` or `<`, and does not begin or end with `'[]" ` |
| Corpus.ExtractLineFragment | src/compfacts/corpus.py:27-55 | a name is returned exactly when the candidate is non-empty and has at most 4 words; it is a piece of the fragment |
| Corpus.CutAtShape | src/compfacts/corpus.py:72-74 | cutting at each delimiter leaves a prefix of the item holding none of them |
| Corpus.LineName | src/compfacts/corpus.py:57-89 | a name comes only from a list item or from a table row right after a `\|-` separator, and has the shape of a name |
| Corpus.ListItemName | src/compfacts/corpus.py:68-79 | a name from a list item contains none of the delimiters |
| Corpus.TableNeedsSeparator | src/compfacts/corpus.py:81-89 | outside list items a name is read only from a line starting with `\|` right after a `\|-` line |
| Corpus.Step | src/compfacts/corpus.py:121-129 | a filtered name changes nothing, not even the previous line; otherwise the line becomes the previous line and its non-empty name is added; no other name is ever added |
| Corpus.Run | src/compfacts/corpus.py:115-129 | the loop only adds names, at most one per line; which names it collects is stated by `RunNames` and `RunCollects` |
| Corpus.RunAppend | src/compfacts/corpus.py:115-129 | looping over two runs of lines in turn is looping over their concatenation |
| Corpus.RunNames | src/compfacts/corpus.py:115-129 | names are only added; each added one has the shape of a name, is not filtered out, and was extracted from one of the lines |
| Corpus.RunCollects | src/compfacts/corpus.py:115-129 | conversely, every non-empty unfiltered name a line yields, with the previous line the earlier lines leave, is in the final set |
| Corpus.FilteredCellKeepsSeparator | src/compfacts/corpus.py:123-129 | a filtered-out first cell leaves `_prev_line` at the separator, so the next `\|` line is also read as a first cell |
| Corpus.WikiNameListExtractor.constructor | src/compfacts/corpus.py:24-25 | the fields start out as `reset` leaves them |
| Corpus.WikiNameListExtractor.Reset | src/compfacts/corpus.py:97-101 | `_prev_line` is empty and `_names` is empty |
| Corpus.WikiNameListExtractor.CutListItem | src/compfacts/corpus.py:70-74 | the list item's text: the line without its leading spaces and stars, cut at each delimiter in turn |
| Corpus.WikiNameListExtractor.CutEach | src/compfacts/corpus.py:72-74 | the loop over the delimiters computes the successive cuts |
| Corpus.WikiNameListExtractor.ExtractLine | src/compfacts/corpus.py:57-89 | the name `extract_line` returns, given the current `_prev_line` |
| Corpus.WikiNameListExtractor.ExtractStep | src/compfacts/corpus.py:121-129 | one pass of the loop: a filtered name changes nothing, otherwise a name is added and `_prev_line` becomes the line |
| Corpus.WikiNameListExtractor.Extract | src/compfacts/corpus.py:103-131 | after a reset, the state the loop reaches over all the lines |
| Corpus.Basename | src/compfacts/corpus.py:152 | `os.path.basename`: the suffix of the path after its last `/` |
| Corpus.CorpusName | src/compfacts/corpus.py:152 | the base name up to its first `.`: no `.` or `/` in it |
| Corpus.CorpusNameOfStem | src/compfacts/corpus.py:141-154 | a file `dir/stem.META.corpus_text` is named after its stem, whatever follows the first dot |

## Left out

- Threads, `sched.scheduler`'s run loop and its clock: the queue is the list of entered events and the time is an input. The constructor's `self.start()` is not modelled; `Run` is the thread's body, called explicitly.
- sqlite: the table is a sequence of rows, and the SQL's effect is written out. Connections, pragmas, WAL and transactions are not modelled.
- FactStore.Database.constructor: reading the file is not modelled; the rows it holds and the id its AUTOINCREMENT sequence hands out next are parameters.
- `random.triangular` and `random.random`: the jitter and the stream of draws are inputs. Timestamps and jitter are integers, while the source adds floats.
- Grammar.Choose: models `random.choice`'s `int(random() * n)` on reals, without floating-point rounding.
- tweepy and the API services: whether publishing raises is an input (`publishOk`).
- Poster.NewFact: the source regenerates facts forever until one fits. The model takes the finite list of facts the builder would return and gives None when none fits. The 0.1-second sleep is not modelled.
- nltk: a grammar is a map from nonterminal to right-hand sides. `grammar.is_nonempty()` is a parameter, and `nltk.parse_cfg` (parsing the text back into a grammar) is not modelled.
- Grammar.Produce: the model stops with `OutOfDraws` when the given stream runs out. A real stream never does, so non-terminating expansion is not modelled.
- Grammar.ParseInt: `int()` also accepts surrounding whitespace; the model accepts only an optional sign followed by ASCII digits.
- File reading, `glob`, decoding from UTF-8, standard input and `print`: files are given as their lines, the corpus files as (path, lines) pairs, and `extract`'s header lines and `print_out` are not modelled.
- The Unicode character tables: `CharInfo` is a parameter, constrained only on ASCII.
- Corpus.WikiNameListExtractor.constructor: the source's constructor leaves `_prev_line` and `_names` unset until `reset()`; the model starts them as `reset()` leaves them.
- `web.py`, `service.py` and the command-line entry points are not part of this model.
