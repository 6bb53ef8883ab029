# aks — corpus selection and prompt assembly, in Dafny

`aks` is a command-line tool that shares a codebase with a language model. It chooses files by
glob patterns, drops the ones that match exclusion patterns, reads them and concatenates them
into one corpus. It then appends the user's query and checks the estimated token count against
the model's context window, asking for confirmation when the prompt is too large. Finally it
sends the prompt.

This project models the part of `aks/main.py` with real logic: `pretty_number`, and `main()` from
the query-option check to the budget gate (lines 69-170). The model is organised as follows:

- `Text` (text.dfy): decimal rendering of naturals (`str(n)`) and its parser, Python's
  `str.strip()` over the full `isspace()` set, and `str.lower()` on ASCII.
- `Numbers` (numbers.dfy): Python's `round()` as round-half-to-even, and `pretty_number`.
- `Patterns` (fnmatch.dfy): `fnmatch.fnmatch` as CPython translates a pattern: `*`, `?`,
  bracket classes with `!`, ranges, a `]` first in a class, and an unclosed `[` taken as a
  literal. Matching is case-sensitive, as on POSIX.
- `Selection` (selection.dfy): the top-level-glob rewrite, the three selection modes, the
  extended exclude list under `--all`, and the exclusion filter.
- `Corpus` (corpus.dfy): the read loop over an insertion-ordered dictionary, the character
  total and the temporary-file corpus layout.
- `Prompt` (prompt.dfy): where the query comes from, the prompt layout, the `chars // 4`
  estimate and the confirmation gate at 256000 tokens.
- `Pipeline` (pipeline.dfy): one run as a method, `Pipeline.Run`. It is proved equal to a
  functional specification, `Pipeline.RunSpec`, and the properties of each way a run ends are
  proved about that specification.

Everything the run takes from its surroundings is a parameter. This covers `glob.glob`,
`os.path.isfile`, `os.path.relpath`, reading a file (`None` when open or decode raises), the line
typed at the query prompt and the answer typed at the confirmation prompt.

Behaviour kept from the code:

- A file matched by two explicit patterns is listed twice. The code appends without removing
  duplicates. The dictionary then holds the file once, but `total_chars` counts it twice
  (`Corpus.RepeatedPathCountedTwice`).
- An empty `--query ""` is not "given" (`bool("") is False`), so it conflicts with nothing.
  `--query-file` is used whenever it is present, even when empty (`is not None`).
- The comment on line 160 speaks of a limit of 2000 tokens. The code compares against
  `model_context_limit = 256000`, and the model follows the code.
- The help text lists a `--query-history` option, but the parser defines no such argument. It is
  not modelled.

## Model

| member | source | states |
|---|---|---|
| Text.NatToString | aks/main.py:44 | `str(n)` for a natural: at least one digit, no leading zero, and it starts with `0` exactly when n is 0 |
| Text.ParseNatToString | aks/main.py:44 | parsing the rendered decimal gives back the number (no loss in `str(n)`) |
| Text.NatToStringParse | aks/main.py:44 | every canonical digit string is the rendering of its value, so the rendering is a bijection onto canonical strings |
| Text.Strip | aks/main.py:144 | `strip()`: the result is the infix of the input after the leading and before the trailing whitespace, and neither of its ends is whitespace |
| Text.StripEmpty | aks/main.py:155 | the stripped text is empty if and only if every character of the input is whitespace |
| Text.Lower | aks/main.py:168 | `lower()` keeps the length and maps each character on its own |
| Text.LowerIsY | aks/main.py:168 | a string lowers to `y` exactly when it is `y` or `Y` |
| Numbers.RoundHalfEven | aks/main.py:46 | `round(n / d)`: the result is a nearest integer to n/d, and on a tie the even one |
| Numbers.NearestHalfEvenUnique | aks/main.py:46 | at most one integer is the half-even nearest, so `round` is determined by the specification |
| Numbers.PrettyNumber | aks/main.py:41-48 | below 1000 the plain decimal of n; below a million a decimal then `k`, the decimal being `round(n / 1000)`; otherwise a decimal then `M`, being `round(n / 1000000)` |
| Numbers.ThousandsMantissaBounds | aks/main.py:45-46 | in the `k` range the rounded value is between 1 and 1000 |
| Numbers.ThousandsExample | aks/main.py:42 | 516930 is shown as `517k`, as the docstring says |
| Numbers.TieExamples | aks/main.py:46 | ties go to even: 1500 is `2k`, 2500 is `2k`, 2500000 is `2M` |
| Numbers.RoundsUpToThousandExample | aks/main.py:45-46 | 999500 is shown as `1000k`, not `1M` |
| Numbers.SmallNumberExample | aks/main.py:43-44 | 999 is shown as `999` |
| Patterns.Fnmatch | aks/main.py:101 | `fnmatch.fnmatch(f, excl)`: the name is matched as a whole by the tokens the pattern translates to |
| Patterns.Tokens | aks/main.py:101 | the translation of a whole pattern into tokens, read from its first character |
| Patterns.TokensFrom | aks/main.py:101 | `*` and `?` become star and one-character tokens; `[` opens a class only when a closing `]` follows, otherwise it is a literal; every other character is a literal |
| Patterns.ClassItems | aks/main.py:101 | a class body read left to right into single characters and `lo-hi` ranges; a `-` with nothing after it is a member |
| Patterns.MatchTokens | aks/main.py:101 | a star token matches any run of characters, slashes and newlines included; every other token matches exactly one character |
| Patterns.LiteralMatchesOnlyItself | aks/main.py:101 | a pattern without `*`, `?` or `[` matches exactly the name equal to it |
| Patterns.LiteralsThen | aks/main.py:101 | a literal prefix in the token list matches exactly names starting with it, the rest matching the remaining tokens |
| Patterns.StarMatchesAnything | aks/main.py:101 | `*` matches every name, slashes included |
| Patterns.PrefixStar | aks/main.py:101 | a literal prefix followed by `*` matches exactly the names with that prefix |
| Patterns.PrefixStarTokens | aks/main.py:101 | a literal prefix then `*` translates to one literal token per character and one star token |
| Patterns.NestedPathMatchesStar | aks/main.py:101 | `tests/*` matches a path exactly when it starts with `tests/`: every path under `tests/` at any depth, and no other path, even one that contains `tests/` further in |
| Patterns.QuestionMarkIsOneChar | aks/main.py:101 | `?` matches exactly the one-character names |
| Patterns.CaseSensitive | aks/main.py:101 | `*.md` does not match `README.MD` |
| Patterns.NoMatchWithoutSuffix | aks/main.py:101 | `*` then a literal suffix matches no name that does not end in that suffix |
| Patterns.NoMatchAtAnySplit | aks/main.py:101 | `*` then a literal matches no name in which no split leaves exactly that literal at the end |
| Patterns.CloseAtEnd | aks/main.py:101 | the closing `]` of a class is the first `]` after the opening part |
| Patterns.BracketTokens | aks/main.py:101 | a well-formed class pattern translates to a single class token, negated exactly when it starts with `[!` |
| Patterns.BracketMatches | aks/main.py:101 | a class pattern matches exactly the one-character names whose character is in the class (outside it, when negated) |
| Patterns.BracketSetExample | aks/main.py:101 | `[abc]` matches `b` and not `d` |
| Patterns.NegatedBracketExample | aks/main.py:101 | `[!abc]` matches `d` and not `b` |
| Patterns.RangeExample | aks/main.py:101 | `[a-z]` matches `q` and not `Q` |
| Patterns.DashAndReversedRangeExample | aks/main.py:101 | a trailing `-` is a member, and a reversed range such as `z-a` is empty |
| Patterns.UnclosedBracketIsLiteral | aks/main.py:101 | an unclosed `[` is a literal character, and `[]` is a literal two-character name |
| Selection.Rewrite | aks/main.py:86-87 | the pattern is changed exactly when it starts with `*` and has no `**`, and then it becomes `**/` followed by the pattern |
| Selection.RewriteIdempotent | aks/main.py:86-87 | rewriting a rewritten pattern changes nothing |
| Selection.KeepFiles | aks/main.py:80 | the `isfile` filter never lengthens the list |
| Selection.KeepFilesAppend | aks/main.py:90 | filtering a concatenation is concatenating the filtered parts |
| Selection.KeepFilesCount | aks/main.py:80 | a regular file keeps all of its occurrences and any other path loses all of them |
| Selection.KeepFilesMembers | aks/main.py:80 | a path survives the filter exactly when it was listed and is a regular file |
| Selection.ExpandSnoc | aks/main.py:84-89 | one more pattern appends its own rewritten expansion to the list |
| Selection.ExpandAppend | aks/main.py:84-89 | expanding `a + b` gives the expansion of `a` followed by that of `b` |
| Selection.Expand | aks/main.py:83-89 | the loop over explicit patterns: each pattern is rewritten, globbed, and its matches are appended in pattern order |
| Selection.Explicit | aks/main.py:82-90 | explicit mode: the expansion of all patterns, then the `isfile` filter |
| Selection.DefaultFiles | aks/main.py:92-96 | default mode: the `.cpp` matches, then `.hpp` and `.h`, then `.py`, with no `isfile` filter |
| Selection.Candidates | aks/main.py:77-97 | the candidates of the chosen mode, `--all` first, then explicit patterns, then the defaults; under `--all` and in explicit mode every candidate is a regular file |
| Selection.EffectiveExcludes | aks/main.py:73-75 | the user's exclusion patterns come first, followed by the positional patterns exactly when `--all` is given |
| Selection.ExplicitAppend | aks/main.py:82-90 | explicit patterns are independent: the selection for `a + b` is the selection for `a` then the selection for `b` |
| Selection.ExplicitSingle | aks/main.py:84-90 | one explicit pattern selects the regular files its rewritten form globs to |
| Selection.ExplicitKeepsDuplicates | aks/main.py:84-90 | a file matched by a pattern given twice is selected at least twice (no deduplication) |
| Selection.CollectCandidates | aks/main.py:73-97 | the loop leaves the candidates of the chosen mode and the exclude list, extended by the positional patterns under `--all` |
| Selection.AllIgnoresPositional | aks/main.py:74-80 | with `--all` the positional patterns do not change the candidates |
| Selection.DefaultIgnoresFileType | aks/main.py:92-96 | default mode applies no `isfile` filter |
| Selection.Exclude | aks/main.py:101 | the exclusion filter never lengthens the list |
| Selection.ExcludeMembers | aks/main.py:101 | a path survives exactly when it was a candidate and matches none of the exclusion patterns |
| Selection.ExcludeCount | aks/main.py:101 | a surviving path keeps every one of its copies, and an excluded path keeps none |
| Selection.ExcludedSingle | aks/main.py:101 | a single exclusion pattern excludes exactly the paths it matches |
| Selection.ExcludeIsSubsequence | aks/main.py:101 | the survivors are the candidates in their order, with some dropped |
| Selection.ExcludeMonotone | aks/main.py:101 | adding an exclusion pattern keeps only a subsequence of what was left before |
| Selection.ExcludeOnlyDependsOnPatternSet | aks/main.py:101 | the order and repetition of exclusion patterns do not matter |
| Selection.ExcludeNothing | aks/main.py:99-103 | with no exclusion patterns the list is unchanged, so skipping the filter when the list is empty changes nothing |
| Selection.ExcludeLiteral | aks/main.py:101 | a literal exclusion pattern removes every occurrence of that path and nothing else |
| Selection.RemoveAll | aks/main.py:101 | the removed path no longer occurs |
| Corpus.Put | aks/main.py:117 | a dict assignment sets the value, adds a new key at the end, leaves an existing key in its place, and keeps the keys unique |
| Corpus.ReadAll | aks/main.py:109-123 | the dictionary after the read loop is well formed: unique keys, exactly the keys with a value |
| Corpus.TotalChars | aks/main.py:118-120 | `total_chars`: the summed length of every successful read, a path selected twice counted twice |
| Corpus.ReadAllSnoc | aks/main.py:112-120 | one more path in the list is one more pass of the loop body |
| Corpus.ReadFiles | aks/main.py:109-123 | the loop leaves the dictionary and `total_chars` of the specification and reports, per path in order, its size and `chars // 4`, or that it was skipped |
| Corpus.ReadAllKeys | aks/main.py:112-123 | the dictionary holds a path exactly when it was selected and could be read |
| Corpus.ReadAllValues | aks/main.py:116-117 | each path is mapped to what reading it gave |
| Corpus.ReadAllStep | aks/main.py:117 | one more path either leaves the keys as they were or appends that path, when it is new and readable |
| Corpus.ReadAllFirstOccurrenceOrder | aks/main.py:112-117 | the dictionary lists paths in the order of their first occurrence among the selected files |
| Corpus.IndexOf | aks/main.py:117 | the position of the first occurrence of a path |
| Corpus.IndexOfAppend | aks/main.py:117 | appending to a list does not move the first occurrence of a path already in it |
| Corpus.IndexOfLast | aks/main.py:117 | a path appended to a list without it first occurs at the end |
| Corpus.CharsOfFrame | aks/main.py:118-120 | the summed length depends only on the values of the listed keys |
| Corpus.TotalCharsCoversContents | aks/main.py:118-120 | `total_chars` is at least the length of what the dictionary holds, and equal to it when no path is selected twice |
| Corpus.RepeatedPathCountedTwice | aks/main.py:117-120 | a path selected twice is counted twice in `total_chars` but kept once in the dictionary |
| Corpus.WriteCorpus | aks/main.py:128-136 | the temporary-file loop writes the specification's corpus: one header and content per key, in key order |
| Corpus.Entry | aks/main.py:131-132 | one file's part of the corpus: the header `\n--- rel ---\n`, then the content |
| Corpus.CorpusOf | aks/main.py:129-132 | the entries of the listed keys, in key order, with nothing between them |
| Corpus.CorpusAppend | aks/main.py:129-132 | the corpus of `a + b` is the corpus of `a` followed by that of `b` |
| Corpus.CorpusSplit | aks/main.py:129-132 | the corpus of the keys is the corpus before key i, then key i's entry, then the corpus after it |
| Corpus.CorpusLength | aks/main.py:131-132 | the corpus length is 10 per file plus the relative path lengths plus the content lengths |
| Prompt.QueryOptionsConflict | aks/main.py:69-70 | the query options conflict exactly when both `--query` and `--query-file` are given and not empty |
| Prompt.QueryText | aks/main.py:141-154 | the text the query comes from: the query file whenever `--query-file` is present (none when it cannot be read), else `--query` when not empty, else the typed line |
| Prompt.ResolveQuery | aks/main.py:139-157 | an unreadable query file stops the run, and a query text that is only whitespace stops it; any other text succeeds, and then the query is the stripped text and is not empty |
| Prompt.FullPrompt | aks/main.py:161 | the prompt is the fixed preamble, the corpus, the fixed label and the query, at those positions and nothing else |
| Prompt.FullPromptDeterminesCorpus | aks/main.py:161 | for a given query, different corpora give different prompts |
| Prompt.TokenEstimate | aks/main.py:162-163 | `chars // 4`: the estimate t satisfies 4t ≤ chars < 4t + 4 |
| Prompt.Confirms | aks/main.py:168 | the answer is accepted when, stripped and lowered, it is `y` |
| Prompt.ConfirmsExactly | aks/main.py:168 | the confirmation is accepted exactly when the stripped answer is `y` or `Y` |
| Prompt.CheckBudget | aks/main.py:165-170 | within the limit the answer is not consulted; over it, the run goes on exactly when the answer is `y` or `Y`, and is aborted otherwise |
| Prompt.NoDeclines | aks/main.py:168 | the answer `no` does not confirm |
| Prompt.LimitIsStrict | aks/main.py:165-166 | 256000 tokens is within the limit and 256001 is not, reached at 1024004 characters |
| Pipeline.Selected | aks/main.py:73-103 | the candidates of the chosen mode with the effective exclusion patterns applied |
| Pipeline.Assembled | aks/main.py:69-161 | the prompt, or the first stop met before the budget gate: conflicting options, no files, no readable files, unreadable query file, empty query |
| Pipeline.RunSpec | aks/main.py:69-170 | the whole run: a stop before the gate, an abort at the gate, or the prompt sent with its estimate |
| Pipeline.Run | aks/main.py:69-170 | the step-by-step run ends with the outcome of the functional specification of the run |
| Pipeline.ConflictStopsFirst | aks/main.py:69-72 | a run stops for conflicting query options exactly when both are given |
| Pipeline.EmptySelectionStopsBeforeReading | aks/main.py:104-106 | an empty selection stops the run, and neither the file reads nor the typed answers can change that |
| Pipeline.NoReadableFilesExactly | aks/main.py:124-126 | after a non-empty selection, the run stops for want of readable files exactly when every selected file fails to read |
| Pipeline.QueryStage | aks/main.py:139-170 | once a file was read, an unreadable query file and an empty query stop the run with their own reasons, and a resolved query leads to a send or an abort |
| Pipeline.QueryFileUnreadableStops | aks/main.py:141-148 | a run that reaches the query stops for an unreadable query file exactly when `--query-file` is present and reading it fails |
| Pipeline.EmptyQueryStops | aks/main.py:155-157 | a run that reaches the query stops there exactly when the query text is only whitespace |
| Pipeline.SentPromptLayout | aks/main.py:128-170 | a sent prompt is the preamble, the entries of the readable files in dictionary order, the label and the stripped query; its estimate is a quarter of its length, and over the limit it was confirmed |
| Pipeline.SentIsAssembled | aks/main.py:162-170 | a send carries the assembled prompt and its estimate, and it passed the budget gate |
| Pipeline.AssembledPrompt | aks/main.py:139-161 | an assembled prompt is built from the corpus and the stripped query text |
| Pipeline.BudgetGate | aks/main.py:165-170 | over the limit, an answer other than `y` aborts; within it, the answer does not affect the outcome |
| Pipeline.NoMatchingPatternStops | aks/main.py:86-106 | a pattern `*.md` that globs to nothing leaves nothing to send |
| Pipeline.AllWithPositionalExcludes | aks/main.py:74-101 | with `--all` and the positional pattern `tests/*`, the run selects exactly the regular files outside `tests/` |
| Pipeline.DefaultModeScenario | aks/main.py:93-120 | default mode over `b.cpp` (200 characters) and `a.py` (100) keeps both, in that order, for 300 characters and 75 tokens |
| Pipeline.ReadTwo | aks/main.py:112-120 | two different readable paths are both kept in order, and both lengths are counted |
| Pipeline.DeclinedOverLimitAborts | aks/main.py:166-170 | a prompt of 300000 estimated tokens answered `no` is aborted |

## Left out

- Argument parsing, `--help` and `--version` (lines 52-66): `Args` holds the parsed values. The
  `--provider` and `--model` options only matter to the API call.
- The API key check, the client, the spinner thread, the request and the append to
  `response.md` (lines 171-252): these are network, threads, clocks and file output. A run
  ends with `Send` where the source goes on to set up the client.
- All printed messages, the `query_source` label and the per-file report lines. The numbers
  the report prints are modelled (`Corpus.ReadFiles` and `Numbers.PrettyNumber`); the text
  is not.
- `glob.glob`, `os.path.isfile` and `os.path.relpath` are parameters, not models of the
  filesystem. In particular `recursive=True` globbing is not modelled.
- Reading a file: UTF-8 decoding and any exception are folded into `read` returning `None`.
  The temporary file's write-then-read round trip is taken as the identity, and its deletion
  is left out.
- Text.Lower: only ASCII letters are lowered. This is enough for the comparison with `y`,
  since no other character lowers to `y`.
- Patterns.Fnmatch: a class that opens with a reversed range followed by `!`, such as `[z-a!]`,
  is not modelled as CPython behaves. Removing the empty range leaves the `!` first, and CPython
  then reads it as a negation, or as "any character" when nothing else is left. The model keeps
  that `!` as a member.
- Patterns.Fnmatch: `os.path.normcase` is the identity, as on POSIX; Windows case folding is
  not modelled.
- Numbers.PrettyNumber: divides exactly, where `round(n / 1000000)` divides in floating point. The
  two agree below 2^34 * 10^6 (about 1.7 * 10^16). Above that, the double nearest to the quotient
  can be a half the exact quotient is not: 17179869184500001 prints `17179869184M` in Python and
  `17179869185M` in the model. No length or count a run produces comes near that bound.
- Numbers.PrettyNumber: defined on naturals only, since it is only ever called with lengths and
  counts. A negative argument would print `str(n)`.
- `input()` at end of input raises `EOFError` (lines 153 and 168), which ends the process with
  a traceback. The typed query and the confirmation answer are plain strings, so the model
  cannot express that; an exhausted input behaves in the model like an empty line typed.
- `setup.py` (packaging) is not part of this model.
