/**
 * The query and the prompt (aks/main.py, lines 69-72 and 139-170): where the query comes from,
 * the exact layout of the prompt, its `len // 4` token estimate, and the confirmation asked for
 * when that estimate is over the model's context limit.
 */
module Prompt {
  import opened Wrappers
  import opened Text

  // ---------------------------------------------------------------------------------------------
  // The query (aks/main.py:69-72, 139-157)

  /** Python truthiness of an optional string argument: given, and not the empty string. */
  predicate Given(o: Option<string>) {
    o.Some? && o.value != ""
  }

  /** `--query` and `--query-file` may not both be given (an empty value does not count as given). */
  predicate QueryOptionsConflict(query: Option<string>, queryFile: Option<string>) {
    Given(query) && Given(queryFile)
  }

  /**
   * The raw text the query is taken from, before stripping: the query file whenever `--query-file`
   * is present (even empty), else `--query` when given, else what the user typed at the prompt.
   * `None` when the query file cannot be read.
   */
  function QueryText(query: Option<string>, queryFile: Option<string>,
                     read: string -> Option<string>, typed: string): Option<string>
  {
    if queryFile.Some? then read(queryFile.value)
    else if Given(query) then Some(query.value)
    else Some(typed)
  }

  datatype QueryError = UnreadableQueryFile | NoQuery

  /** The stripped query, or why the run stops without one. */
  function ResolveQuery(query: Option<string>, queryFile: Option<string>,
                        read: string -> Option<string>, typed: string): (r: Result<string, QueryError>)
    ensures QueryText(query, queryFile, read, typed).None? ==> r == Failure(UnreadableQueryFile)
    ensures QueryText(query, queryFile, read, typed).Some? ==>
      var text := QueryText(query, queryFile, read, typed).value;
      (r == Failure(NoQuery) <==> forall i :: 0 <= i < |text| ==> IsSpace(text[i]))
      && (r.Success? <==> !forall i :: 0 <= i < |text| ==> IsSpace(text[i]))
      && (r.Success? ==> r.value == Strip(text) && r.value != "")
  {
    match QueryText(query, queryFile, read, typed)
    case None => Failure(UnreadableQueryFile)
    case Some(text) =>
      var q := Strip(text);
      StripEmpty(text);
      if q == "" then Failure(NoQuery) else Success(q)
  }

  // ---------------------------------------------------------------------------------------------
  // The prompt (aks/main.py:161)

  const Preamble := "Here is the content of my codebase files:\n\n"
  const QueryLabel := "\n\nQuery: "

  /** The prompt: a fixed preamble, the corpus, a fixed label, the query, in that order and nothing else. */
  function FullPrompt(corpus: string, query: string): (p: string)
    ensures |p| == |Preamble| + |corpus| + |QueryLabel| + |query|
    ensures p[..|Preamble|] == Preamble
    ensures p[|Preamble|..|Preamble| + |corpus|] == corpus
    ensures p[|Preamble| + |corpus|..|p| - |query|] == QueryLabel
    ensures p[|p| - |query|..] == query
  {
    var p := Preamble + corpus + QueryLabel + query;
    assert p == Preamble + (corpus + (QueryLabel + query));
    p
  }

  /** Given the query, the prompt determines the corpus it was built from. */
  lemma FullPromptDeterminesCorpus(c1: string, c2: string, query: string)
    requires FullPrompt(c1, query) == FullPrompt(c2, query)
    ensures c1 == c2
  {
    var p := FullPrompt(c1, query);
    assert c1 == p[|Preamble|..|Preamble| + |c1|];
  }

  // ---------------------------------------------------------------------------------------------
  // The budget gate (aks/main.py:162-170)

  /** The model's context window, in estimated tokens. */
  const ContextLimit: nat := 256000

  /** `num_chars // 4`: a quarter of the length, rounded down. */
  function TokenEstimate(chars: nat): (t: nat)
    ensures 4 * t <= chars < 4 * t + 4
  {
    chars / 4
  }

  /** `input().strip().lower() == 'y'`. */
  predicate Confirms(answer: string) {
    Lower(Strip(answer)) == "y"
  }

  /** The confirmation is accepted exactly when the answer is `y` or `Y` with surrounding whitespace. */
  lemma ConfirmsExactly(answer: string)
    ensures Confirms(answer) <==> Strip(answer) == "y" || Strip(answer) == "Y"
  {
    LowerIsY(Strip(answer));
  }

  datatype Budget = WithinLimit | Confirmed | Declined

  /** The state the gate ends in: no question within the limit; above it, the answer decides. */
  function CheckBudget(tokens: nat, answer: string): (b: Budget)
    ensures b == WithinLimit <==> tokens <= ContextLimit
    ensures b == Confirmed <==> tokens > ContextLimit && (Strip(answer) == "y" || Strip(answer) == "Y")
    ensures b == Declined <==> tokens > ContextLimit && Strip(answer) != "y" && Strip(answer) != "Y"
  {
    ConfirmsExactly(answer);
    if tokens <= ContextLimit then WithinLimit
    else if Confirms(answer) then Confirmed
    else Declined
  }

  /** The answer `no` declines. */
  lemma NoDeclines()
    ensures !Confirms("no")
  {
    assert Strip("no") == "no" by {
      assert TrimStart("no") == "no";
      assert TrimEnd("no") == "no";
    }
    ConfirmsExactly("no");
  }

  /** The limit is strict: an estimate of exactly 256000 tokens goes through without a question. */
  lemma LimitIsStrict(answer: string)
    ensures CheckBudget(256000, answer) == WithinLimit
    ensures CheckBudget(256001, answer) != WithinLimit
    ensures TokenEstimate(1024003) == 256000 && TokenEstimate(1024004) == 256001
  {
  }
}
