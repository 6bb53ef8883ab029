/**
 * `main()` of aks/main.py from the query-option check to the budget gate (lines 69-170): one run
 * of the tool, ending either with the prompt that would be sent to the model or with an exit.
 *
 * Everything the run takes from outside is a field of `Env`: the filesystem (`glob.glob`,
 * `os.path.isfile`, `os.path.relpath` and file reads, which serve both the selected files and the
 * query file), the line typed at the query prompt and the answer typed at the confirmation prompt.
 */
module Pipeline {
  import opened Wrappers
  import opened Text
  import opened Patterns
  import opened Selection
  import opened Corpus
  import opened Prompt

  /** The command-line arguments that reach this part of `main()`. */
  datatype Args = Args(
    files: seq<string>,
    query: Option<string>,
    queryFile: Option<string>,
    exclude: seq<string>,
    all: bool)

  datatype Env = Env(
    glob: string -> seq<string>,
    isFile: string -> bool,
    relpath: string -> string,
    read: string -> Option<string>,
    typedQuery: string,
    confirmation: string)

  /** Why a run stops early; every one of these ends the process with exit status 1. */
  datatype Stop =
    | ConflictingQueryOptions
    | NoFilesAfterExclusions
    | NoReadableFiles
    | QueryFileUnreadable
    | EmptyQuery
    | Aborted

  /** `Send`: the run goes on to the API set-up with this prompt. */
  datatype Outcome = Send(prompt: string, tokens: nat) | Exit(reason: Stop)

  /** The files left after the exclusion filter. */
  function Selected(args: Args, env: Env): seq<string> {
    Exclude(Candidates(args.all, args.files, env.glob, env.isFile),
            EffectiveExcludes(args.all, args.files, args.exclude))
  }

  /** The dictionary `file_contents` after the read loop. */
  function Contents(args: Args, env: Env): (m: OrderedMap)
    ensures Valid(m)
  {
    ReadAll(Selected(args, env), env.read)
  }

  /** The corpus, in the temporary file's layout. */
  function CorpusText(args: Args, env: Env): string {
    var m := Contents(args, env);
    CorpusOf(m.keys, m.values, env.relpath)
  }

  /** The prompt, or the reason the run stops before the budget gate. */
  function Assembled(args: Args, env: Env): Result<string, Stop> {
    if QueryOptionsConflict(args.query, args.queryFile) then Failure(ConflictingQueryOptions)
    else if Selected(args, env) == [] then Failure(NoFilesAfterExclusions)
    else if Contents(args, env).keys == [] then Failure(NoReadableFiles)
    else
      match ResolveQuery(args.query, args.queryFile, env.read, env.typedQuery)
      case Failure(UnreadableQueryFile) => Failure(QueryFileUnreadable)
      case Failure(NoQuery) => Failure(EmptyQuery)
      case Success(q) => Success(FullPrompt(CorpusText(args, env), q))
  }

  /** The whole run. */
  function RunSpec(args: Args, env: Env): Outcome {
    match Assembled(args, env)
    case Failure(reason) => Exit(reason)
    case Success(prompt) =>
      var tokens := TokenEstimate(|prompt|);
      if CheckBudget(tokens, env.confirmation) == Declined then Exit(Aborted) else Send(prompt, tokens)
  }

  /** `main()`, lines 69-170, step by step. */
  method Run(args: Args, env: Env) returns (outcome: Outcome)
    ensures outcome == RunSpec(args, env)
  {
    if QueryOptionsConflict(args.query, args.queryFile) {
      return Exit(ConflictingQueryOptions);
    }
    var allFiles, excludes := CollectCandidates(args.all, args.files, args.exclude, env.glob, env.isFile);
    if excludes != [] {
      var initialCount := |allFiles|;
      allFiles := Exclude(allFiles, excludes);
      var excludedCount: nat := initialCount - |allFiles|;
    } else {
      ExcludeNothing(allFiles);
    }
    if allFiles == [] {
      return Exit(NoFilesAfterExclusions);
    }
    var fileContents, totalChars, report := ReadFiles(allFiles, env.read);
    if fileContents.keys == [] {
      return Exit(NoReadableFiles);
    }
    var codebaseContent := WriteCorpus(fileContents, env.relpath);
    var userQuery := ResolveQuery(args.query, args.queryFile, env.read, env.typedQuery);
    if userQuery.Failure? {
      return Exit(if userQuery.error == UnreadableQueryFile then QueryFileUnreadable else EmptyQuery);
    }
    var fullPrompt := FullPrompt(codebaseContent, userQuery.value);
    var approxTokens := TokenEstimate(|fullPrompt|);
    if approxTokens > ContextLimit && !Confirms(env.confirmation) {
      ConfirmsExactly(env.confirmation);
      return Exit(Aborted);
    }
    ConfirmsExactly(env.confirmation);
    return Send(fullPrompt, approxTokens);
  }

  // ---------------------------------------------------------------------------------------------
  // The ways a run ends

  /** Conflicting query options stop the run before anything else happens. */
  lemma ConflictStopsFirst(args: Args, env: Env)
    ensures RunSpec(args, env) == Exit(ConflictingQueryOptions)
      <==> QueryOptionsConflict(args.query, args.queryFile)
  {
  }

  /** An empty selection stops the run, before any file is read: the reads and the typed answers cannot change the outcome. */
  lemma EmptySelectionStopsBeforeReading(args: Args, env: Env, read: string -> Option<string>, typed: string, answer: string)
    requires !QueryOptionsConflict(args.query, args.queryFile) && Selected(args, env) == []
    ensures RunSpec(args, env) == Exit(NoFilesAfterExclusions)
    ensures RunSpec(args, env.(read := read, typedQuery := typed, confirmation := answer)) == RunSpec(args, env)
  {
    var env' := env.(read := read, typedQuery := typed, confirmation := answer);
    assert Selected(args, env') == Selected(args, env);
  }

  /** The run stops for want of readable files exactly when every selected file fails to read. */
  lemma NoReadableFilesExactly(args: Args, env: Env)
    requires !QueryOptionsConflict(args.query, args.queryFile) && Selected(args, env) != []
    ensures RunSpec(args, env) == Exit(NoReadableFiles)
      <==> forall f :: f in Selected(args, env) ==> env.read(f).None?
  {
    var sel := Selected(args, env);
    if RunSpec(args, env) == Exit(NoReadableFiles) {
      forall f | f in sel
        ensures env.read(f).None?
      {
        ReadAllKeys(sel, env.read, f);
      }
    } else {
      var m := Contents(args, env);
      assert m.keys != [];
      ReadAllKeys(sel, env.read, m.keys[0]);
    }
  }

  /** Once some file was read, what the run does next depends on the resolved query alone. */
  lemma QueryStage(args: Args, env: Env)
    requires !QueryOptionsConflict(args.query, args.queryFile) && Contents(args, env).keys != []
    ensures var q := ResolveQuery(args.query, args.queryFile, env.read, env.typedQuery);
      && (q == Failure(UnreadableQueryFile) ==> RunSpec(args, env) == Exit(QueryFileUnreadable))
      && (q == Failure(NoQuery) ==> RunSpec(args, env) == Exit(EmptyQuery))
      && (q.Success? ==> RunSpec(args, env).Send? || RunSpec(args, env) == Exit(Aborted))
  {
    assert Selected(args, env) != [];
  }

  /**
   * A run that reaches the query stops for an unreadable query file exactly when `--query-file`
   * is present and reading it fails; that stop comes before the query text is looked at.
   */
  lemma QueryFileUnreadableStops(args: Args, env: Env)
    requires !QueryOptionsConflict(args.query, args.queryFile) && Contents(args, env).keys != []
    ensures RunSpec(args, env) == Exit(QueryFileUnreadable)
      <==> args.queryFile.Some? && env.read(args.queryFile.value).None?
  {
    QueryStage(args, env);
  }

  /** A run that reaches the query stops there exactly when the query text is nothing but whitespace. */
  lemma EmptyQueryStops(args: Args, env: Env)
    requires !QueryOptionsConflict(args.query, args.queryFile) && Contents(args, env).keys != []
    requires QueryText(args.query, args.queryFile, env.read, env.typedQuery).Some?
    ensures var text := QueryText(args.query, args.queryFile, env.read, env.typedQuery).value;
      RunSpec(args, env) == Exit(EmptyQuery) <==> forall i :: 0 <= i < |text| ==> IsSpace(text[i])
  {
    QueryStage(args, env);
  }

  /**
   * A prompt that is sent is exactly the preamble, the entries of the readable selected files in
   * first-occurrence order, the label and the stripped query; its estimate is a quarter of its
   * length, and it is over the limit only if the user confirmed.
   */
  lemma SentPromptLayout(args: Args, env: Env)
    ensures var o := RunSpec(args, env);
      var m := Contents(args, env);
      var text := QueryText(args.query, args.queryFile, env.read, env.typedQuery);
      o.Send? ==>
        && text.Some?
        && o.prompt == Preamble + CorpusOf(m.keys, m.values, env.relpath) + QueryLabel + Strip(text.value)
        && o.tokens == |o.prompt| / 4
        && (o.tokens > ContextLimit ==> Confirms(env.confirmation))
  {
    if RunSpec(args, env).Send? {
      SentIsAssembled(args, env);
      AssembledPrompt(args, env);
    }
  }

  /** A `Send` carries the assembled prompt and its estimate, and passed the budget gate. */
  lemma SentIsAssembled(args: Args, env: Env)
    ensures RunSpec(args, env).Send? ==>
      && Assembled(args, env).Success?
      && var p := Assembled(args, env).value;
        RunSpec(args, env) == Send(p, TokenEstimate(|p|))
        && (TokenEstimate(|p|) > ContextLimit ==> Confirms(env.confirmation))
  {
    ConfirmsExactly(env.confirmation);
  }

  /** An assembled prompt is built from the corpus and the stripped query text. */
  lemma AssembledPrompt(args: Args, env: Env)
    ensures var text := QueryText(args.query, args.queryFile, env.read, env.typedQuery);
      Assembled(args, env).Success? ==>
        text.Some? && Assembled(args, env).value == FullPrompt(CorpusText(args, env), Strip(text.value))
  {
    var q := ResolveQuery(args.query, args.queryFile, env.read, env.typedQuery);
    assert Assembled(args, env).Success? ==> q.Success?;
  }

  /** Over the limit, anything but `y` aborts; within it the answer is never consulted. */
  lemma BudgetGate(args: Args, env: Env, answer: string)
    requires Assembled(args, env).Success?
    ensures var tokens := TokenEstimate(|Assembled(args, env).value|);
      (tokens > ContextLimit && !Confirms(env.confirmation) ==> RunSpec(args, env) == Exit(Aborted))
      && (tokens <= ContextLimit ==> RunSpec(args, env.(confirmation := answer)) == RunSpec(args, env))
  {
    ConfirmsExactly(env.confirmation);
    var env' := env.(confirmation := answer);
    assert env'.glob == env.glob && env'.isFile == env.isFile && env'.read == env.read;
    assert env'.relpath == env.relpath && env'.typedQuery == env.typedQuery;
    assert Selected(args, env') == Selected(args, env);
    assert Contents(args, env') == Contents(args, env);
    assert CorpusText(args, env') == CorpusText(args, env);
    assert Assembled(args, env') == Assembled(args, env);
  }

  // ---------------------------------------------------------------------------------------------
  // Worked scenarios

  /** A pattern such as `*.md` that matches nothing leaves nothing to send. */
  lemma NoMatchingPatternStops(args: Args, env: Env)
    requires !QueryOptionsConflict(args.query, args.queryFile) && !args.all && args.files == ["*.md"]
    requires env.glob("**/*.md") == []
    ensures RunSpec(args, env) == Exit(NoFilesAfterExclusions)
  {
    assert Rewrite("*.md") == "**/*.md" by {
      assert !HasDoubleStar("*.md");
    }
    ExplicitSingle("*.md", env.glob, env.isFile);
    assert Candidates(false, ["*.md"], env.glob, env.isFile) == [];
  }

  /** With `--all`, a positional `tests/...` pattern excludes the whole `tests/` tree and keeps every other regular file. */
  lemma AllWithPositionalExcludes(args: Args, env: Env, x: string)
    requires args.all && args.files == ["tests/*"] && args.exclude == []
    ensures x in Selected(args, env) <==>
      x in env.glob("**/*") && env.isFile(x) && !(|x| >= 6 && x[..6] == "tests/")
  {
    var cands := KeepFiles(env.glob(AllPattern), env.isFile);
    assert EffectiveExcludes(true, ["tests/*"], []) == ["tests/*"];
    assert Selected(args, env) == Exclude(cands, ["tests/*"]);
    ExcludeMembers(cands, ["tests/*"], x);
    KeepFilesMembers(env.glob(AllPattern), env.isFile, x);
    ExcludedSingle(x, "tests/*");
    assert "tests/*" == "tests/" + "*";
    assert IsLiteralPattern("tests/");
    PrefixStar(x, "tests/");
  }

  /** Default mode over `a.py` (100 characters) and `b.cpp` (200): both read, 300 characters, 75 tokens. */
  lemma DefaultModeScenario(glob: string -> seq<string>, read: string -> Option<string>)
    requires glob(CppPattern) == ["b.cpp"] && glob(HppPattern) == [] && glob(HPattern) == []
    requires glob(PyPattern) == ["a.py"]
    requires read("a.py").Some? && |read("a.py").value| == 100
    requires read("b.cpp").Some? && |read("b.cpp").value| == 200
    ensures DefaultFiles(glob) == ["b.cpp", "a.py"]
    ensures ReadAll(["b.cpp", "a.py"], read).keys == ["b.cpp", "a.py"]
    ensures TotalChars(["b.cpp", "a.py"], read) == 300 && TokenEstimate(300) == 75
  {
    assert "b.cpp" != "a.py";
    ReadTwo("b.cpp", "a.py", read);
  }

  /** Two different readable paths: both are kept, in order, and both lengths are counted. */
  lemma ReadTwo(a: string, b: string, read: string -> Option<string>)
    requires a != b && read(a).Some? && read(b).Some?
    ensures ReadAll([a, b], read).keys == [a, b]
    ensures TotalChars([a, b], read) == |read(a).value| + |read(b).value|
  {
    ReadAllSnoc([], a, read);
    assert [] + [a] == [a];
    ReadAllSnoc([a], b, read);
    assert [a] + [b] == [a, b];
  }

  /** An over-limit prompt (300000 estimated tokens) answered "no" is aborted. */
  lemma DeclinedOverLimitAborts(args: Args, env: Env)
    requires Assembled(args, env).Success? && |Assembled(args, env).value| == 1200000
    requires env.confirmation == "no"
    ensures RunSpec(args, env) == Exit(Aborted)
  {
    NoDeclines();
    assert TokenEstimate(1200000) == 300000;
    BudgetGate(args, env, "no");
  }

}
