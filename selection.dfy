/**
 * How the tool decides which files to send (aks/main.py, lines 73-106): the three ways of
 * choosing candidates (`--all`, explicit patterns, the default language globs), the rewrite
 * of top-level single-star patterns, and the exclusion filter.
 *
 * The filesystem is abstract: `glob(pattern)` stands for `glob.glob(pattern, recursive=True)`
 * (its paths, in its order) and `isFile(path)` for `os.path.isfile(path)`.
 */
module Selection {
  import opened Patterns

  // ---------------------------------------------------------------------------------------------
  // The inclusion-pattern rewrite (aks/main.py:86-87)

  /** Two stars in a row at position `i`. */
  predicate DoubleStarAt(p: string, i: int) {
    0 <= i < |p| - 1 && p[i] == '*' && p[i + 1] == '*'
  }

  /** The pattern contains `**` somewhere. */
  predicate HasDoubleStar(p: string) {
    exists i :: 0 <= i < |p| - 1 && DoubleStarAt(p, i)
  }

  predicate StartsWithStar(p: string) {
    |p| > 0 && p[0] == '*'
  }

  /**
   * A pattern that starts with `*` and has no `**` is made recursive from the current directory
   * (a doubled star and a slash are put in front of it); every other pattern is left as it is.
   */
  function Rewrite(p: string): (r: string)
    ensures r == p || r == "**/" + p
    ensures r != p <==> StartsWithStar(p) && !HasDoubleStar(p)
  {
    if StartsWithStar(p) && !HasDoubleStar(p) then
      assert "**/*" + p[1..] == "**/" + p;
      "**/*" + p[1..]
    else p
  }

  /** Rewriting twice is rewriting once. */
  lemma RewriteIdempotent(p: string)
    ensures Rewrite(Rewrite(p)) == Rewrite(p)
  {
    var r := Rewrite(p);
    if r != p {
      assert DoubleStarAt(r, 0);
    }
  }

  // ---------------------------------------------------------------------------------------------
  // Candidate files

  /** `[f for f in xs if os.path.isfile(f)]`. */
  function KeepFiles(xs: seq<string>, isFile: string -> bool): (r: seq<string>)
    ensures |r| <= |xs|
    ensures forall i :: 0 <= i < |r| ==> isFile(r[i])
  {
    if xs == [] then []
    else (if isFile(xs[0]) then [xs[0]] else []) + KeepFiles(xs[1..], isFile)
  }

  lemma {:induction false} KeepFilesAppend(a: seq<string>, b: seq<string>, isFile: string -> bool)
    ensures KeepFiles(a + b, isFile) == KeepFiles(a, isFile) + KeepFiles(b, isFile)
  {
    if a == [] {
      assert a + b == b;
    } else {
      var head := if isFile(a[0]) then [a[0]] else [];
      assert (a + b)[0] == a[0] && (a + b)[1..] == a[1..] + b;
      assert KeepFiles(a + b, isFile) == head + KeepFiles(a[1..] + b, isFile);
      assert KeepFiles(a, isFile) == head + KeepFiles(a[1..], isFile);
      KeepFilesAppend(a[1..], b, isFile);
    }
  }

  /** `KeepFiles` keeps exactly the regular files, each as often as it occurs. */
  lemma {:induction false} KeepFilesCount(xs: seq<string>, isFile: string -> bool, x: string)
    ensures multiset(KeepFiles(xs, isFile))[x] == if isFile(x) then multiset(xs)[x] else 0
  {
    if xs != [] {
      KeepFilesCount(xs[1..], isFile, x);
      var head := if isFile(xs[0]) then [xs[0]] else [];
      assert KeepFiles(xs, isFile) == head + KeepFiles(xs[1..], isFile);
      assert multiset(KeepFiles(xs, isFile)) == multiset(head) + multiset(KeepFiles(xs[1..], isFile));
      assert xs == [xs[0]] + xs[1..];
      assert multiset(xs) == multiset([xs[0]]) + multiset(xs[1..]);
    }
  }

  /** A path survives the `isfile` filter exactly when it was listed and is a regular file. */
  lemma KeepFilesMembers(xs: seq<string>, isFile: string -> bool, x: string)
    ensures x in KeepFiles(xs, isFile) <==> x in xs && isFile(x)
  {
    KeepFilesCount(xs, isFile, x);
    assert x in KeepFiles(xs, isFile) <==> multiset(KeepFiles(xs, isFile))[x] > 0;
    assert x in xs <==> multiset(xs)[x] > 0;
  }

  /** The expansions of the (rewritten) patterns, concatenated in argument order. */
  function Expand(patterns: seq<string>, glob: string -> seq<string>): seq<string> {
    if patterns == [] then []
    else Expand(patterns[..|patterns| - 1], glob) + glob(Rewrite(patterns[|patterns| - 1]))
  }

  /** One more pattern at the end: its expansion is appended. */
  lemma ExpandSnoc(patterns: seq<string>, p: string, glob: string -> seq<string>)
    ensures Expand(patterns + [p], glob) == Expand(patterns, glob) + glob(Rewrite(p))
  {
    assert (patterns + [p])[..|patterns|] == patterns;
  }

  lemma {:induction false} ExpandAppend(a: seq<string>, b: seq<string>, glob: string -> seq<string>)
    ensures Expand(a + b, glob) == Expand(a, glob) + Expand(b, glob)
    decreases |b|
  {
    if b == [] {
      assert a + b == a;
    } else {
      var b' := b[..|b| - 1];
      var x := b[|b| - 1];
      ExpandAppend(a, b', glob);
      assert b == b' + [x] && a + b == (a + b') + [x];
      ExpandSnoc(a + b', x, glob);
      ExpandSnoc(b', x, glob);
      ConcatAssoc(Expand(a, glob), Expand(b', glob), glob(Rewrite(x)));
    }
  }

  /** Regrouping a concatenation of three lists. */
  lemma ConcatAssoc(x: seq<string>, y: seq<string>, z: seq<string>)
    ensures (x + y) + z == x + (y + z)
  {
  }

  /** The files chosen by explicit patterns. */
  function Explicit(patterns: seq<string>, glob: string -> seq<string>, isFile: string -> bool): seq<string> {
    KeepFiles(Expand(patterns, glob), isFile)
  }

  /**
   * Explicit patterns are independent of each other: the selection for `a + b` is the selection for `a`
   * followed by the selection for `b`, with nothing merged or dropped across the two.
   */
  lemma ExplicitAppend(a: seq<string>, b: seq<string>, glob: string -> seq<string>, isFile: string -> bool)
    ensures Explicit(a + b, glob, isFile) == Explicit(a, glob, isFile) + Explicit(b, glob, isFile)
  {
    ExpandAppend(a, b, glob);
    KeepFilesAppend(Expand(a, glob), Expand(b, glob), isFile);
  }

  /** One explicit pattern selects the regular files among the expansion of its rewritten form. */
  lemma ExplicitSingle(p: string, glob: string -> seq<string>, isFile: string -> bool)
    ensures Explicit([p], glob, isFile) == KeepFiles(glob(Rewrite(p)), isFile)
  {
    assert [p][..0] == [];
    assert Expand([p], glob) == glob(Rewrite(p));
  }

  /** A file matched by two patterns is selected twice. */
  lemma ExplicitKeepsDuplicates(p: string, glob: string -> seq<string>, isFile: string -> bool, x: string)
    requires isFile(x) && x in glob(Rewrite(p))
    ensures multiset(Explicit([p, p], glob, isFile))[x] >= 2
  {
    ExplicitAppend([p], [p], glob, isFile);
    assert [p] + [p] == [p, p];
    ExplicitSingle(p, glob, isFile);
    KeepFilesCount(glob(Rewrite(p)), isFile, x);
  }

  const AllPattern := "**/*"
  const CppPattern := "**/*.cpp"
  const HppPattern := "**/*.hpp"
  const HPattern := "**/*.h"
  const PyPattern := "**/*.py"

  /** The default globs, in the order the tool concatenates them; no file-type filter is applied. */
  function DefaultFiles(glob: string -> seq<string>): seq<string> {
    glob(CppPattern) + (glob(HppPattern) + glob(HPattern)) + glob(PyPattern)
  }

  /** The candidate files, before exclusions: `--all` first, then explicit patterns, then the defaults. */
  function Candidates(all: bool, positional: seq<string>, glob: string -> seq<string>, isFile: string -> bool): (r: seq<string>)
    ensures all || positional != [] ==> forall i :: 0 <= i < |r| ==> isFile(r[i])
  {
    if all then KeepFiles(glob(AllPattern), isFile)
    else if positional != [] then Explicit(positional, glob, isFile)
    else DefaultFiles(glob)
  }

  /** The exclusion patterns in force: with `--all`, the positional patterns are appended to them. */
  function EffectiveExcludes(all: bool, positional: seq<string>, exclude: seq<string>): (r: seq<string>)
    ensures |exclude| <= |r| && r[..|exclude|] == exclude
    ensures r[|exclude|..] == if all then positional else []
  {
    if all then exclude + positional else exclude
  }

  /**
   * Steps 73-97 of `main()`: extend the exclude list for `--all`, then collect the candidates;
   * explicit patterns are expanded one by one and appended, as the source's loop does.
   */
  method CollectCandidates(all: bool, positional: seq<string>, exclude: seq<string>,
                           glob: string -> seq<string>, isFile: string -> bool)
    returns (files: seq<string>, excludes: seq<string>)
    ensures files == Candidates(all, positional, glob, isFile)
    ensures excludes == EffectiveExcludes(all, positional, exclude)
  {
    excludes := exclude;
    if all && positional != [] {
      excludes := excludes + positional;
    }
    if all {
      files := glob(AllPattern);
      files := KeepFiles(files, isFile);
    } else if positional != [] {
      files := [];
      var i := 0;
      while i < |positional|
        invariant 0 <= i <= |positional|
        invariant files == Expand(positional[..i], glob)
      {
        var pattern := positional[i];
        if StartsWithStar(pattern) && !HasDoubleStar(pattern) {
          pattern := "**/*" + pattern[1..];
        }
        var expanded := glob(pattern);
        assert positional[..i + 1][..i] == positional[..i];
        files := files + expanded;
        i := i + 1;
      }
      assert positional[..i] == positional;
      files := KeepFiles(files, isFile);
    } else {
      var cppFiles := glob(CppPattern);
      var hppFiles := glob(HppPattern) + glob(HPattern);
      var pyFiles := glob(PyPattern);
      files := cppFiles + hppFiles + pyFiles;
    }
  }

  /** With `--all` the positional patterns are never used for inclusion. */
  lemma AllIgnoresPositional(p1: seq<string>, p2: seq<string>, glob: string -> seq<string>, isFile: string -> bool)
    ensures Candidates(true, p1, glob, isFile) == Candidates(true, p2, glob, isFile)
  {
  }

  /** Without patterns and without `--all`, what the default globs return is used as it is, regular file or not. */
  lemma DefaultIgnoresFileType(glob: string -> seq<string>, isFile1: string -> bool, isFile2: string -> bool)
    ensures Candidates(false, [], glob, isFile1) == Candidates(false, [], glob, isFile2)
  {
  }

  // ---------------------------------------------------------------------------------------------
  // The exclusion filter (aks/main.py:99-103)

  /** Some exclusion pattern matches the path. */
  predicate Excluded(f: string, excludes: seq<string>) {
    exists k :: 0 <= k < |excludes| && Fnmatch(f, excludes[k])
  }

  /** `[f for f in all_files if not any(fnmatch.fnmatch(f, excl) for excl in excludes)]`. */
  function Exclude(files: seq<string>, excludes: seq<string>): (r: seq<string>)
    ensures |r| <= |files|
  {
    if files == [] then []
    else (if Excluded(files[0], excludes) then [] else [files[0]]) + Exclude(files[1..], excludes)
  }

  /** `a` can be obtained from `b` by deleting elements: the elements of `a` occur in `b` in the same order. */
  predicate IsSubsequence(a: seq<string>, b: seq<string>)
    decreases |b|
  {
    if b == [] then a == []
    else (a != [] && a[0] == b[0] && IsSubsequence(a[1..], b[1..])) || IsSubsequence(a, b[1..])
  }

  /** The exclusion filter keeps exactly the files that no pattern matches. */
  lemma {:induction false} ExcludeMembers(files: seq<string>, excludes: seq<string>, x: string)
    ensures x in Exclude(files, excludes) <==> x in files && !Excluded(x, excludes)
  {
    if files != [] {
      ExcludeMembers(files[1..], excludes, x);
      assert files == [files[0]] + files[1..];
    }
  }

  /** A surviving path keeps every one of its copies; an excluded path keeps none. */
  lemma {:induction false} ExcludeCount(files: seq<string>, excludes: seq<string>, x: string)
    ensures multiset(Exclude(files, excludes))[x] == if Excluded(x, excludes) then 0 else multiset(files)[x]
  {
    if files != [] {
      ExcludeCount(files[1..], excludes, x);
      var head := if Excluded(files[0], excludes) then [] else [files[0]];
      assert Exclude(files, excludes) == head + Exclude(files[1..], excludes);
      assert multiset(Exclude(files, excludes)) == multiset(head) + multiset(Exclude(files[1..], excludes));
      assert files == [files[0]] + files[1..];
      assert multiset(files) == multiset([files[0]]) + multiset(files[1..]);
    }
  }

  /** A single exclusion pattern excludes exactly what it matches. */
  lemma ExcludedSingle(f: string, pattern: string)
    ensures Excluded(f, [pattern]) <==> Fnmatch(f, pattern)
  {
    if Fnmatch(f, pattern) {
      assert [pattern][0] == pattern;
    }
  }

  /** What remains is an order-preserving subsequence of the candidates. */
  lemma {:induction false} ExcludeIsSubsequence(files: seq<string>, excludes: seq<string>)
    ensures IsSubsequence(Exclude(files, excludes), files)
  {
    if files != [] {
      var rest := Exclude(files[1..], excludes);
      ExcludeIsSubsequence(files[1..], excludes);
      if Excluded(files[0], excludes) {
        assert Exclude(files, excludes) == rest;
      } else {
        var r := Exclude(files, excludes);
        assert r == [files[0]] + rest && r[1..] == rest;
      }
    }
  }

  /** Adding an exclusion pattern keeps a subsequence of what was kept before, and never more files. */
  lemma {:induction false} ExcludeMonotone(files: seq<string>, excludes: seq<string>, p: string)
    ensures IsSubsequence(Exclude(files, excludes + [p]), Exclude(files, excludes))
    ensures |Exclude(files, excludes + [p])| <= |Exclude(files, excludes)|
  {
    var more := excludes + [p];
    if files != [] {
      ExcludeMonotone(files[1..], excludes, p);
      var a := Exclude(files[1..], more);
      var b := Exclude(files[1..], excludes);
      var f := files[0];
      if Excluded(f, excludes) {
        var k :| 0 <= k < |excludes| && Fnmatch(f, excludes[k]);
        assert more[k] == excludes[k];
        assert Excluded(f, more);
        assert Exclude(files, more) == a && Exclude(files, excludes) == b;
      } else if Excluded(f, more) {
        assert Exclude(files, more) == a;
        assert Exclude(files, excludes) == [f] + b;
        assert ([f] + b)[1..] == b;
      } else {
        var r := [f] + a;
        var s := [f] + b;
        assert r[1..] == a && s[1..] == b;
      }
    }
  }

  /** Only which patterns are given matters, not their order or repetition. */
  lemma {:induction false} ExcludeOnlyDependsOnPatternSet(files: seq<string>, e1: seq<string>, e2: seq<string>)
    requires forall p :: p in e1 <==> p in e2
    ensures Exclude(files, e1) == Exclude(files, e2)
  {
    if files != [] {
      ExcludeOnlyDependsOnPatternSet(files[1..], e1, e2);
      var f := files[0];
      if Excluded(f, e1) {
        var k :| 0 <= k < |e1| && Fnmatch(f, e1[k]);
        assert e1[k] in e2;
        var j :| 0 <= j < |e2| && e2[j] == e1[k];
      }
      if Excluded(f, e2) {
        var k :| 0 <= k < |e2| && Fnmatch(f, e2[k]);
        assert e2[k] in e1;
        var j :| 0 <= j < |e1| && e1[j] == e2[k];
      }
    }
  }

  /** With no exclusion patterns nothing is dropped, which is why the source may skip the filter then. */
  lemma {:induction false} ExcludeNothing(files: seq<string>)
    ensures Exclude(files, []) == files
  {
    if files != [] {
      ExcludeNothing(files[1..]);
      assert files == [files[0]] + files[1..];
    }
  }

  /** A literal exclusion pattern such as `secrets.txt` removes every occurrence of that one path and leaves the others in order. */
  lemma {:induction false} ExcludeLiteral(files: seq<string>, name: string)
    requires IsLiteralPattern(name)
    ensures Exclude(files, [name]) == RemoveAll(files, name)
  {
    if files != [] {
      ExcludeLiteral(files[1..], name);
      LiteralMatchesOnlyItself(files[0], name);
      assert Excluded(files[0], [name]) <==> Fnmatch(files[0], [name][0]);
    }
  }

  function RemoveAll(xs: seq<string>, x: string): (r: seq<string>)
    ensures x !in r
  {
    if xs == [] then [] else (if xs[0] == x then [] else [xs[0]]) + RemoveAll(xs[1..], x)
  }
}
