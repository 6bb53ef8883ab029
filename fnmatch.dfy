/**
 * `fnmatch.fnmatch(name, pattern)` on POSIX, as the exclusion filter calls it: a case-sensitive
 * match of the whole name against a shell pattern in which `*` matches any string (the path
 * separator and newlines included), `?` any one character, and `[...]` one character from a
 * bracket expression (`[!...]` one character outside it). Every other character, the backslash
 * included, stands for itself.
 *
 * The pattern is read the way CPython's `fnmatch.translate` reads it: a `[` opens a bracket
 * expression only if a closing `]` follows, where a `]` directly after the `[` (or after `[!`)
 * is a member rather than the close; otherwise the `[` is an ordinary character. Inside the
 * brackets `x-y` is the range of characters from x to y (empty when y < x), and a `-` that
 * cannot start a range is an ordinary member.
 */
module Patterns {

  datatype ClassItem = Single(c: char) | Span(lo: char, hi: char)

  datatype Token =
    | Literal(c: char)
    | AnyChar
    | AnyString
    | Bracket(negated: bool, items: seq<ClassItem>)

  /** The members of a bracket expression, read left to right. */
  function ClassItems(body: string): seq<ClassItem>
    decreases |body|
  {
    if body == [] then []
    else if |body| >= 3 && body[1] == '-' then [Span(body[0], body[2])] + ClassItems(body[3..])
    else [Single(body[0])] + ClassItems(body[1..])
  }

  /** The first index at or after `j` holding `]`, or `|p|` when there is none. */
  function CloseFrom(p: string, j: nat): (k: nat)
    requires j <= |p|
    ensures j <= k <= |p|
    ensures k < |p| ==> p[k] == ']'
    ensures forall i :: j <= i < k ==> p[i] != ']'
    decreases |p| - j
  {
    if j == |p| || p[j] == ']' then j else CloseFrom(p, j + 1)
  }

  /** Where the bracket expression whose body starts at `i` ends: a leading `!` and then a leading `]` are skipped. */
  function BracketClose(p: string, i: nat): (k: nat)
    requires i <= |p|
    ensures i <= k <= |p|
    ensures k < |p| ==> p[k] == ']' && (i < |p| && p[i] == '!' ==> i + 1 <= k)
  {
    var j0 := if i < |p| && p[i] == '!' then i + 1 else i;
    var j1 := if j0 < |p| && p[j0] == ']' then j0 + 1 else j0;
    CloseFrom(p, j1)
  }

  /** The tokens of `p[i..]`. */
  function TokensFrom(p: string, i: nat): seq<Token>
    requires i <= |p|
    decreases |p| - i
  {
    if i == |p| then []
    else if p[i] == '*' then [AnyString] + TokensFrom(p, i + 1)
    else if p[i] == '?' then [AnyChar] + TokensFrom(p, i + 1)
    else if p[i] == '[' then
      var k := BracketClose(p, i + 1);
      if k == |p| then [Literal('[')] + TokensFrom(p, i + 1)
      else
        var negated := p[i + 1] == '!';
        var body := if negated then p[i + 2..k] else p[i + 1..k];
        [Bracket(negated, ClassItems(body))] + TokensFrom(p, k + 1)
    else [Literal(p[i])] + TokensFrom(p, i + 1)
  }

  function Tokens(p: string): seq<Token> {
    TokensFrom(p, 0)
  }

  predicate ItemHas(item: ClassItem, c: char) {
    match item
    case Single(x) => c == x
    case Span(lo, hi) => lo <= c <= hi
  }

  predicate ClassHas(items: seq<ClassItem>, c: char) {
    exists k :: 0 <= k < |items| && ItemHas(items[k], c)
  }

  /** Whether a token other than `*` accepts the single character `c`. */
  predicate CharMatches(t: Token, c: char) {
    match t
    case Literal(x) => c == x
    case AnyChar => true
    case AnyString => false
    case Bracket(negated, items) => ClassHas(items, c) != negated
  }

  /** Whether `s` as a whole is matched by the token sequence. */
  predicate MatchTokens(ts: seq<Token>, s: string)
    decreases |ts|, |s|
  {
    if ts == [] then s == []
    else if ts[0].AnyString? then MatchTokens(ts[1..], s) || (s != [] && MatchTokens(ts, s[1..]))
    else s != [] && CharMatches(ts[0], s[0]) && MatchTokens(ts[1..], s[1..])
  }

  /** `fnmatch.fnmatch(name, pattern)`. */
  predicate Fnmatch(name: string, pattern: string) {
    MatchTokens(Tokens(pattern), name)
  }

  // ---------------------------------------------------------------------------------------------
  // What the matcher means

  predicate IsSpecial(c: char) {
    c == '*' || c == '?' || c == '['
  }

  predicate IsLiteralPattern(p: string) {
    forall i :: 0 <= i < |p| ==> !IsSpecial(p[i])
  }

  function Literals(s: string): (ts: seq<Token>)
    ensures |ts| == |s| && forall i :: 0 <= i < |s| ==> ts[i] == Literal(s[i])
  {
    if s == [] then [] else [Literal(s[0])] + Literals(s[1..])
  }

  lemma {:induction false} LiteralTokens(p: string, i: nat)
    requires i <= |p| && IsLiteralPattern(p)
    ensures TokensFrom(p, i) == Literals(p[i..])
    decreases |p| - i
  {
    if i < |p| {
      LiteralTokens(p, i + 1);
      assert p[i..][1..] == p[i + 1..];
    }
  }

  /** A run of literal tokens followed by `rest` matches exactly the strings that start with those characters and continue with a match of `rest`. */
  lemma {:induction false} LiteralsThen(q: string, rest: seq<Token>, s: string)
    ensures MatchTokens(Literals(q) + rest, s) <==> |q| <= |s| && s[..|q|] == q && MatchTokens(rest, s[|q|..])
  {
    if q == [] {
      assert Literals(q) + rest == rest;
      assert s[0..] == s;
    } else {
      var ts := Literals(q) + rest;
      assert ts[0] == Literal(q[0]) && ts[1..] == Literals(q[1..]) + rest;
      if s != [] {
        LiteralsThen(q[1..], rest, s[1..]);
        if |q| <= |s| {
          assert s[1..][|q| - 1..] == s[|q|..];
          assert s[..|q|] == [s[0]] + s[1..][..|q| - 1];
          assert q == [q[0]] + q[1..];
        }
      }
    }
  }

  /** A pattern without `*`, `?` or `[` matches only itself. */
  lemma LiteralMatchesOnlyItself(name: string, p: string)
    requires IsLiteralPattern(p)
    ensures Fnmatch(name, p) <==> name == p
  {
    LiteralTokens(p, 0);
    assert p[0..] == p;
    LiteralsThen(p, [], name);
    assert Literals(p) + [] == Literals(p);
  }

  /** `*` alone matches every name, whatever characters it holds. */
  lemma {:induction false} StarMatchesAnything(s: string)
    ensures MatchTokens([AnyString], s)
  {
    if s != [] {
      StarMatchesAnything(s[1..]);
    }
  }

  /** A literal prefix followed by `*` matches exactly the names with that prefix; `*` does not stop at `/`. */
  lemma PrefixStar(name: string, q: string)
    requires IsLiteralPattern(q)
    ensures Fnmatch(name, q + "*") <==> |q| <= |name| && name[..|q|] == q
  {
    var p := q + "*";
    assert IsLiteralPattern(q[..]);
    PrefixStarTokens(q, 0);
    assert p[0..] == p && q[0..] == q;
    LiteralsThen(q, [AnyString], name);
    if |q| <= |name| {
      StarMatchesAnything(name[|q|..]);
    }
  }

  lemma {:induction false} PrefixStarTokens(q: string, i: nat)
    requires i <= |q| && IsLiteralPattern(q)
    ensures TokensFrom(q + "*", i) == Literals(q[i..]) + [AnyString]
    decreases |q| - i
  {
    var p := q + "*";
    if i == |q| {
      assert TokensFrom(p, i + 1) == [];
      assert q[i..] == [];
    } else {
      assert p[i] == q[i];
      PrefixStarTokens(q, i + 1);
      assert q[i..][1..] == q[i + 1..];
    }
  }

  /**
   * The pattern "tests/" followed by a star matches every path under `tests/`, nested directories
   * included, and no path that does not start with `tests/` (such as `src/tests/x.py`).
   */
  lemma NestedPathMatchesStar(name: string)
    ensures Fnmatch(name, "tests/*") <==> |name| >= 6 && name[..6] == "tests/"
  {
    var q := "tests/";
    assert IsLiteralPattern(q);
    assert q + "*" == "tests/*";
    PrefixStar(name, q);
  }

  /** `?` matches exactly the one-character names. */
  lemma QuestionMarkIsOneChar(name: string)
    ensures Fnmatch(name, "?") <==> |name| == 1
  {
    assert Tokens("?") == [AnyChar];
    assert [AnyChar][1..] == [];
    if name != [] {
      assert MatchTokens([AnyChar], name) == MatchTokens([], name[1..]);
    }
  }

  /** Matching is case-sensitive. */
  lemma CaseSensitive()
    ensures !Fnmatch("README.MD", "*.md")
  {
    var ts := Tokens("*.md");
    assert ts == [AnyString] + Literals(".md");
    NoMatchWithoutSuffix("README.MD", ".md");
  }

  /** `*` followed by a literal suffix matches no name that does not end in that suffix. */
  lemma NoMatchWithoutSuffix(s: string, q: string)
    requires !(|q| <= |s| && s[|s| - |q|..] == q)
    ensures !MatchTokens([AnyString] + Literals(q), s)
  {
    forall k | 0 <= k <= |s|
      ensures !(|q| <= |s| - k && s[k..][..|q|] == q && s[k..][|q|..] == [])
    {
      if |q| <= |s| - k && s[k..][|q|..] == [] {
        assert s[k..][..|q|] == s[|s| - |q|..];
      }
    }
    NoMatchAtAnySplit(s, q);
  }

  /** The induction behind `NoMatchWithoutSuffix`: no split of `s` leaves exactly `q` at the end. */
  lemma {:induction false} NoMatchAtAnySplit(s: string, q: string)
    requires forall k :: 0 <= k <= |s| ==> !(|q| <= |s| - k && s[k..][..|q|] == q && s[k..][|q|..] == [])
    ensures !MatchTokens([AnyString] + Literals(q), s)
  {
    var ts := [AnyString] + Literals(q);
    assert ts[1..] == Literals(q);
    LiteralsThen(q, [], s);
    assert Literals(q) + [] == Literals(q);
    assert s[0..] == s;
    if s != [] {
      forall k | 0 <= k <= |s[1..]|
        ensures !(|q| <= |s[1..]| - k && s[1..][k..][..|q|] == q && s[1..][k..][|q|..] == [])
      {
        assert s[1..][k..] == s[k + 1..];
      }
      NoMatchAtAnySplit(s[1..], q);
    }
  }

  lemma {:induction false} CloseAtEnd(p: string, j: nat)
    requires j < |p| && p[|p| - 1] == ']'
    requires forall i :: j <= i < |p| - 1 ==> p[i] != ']'
    ensures CloseFrom(p, j) == |p| - 1
    decreases |p| - j
  {
    if j < |p| - 1 {
      CloseAtEnd(p, j + 1);
    }
  }

  /** The pattern holding one bracket expression, with `!` when it is negated. */
  function BracketPattern(negated: bool, body: string): string {
    (if negated then "[!" else "[") + body + "]"
  }

  lemma {:induction false} BracketTokens(negated: bool, body: string)
    requires |body| > 0 && body[0] != '!' && body[0] != ']'
    requires forall i :: 0 <= i < |body| ==> body[i] != ']'
    ensures Tokens(BracketPattern(negated, body)) == [Bracket(negated, ClassItems(body))]
  {
    var open := if negated then "[!" else "[";
    var p := open + body + "]";
    assert p == BracketPattern(negated, body);
    var start := |open|;
    var k := |p| - 1;
    assert p[start..k] == body;
    forall i | start <= i < k
      ensures p[i] != ']'
    {
      assert p[i] == body[i - start];
    }
    CloseAtEnd(p, start);
    assert BracketClose(p, 1) == k;
    assert p[0] == '[' && p[0] != '*' && p[0] != '?';
    assert (p[1] == '!') == negated;
    assert TokensFrom(p, k + 1) == [];
    assert TokensFrom(p, 0) == [Bracket(negated, ClassItems(body))];
  }

  /**
   * A bracket expression whose body is not empty, holds no `]` and does not itself start with `!`
   * matches exactly the one-character names whose character is in its set (outside it, when negated).
   */
  lemma BracketMatches(name: string, negated: bool, body: string)
    requires |body| > 0 && body[0] != '!' && body[0] != ']'
    requires forall i :: 0 <= i < |body| ==> body[i] != ']'
    ensures Fnmatch(name, BracketPattern(negated, body))
      <==> |name| == 1 && ClassHas(ClassItems(body), name[0]) != negated
  {
    BracketTokens(negated, body);
    var t := Bracket(negated, ClassItems(body));
    assert [t][1..] == [];
    if name != [] {
      assert MatchTokens([t], name) == (CharMatches(t, name[0]) && MatchTokens([], name[1..]));
    }
  }

  /** A bracket expression matches one character from its set... */
  lemma BracketSetExample()
    ensures Fnmatch("b", "[abc]") && !Fnmatch("d", "[abc]")
  {
    var abc := [Single('a'), Single('b'), Single('c')];
    assert ClassItems("abc") == abc;
    assert ItemHas(abc[1], 'b');
    assert !ClassHas(abc, 'd');
    assert BracketPattern(false, "abc") == "[abc]";
    BracketMatches("b", false, "abc");
    BracketMatches("d", false, "abc");
  }

  /** ...and `[!...]` one character outside it. */
  lemma NegatedBracketExample()
    ensures !Fnmatch("b", "[!abc]") && Fnmatch("d", "[!abc]")
  {
    var abc := [Single('a'), Single('b'), Single('c')];
    assert ClassItems("abc") == abc;
    assert ItemHas(abc[1], 'b');
    assert !ClassHas(abc, 'd');
    assert BracketPattern(true, "abc") == "[!abc]";
    BracketMatches("b", true, "abc");
    BracketMatches("d", true, "abc");
  }

  /** A range covers the characters between its ends, by code point, case-sensitively. */
  lemma RangeExample()
    ensures Fnmatch("q", "[a-z]") && !Fnmatch("Q", "[a-z]")
  {
    var az := [Span('a', 'z')];
    assert ClassItems("a-z") == az;
    assert ItemHas(az[0], 'q');
    assert !ClassHas(az, 'Q');
    assert BracketPattern(false, "a-z") == "[a-z]";
    BracketMatches("q", false, "a-z");
    BracketMatches("Q", false, "a-z");
  }

  /** A trailing `-` is an ordinary member, and a reversed range is empty. */
  lemma DashAndReversedRangeExample()
    ensures Fnmatch("-", "[a-]") && !Fnmatch("a", "[z-a]")
  {
    var aDash := [Single('a'), Single('-')];
    assert ClassItems("a-") == aDash;
    assert ItemHas(aDash[1], '-');
    assert BracketPattern(false, "a-") == "[a-]";
    BracketMatches("-", false, "a-");
    var za := [Span('z', 'a')];
    assert ClassItems("z-a") == za;
    assert !ClassHas(za, 'a');
    assert BracketPattern(false, "z-a") == "[z-a]";
    BracketMatches("a", false, "z-a");
  }

  /** A `[` with no closing `]` is an ordinary character, and so is a `]` straight after `[`. */
  lemma UnclosedBracketIsLiteral()
    ensures Fnmatch("[", "[") && !Fnmatch("a", "[")
    ensures Fnmatch("[]", "[]")
  {
    assert CloseFrom("[", 1) == 1;
    assert Tokens("[") == [Literal('[')];
    assert CloseFrom("[]", 2) == 2;
    assert BracketClose("[]", 1) == 2;
    assert TokensFrom("[]", 1) == [Literal(']')];
    assert Tokens("[]") == [Literal('['), Literal(']')];
    assert [Literal('['), Literal(']')] == Literals("[]") + [];
    LiteralsThen("[]", [], "[]");
    assert Tokens("[") == Literals("[") + [];
    LiteralsThen("[", [], "a");
    LiteralsThen("[", [], "[");
  }
}
