/**
 * Reading the selected files and concatenating them (aks/main.py, lines 108-137).
 *
 * `file_contents` is a Python dict: it keeps its keys in insertion order, and assigning to a key
 * that is already there replaces the value without moving the key. Reads are abstract:
 * `read(path)` is the text of the file, or `None` when opening or decoding it raises.
 * `relpath(path)` stands for `os.path.relpath(path)`.
 */
module Corpus {
  import opened Wrappers

  // ---------------------------------------------------------------------------------------------
  // An insertion-ordered dictionary from path to content

  datatype OrderedMap = OrderedMap(keys: seq<string>, values: map<string, string>)

  const EmptyMap := OrderedMap([], map[])

  predicate NoDuplicates(xs: seq<string>) {
    forall i, j :: 0 <= i < j < |xs| ==> xs[i] != xs[j]
  }

  /** Each key is listed once, and the listed keys are exactly the keys with a value. */
  ghost predicate Valid(m: OrderedMap) {
    NoDuplicates(m.keys) && forall k :: k in m.values <==> k in m.keys
  }

  /** `d[k] = v`: a new key goes to the end; an existing key keeps its place and gets the new value. */
  function Put(m: OrderedMap, k: string, v: string): (r: OrderedMap)
    requires Valid(m)
    ensures Valid(r)
    ensures r.values == m.values[k := v]
    ensures r.keys == if k in m.keys then m.keys else m.keys + [k]
  {
    if k in m.values then OrderedMap(m.keys, m.values[k := v]) else OrderedMap(m.keys + [k], m.values[k := v])
  }

  // ---------------------------------------------------------------------------------------------
  // The read loop (aks/main.py:109-126)

  /** `file_contents` after the read loop has processed `files`. */
  function ReadAll(files: seq<string>, read: string -> Option<string>): (m: OrderedMap)
    ensures Valid(m)
  {
    if files == [] then EmptyMap
    else
      var m := ReadAll(files[..|files| - 1], read);
      var f := files[|files| - 1];
      match read(f)
      case None => m
      case Some(content) => Put(m, f, content)
  }

  /** `total_chars` after the read loop: the length of every successful read, repeats included. */
  function TotalChars(files: seq<string>, read: string -> Option<string>): nat {
    if files == [] then 0
    else
      var f := files[|files| - 1];
      TotalChars(files[..|files| - 1], read) + match read(f) case None => 0 case Some(c) => |c|
  }

  /** One more path at the end of the list: the loop body applied once more. */
  lemma ReadAllSnoc(files: seq<string>, f: string, read: string -> Option<string>)
    ensures ReadAll(files + [f], read) == match read(f)
      case None => ReadAll(files, read)
      case Some(c) => Put(ReadAll(files, read), f, c)
    ensures TotalChars(files + [f], read) == TotalChars(files, read) + match read(f)
      case None => 0
      case Some(c) => |c|
  {
    assert (files + [f])[..|files|] == files;
  }

  /** What one pass of the loop reports for a path: its size and `chars // 4` token estimate, or that it was skipped. */
  /** One more file read: the state after `files[..i + 1]` from the state after `files[..i]`. */
  lemma ReadStep(files: seq<string>, i: nat, read: string -> Option<string>)
    requires i < |files|
    ensures ReadAll(files[..i + 1], read) == match read(files[i])
      case None => ReadAll(files[..i], read)
      case Some(c) => Put(ReadAll(files[..i], read), files[i], c)
    ensures TotalChars(files[..i + 1], read) == TotalChars(files[..i], read) + match read(files[i])
      case None => 0
      case Some(c) => |c|
  {
    assert files[..i + 1] == files[..i] + [files[i]];
    ReadAllSnoc(files[..i], files[i], read);
  }

  datatype ReadEvent = Included(path: string, chars: nat, tokens: nat) | Skipped(path: string)

  function EventFor(f: string, read: string -> Option<string>): (e: ReadEvent)
    ensures e.path == f
  {
    match read(f)
    case None => Skipped(f)
    case Some(c) => Included(f, |c|, |c| / 4)
  }

  /**
   * The read loop: every path is tried in order; a path that cannot be read is reported as skipped
   * and does not stop the loop. The method reports one event per path.
   */
  method ReadFiles(files: seq<string>, read: string -> Option<string>)
    returns (contents: OrderedMap, totalChars: nat, report: seq<ReadEvent>)
    ensures contents == ReadAll(files, read) && totalChars == TotalChars(files, read)
    ensures |report| == |files|
    ensures forall i :: 0 <= i < |files| ==>
      report[i] == match read(files[i])
        case None => Skipped(files[i])
        case Some(c) => Included(files[i], |c|, |c| / 4)
  {
    contents := EmptyMap;
    totalChars := 0;
    report := [];
    var i := 0;
    while i < |files|
      invariant 0 <= i <= |files|
      invariant contents == ReadAll(files[..i], read)
      invariant totalChars == TotalChars(files[..i], read)
      invariant |report| == i && forall j :: 0 <= j < i ==> report[j] == EventFor(files[j], read)
    {
      var path := files[i];
      ReadStep(files, i, read);
      var ev;
      match read(path) {
        case None =>
          ev := Skipped(path);
        case Some(content) =>
          contents := Put(contents, path, content);
          var chars := |content|;
          var tokens := chars / 4;
          totalChars := totalChars + chars;
          ev := Included(path, chars, tokens);
      }
      assert ev == EventFor(path, read);
      report := report + [ev];
      i := i + 1;
    }
    assert files[..i] == files;
    forall j | 0 <= j < |files|
      ensures report[j] == match read(files[j])
        case None => Skipped(files[j])
        case Some(c) => Included(files[j], |c|, |c| / 4)
    {
      assert report[j] == EventFor(files[j], read);
    }
  }

  /** The dictionary holds exactly the paths that could be read. */
  lemma {:induction false} ReadAllKeys(files: seq<string>, read: string -> Option<string>, x: string)
    ensures x in ReadAll(files, read).keys <==> x in files && read(x).Some?
  {
    if files != [] {
      var init := files[..|files| - 1];
      ReadAllKeys(init, read, x);
      assert files == init + [files[|files| - 1]];
    }
  }

  /** Each path is mapped to what reading it gave. */
  lemma {:induction false} ReadAllValues(files: seq<string>, read: string -> Option<string>, x: string)
    requires x in ReadAll(files, read).values
    ensures read(x) == Some(ReadAll(files, read).values[x])
  {
    if files != [] {
      var init := files[..|files| - 1];
      var f := files[|files| - 1];
      if x != f || read(f).None? {
        ReadAllValues(init, read, x);
      }
    }
  }

  /** The position of the first occurrence of `x`. */
  function IndexOf(xs: seq<string>, x: string): (i: nat)
    requires x in xs
    ensures i < |xs| && xs[i] == x && x !in xs[..i]
  {
    if xs[0] == x then 0 else 1 + IndexOf(xs[1..], x)
  }

  lemma {:induction false} IndexOfAppend(xs: seq<string>, y: string, x: string)
    requires x in xs
    ensures IndexOf(xs + [y], x) == IndexOf(xs, x)
  {
    if xs[0] != x {
      assert (xs + [y])[1..] == xs[1..] + [y];
      IndexOfAppend(xs[1..], y, x);
    }
  }

  lemma IndexOfLast(xs: seq<string>, x: string)
    requires x !in xs
    ensures IndexOf(xs + [x], x) == |xs|
  {
    var i := IndexOf(xs + [x], x);
    assert forall k :: 0 <= k < |xs| ==> (xs + [x])[k] == xs[k];
  }

  /** One more path either leaves the key list as it was or appends that path, new and readable. */
  lemma ReadAllStep(files: seq<string>, read: string -> Option<string>)
    requires files != []
    ensures var before := ReadAll(files[..|files| - 1], read).keys;
      var keys := ReadAll(files, read).keys;
      var f := files[|files| - 1];
      |before| <= |keys| <= |before| + 1 && keys[..|before|] == before
      && (|keys| > |before| ==> keys[|before|] == f && f !in before && read(f).Some?)
  {
  }

  /** A path seen before the last one keeps its first position when the last one is added. */
  lemma IndexOfInit(xs: seq<string>, x: string)
    requires xs != [] && x in xs[..|xs| - 1]
    ensures IndexOf(xs, x) == IndexOf(xs[..|xs| - 1], x)
  {
    var init := xs[..|xs| - 1];
    assert xs == init + [xs[|xs| - 1]];
    IndexOfAppend(init, xs[|xs| - 1], x);
  }

  /** A last path not seen before first occurs at the end. */
  lemma IndexOfNew(xs: seq<string>)
    requires xs != [] && xs[|xs| - 1] !in xs[..|xs| - 1]
    ensures IndexOf(xs, xs[|xs| - 1]) == |xs| - 1
  {
    var init := xs[..|xs| - 1];
    assert xs == init + [xs[|xs| - 1]];
    IndexOfLast(init, xs[|xs| - 1]);
  }

  /** Paths are kept in the order of their first occurrence among the selected files. */
  lemma {:induction false} ReadAllFirstOccurrenceOrder(files: seq<string>, read: string -> Option<string>, i: nat, j: nat)
    requires i < j < |ReadAll(files, read).keys|
    ensures ReadAll(files, read).keys[i] in files && ReadAll(files, read).keys[j] in files
    ensures IndexOf(files, ReadAll(files, read).keys[i]) < IndexOf(files, ReadAll(files, read).keys[j])
    decreases |files|
  {
    var keys := ReadAll(files, read).keys;
    ReadAllKeys(files, read, keys[i]);
    ReadAllKeys(files, read, keys[j]);
    var init := files[..|files| - 1];
    var before := ReadAll(init, read).keys;
    ReadAllStep(files, read);
    assert keys[i] == before[i];
    ReadAllKeys(init, read, before[i]);
    IndexOfInit(files, before[i]);
    if j < |before| {
      assert keys[j] == before[j];
      ReadAllFirstOccurrenceOrder(init, read, i, j);
      ReadAllKeys(init, read, before[j]);
      IndexOfInit(files, before[j]);
    } else {
      var f := files[|files| - 1];
      assert keys[j] == f;
      ReadAllKeys(init, read, f);
      IndexOfNew(files);
    }
  }

  /** The summed length of the contents the dictionary holds. */
  function CharsOf(keys: seq<string>, values: map<string, string>): nat
    requires forall k :: k in keys ==> k in values
  {
    if keys == [] then 0 else CharsOf(keys[..|keys| - 1], values) + |values[keys[|keys| - 1]]|
  }

  lemma {:induction false} CharsOfFrame(keys: seq<string>, v1: map<string, string>, v2: map<string, string>)
    requires forall k :: k in keys ==> k in v1 && k in v2 && v1[k] == v2[k]
    ensures CharsOf(keys, v1) == CharsOf(keys, v2)
  {
    if keys != [] {
      CharsOfFrame(keys[..|keys| - 1], v1, v2);
    }
  }

  /**
   * `total_chars` counts a path as often as it was selected; the dictionary holds it once. So the
   * total is never less than the size of what is sent, and equal to it when no path repeats.
   */
  lemma {:induction false} TotalCharsCoversContents(files: seq<string>, read: string -> Option<string>)
    ensures TotalChars(files, read) >= CharsOf(ReadAll(files, read).keys, ReadAll(files, read).values)
    ensures NoDuplicates(files) ==> TotalChars(files, read) == CharsOf(ReadAll(files, read).keys, ReadAll(files, read).values)
  {
    if files != [] {
      var init := files[..|files| - 1];
      var f := files[|files| - 1];
      var before := ReadAll(init, read);
      var after := ReadAll(files, read);
      TotalCharsCoversContents(init, read);
      assert NoDuplicates(files) ==> NoDuplicates(init);
      match read(f) {
        case None =>
        case Some(c) =>
          if f in before.keys {
            ReadAllValues(init, read, f);
            assert after.values == before.values;
            ReadAllKeys(init, read, f);
            assert f in init;
          } else {
            assert after.keys[..|after.keys| - 1] == before.keys;
            CharsOfFrame(before.keys, before.values, after.values);
          }
      }
    }
  }

  /** A path selected twice is counted twice in `total_chars` but sent once. */
  lemma RepeatedPathCountedTwice(path: string, content: string, read: string -> Option<string>)
    requires read(path) == Some(content)
    ensures TotalChars([path, path], read) == 2 * |content|
    ensures ReadAll([path, path], read).keys == [path]
    ensures CharsOf(ReadAll([path, path], read).keys, ReadAll([path, path], read).values) == |content|
  {
    var once := OrderedMap([path], map[path := content]);
    ReadAllSnoc([], path, read);
    assert [] + [path] == [path];
    assert ReadAll([path], read) == once;
    ReadAllSnoc([path], path, read);
    assert [path] + [path] == [path, path];
    assert ReadAll([path, path], read) == once by {
      assert once.values[path := content] == once.values;
    }
    assert CharsOf(once.keys, once.values) == |content| by {
      assert once.keys[..0] == [];
    }
  }

  // ---------------------------------------------------------------------------------------------
  // The corpus (aks/main.py:128-137)

  /** One file's part of the corpus: a header line naming it, then its content as it was read. */
  function Entry(rel: string, content: string): string {
    "\n--- " + rel + " ---\n" + content
  }

  /** The concatenated entries, in dictionary order. */
  function CorpusOf(keys: seq<string>, values: map<string, string>, relpath: string -> string): string
    requires forall k :: k in keys ==> k in values
  {
    if keys == [] then ""
    else
      var k := keys[|keys| - 1];
      CorpusOf(keys[..|keys| - 1], values, relpath) + Entry(relpath(k), values[k])
  }

  /**
   * The temporary-file loop: one header and one content per dictionary entry, written in order.
   * Writing the file and reading it back is taken to give the same text.
   */
  method WriteCorpus(contents: OrderedMap, relpath: string -> string) returns (text: string)
    requires Valid(contents)
    ensures text == CorpusOf(contents.keys, contents.values, relpath)
  {
    text := "";
    var i := 0;
    while i < |contents.keys|
      invariant 0 <= i <= |contents.keys|
      invariant text == CorpusOf(contents.keys[..i], contents.values, relpath)
    {
      var path := contents.keys[i];
      var content := contents.values[path];
      var relPath := relpath(path);
      assert contents.keys[..i + 1][..i] == contents.keys[..i];
      text := text + "\n--- " + relPath + " ---\n";
      text := text + content;
      i := i + 1;
    }
    assert contents.keys[..i] == contents.keys;
  }

  /** The corpus of a concatenation of key lists is the concatenation of their corpora. */
  lemma {:induction false} CorpusAppend(a: seq<string>, b: seq<string>, values: map<string, string>, relpath: string -> string)
    requires forall k :: k in a + b ==> k in values
    ensures CorpusOf(a + b, values, relpath) == CorpusOf(a, values, relpath) + CorpusOf(b, values, relpath)
    decreases |b|
  {
    if b == [] {
      assert a + b == a;
    } else {
      var b' := b[..|b| - 1];
      assert (a + b)[..|a + b| - 1] == a + b';
      CorpusAppend(a, b', values, relpath);
    }
  }

  /**
   * The corpus can be cut at every entry: whatever precedes entry `i` is the corpus of the keys
   * before it, and whatever follows it is the corpus of the keys after it.
   */
  lemma CorpusSplit(keys: seq<string>, values: map<string, string>, relpath: string -> string, i: nat)
    requires forall k :: k in keys ==> k in values
    requires i < |keys|
    ensures CorpusOf(keys, values, relpath)
      == CorpusOf(keys[..i], values, relpath) + Entry(relpath(keys[i]), values[keys[i]]) + CorpusOf(keys[i + 1..], values, relpath)
  {
    var front, back := keys[..i], [keys[i]] + keys[i + 1..];
    assert keys == front + back;
    CorpusAppend(front, back, values, relpath);
    assert back == [keys[i]] + keys[i + 1..];
    forall k | k in [keys[i]] + keys[i + 1..]
      ensures k in values
    {
      assert k in keys;
    }
    CorpusAppend([keys[i]], keys[i + 1..], values, relpath);
    assert [keys[i]][..0] == [];
    assert CorpusOf([keys[i]], values, relpath) == Entry(relpath(keys[i]), values[keys[i]]);
  }

  /** Each entry adds its header, its relative path and its content, and nothing else. */
  lemma {:induction false} CorpusLength(keys: seq<string>, values: map<string, string>, relpath: string -> string)
    requires forall k :: k in keys ==> k in values
    ensures |CorpusOf(keys, values, relpath)| == 10 * |keys| + RelLengths(keys, relpath) + CharsOf(keys, values)
  {
    if keys != [] {
      CorpusLength(keys[..|keys| - 1], values, relpath);
    }
  }

  function RelLengths(keys: seq<string>, relpath: string -> string): nat {
    if keys == [] then 0 else RelLengths(keys[..|keys| - 1], relpath) + |relpath(keys[|keys| - 1])|
  }
}
