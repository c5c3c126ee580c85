/** The preview text: a `tree`-style structure of the selected files under
    the root, followed by one fixed-format block per file. */
module Preview {
  import opened FsTypes
  import opened Selection
  import opened TreeUtils

  // ---------------------------------------------------------------------
  // Splitting paths

  /** A path separator: either slash. */
  predicate IsSep(c: char)
  {
    c == '/' || c == '\\'
  }

  /** The text between separators, as a split on either slash gives it:
      an empty path gives one empty segment, and a leading, trailing or
      doubled separator gives an empty segment. */
  function Split(s: string): (segs: seq<string>)
    ensures |segs| >= 1
  {
    if s == [] then [[]]
    else if IsSep(s[0]) then [[]] + Split(s[1..])
    else
      var r := Split(s[1..]);
      [[s[0]] + r[0]] + r[1..]
  }

  /** No segment holds a separator. */
  lemma {:induction false} SplitSegmentsPlain(s: string)
    ensures forall i, j :: 0 <= i < |Split(s)| && 0 <= j < |Split(s)[i]| ==> !IsSep(Split(s)[i][j])
  {
    if s != [] {
      SplitSegmentsPlain(s[1..]);
      var r := Split(s[1..]);
      if !IsSep(s[0]) {
        var segs := Split(s);
        forall i, j | 0 <= i < |segs| && 0 <= j < |segs[i]|
          ensures !IsSep(segs[i][j])
        {
          if i == 0 {
            if j > 0 { assert segs[0][j] == r[0][j - 1]; }
          } else {
            assert segs[i] == r[i];
          }
        }
      }
    }
  }

  /** The parts glued with `sep` in between, as `join` does. */
  function Join(parts: seq<string>, sep: string): string
  {
    if parts == [] then ""
    else if |parts| == 1 then parts[0]
    else parts[0] + sep + Join(parts[1..], sep)
  }

  /** The path with every backslash written as a slash. */
  function Normalize(s: string): (r: string)
    ensures |r| == |s|
  {
    if s == [] then [] else [if IsSep(s[0]) then '/' else s[0]] + Normalize(s[1..])
  }

  /** The number of separators in `s`. */
  function SepCount(s: string): nat
  {
    if s == [] then 0 else (if IsSep(s[0]) then 1 else 0) + SepCount(s[1..])
  }

  /** Splitting loses nothing but the kind of slash: gluing the segments
      back with `/` gives the path, and there is one more segment than
      there are separators. */
  lemma {:induction false} SplitJoin(s: string)
    ensures Join(Split(s), "/") == Normalize(s)
    ensures |Split(s)| == SepCount(s) + 1
  {
    if s != [] {
      SplitJoin(s[1..]);
      var r := Split(s[1..]);
      if !IsSep(s[0]) {
        var segs := Split(s);
        if |r| == 1 {
          assert segs == [[s[0]] + r[0]];
        } else {
          assert segs[1..] == r[1..];
          assert Join(r, "/") == r[0] + "/" + Join(r[1..], "/");
        }
      }
    }
  }

  /** A path without separators is one segment. */
  lemma {:induction false} SplitPlain(s: string)
    requires forall j :: 0 <= j < |s| ==> !IsSep(s[j])
    ensures Split(s) == [s]
  {
    if s != [] {
      SplitPlain(s[1..]);
      assert [s[0]] + s[1..] == s;
    }
  }

  /** Splitting around one separator splits each side. */
  lemma {:induction false} SplitAround(a: string, c: char, b: string)
    requires IsSep(c)
    ensures Split(a + [c] + b) == Split(a) + Split(b)
  {
    if a == [] {
      assert a + [c] + b == [c] + b;
    } else {
      assert (a + [c] + b)[1..] == a[1..] + [c] + b;
      SplitAround(a[1..], c, b);
    }
  }

  // ---------------------------------------------------------------------
  // Names and relative segments

  /** The name shown for a file: the text after the last separator, or the
      whole path when that text is empty. */
  function BaseName(path: string): string
  {
    var segs := Split(path);
    var last := segs[|segs| - 1];
    if last == "" then path else last
  }

  /** The last segment of a split is what follows the last separator: a
      suffix with no separator, preceded by a separator unless it is the
      whole path. */
  lemma {:induction false} LastSegment(s: string)
    ensures var segs := Split(s); var last := segs[|segs| - 1];
      && |last| <= |s|
      && s[|s| - |last|..] == last
      && (|last| < |s| ==> IsSep(s[|s| - |last| - 1]))
      && (|segs| > 1 ==> |last| < |s|)
  {
    if s != [] {
      var t := s[1..];
      LastSegment(t);
      var r := Split(t);
      SplitLast(s);
      if IsSep(s[0]) || |r| > 1 {
        LastSegmentOfTail(s, r[|r| - 1]);
      } else {
        SingleSegment(s);
        assert s[0..] == s;
      }
    }
  }

  /** How the last segment and the segment count of `s` follow from those of
      its tail. */
  lemma SplitLast(s: string)
    requires s != []
    ensures var segs, r := Split(s), Split(s[1..]);
      if IsSep(s[0]) || |r| > 1 then |segs| > 1 && segs[|segs| - 1] == r[|r| - 1]
      else |segs| == 1 && segs[0] == [s[0]] + r[0]
  {
  }

  /** A suffix of the tail of `s` that follows a separator, or that is the
      whole tail after a leading separator, is a suffix of `s` that follows
      a separator. */
  lemma LastSegmentOfTail(s: string, last: string)
    requires s != [] && |last| <= |s| - 1 && s[1..][|s| - 1 - |last|..] == last
    requires |last| < |s| - 1 ==> IsSep(s[1..][|s| - 1 - |last| - 1])
    requires |last| == |s| - 1 ==> IsSep(s[0])
    ensures |last| < |s| && s[|s| - |last|..] == last && IsSep(s[|s| - |last| - 1])
  {
    assert s[|s| - |last|..] == s[1..][|s| - 1 - |last|..];
    if |last| < |s| - 1 {
      assert s[|s| - |last| - 1] == s[1..][|s| - 1 - |last| - 1];
    }
  }

  /** A path that splits into one segment is that segment. */
  lemma {:induction false} SingleSegment(t: string)
    requires |Split(t)| == 1
    ensures Split(t) == [t]
  {
    if t != [] {
      SplitLast(t);
      SingleSegment(t[1..]);
      assert [t[0]] + t[1..] == t;
    }
  }
  /** The block name is the path's final component: a suffix of the path
      with no separator in it, right after a separator; the whole path is
      shown only when it has no separator or ends with one. */
  lemma BaseNameIsFinalComponent(path: string)
    ensures var b := BaseName(path);
      && |b| <= |path| && path[|path| - |b|..] == b
      && (b != path ==> b != "" && IsSep(path[|path| - |b| - 1]) && forall j :: 0 <= j < |b| ==> !IsSep(b[j]))
      && (b == path ==> (forall j :: 0 <= j < |path| ==> !IsSep(path[j])) || IsSep(path[|path| - 1]))
  {
    LastSegment(path);
    LastSegmentPlain(path);
    var segs := Split(path);
    var last := segs[|segs| - 1];
    if last == "" {
      if path != "" {
        assert IsSep(path[|path| - 1]);
      }
    } else {
      assert BaseName(path) == last;
    }
  }

  /** Text with no separator in it. */
  predicate Plain(x: string)
  {
    forall j :: 0 <= j < |x| ==> !IsSep(x[j])
  }

  /** The last segment holds no separator. */
  lemma LastSegmentPlain(s: string)
    ensures Plain(Split(s)[|Split(s)| - 1])
  {
    SplitSegmentsPlain(s);
  }

  /** The segments of a file path below the root: the path's segments with
      the root's segment count dropped, none when there are fewer. */
  function RelSegments(path: string, rootDepth: nat): seq<string>
  {
    var segs := Split(path);
    if rootDepth <= |segs| then segs[rootDepth..] else []
  }

  /** A path written as the root path, a separator and a remainder has the
      remainder's segments as its relative segments. */
  lemma RelSegmentsBelowRoot(root: string, c: char, rest: string)
    requires IsSep(c)
    ensures RelSegments(root + [c] + rest, |Split(root)|) == Split(rest)
  {
    SplitAround(root, c, rest);
  }

  // ---------------------------------------------------------------------
  // File blocks

  /** The separator line of a block: 48 equals signs. */
  function Rule(): (r: string)
    ensures |r| == 48 && forall j :: 0 <= j < 48 ==> r[j] == '='
  {
    seq(48, _ => '=')
  }

  /** One file's block: a rule, the `FILE:` line, a rule, then the content
      verbatim. */
  function FileBlock(name: string, content: string): string
  {
    Rule() + "\n" + "FILE: " + name + "\n" + Rule() + "\n" + content
  }

  /** The length of the fixed text before the name, `Rule() + "\n" + "FILE: "`:
      48 + 1 + 6 characters (`BlockRoundTrip` checks the sum). */
  const HeadLength := 55

  /** The position of the first newline of `s` at or after `from`, if any. */
  function NewlineFrom(s: string, from: nat): (r: Option<nat>)
    requires from <= |s|
    ensures r.Some? ==>
      && from <= r.value < |s| && s[r.value] == '\n'
      && forall j :: from <= j < r.value ==> s[j] != '\n'
    ensures r.None? ==> forall j :: from <= j < |s| ==> s[j] != '\n'
    decreases |s| - from
  {
    if from == |s| then None
    else if s[from] == '\n' then Some(from)
    else NewlineFrom(s, from + 1)
  }

  /** Reads a block back into its name and content. */
  function ParseBlock(b: string): Option<(string, string)>
  {
    if |b| < HeadLength || b[..HeadLength] != Rule() + "\n" + "FILE: " then None
    else
      match NewlineFrom(b, HeadLength)
      case None => None
      case Some(k) =>
        var tail := b[k + 1..];
        if |tail| < |Rule()| + 1 || tail[..|Rule()| + 1] != Rule() + "\n" then None
        else Some((b[HeadLength..k], tail[|Rule()| + 1..]))
  }

  /** A block gives back its name and its content, whatever the content,
      provided the name holds no newline. */
  lemma BlockRoundTrip(name: string, content: string)
    requires forall j :: 0 <= j < |name| ==> name[j] != '\n'
    ensures ParseBlock(FileBlock(name, content)) == Some((name, content))
  {
    var b := FileBlock(name, content);
    var head := Rule() + "\n" + "FILE: ";
    assert |head| == HeadLength;
    assert b == head + name + ("\n" + Rule() + "\n" + content);
    assert b[..HeadLength] == head;
    var k := HeadLength + |name|;
    assert b[HeadLength..k] == name;
    assert b[k] == '\n';
    assert forall j :: HeadLength <= j < k ==> b[j] == name[j - HeadLength];
    assert NewlineFrom(b, HeadLength) == Some(k);
    assert b[k + 1..] == Rule() + "\n" + content;
  }

  // ---------------------------------------------------------------------
  // Reading the files

  /** What the filesystem answered for one path. */
  datatype ReadOutcome = Read(text: string) | Failed(message: string)

  /** The answer for one requested path. */
  datatype FileResult = FileResult(path: string, content: string)

  /** The answers come back one per requested path, in order. */
  ghost predicate Answers(paths: seq<string>, results: seq<FileResult>)
  {
    |results| == |paths| && forall i :: 0 <= i < |paths| ==> results[i].path == paths[i]
  }

  /** Reads the paths in order: a failed read stands in with its error
      message, so every path gets an answer. */
  method ReadFiles(paths: seq<string>, outcomes: seq<ReadOutcome>) returns (results: seq<FileResult>)
    requires |outcomes| == |paths|
    ensures Answers(paths, results)
    ensures forall i :: 0 <= i < |paths| ==>
      results[i].content == match outcomes[i]
        case Read(t) => t
        case Failed(m) => "Error reading file: " + m
  {
    results := [];
    for k := 0 to |paths|
      invariant |results| == k
      invariant forall i :: 0 <= i < k ==> results[i].path == paths[i]
      invariant forall i :: 0 <= i < k ==>
        results[i].content == match outcomes[i]
          case Read(t) => t
          case Failed(m) => "Error reading file: " + m
    {
      match outcomes[k]
      case Read(t) =>
        results := results + [FileResult(paths[k], t)];
      case Failed(m) =>
        results := results + [FileResult(paths[k], "Error reading file: " + m)];
    }
  }

  // ---------------------------------------------------------------------
  // The preview text

  /** The blocks of all results, in order, with a blank line between. */
  function Combined(results: seq<FileResult>): string
  {
    Join(seq(|results|, i requires 0 <= i < |results| => FileBlock(BaseName(results[i].path), results[i].content)), "\n\n")
  }

  /** The first line of the structure. */
  const Header := "Directory structure:"

  /** The root's own line: the last-entry connector, its name and a slash. */
  function RootLine(name: string): string
  {
    Branch(true) + name + "/"
  }

  /** The structure: a header, the root's own line, then the trie of the
      selected files' relative segments. */
  function StructureLines(root: FsNode, paths: seq<string>): seq<string>
  {
    var depth := |Split(root.path)|;
    var rel := seq(|paths|, i requires 0 <= i < |paths| => RelSegments(paths[i], depth));
    [Header, RootLine(root.name)] + Lines(Build(rel).children, "    ")
  }

  /** The preview for the current tree, given the answers read for its
      selected files. */
  function PreviewText(tree: Option<FsNode>, results: seq<FileResult>): string
  {
    match tree
    case None => "No file preview"
    case Some(root) =>
      var paths := CheckedFiles(root);
      if paths == [] then "No file selected"
      else Join(StructureLines(root, paths), "\n") + "\n\n" + Combined(results)
  }

  /** The header line and the root's line that open every real preview. */
  function Opening(root: FsNode): string
  {
    Header + "\n" + RootLine(root.name)
  }

  /** With files selected, the text opens with the structure header and the
      root's line. */
  lemma PreviewOpening(root: FsNode, results: seq<FileResult>)
    requires CheckedFiles(root) != []
    ensures Opening(root) <= PreviewText(Some(root), results)
  {
    var ls := StructureLines(root, CheckedFiles(root));
    var more := "\n\n" + Combined(results);
    assert PreviewText(Some(root), results) == Join(ls, "\n") + more;
    JoinFirstTwo(ls, "\n", more);
  }

  /** With no tree there is the first placeholder, with nothing selected the
      second, and a real preview is neither. */
  lemma PreviewCases(tree: Option<FsNode>, results: seq<FileResult>)
    ensures PreviewText(tree, results) == "No file preview" <==> tree.None?
    ensures PreviewText(tree, results) == "No file selected" <==> tree.Some? && CheckedFiles(tree.value) == []
  {
    if tree.Some? && CheckedFiles(tree.value) != [] {
      var r := PreviewText(tree, results);
      PreviewOpening(tree.value, results);
      assert Opening(tree.value)[0] == 'D';
      assert r[0] == 'D';
    }
  }

  /** A join, followed by anything, begins with its first two parts. */
  lemma JoinFirstTwo(parts: seq<string>, sep: string, more: string)
    requires |parts| >= 2
    ensures parts[0] + sep + parts[1] <= Join(parts, sep) + more
  {
    var tail := Join(parts[1..], sep);
    assert Join(parts, sep) == parts[0] + sep + tail;
    assert parts[1] <= tail by {
      if |parts| > 2 {
        assert tail == parts[1] + sep + Join(parts[2..], sep);
      }
    }
    var x := parts[0] + sep;
    assert Join(parts, sep) + more == x + (tail + more);
    assert parts[1] <= tail + more;
  }

  /** The structure shows which files are selected, not the order in which
      they were collected: the same paths in any order, or repeated, give
      the same lines. */
  lemma StructureOrderIndependent(root: FsNode, a: seq<string>, b: seq<string>)
    requires forall s :: s in a <==> s in b
    ensures StructureLines(root, a) == StructureLines(root, b)
  {
    var depth := |Split(root.path)|;
    var ra := seq(|a|, i requires 0 <= i < |a| => RelSegments(a[i], depth));
    var rb := seq(|b|, i requires 0 <= i < |b| => RelSegments(b[i], depth));
    forall x
      ensures x in ra <==> x in rb
    {
      if x in ra {
        var i :| 0 <= i < |a| && ra[i] == x;
        assert a[i] in b;
        var j :| 0 <= j < |b| && b[j] == a[i];
        assert rb[j] == x;
      }
      if x in rb {
        var j :| 0 <= j < |b| && rb[j] == x;
        assert b[j] in a;
        var i :| 0 <= i < |a| && a[i] == b[j];
        assert ra[i] == x;
      }
    }
    BuildRenderOrderIndependent(ra, rb, "    ");
  }

  /** One line of the structure per node of the trie, plus the two header
      lines. */
  lemma StructureLineCount(root: FsNode, paths: seq<string>)
    ensures var depth := |Split(root.path)|;
      var rel := seq(|paths|, i requires 0 <= i < |paths| => RelSegments(paths[i], depth));
      |StructureLines(root, paths)| == 2 + Size(Build(rel).children)
  {
    var depth := |Split(root.path)|;
    var rel := seq(|paths|, i requires 0 <= i < |paths| => RelSegments(paths[i], depth));
    LinesCount(Build(rel).children, "    ");
  }

  /** When the answers match the selected paths, block `i` carries the name
      of the `i`-th selected file and its content, readable back. */
  lemma BlocksFollowPaths(paths: seq<string>, results: seq<FileResult>, i: int)
    requires Answers(paths, results) && 0 <= i < |paths|
    requires forall j :: 0 <= j < |BaseName(paths[i])| ==> BaseName(paths[i])[j] != '\n'
    ensures var blocks := seq(|results|, k requires 0 <= k < |results| => FileBlock(BaseName(results[k].path), results[k].content));
      ParseBlock(blocks[i]) == Some((BaseName(paths[i]), results[i].content))
  {
    BlockRoundTrip(BaseName(paths[i]), results[i].content);
  }

  /** Selecting a node that was not checked puts every file below it into
      the preview; deselecting a checked node takes every file below it
      out. */
  lemma ToggleSelectFeedsPreview(n: FsNode, p: string)
    requires Unique(n) && Lookup(n, p).Some?
    ensures Lookup(ToggleSelectIn(n, p), p).Some?
    ensures var t, t' := Lookup(n, p).value, Lookup(ToggleSelectIn(n, p), p).value;
      && (State(t) == Checked ==> CheckedFiles(t') == [])
      && (State(t) != Checked ==> forall x :: x in FilePaths(t) ==> x in CheckedFiles(ToggleSelectIn(n, p)))
  {
    ToggleSelectTarget(n, p);
    var r := ToggleSelectIn(n, p);
    var t, t' := Lookup(n, p).value, Lookup(r, p).value;
    if State(t) == Checked {
      CollectedNoneWhenUnchecked(t');
    } else {
      CollectedAllWhenChecked(t');
      FilePathsIgnoreStates(t, t');
      forall x | x in FilePaths(t)
        ensures x in CheckedFiles(r)
      {
        CollectedExactly(t', x);
        CheckedFileOfSubtree(r, p, x);
        CollectedExactly(r, x);
      }
    }
  }
}
