/** The selection serialiser's helpers: the depth-first collector of checked
    file paths, the prefix trie of path segments, and its `tree`-style
    rendering. */
module TreeUtils {
  import opened FsTypes

  // ---------------------------------------------------------------------
  // Sequences of sequences

  /** The concatenation of `ss` in order. */
  function Flatten<T>(ss: seq<seq<T>>): seq<T>
  {
    if ss == [] then [] else ss[0] + Flatten(ss[1..])
  }

  /** Appending one more part appends its elements. */
  lemma {:induction false} FlattenSnoc<T>(ss: seq<seq<T>>, s: seq<T>)
    ensures Flatten(ss + [s]) == Flatten(ss) + s
  {
    if ss != [] {
      assert (ss + [s])[1..] == ss[1..] + [s];
      FlattenSnoc(ss[1..], s);
    }
  }

  /** An element of the concatenation comes from one of the parts. */
  lemma {:induction false} FlattenMembers<T>(ss: seq<seq<T>>, x: T)
    ensures x in Flatten(ss) <==> exists i :: 0 <= i < |ss| && x in ss[i]
  {
    if ss != [] {
      FlattenMembers(ss[1..], x);
      if exists i :: 0 <= i < |ss| && x in ss[i] {
        var i :| 0 <= i < |ss| && x in ss[i];
        if i > 0 { assert x in ss[1..][i - 1]; }
      }
      if exists i :: 0 <= i < |ss[1..]| && x in ss[1..][i] {
        var i :| 0 <= i < |ss[1..]| && x in ss[1..][i];
        assert x in ss[i + 1];
      }
    }
  }

  // ---------------------------------------------------------------------
  // collectPaths

  /** The paths of the checked files of the subtree, in depth-first order
      following the stored order of children. Directories contribute only
      what lies below them, whatever their own state. */
  function CheckedFiles(n: FsNode): seq<string>
  {
    match n
    case File(_, p, s) => if s == Checked then [p] else []
    case Dir(_, _, Present(cs), _, _) =>
      Flatten(seq(|cs|, i requires 0 <= i < |cs| => CheckedFiles(cs[i])))
    case Dir(_, _, Absent, _, _) => []
  }

  /** Some file of the subtree with path `p` is checked. */
  ghost predicate HasCheckedFile(n: FsNode, p: string)
  {
    (n.File? && n.fileState == Checked && n.path == p)
    || exists i :: 0 <= i < |Kids(n)| && HasCheckedFile(Kids(n)[i], p)
  }

  /** Walks the subtree depth first, appending the paths the children
      produce in their stored order. */
  method CollectPaths(node: FsNode) returns (paths: seq<string>)
    ensures paths == CheckedFiles(node)
    decreases node
  {
    if node.File? {
      paths := if node.fileState == Checked then [node.path] else [];
      return;
    }
    paths := [];
    if node.children.Present? {
      var cs := node.children.items;
      for k := 0 to |cs|
        invariant paths == Flatten(seq(k, i requires 0 <= i < k => CheckedFiles(cs[i])))
      {
        assert cs[k] in Kids(node);
        var sub := CollectPaths(cs[k]);
        ghost var before := seq(k, i requires 0 <= i < k => CheckedFiles(cs[i]));
        FlattenSnoc(before, sub);
        assert before + [sub] == seq(k + 1, i requires 0 <= i < k + 1 => CheckedFiles(cs[i]));
        paths := paths + sub;
      }
    }
  }

  /** The collected paths are exactly the paths of checked files: never a
      directory's own path, and no checked file is missed. */
  lemma {:induction false} CollectedExactly(n: FsNode, p: string)
    ensures p in CheckedFiles(n) <==> HasCheckedFile(n, p)
  {
    var cs := Kids(n);
    forall i | 0 <= i < |cs|
      ensures p in CheckedFiles(cs[i]) <==> HasCheckedFile(cs[i], p)
    {
      CollectedExactly(cs[i], p);
    }
    if n.Dir? && n.children.Present? {
      var ss := seq(|cs|, i requires 0 <= i < |cs| => CheckedFiles(cs[i]));
      FlattenMembers(ss, p);
      if HasCheckedFile(n, p) {
        var i :| 0 <= i < |cs| && HasCheckedFile(cs[i], p);
        assert p in ss[i];
      }
      if p in CheckedFiles(n) {
        var i :| 0 <= i < |ss| && p in ss[i];
        assert HasCheckedFile(cs[i], p);
      }
    }
  }

  /** An unchecked subtree contributes nothing. */
  lemma {:induction false} CollectedNoneWhenUnchecked(n: FsNode)
    requires Uniform(n, Unchecked)
    ensures CheckedFiles(n) == []
  {
    var cs := Kids(n);
    forall i | 0 <= i < |cs|
      ensures CheckedFiles(cs[i]) == []
    {
      CollectedNoneWhenUnchecked(cs[i]);
    }
    if n.Dir? && n.children.Present? {
      FlattenEmpty(seq(|cs|, i requires 0 <= i < |cs| => CheckedFiles(cs[i])));
    }
  }

  /** Concatenating empty parts gives nothing. */
  lemma {:induction false} FlattenEmpty<T>(ss: seq<seq<T>>)
    requires forall i :: 0 <= i < |ss| ==> ss[i] == []
    ensures Flatten(ss) == []
  {
    if ss != [] {
      FlattenEmpty(ss[1..]);
    }
  }

  /** The paths of all files of the subtree, in depth-first order. */
  function FilePaths(n: FsNode): seq<string>
  {
    match n
    case File(_, p, _) => [p]
    case Dir(_, _, Present(cs), _, _) =>
      Flatten(seq(|cs|, i requires 0 <= i < |cs| => FilePaths(cs[i])))
    case Dir(_, _, Absent, _, _) => []
  }

  /** A fully checked subtree gives the paths of all its files, in order. */
  lemma {:induction false} CollectedAllWhenChecked(n: FsNode)
    requires Uniform(n, Checked)
    ensures CheckedFiles(n) == FilePaths(n)
  {
    var cs := Kids(n);
    forall i | 0 <= i < |cs|
      ensures CheckedFiles(cs[i]) == FilePaths(cs[i])
    {
      CollectedAllWhenChecked(cs[i]);
    }
    if n.Dir? && n.children.Present? {
      assert seq(|cs|, i requires 0 <= i < |cs| => CheckedFiles(cs[i]))
          == seq(|cs|, i requires 0 <= i < |cs| => FilePaths(cs[i]));
    }
  }

  /** The file paths do not depend on any selection state. */
  lemma {:induction false} FilePathsIgnoreStates(a: FsNode, b: FsNode)
    requires EraseState(a) == EraseState(b)
    ensures FilePaths(a) == FilePaths(b)
  {
    var cs, ds := Kids(a), Kids(b);
    forall i | 0 <= i < |cs|
      ensures FilePaths(cs[i]) == FilePaths(ds[i])
    {
      assert EraseState(cs[i]) == Kids(EraseState(a))[i] == EraseState(ds[i]);
      FilePathsIgnoreStates(cs[i], ds[i]);
    }
    if a.Dir? && a.children.Present? {
      assert b.Dir? && b.children.Present?;
      assert seq(|cs|, i requires 0 <= i < |cs| => FilePaths(cs[i]))
          == seq(|ds|, i requires 0 <= i < |ds| => FilePaths(ds[i]));
    }
  }

  /** A checked file of a subtree found by lookup is a checked file of the
      whole tree. */
  lemma {:induction false} CheckedFileOfSubtree(n: FsNode, q: string, x: string)
    requires Lookup(n, q).Some? && HasCheckedFile(Lookup(n, q).value, x)
    ensures HasCheckedFile(n, x)
  {
    if n.path != q {
      var i :| 0 <= i < |Kids(n)| && Contains(Kids(n)[i], q) && Lookup(n, q) == Lookup(Kids(n)[i], q);
      CheckedFileOfSubtree(Kids(n)[i], q, x);
    }
  }

  // ---------------------------------------------------------------------
  // DirTreeNode and buildDirTree

  /** One key of a trie level and the subtree under it. */
  datatype Entry = Entry(name: string, node: DirTreeNode)

  /** A trie level: its keys in insertion order, as a `Map` iterates them. */
  datatype DirTreeNode = DirTreeNode(children: seq<Entry>)

  /** The keys of a level, in order. */
  function Names(es: seq<Entry>): (ns: seq<string>)
    ensures |ns| == |es| && forall i :: 0 <= i < |es| ==> ns[i] == es[i].name
  {
    seq(|es|, i requires 0 <= i < |es| => es[i].name)
  }

  /** Every level holds each key at most once, as a `Map` does. */
  ghost predicate WellFormed(t: DirTreeNode)
  {
    && (forall i, j :: 0 <= i < j < |t.children| ==> t.children[i].name != t.children[j].name)
    && forall i :: 0 <= i < |t.children| ==> WellFormed(t.children[i].node)
  }

  /** The position of key `k` in the level, -1 when it is absent (the first
      position, should a key occur twice). */
  function Find(es: seq<Entry>, k: string): (r: int)
    ensures -1 <= r < |es|
    ensures r >= 0 ==> es[r].name == k && forall i :: 0 <= i < r ==> es[i].name != k
    ensures r < 0 ==> forall i :: 0 <= i < |es| ==> es[i].name != k
  {
    if es == [] then -1
    else if es[0].name == k then 0
    else
      var r := Find(es[1..], k);
      if r < 0 then -1 else r + 1
  }

  /** The walk of one segment list from the root: an existing key is
      followed, a missing one is added as a new empty level at the end. */
  function Insert(t: DirTreeNode, segs: seq<string>): DirTreeNode
    decreases |segs|
  {
    if segs == [] then t
    else
      var k := Find(t.children, segs[0]);
      if k >= 0 then
        DirTreeNode(t.children[k := Entry(segs[0], Insert(t.children[k].node, segs[1..]))])
      else
        DirTreeNode(t.children + [Entry(segs[0], Insert(DirTreeNode([]), segs[1..]))])
  }

  /** The segment list `u` leads from the root to a node of the trie. */
  ghost predicate HasPath(t: DirTreeNode, u: seq<string>)
    decreases |u|
  {
    u == [] || exists i :: 0 <= i < |t.children| && t.children[i].name == u[0] && HasPath(t.children[i].node, u[1..])
  }

  /** Inserting keeps the keys already present, in their places, and adds
      at most the first segment at the end. */
  lemma InsertKeepsOrder(t: DirTreeNode, segs: seq<string>)
    ensures var ns, ns' := Names(t.children), Names(Insert(t, segs).children);
      ns' == ns || (segs != [] && segs[0] !in ns && ns' == ns + [segs[0]])
  {
    if segs != [] {
      var k := Find(t.children, segs[0]);
      if k < 0 {
        assert Names(Insert(t, segs).children) == Names(t.children) + [segs[0]];
      } else {
        assert Names(Insert(t, segs).children) == Names(t.children);
      }
    }
  }

  /** Inserting keeps every level free of repeated keys. */
  lemma {:induction false} InsertWellFormed(t: DirTreeNode, segs: seq<string>)
    requires WellFormed(t)
    ensures WellFormed(Insert(t, segs))
    decreases |segs|
  {
    if segs != [] {
      var k := Find(t.children, segs[0]);
      if k >= 0 {
        InsertWellFormed(t.children[k].node, segs[1..]);
      } else {
        EmptyWellFormed();
        InsertWellFormed(DirTreeNode([]), segs[1..]);
      }
      InsertKeepsOrder(t, segs);
    }
  }

  lemma EmptyWellFormed()
    ensures WellFormed(DirTreeNode([]))
  {
  }

  /** After inserting `segs`, the root-to-node paths are the old ones and
      the prefixes of `segs`. */
  lemma {:induction false} InsertPaths(t: DirTreeNode, segs: seq<string>, u: seq<string>)
    ensures HasPath(Insert(t, segs), u) <==> HasPath(t, u) || u <= segs
    decreases |segs|
  {
    if segs != [] && u != [] {
      var k := Find(t.children, segs[0]);
      var t' := Insert(t, segs);
      if k >= 0 {
        var es, es' := t.children, t'.children;
        assert |es'| == |es|;
        InsertPaths(es[k].node, segs[1..], u[1..]);
        if HasPath(t', u) {
          var i :| 0 <= i < |es'| && es'[i].name == u[0] && HasPath(es'[i].node, u[1..]);
          if i != k {
            assert es'[i] == es[i];
          } else {
            PrefixStep(u, segs);
            if HasPath(es[k].node, u[1..]) {
              assert es[k].name == u[0];
            }
          }
        }
        if HasPath(t, u) {
          var i :| 0 <= i < |es| && es[i].name == u[0] && HasPath(es[i].node, u[1..]);
          if i != k {
            assert es'[i] == es[i];
          }
          assert es'[i].name == u[0] && HasPath(es'[i].node, u[1..]);
        }
        if u <= segs {
          assert u[0] == segs[0];
          PrefixStep(u, segs);
          assert es'[k].name == u[0] && HasPath(es'[k].node, u[1..]);
        }
      } else {
        var es, es' := t.children, t'.children;
        var n := |es|;
        InsertPaths(DirTreeNode([]), segs[1..], u[1..]);
        assert !HasPath(DirTreeNode([]), u[1..]) <== u[1..] != [];
        if HasPath(t', u) {
          var i :| 0 <= i < |es'| && es'[i].name == u[0] && HasPath(es'[i].node, u[1..]);
          if i < n {
            assert es'[i] == es[i];
          } else {
            PrefixStep(u, segs);
          }
        }
        if HasPath(t, u) {
          var i :| 0 <= i < |es| && es[i].name == u[0] && HasPath(es[i].node, u[1..]);
          assert es'[i] == es[i];
        }
        if u <= segs {
          assert u[0] == segs[0];
          PrefixStep(u, segs);
          assert es'[n].name == u[0] && HasPath(es'[n].node, u[1..]);
        }
      }
    }
  }

  lemma PrefixStep(u: seq<string>, s: seq<string>)
    requires u != [] && s != [] && u[0] == s[0]
    ensures u <= s <==> u[1..] <= s[1..]
  {
    if u[1..] <= s[1..] {
      assert u == [s[0]] + u[1..];
      assert s == [s[0]] + s[1..];
    }
  }

  /** Inserting a segment list whose whole path is already present changes
      nothing. */
  lemma {:induction false} InsertPresent(t: DirTreeNode, segs: seq<string>)
    requires WellFormed(t) && HasPath(t, segs)
    ensures Insert(t, segs) == t
    decreases |segs|
  {
    if segs != [] {
      var i :| 0 <= i < |t.children| && t.children[i].name == segs[0] && HasPath(t.children[i].node, segs[1..]);
      var k := Find(t.children, segs[0]);
      assert k == i;
      InsertPresent(t.children[i].node, segs[1..]);
      assert t.children[k := Entry(segs[0], t.children[k].node)] == t.children;
    }
  }

  /** Inserting the same segment list twice is inserting it once. */
  lemma InsertIdempotent(t: DirTreeNode, segs: seq<string>)
    requires WellFormed(t)
    ensures Insert(Insert(t, segs), segs) == Insert(t, segs)
  {
    InsertWellFormed(t, segs);
    InsertPaths(t, segs, segs);
    InsertPresent(Insert(t, segs), segs);
  }

  /** The trie of a list of segment lists: each inserted in turn into an
      initially empty root. */
  function Build(lists: seq<seq<string>>): DirTreeNode
  {
    if lists == [] then DirTreeNode([]) else Insert(Build(lists[..|lists| - 1]), lists[|lists| - 1])
  }

  /** Builds the trie, walking a cursor down from the root for each list. */
  method BuildDirTree(segmentsList: seq<seq<string>>) returns (root: DirTreeNode)
    ensures root == Build(segmentsList)
  {
    root := DirTreeNode([]);
    for k := 0 to |segmentsList|
      invariant root == Build(segmentsList[..k])
    {
      assert segmentsList[..k + 1][..k] == segmentsList[..k];
      root := Insert(root, segmentsList[k]);
    }
    assert segmentsList[..|segmentsList|] == segmentsList;
  }

  /** A built trie has no repeated key at any level. */
  lemma {:induction false} BuildWellFormed(lists: seq<seq<string>>)
    ensures WellFormed(Build(lists))
  {
    if lists == [] {
      EmptyWellFormed();
    } else {
      BuildWellFormed(lists[..|lists| - 1]);
      InsertWellFormed(Build(lists[..|lists| - 1]), lists[|lists| - 1]);
    }
  }

  /** Every input list is a root-to-node path of the built trie, and every
      node of the trie lies on some input list. */
  lemma {:induction false} BuildPaths(lists: seq<seq<string>>, u: seq<string>)
    ensures HasPath(Build(lists), u) <==> u == [] || exists k :: 0 <= k < |lists| && u <= lists[k]
  {
    if lists != [] {
      var init := lists[..|lists| - 1];
      BuildPaths(init, u);
      InsertPaths(Build(init), lists[|lists| - 1], u);
      if exists k :: 0 <= k < |lists| && u <= lists[k] {
        var k :| 0 <= k < |lists| && u <= lists[k];
        if k < |init| { assert u <= init[k]; }
      }
      if exists k :: 0 <= k < |init| && u <= init[k] {
        var k :| 0 <= k < |init| && u <= init[k];
        assert u <= lists[k];
      }
    }
  }

  /** The trie depends only on which lists are given: reordering or repeating
      them leaves the same root-to-node paths. */
  lemma BuildOrderIndependent(a: seq<seq<string>>, b: seq<seq<string>>, u: seq<string>)
    requires forall s :: s in a <==> s in b
    ensures HasPath(Build(a), u) <==> HasPath(Build(b), u)
  {
    BuildPaths(a, u);
    BuildPaths(b, u);
    if exists k :: 0 <= k < |a| && u <= a[k] {
      var k :| 0 <= k < |a| && u <= a[k];
      assert a[k] in b;
    }
    if exists k :: 0 <= k < |b| && u <= b[k] {
      var k :| 0 <= k < |b| && u <= b[k];
      assert b[k] in a;
    }
  }

  /** Repeating a list that was already given changes nothing at all. */
  lemma BuildRepeat(lists: seq<seq<string>>, k: int)
    requires 0 <= k < |lists|
    ensures Build(lists + [lists[k]]) == Build(lists)
  {
    assert (lists + [lists[k]])[..|lists|] == lists;
    BuildWellFormed(lists);
    BuildPaths(lists, lists[k]);
    InsertPresent(Build(lists), lists[k]);
  }

  // ---------------------------------------------------------------------
  // printTree

  /** Name order: code point by code point, a proper prefix first. */
  predicate Below(a: string, b: string)
  {
    if a == [] then b != []
    else b != [] && (a[0] < b[0] || (a[0] == b[0] && Below(a[1..], b[1..])))
  }

  /** The name order is a strict total order. */
  lemma {:induction false} BelowStrictTotal(a: string, b: string, c: string)
    ensures !Below(a, a)
    ensures a != b ==> Below(a, b) || Below(b, a)
    ensures Below(a, b) ==> !Below(b, a)
    ensures Below(a, b) && Below(b, c) ==> Below(a, c)
  {
    if a != [] && b != [] && c != [] {
      BelowStrictTotal(a[1..], b[1..], c[1..]);
      if a != b && a[0] == b[0] {
        assert a == [a[0]] + a[1..] && b == [b[0]] + b[1..];
      }
    } else if a != [] && b != [] {
      BelowStrictTotal(a[1..], b[1..], []);
      if a != b && a[0] == b[0] {
        assert a == [a[0]] + a[1..] && b == [b[0]] + b[1..];
      }
    } else if a != [] {
      BelowStrictTotal(a[1..], [], []);
    }
  }

  /** "Not below" is transitive. */
  lemma NotBelowTransitive(a: string, b: string, c: string)
    requires !Below(a, b) && !Below(b, c)
    ensures !Below(a, c)
  {
    BelowStrictTotal(a, b, c);
    BelowStrictTotal(b, a, c);
  }

  /** An entry whose subtree is not empty is rendered as a directory. */
  predicate IsDirEntry(e: Entry)
  {
    |e.node.children| > 0
  }

  /** Ascending by name. */
  ghost predicate SortedByName(es: seq<Entry>)
  {
    forall i, j :: 0 <= i < j < |es| ==> !Below(es[j].name, es[i].name)
  }

  /** An entry that no entry of a sorted level sorts below may go first. */
  lemma ConsSorted(x: Entry, r: seq<Entry>)
    requires SortedByName(r)
    requires forall j :: 0 <= j < |r| ==> !Below(r[j].name, x.name)
    ensures SortedByName([x] + r)
  {
    var r' := [x] + r;
    forall i, j | 0 <= i < j < |r'|
      ensures !Below(r'[j].name, r'[i].name)
    {
      assert r'[j] == r[j - 1];
      if i > 0 {
        assert r'[i] == r[i - 1];
      }
    }
  }

  /** The entries of a sorted level all sort at or above its first entry. */
  lemma HeadIsLeast(x: Entry, r: seq<Entry>)
    requires r != [] && SortedByName(r) && !Below(r[0].name, x.name)
    ensures forall j :: 0 <= j < |r| ==> !Below(r[j].name, x.name)
  {
    forall j | 0 < j < |r|
      ensures !Below(r[j].name, x.name)
    {
      NotBelowTransitive(r[j].name, r[0].name, x.name);
    }
  }

  /** What is inserted after the head of a sorted level still sorts at or
      above that head. */
  lemma TailAboveHead(e: Entry, r: seq<Entry>, tail: seq<Entry>)
    requires r != [] && SortedByName(r) && Below(r[0].name, e.name)
    requires multiset(tail) == multiset(r[1..]) + multiset{e}
    ensures forall j :: 0 <= j < |tail| ==> !Below(tail[j].name, r[0].name)
  {
    forall j | 0 <= j < |tail|
      ensures !Below(tail[j].name, r[0].name)
    {
      assert tail[j] in multiset(r[1..]) + multiset{e};
      if tail[j] == e {
        BelowStrictTotal(r[0].name, e.name, e.name);
      } else {
        assert tail[j] in r[1..];
      }
    }
  }

  /** Places `e` before the first entry that does not sort below it. */
  function InsertByName(e: Entry, r: seq<Entry>): (r': seq<Entry>)
    ensures multiset(r') == multiset(r) + multiset{e}
    ensures SortedByName(r) ==> SortedByName(r')
  {
    if r == [] || !Below(r[0].name, e.name) then
      var r' := [e] + r;
      assert SortedByName(r) ==> SortedByName(r') by {
        if SortedByName(r) {
          if r != [] {
            HeadIsLeast(e, r);
          }
          ConsSorted(e, r);
        }
      }
      r'
    else
      var tail := InsertByName(e, r[1..]);
      var r' := [r[0]] + tail;
      assert r == [r[0]] + r[1..];
      assert SortedByName(r) ==> SortedByName(r') by {
        if SortedByName(r) {
          assert SortedByName(r[1..]);
          TailAboveHead(e, r, tail);
          ConsSorted(r[0], tail);
        }
      }
      r'
  }

  /** The entries in ascending name order. */
  function SortByName(es: seq<Entry>): (r: seq<Entry>)
    ensures multiset(r) == multiset(es)
    ensures SortedByName(r)
  {
    if es == [] then []
    else
      assert es == [es[0]] + es[1..];
      InsertByName(es[0], SortByName(es[1..]))
  }

  /** The entries of `es` that keep (`dirs`) or lack subtrees, in order. */
  function Select(es: seq<Entry>, dirs: bool): (r: seq<Entry>)
    ensures forall e :: e in r ==> IsDirEntry(e) == dirs
  {
    if es == [] then []
    else (if IsDirEntry(es[0]) == dirs then [es[0]] else []) + Select(es[1..], dirs)
  }

  /** Selecting keeps every entry of the requested kind and nothing else. */
  lemma {:induction false} SelectExactly(es: seq<Entry>, dirs: bool, e: Entry)
    ensures e in Select(es, dirs) <==> e in es && IsDirEntry(e) == dirs
  {
    if es != [] {
      SelectExactly(es[1..], dirs, e);
      assert es == [es[0]] + es[1..];
    }
  }

  lemma {:induction false} SelectSplits(es: seq<Entry>)
    ensures multiset(Select(es, true)) + multiset(Select(es, false)) == multiset(es)
  {
    if es != [] {
      SelectSplits(es[1..]);
      assert es == [es[0]] + es[1..];
    }
  }

  /** Sorting the entries of one kind keeps them of that kind. */
  lemma SortedSelectKind(es: seq<Entry>, dirs: bool)
    ensures forall e :: e in SortByName(Select(es, dirs)) ==> IsDirEntry(e) == dirs
  {
    forall e | e in SortByName(Select(es, dirs))
      ensures IsDirEntry(e) == dirs
    {
      assert e in multiset(Select(es, dirs));
    }
  }

  /** Two groups, each sorted and of one kind, stay ordered side by side. */
  lemma GroupsOrdered(ds: seq<Entry>, fs: seq<Entry>)
    requires SortedByName(ds) && SortedByName(fs)
    requires forall e :: e in ds ==> IsDirEntry(e)
    requires forall e :: e in fs ==> !IsDirEntry(e)
    ensures var r := ds + fs;
      && (forall i, j :: 0 <= i < j < |r| && !IsDirEntry(r[i]) ==> !IsDirEntry(r[j]))
      && (forall i, j :: 0 <= i < j < |r| && IsDirEntry(r[i]) == IsDirEntry(r[j]) ==> !Below(r[j].name, r[i].name))
  {
    var r := ds + fs;
    forall i, j | 0 <= i < j < |r| && IsDirEntry(r[i]) == IsDirEntry(r[j])
      ensures !Below(r[j].name, r[i].name)
    {
      if j < |ds| {
        assert r[i] == ds[i] && r[j] == ds[j];
      } else if i >= |ds| {
        assert r[i] == fs[i - |ds|] && r[j] == fs[j - |ds|];
      }
    }
    forall i, j | 0 <= i < j < |r| && !IsDirEntry(r[i])
      ensures !IsDirEntry(r[j])
    {
      assert r[j] in fs;
    }
  }

  /** The order of one level: entries with subtrees first, then the rest,
      each group ascending by name. */
  function Arrange(es: seq<Entry>): (r: seq<Entry>)
    ensures multiset(r) == multiset(es)
    ensures forall e :: e in r <==> e in es
    ensures forall i, j :: 0 <= i < j < |r| && !IsDirEntry(r[i]) ==> !IsDirEntry(r[j])
    ensures forall i, j :: 0 <= i < j < |r| && IsDirEntry(r[i]) == IsDirEntry(r[j]) ==> !Below(r[j].name, r[i].name)
  {
    var ds, fs := SortByName(Select(es, true)), SortByName(Select(es, false));
    SelectSplits(es);
    SortedSelectKind(es, true);
    SortedSelectKind(es, false);
    GroupsOrdered(ds, fs);
    var r := ds + fs;
    assert forall e :: e in r <==> e in es by {
      forall e ensures e in r <==> e in es {
        assert e in r <==> e in multiset(r);
      }
    }
    r
  }

  function Branch(isLast: bool): string
  {
    if isLast then "\U{2514}\U{2500}\U{2500} " else "\U{251C}\U{2500}\U{2500} "
  }

  function Indent(isLast: bool): string
  {
    if isLast then "    " else "\U{2502}   "
  }

  /** The text of an entry's own line: its name, with a slash for a
      directory. */
  function Label(e: Entry): string
  {
    e.name + (if IsDirEntry(e) then "/" else "")
  }

  /** The lines for the map `m`, each starting with `prefix`. */
  function Lines(m: seq<Entry>, prefix: string): seq<string>
    decreases m, 1
  {
    Render(m, Arrange(m), prefix)
  }

  /** The lines for the arranged entries `es` of `m`: each entry's line,
      then, for a directory, its own lines under a longer prefix. */
  function Render(m: seq<Entry>, es: seq<Entry>, prefix: string): seq<string>
    requires forall e :: e in es ==> e in m
    decreases m, 0, |es|
  {
    if es == [] then []
    else
      var isLast := |es| == 1;
      var e := es[0];
      assert e in m;
      [prefix + Branch(isLast) + Label(e)]
      + (if IsDirEntry(e) then Lines(e.node.children, prefix + Indent(isLast)) else [])
      + Render(m, es[1..], prefix)
  }

  /** Regrouping a four-part concatenation, kept apart from its callers so
      that the step is checked without their context. */
  lemma AppendAssoc<T>(a: seq<T>, b: seq<T>, c: seq<T>, d: seq<T>)
    ensures a + b + c + d == a + (b + c + d)
  {
  }

  /** One unfolding of `Render`, kept apart from its callers for the same
      reason. */
  lemma RenderStep(m: seq<Entry>, es: seq<Entry>, prefix: string)
    requires es != [] && forall e :: e in es ==> e in m
    ensures var isLast := |es| == 1;
      Render(m, es, prefix)
      == [prefix + Branch(isLast) + Label(es[0])]
         + (if IsDirEntry(es[0]) then Lines(es[0].node.children, prefix + Indent(isLast)) else [])
         + Render(m, es[1..], prefix)
  {
  }

  /** One loop step of `PrintTree`: appending entry `idx`'s line and its
      subtree's lines moves the split point one entry on. */
  lemma RenderAt(m: seq<Entry>, prefix: string, idx: int, done: seq<string>, sub: seq<string>)
    requires 0 <= idx < |Arrange(m)|
    requires done + Render(m, Arrange(m)[idx..], prefix) == Lines(m, prefix)
    requires var a := Arrange(m);
      sub == (if IsDirEntry(a[idx]) then Lines(a[idx].node.children, prefix + Indent(idx == |a| - 1)) else [])
    ensures var a := Arrange(m);
      done + [prefix + Branch(idx == |a| - 1) + Label(a[idx])] + sub + Render(m, a[idx + 1..], prefix) == Lines(m, prefix)
  {
    var a := Arrange(m);
    assert forall e :: e in a[idx..] ==> e in m;
    RenderStep(m, a[idx..], prefix);
    assert a[idx..][1..] == a[idx + 1..];
    assert a[idx..][0] == a[idx];
    AppendAssoc(done, [prefix + Branch(idx == |a| - 1) + Label(a[idx])], sub, Render(m, a[idx + 1..], prefix));
  }

  /** Renders one level: a line per arranged entry, followed for a
      directory by the lines of its subtree. */
  method PrintTree(children: seq<Entry>, prefix: string) returns (lines: seq<string>)
    ensures lines == Lines(children, prefix)
    decreases Size(children)
  {
    var sorted := Arrange(children);
    lines := [];
    var idx := 0;
    while idx < |sorted|
      invariant 0 <= idx <= |sorted|
      invariant lines + Render(children, sorted[idx..], prefix) == Lines(children, prefix)
    {
      var e := sorted[idx];
      assert e in children;
      var isLast := idx == |sorted| - 1;
      var sub := [];
      if |e.node.children| > 0 {
        SizeOfMember(children, e);
        sub := PrintTree(e.node.children, prefix + Indent(isLast));
      }
      RenderAt(children, prefix, idx, lines, sub);
      lines := lines + [prefix + Branch(isLast) + Label(e)] + sub;
      idx := idx + 1;
    }
    assert sorted[idx..] == [];
  }

  /** The number of trie nodes below a level. */
  function Size(m: seq<Entry>): nat
  {
    if m == [] then 0 else 1 + Size(m[0].node.children) + Size(m[1..])
  }

  lemma {:induction false} SizeAppend(a: seq<Entry>, b: seq<Entry>)
    ensures Size(a + b) == Size(a) + Size(b)
  {
    if a == [] {
      assert a + b == b;
    } else {
      assert (a + b)[0] == a[0];
      assert (a + b)[1..] == a[1..] + b;
      SizeAppend(a[1..], b);
    }
  }

  /** Removing the entry at position `k` removes exactly its own count. */
  lemma SizeRemove(b: seq<Entry>, k: int)
    requires 0 <= k < |b|
    ensures Size(b) == 1 + Size(b[k].node.children) + Size(b[..k] + b[k + 1..])
  {
    var lo, x, hi := b[..k], [b[k]], b[k + 1..];
    assert b == (lo + x) + hi;
    SizeAppend(lo + x, hi);
    SizeAppend(lo, x);
    SizeAppend(lo, hi);
    assert x[1..] == [];
    assert Size(x) == 1 + Size(b[k].node.children);
  }

  /** Taking one matching element out of two permutations of each other
      leaves permutations of each other. */
  lemma RemoveMatching(a: seq<Entry>, b: seq<Entry>, k: int)
    requires multiset(a) == multiset(b) && a != [] && 0 <= k < |b| && b[k] == a[0]
    ensures multiset(a[1..]) == multiset(b[..k] + b[k + 1..])
  {
    var b' := b[..k] + b[k + 1..];
    assert a == [a[0]] + a[1..];
    assert b == b[..k] + [b[k]] + b[k + 1..];
    assert multiset(a) == multiset(a[1..]) + multiset{a[0]};
    assert multiset(b) == multiset(b') + multiset{a[0]};
    assert multiset(a[1..]) == multiset(a) - multiset{a[0]};
    assert multiset(b') == multiset(b) - multiset{a[0]};
  }

  /** An entry of a level has fewer nodes below it than the level. */
  lemma {:induction false} SizeOfMember(m: seq<Entry>, e: Entry)
    requires e in m
    ensures Size(e.node.children) < Size(m)
  {
    if m[0] != e {
      SizeOfMember(m[1..], e);
    }
  }

  /** Reordering a level does not change how many nodes lie below it. */
  lemma {:induction false} SizePermutation(a: seq<Entry>, b: seq<Entry>)
    requires multiset(a) == multiset(b)
    ensures Size(a) == Size(b)
    decreases |a|
  {
    if a != [] {
      assert a[0] in multiset(b);
      var k :| 0 <= k < |b| && b[k] == a[0];
      RemoveMatching(a, b, k);
      SizePermutation(a[1..], b[..k] + b[k + 1..]);
      SizeRemove(b, k);
    }
  }

  /** printTree gives exactly one line per node of the trie below the level,
      and none for an empty map. */
  lemma {:induction false} LinesCount(m: seq<Entry>, prefix: string)
    ensures |Lines(m, prefix)| == Size(m)
    ensures m == [] ==> Lines(m, prefix) == []
    decreases m, 1
  {
    RenderCount(m, Arrange(m), prefix);
    SizePermutation(Arrange(m), m);
  }

  lemma {:induction false} RenderCount(m: seq<Entry>, es: seq<Entry>, prefix: string)
    requires forall e :: e in es ==> e in m
    ensures |Render(m, es, prefix)| == Size(es)
    decreases m, 0, |es|
  {
    if es != [] {
      var e := es[0];
      assert e in m;
      RenderStep(m, es, prefix);
      if IsDirEntry(e) {
        LinesCount(e.node.children, prefix + Indent(|es| == 1));
      } else {
        assert Size(e.node.children) == 0;
      }
      RenderCount(m, es[1..], prefix);
    }
  }

  /** Every line of `lines` begins with `p`. */
  ghost predicate AllStartWith(lines: seq<string>, p: string)
  {
    forall i :: 0 <= i < |lines| ==> p <= lines[i]
  }

  lemma AllStartWithAppend(a: seq<string>, b: seq<string>, p: string)
    requires AllStartWith(a, p) && AllStartWith(b, p)
    ensures AllStartWith(a + b, p)
  {
    forall i | 0 <= i < |a + b|
      ensures p <= (a + b)[i]
    {
      if i >= |a| {
        assert (a + b)[i] == b[i - |a|];
      }
    }
  }

  lemma AllStartWithShorter(lines: seq<string>, p: string, x: string)
    requires AllStartWith(lines, p + x)
    ensures AllStartWith(lines, p)
  {
    forall i | 0 <= i < |lines|
      ensures p <= lines[i]
    {
      PrefixOfPrefix(p, x, lines[i]);
    }
  }

  lemma PrefixOfPrefix(a: string, x: string, c: string)
    requires a + x <= c
    ensures a <= c
  {
    assert c[..|a|] == (a + x)[..|a|] == a;
  }

  /** Every line printTree emits begins with the prefix it was given. */
  lemma {:induction false} LinesPrefixed(m: seq<Entry>, prefix: string)
    ensures AllStartWith(Lines(m, prefix), prefix)
    decreases m, 1
  {
    RenderPrefixed(m, Arrange(m), prefix);
  }

  lemma {:induction false} RenderPrefixed(m: seq<Entry>, es: seq<Entry>, prefix: string)
    requires forall e :: e in es ==> e in m
    ensures AllStartWith(Render(m, es, prefix), prefix)
    decreases m, 0, |es|
  {
    if es != [] {
      var e := es[0];
      assert e in m;
      RenderStep(m, es, prefix);
      var isLast := |es| == 1;
      var head := prefix + Branch(isLast) + Label(e);
      var sub := if IsDirEntry(e) then Lines(e.node.children, prefix + Indent(isLast)) else [];
      var rest := Render(m, es[1..], prefix);
      if IsDirEntry(e) {
        LinesPrefixed(e.node.children, prefix + Indent(isLast));
        AllStartWithShorter(sub, prefix, Indent(isLast));
      }
      RenderPrefixed(m, es[1..], prefix);
      assert head == prefix + (Branch(isLast) + Label(e));
      PrefixOfPrefix(prefix, Branch(isLast) + Label(e), head);
      AllStartWithAppend([head], sub, prefix);
      AllStartWithAppend([head] + sub, rest, prefix);
    }
  }

  /** The line is one of the level's own entry lines: the prefix directly
      followed by a connector. */
  predicate IsEntryLine(line: string, p: string)
  {
    p + Branch(true) <= line || p + Branch(false) <= line
  }

  /** The entry lines of `lines`, in order. */
  function EntryLines(lines: seq<string>, p: string): seq<string>
  {
    if lines == [] then []
    else (if IsEntryLine(lines[0], p) then [lines[0]] else []) + EntryLines(lines[1..], p)
  }

  lemma {:induction false} EntryLinesAppend(a: seq<string>, b: seq<string>, p: string)
    ensures EntryLines(a + b, p) == EntryLines(a, p) + EntryLines(b, p)
  {
    if a == [] {
      assert a + b == b;
    } else {
      assert (a + b)[0] == a[0];
      assert (a + b)[1..] == a[1..] + b;
      EntryLinesAppend(a[1..], b, p);
    }
  }

  /** Lines indented for a deeper level are never entry lines of this one. */
  lemma {:induction false} NoEntryLinesBelow(lines: seq<string>, p: string, b: bool)
    requires AllStartWith(lines, p + Indent(b))
    ensures EntryLines(lines, p) == []
  {
    if lines != [] {
      var l := lines[0];
      assert l[|p|] == (p + Indent(b))[|p|] == Indent(b)[0];
      assert !IsEntryLine(l, p);
      assert AllStartWith(lines[1..], p + Indent(b)) by {
        forall i | 0 <= i < |lines[1..]| ensures p + Indent(b) <= lines[1..][i] {
          assert lines[1..][i] == lines[i + 1];
        }
      }
      NoEntryLinesBelow(lines[1..], p, b);
    }
  }

  /** The entry lines of one level are one per arranged entry, in the
      arranged order (directories first, each group by name): the last with
      `└── `, every other with `├── `, a directory's name with a trailing
      slash. */
  lemma LinesEntryLines(m: seq<Entry>, p: string)
    ensures var a := Arrange(m);
      EntryLines(Lines(m, p), p) == seq(|a|, i requires 0 <= i < |a| => p + Branch(i == |a| - 1) + Label(a[i]))
  {
    RenderEntryLines(m, Arrange(m), p);
  }

  lemma {:induction false} RenderEntryLines(m: seq<Entry>, es: seq<Entry>, p: string)
    requires forall e :: e in es ==> e in m
    ensures EntryLines(Render(m, es, p), p) == seq(|es|, i requires 0 <= i < |es| => p + Branch(i == |es| - 1) + Label(es[i]))
    decreases |es|
  {
    if es != [] {
      var e := es[0];
      RenderStep(m, es, p);
      var isLast := |es| == 1;
      var head := p + Branch(isLast) + Label(e);
      var sub := if IsDirEntry(e) then Lines(e.node.children, p + Indent(isLast)) else [];
      var rest := Render(m, es[1..], p);
      assert head == p + Branch(isLast) + Label(e);
      PrefixOfPrefix(p + Branch(isLast), Label(e), head);
      assert IsEntryLine(head, p);
      assert EntryLines([head], p) == [head];
      if IsDirEntry(e) {
        LinesPrefixed(e.node.children, p + Indent(isLast));
        NoEntryLinesBelow(sub, p, isLast);
      }
      RenderEntryLines(m, es[1..], p);
      EntryLinesAppend([head], sub, p);
      EntryLinesAppend([head] + sub, rest, p);
    }
  }

  // ---------------------------------------------------------------------
  // The rendering depends only on the paths

  /** No two entries of the level share a key. */
  ghost predicate DistinctNames(es: seq<Entry>)
  {
    forall i, j :: 0 <= i < j < |es| ==> es[i].name != es[j].name
  }

  /** Two tries with the same root-to-node paths. */
  ghost predicate SamePaths(t1: DirTreeNode, t2: DirTreeNode)
  {
    forall u :: HasPath(t1, u) <==> HasPath(t2, u)
  }

  /** What the rendering of a level sorts by: directories first, then name. */
  function Key(e: Entry): (bool, string)
  {
    (IsDirEntry(e), e.name)
  }

  function Keys(es: seq<Entry>): (ks: seq<(bool, string)>)
    ensures |ks| == |es| && forall i :: 0 <= i < |es| ==> ks[i] == Key(es[i])
  {
    seq(|es|, i requires 0 <= i < |es| => Key(es[i]))
  }

  /** The order `Arrange` puts keys in: a directory before a file, then by
      name. */
  predicate KeyBefore(p: (bool, string), q: (bool, string))
  {
    (p.0 && !q.0) || (p.0 == q.0 && Below(p.1, q.1))
  }

  lemma KeyBeforeStrict(p: (bool, string), q: (bool, string))
    ensures !KeyBefore(p, p)
    ensures KeyBefore(p, q) ==> !KeyBefore(q, p)
  {
    BelowStrictTotal(p.1, q.1, q.1);
  }

  ghost predicate StrictlyKeyed(ks: seq<(bool, string)>)
  {
    forall i, j :: 0 <= i < j < |ks| ==> KeyBefore(ks[i], ks[j])
  }

  /** A level without repeated keys holds each entry at most once. */
  lemma {:induction false} AtMostOnce(m: seq<Entry>, x: Entry)
    requires DistinctNames(m)
    ensures multiset(m)[x] <= 1
  {
    if m != [] {
      assert m == [m[0]] + m[1..];
      AtMostOnce(m[1..], x);
      if m[0] == x {
        forall k | 0 <= k < |m[1..]|
          ensures m[1..][k] != x
        {
          assert m[1..][k] == m[k + 1];
        }
        assert x !in m[1..];
      }
    }
  }

  /** An entry at two positions is counted twice. */
  lemma TwiceCounted(r: seq<Entry>, i: int, j: int)
    requires 0 <= i < j < |r| && r[i] == r[j]
    ensures multiset(r)[r[i]] >= 2
  {
    assert r == r[..j] + r[j..];
    assert r[i] in r[..j] && r[j] in r[j..];
    assert multiset(r)[r[i]] == multiset(r[..j])[r[i]] + multiset(r[j..])[r[i]];
  }

  /** Arranging a level keeps its keys distinct. */
  lemma ArrangedDistinct(m: seq<Entry>)
    requires DistinctNames(m)
    ensures DistinctNames(Arrange(m))
  {
    var r := Arrange(m);
    forall i, j | 0 <= i < j < |r|
      ensures r[i].name != r[j].name
    {
      if r[i] == r[j] {
        TwiceCounted(r, i, j);
        AtMostOnce(m, r[i]);
      } else {
        assert r[i] in m && r[j] in m;
        var p :| 0 <= p < |m| && m[p] == r[i];
        var q :| 0 <= q < |m| && m[q] == r[j];
        assert p != q;
      }
    }
  }

  /** Arranging a level without repeated keys orders its keys strictly. */
  lemma ArrangedStrict(m: seq<Entry>)
    requires DistinctNames(m)
    ensures StrictlyKeyed(Keys(Arrange(m)))
  {
    var r := Arrange(m);
    ArrangedDistinct(m);
    var ks := Keys(r);
    forall i, j | 0 <= i < j < |ks|
      ensures KeyBefore(ks[i], ks[j])
    {
      BelowStrictTotal(r[i].name, r[j].name, r[j].name);
    }
  }

  lemma HeadIsMember<T>(k: seq<T>)
    ensures k != [] ==> k[0] in k
  {
  }

  /** Two strictly ordered key sequences with the same keys are equal. */
  lemma {:induction false} StrictSortedUnique(k1: seq<(bool, string)>, k2: seq<(bool, string)>)
    requires StrictlyKeyed(k1) && StrictlyKeyed(k2)
    requires forall x :: x in k1 <==> x in k2
    ensures k1 == k2
    decreases |k1|
  {
    if k1 == [] {
      HeadIsMember(k2);
    } else {
      assert k1[0] in k2 && k2[0] in k1;
      var j :| 0 <= j < |k2| && k2[j] == k1[0];
      var i :| 0 <= i < |k1| && k1[i] == k2[0];
      if i > 0 && j > 0 {
        KeyBeforeStrict(k1[0], k2[0]);
      }
      assert k1[0] == k2[0];
      forall x
        ensures x in k1[1..] <==> x in k2[1..]
      {
        if x in k1[1..] {
          var a :| 1 <= a < |k1| && k1[a] == x;
          KeyBeforeStrict(k1[0], x);
          assert x in k2;
        }
        if x in k2[1..] {
          var b :| 1 <= b < |k2| && k2[b] == x;
          KeyBeforeStrict(k2[0], x);
          assert x in k1;
        }
      }
      StrictSortedUnique(k1[1..], k2[1..]);
      assert k1 == [k1[0]] + k1[1..] && k2 == [k2[0]] + k2[1..];
    }
  }

  /** Below a key of a level without repeated keys lie exactly the paths of
      the subtree under that key. */
  lemma PathThrough(m: seq<Entry>, e: Entry, u: seq<string>)
    requires DistinctNames(m) && e in m
    ensures HasPath(DirTreeNode(m), [e.name] + u) <==> HasPath(e.node, u)
  {
    var v := [e.name] + u;
    assert v[0] == e.name && v[1..] == u;
    var p :| 0 <= p < |m| && m[p] == e;
    if HasPath(DirTreeNode(m), v) {
      var i :| 0 <= i < |m| && m[i].name == v[0] && HasPath(m[i].node, v[1..]);
      assert i == p;
    }
  }

  /** Under the same key, two tries with the same paths have subtries with
      the same paths, and both or neither of them is a directory. */
  lemma SubtriesAgree(m1: seq<Entry>, m2: seq<Entry>, e1: Entry, e2: Entry)
    requires DistinctNames(m1) && DistinctNames(m2)
    requires SamePaths(DirTreeNode(m1), DirTreeNode(m2))
    requires e1 in m1 && e2 in m2 && e1.name == e2.name
    ensures SamePaths(e1.node, e2.node)
    ensures Key(e1) == Key(e2)
  {
    forall u
      ensures HasPath(e1.node, u) <==> HasPath(e2.node, u)
    {
      PathThrough(m1, e1, u);
      PathThrough(m2, e2, u);
    }
    if IsDirEntry(e1) {
      var c := [e1.node.children[0].name];
      assert HasPath(e1.node.children[0].node, c[1..]);
      assert HasPath(e1.node, c);
    }
    if IsDirEntry(e2) {
      var c := [e2.node.children[0].name];
      assert HasPath(e2.node.children[0].node, c[1..]);
      assert HasPath(e2.node, c);
    }
  }

  /** Each key of one level appears, with its kind, in the other. */
  lemma KeyFound(m1: seq<Entry>, m2: seq<Entry>, e1: Entry)
    requires DistinctNames(m1) && DistinctNames(m2)
    requires SamePaths(DirTreeNode(m1), DirTreeNode(m2))
    requires e1 in m1
    ensures Key(e1) in Keys(Arrange(m2))
  {
    PathThrough(m1, e1, []);
    assert [e1.name] + [] == [e1.name];
    assert HasPath(DirTreeNode(m2), [e1.name]);
    var i :| 0 <= i < |m2| && m2[i].name == e1.name && HasPath(m2[i].node, [e1.name][1..]);
    SubtriesAgree(m1, m2, e1, m2[i]);
    var a := Arrange(m2);
    assert m2[i] in a;
    var k :| 0 <= k < |a| && a[k] == m2[i];
    assert Keys(a)[k] == Key(e1);
  }

  lemma KeysCovered(m1: seq<Entry>, m2: seq<Entry>, x: (bool, string))
    requires DistinctNames(m1) && DistinctNames(m2)
    requires SamePaths(DirTreeNode(m1), DirTreeNode(m2))
    ensures x in Keys(Arrange(m1)) ==> x in Keys(Arrange(m2))
  {
    var a1 := Arrange(m1);
    if x in Keys(a1) {
      var k :| 0 <= k < |a1| && Keys(a1)[k] == x;
      assert a1[k] in m1;
      KeyFound(m1, m2, a1[k]);
    }
  }

  /** Two well-formed tries with the same paths arrange their top level
      into the same keys. */
  lemma SameKeys(m1: seq<Entry>, m2: seq<Entry>)
    requires WellFormed(DirTreeNode(m1)) && WellFormed(DirTreeNode(m2))
    requires SamePaths(DirTreeNode(m1), DirTreeNode(m2))
    ensures Keys(Arrange(m1)) == Keys(Arrange(m2))
  {
    var a1, a2 := Arrange(m1), Arrange(m2);
    forall x
      ensures x in Keys(a1) <==> x in Keys(a2)
    {
      KeysCovered(m1, m2, x);
      KeysCovered(m2, m1, x);
    }
    ArrangedStrict(m1);
    ArrangedStrict(m2);
    StrictSortedUnique(Keys(a1), Keys(a2));
  }

  /** printTree's lines depend only on the paths of the trie, not on the
      order in which its keys were inserted. */
  lemma {:induction false} LinesSame(m1: seq<Entry>, m2: seq<Entry>, p: string)
    requires WellFormed(DirTreeNode(m1)) && WellFormed(DirTreeNode(m2))
    requires SamePaths(DirTreeNode(m1), DirTreeNode(m2))
    ensures Lines(m1, p) == Lines(m2, p)
    decreases Size(m1), 1
  {
    SameKeys(m1, m2);
    RenderSame(m1, m2, 0, p);
  }

  lemma {:induction false} RenderSame(m1: seq<Entry>, m2: seq<Entry>, i: int, p: string)
    requires WellFormed(DirTreeNode(m1)) && WellFormed(DirTreeNode(m2))
    requires SamePaths(DirTreeNode(m1), DirTreeNode(m2))
    requires Keys(Arrange(m1)) == Keys(Arrange(m2))
    requires 0 <= i <= |Arrange(m1)|
    ensures Render(m1, Arrange(m1)[i..], p) == Render(m2, Arrange(m2)[i..], p)
    decreases Size(m1), 0, |Arrange(m1)| - i
  {
    var a1, a2 := Arrange(m1), Arrange(m2);
    if i < |a1| {
      var e1, e2 := a1[i], a2[i];
      assert Key(e1) == Keys(a1)[i] == Keys(a2)[i] == Key(e2);
      assert e1 in m1 && e2 in m2;
      var isLast := i == |a1| - 1;
      RenderStep(m1, a1[i..], p);
      RenderStep(m2, a2[i..], p);
      assert a1[i..][1..] == a1[i + 1..] && a2[i..][1..] == a2[i + 1..];
      if IsDirEntry(e1) {
        var j1 :| 0 <= j1 < |m1| && m1[j1] == e1;
        var j2 :| 0 <= j2 < |m2| && m2[j2] == e2;
        SubtriesAgree(m1, m2, e1, e2);
        SizeOfMember(m1, e1);
        LinesSame(e1.node.children, e2.node.children, p + Indent(isLast));
      }
      RenderSame(m1, m2, i + 1, p);
    }
  }

  /** buildDirTree then printTree: giving the same paths in another order,
      or repeated, prints the same lines. */
  lemma BuildRenderOrderIndependent(a: seq<seq<string>>, b: seq<seq<string>>, p: string)
    requires forall s :: s in a <==> s in b
    ensures Lines(Build(a).children, p) == Lines(Build(b).children, p)
  {
    BuildWellFormed(a);
    BuildWellFormed(b);
    forall u
      ensures HasPath(Build(a), u) <==> HasPath(Build(b), u)
    {
      BuildOrderIndependent(a, b, u);
    }
    LinesSame(Build(a).children, Build(b).children, p);
  }
}
