/** The filesystem snapshot the selection engine works on: a tagged union of
    directories and files, each carrying its per-node UI state. */
module FsTypes {

  datatype Option<T> = None | Some(value: T)

  /** The three selection states a directory can show. */
  datatype TriState = Checked | Unchecked | PartiallyChecked

  /** A file is a leaf and never shows the partial state. */
  type BiState = s: TriState | s != PartiallyChecked witness Unchecked

  /** A directory's optional child list. `Absent` and `Present([])` are kept
      apart because every operation keeps them apart (`children?.map`). */
  datatype Children = Absent | Present(items: seq<FsNode>)

  /** `isOpen` is optional on a directory; an absent flag reads as closed. */
  datatype FsNode =
    | Dir(name: string, path: string, children: Children, isOpen: Option<bool>, dirState: TriState)
    | File(name: string, path: string, fileState: BiState)

  /** The children of a node, an absent list read as empty. */
  function Kids(n: FsNode): (cs: seq<FsNode>)
    ensures forall c :: c in cs ==> c < n
    ensures n.File? ==> cs == []
  {
    match n
    case Dir(_, _, Present(cs), _, _) => cs
    case _ => []
  }

  /** The selection state of either kind of node. */
  function State(n: FsNode): (s: TriState)
    ensures n.File? ==> s != PartiallyChecked
    ensures n.Dir? ==> s == n.dirState
  {
    match n
    case Dir(_, _, _, _, s) => s
    case File(_, _, s) => s
  }

  /** True when the directory shows as expanded. */
  predicate Opened(n: FsNode)
  {
    n.Dir? && n.isOpen == Some(true)
  }

  /** A node with nothing below it: a file, or a directory whose child list is
      absent or empty. */
  predicate Leaf(n: FsNode)
  {
    |Kids(n)| == 0
  }

  /** Some node of the subtree has path `q`. */
  ghost predicate Contains(n: FsNode, q: string)
  {
    n.path == q || exists i :: 0 <= i < |Kids(n)| && Contains(Kids(n)[i], q)
  }

  /** No two nodes of the subtree share a path. Nothing in the system enforces
      this; the operations that look nodes up by path take it as given. */
  ghost predicate Unique(n: FsNode)
  {
    var cs := Kids(n);
    && (forall i :: 0 <= i < |cs| ==> !Contains(cs[i], n.path))
    && (forall i :: 0 <= i < |cs| ==> Unique(cs[i]))
    && (forall i, j, q :: 0 <= i < j < |cs| && Contains(cs[i], q) ==> !Contains(cs[j], q))
  }

  /** The node of the subtree whose path is `q`, if any (meaningful when paths
      are unique). */
  ghost function Lookup(n: FsNode, q: string): (r: Option<FsNode>)
    ensures r.Some? <==> Contains(n, q)
    ensures r.Some? ==> r.value.path == q
  {
    if n.path == q then Some(n)
    else if exists i :: 0 <= i < |Kids(n)| && Contains(Kids(n)[i], q) then
      var i :| 0 <= i < |Kids(n)| && Contains(Kids(n)[i], q);
      Lookup(Kids(n)[i], q)
    else None
  }

  /** Every node of the subtree is in state `s`. */
  ghost predicate Uniform(n: FsNode, s: TriState)
  {
    State(n) == s && forall i :: 0 <= i < |Kids(n)| ==> Uniform(Kids(n)[i], s)
  }

  /** The same tree with every selection state replaced by `Unchecked`: two
      trees with equal erasures differ at most in their states. */
  function EraseState(n: FsNode): (r: FsNode)
    ensures r.path == n.path && r.name == n.name && (r.Dir? <==> n.Dir?)
    ensures |Kids(r)| == |Kids(n)|
    ensures forall i :: 0 <= i < |Kids(n)| ==> Kids(r)[i] == EraseState(Kids(n)[i])
  {
    match n
    case File(nm, p, _) => File(nm, p, Unchecked)
    case Dir(nm, p, ch, o, _) =>
      var ch' := match ch
        case Absent => Absent
        case Present(cs) => Present(seq(|cs|, i requires 0 <= i < |cs| => EraseState(cs[i])));
      Dir(nm, p, ch', o, Unchecked)
  }

  /** The same tree with every `isOpen` flag removed: two trees with equal
      erasures differ at most in their expand/collapse flags. */
  function EraseOpen(n: FsNode): (r: FsNode)
    ensures r.path == n.path && r.name == n.name && State(r) == State(n) && (r.Dir? <==> n.Dir?)
    ensures |Kids(r)| == |Kids(n)|
    ensures forall i :: 0 <= i < |Kids(n)| ==> Kids(r)[i] == EraseOpen(Kids(n)[i])
  {
    match n
    case File(_, _, _) => n
    case Dir(nm, p, ch, _, s) =>
      var ch' := match ch
        case Absent => Absent
        case Present(cs) => Present(seq(|cs|, i requires 0 <= i < |cs| => EraseOpen(cs[i])));
      Dir(nm, p, ch', None, s)
  }

  /** Two trees with the same paths arranged the same way. */
  ghost predicate SameShape(a: FsNode, b: FsNode)
  {
    && a.path == b.path
    && |Kids(a)| == |Kids(b)|
    && forall i :: 0 <= i < |Kids(a)| ==> SameShape(Kids(a)[i], Kids(b)[i])
  }

  /** Both erasures keep the shape of the tree. */
  lemma {:induction false} ErasuresKeepShape(n: FsNode)
    ensures SameShape(n, EraseState(n)) && SameShape(n, EraseOpen(n))
  {
    forall i | 0 <= i < |Kids(n)| {
      ErasuresKeepShape(Kids(n)[i]);
    }
  }

  /** Trees of the same shape hold the same paths. */
  lemma {:induction false} ShapeKeepsContains(a: FsNode, b: FsNode)
    requires SameShape(a, b)
    ensures forall q :: Contains(a, q) <==> Contains(b, q)
  {
    forall i | 0 <= i < |Kids(a)| {
      ShapeKeepsContains(Kids(a)[i], Kids(b)[i]);
    }
    forall q ensures Contains(a, q) <==> Contains(b, q) {
      if Contains(a, q) && a.path != q {
        var i :| 0 <= i < |Kids(a)| && Contains(Kids(a)[i], q);
        assert Contains(Kids(b)[i], q);
      }
      if Contains(b, q) && b.path != q {
        var i :| 0 <= i < |Kids(b)| && Contains(Kids(b)[i], q);
        assert Contains(Kids(a)[i], q);
      }
    }
  }

  /** Trees of the same shape agree on the uniqueness of their paths. */
  lemma {:induction false} ShapeKeepsUnique(a: FsNode, b: FsNode)
    requires SameShape(a, b)
    ensures Unique(a) <==> Unique(b)
  {
    forall i | 0 <= i < |Kids(a)|
      ensures forall q :: Contains(Kids(a)[i], q) <==> Contains(Kids(b)[i], q)
      ensures Unique(Kids(a)[i]) <==> Unique(Kids(b)[i])
    {
      ShapeKeepsContains(Kids(a)[i], Kids(b)[i]);
      ShapeKeepsUnique(Kids(a)[i], Kids(b)[i]);
    }
  }

  /** Two trees that differ only in their states hold the same paths. */
  lemma SameStatelessPaths(a: FsNode, b: FsNode)
    requires EraseState(a) == EraseState(b)
    ensures forall q :: Contains(a, q) <==> Contains(b, q)
    ensures Unique(a) <==> Unique(b)
  {
    ErasuresKeepShape(a);
    ErasuresKeepShape(b);
    ShapeKeepsContains(a, EraseState(a));
    ShapeKeepsContains(b, EraseState(b));
    ShapeKeepsUnique(a, EraseState(a));
    ShapeKeepsUnique(b, EraseState(b));
  }

  /** Two trees that differ only in their expand flags hold the same paths. */
  lemma SameFlaglessPaths(a: FsNode, b: FsNode)
    requires EraseOpen(a) == EraseOpen(b)
    ensures forall q :: Contains(a, q) <==> Contains(b, q)
    ensures Unique(a) <==> Unique(b)
  {
    ErasuresKeepShape(a);
    ErasuresKeepShape(b);
    ShapeKeepsContains(a, EraseOpen(a));
    ShapeKeepsContains(b, EraseOpen(b));
    ShapeKeepsUnique(a, EraseOpen(a));
    ShapeKeepsUnique(b, EraseOpen(b));
  }

  /** With unique paths, a path below the root lies in one child only. */
  lemma OnlyKidHolds(n: FsNode, q: string, j: int)
    requires Unique(n)
    requires 0 <= j < |Kids(n)| && Contains(Kids(n)[j], q)
    ensures forall i :: 0 <= i < |Kids(n)| && i != j ==> !Contains(Kids(n)[i], q)
  {
    var cs := Kids(n);
    forall i | 0 <= i < |cs| && i != j
      ensures !Contains(cs[i], q)
    {
      if i < j {
        assert Contains(cs[j], q);
      } else {
        assert !Contains(cs[i], q);
      }
    }
  }

  /** With unique paths, looking below the root means looking in the one
      child whose subtree holds the path. */
  lemma LookupInKid(n: FsNode, q: string, j: int)
    requires Unique(n) && n.path != q
    requires 0 <= j < |Kids(n)| && Contains(Kids(n)[j], q)
    ensures Lookup(n, q) == Lookup(Kids(n)[j], q)
  {
    OnlyKidHolds(n, q, j);
  }

  /** A subtree found by lookup lies inside the tree it was found in, and
      keeps the uniqueness of paths. */
  lemma {:induction false} LookupInside(n: FsNode, q: string)
    requires Lookup(n, q).Some?
    ensures forall z :: Contains(Lookup(n, q).value, z) ==> Contains(n, z)
    ensures Unique(n) ==> Unique(Lookup(n, q).value)
  {
    if n.path != q {
      var i :| 0 <= i < |Kids(n)| && Contains(Kids(n)[i], q) && Lookup(n, q) == Lookup(Kids(n)[i], q);
      LookupInside(Kids(n)[i], q);
    }
  }
}
