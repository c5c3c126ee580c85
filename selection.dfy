/** The selection engine: pure transformations of a snapshot tree that
    collapse it, expand or collapse one directory, and toggle the selection of
    one node with a cascade down and a recompute of every directory above. */
module Selection {
  import opened FsTypes

  // ---------------------------------------------------------------------
  // Specification predicates

  /** Every directory of the subtree is marked closed. */
  ghost predicate AllClosed(n: FsNode)
  {
    && (n.Dir? ==> n.isOpen == Some(false))
    && forall i :: 0 <= i < |Kids(n)| ==> AllClosed(Kids(n)[i])
  }

  /** Every directory of the subtree carries an explicit expand flag. */
  ghost predicate FlagsSet(n: FsNode)
  {
    && (n.Dir? ==> n.isOpen.Some?)
    && forall i :: 0 <= i < |Kids(n)| ==> FlagsSet(Kids(n)[i])
  }

  /** Some directory of the subtree has path `p`. */
  ghost predicate HasDir(n: FsNode, p: string)
  {
    (n.Dir? && n.path == p) || exists i :: 0 <= i < |Kids(n)| && HasDir(Kids(n)[i], p)
  }

  /** The tri-state rule for a directory with children `cs`: checked exactly
      when every child is checked, unchecked exactly when every child is
      unchecked, and partially checked otherwise. */
  ghost predicate StateRule(s: TriState, cs: seq<FsNode>)
  {
    && (s == Checked <==> forall i :: 0 <= i < |cs| ==> State(cs[i]) == Checked)
    && (s == Unchecked <==> forall i :: 0 <= i < |cs| ==> State(cs[i]) == Unchecked)
  }

  /** Every directory with at least one child obeys the tri-state rule. */
  ghost predicate Consistent(n: FsNode)
  {
    && (n.Dir? && |Kids(n)| > 0 ==> StateRule(n.dirState, Kids(n)))
    && forall i :: 0 <= i < |Kids(n)| ==> Consistent(Kids(n)[i])
  }

  // ---------------------------------------------------------------------
  // initTree

  /** Closes every directory. Selection states, names, paths, kinds and the
      order of children are kept; a file is returned as it is. */
  function InitTree(n: FsNode): (r: FsNode)
    ensures EraseOpen(r) == EraseOpen(n)
    ensures AllClosed(r)
  {
    match n
    case File(_, _, _) => n
    case Dir(nm, p, ch, _, s) =>
      var ch' := match ch
        case Absent => Absent
        case Present(cs) => Present(seq(|cs|, i requires 0 <= i < |cs| => InitTree(cs[i])));
      var r := Dir(nm, p, ch', Some(false), s);
      assert EraseOpen(r) == EraseOpen(n) by {
        if ch.Present? {
          var cs := ch.items;
          assert forall i :: 0 <= i < |cs| ==> EraseOpen(InitTree(cs[i])) == EraseOpen(cs[i]);
          assert Kids(EraseOpen(r)) == Kids(EraseOpen(n));
        }
      }
      r
  }

  /** A tree that is already closed everywhere is a fixpoint of InitTree. */
  lemma {:induction false} InitTreeOfClosed(n: FsNode)
    requires AllClosed(n)
    ensures InitTree(n) == n
  {
    if n.Dir? && n.children.Present? {
      var cs := Kids(n);
      forall i | 0 <= i < |cs| ensures InitTree(cs[i]) == cs[i] {
        InitTreeOfClosed(cs[i]);
      }
      assert Kids(InitTree(n)) == cs;
    }
  }

  /** Initializing twice is the same as initializing once. */
  lemma InitTreeIdempotent(n: FsNode)
    ensures InitTree(InitTree(n)) == InitTree(n)
  {
    InitTreeOfClosed(InitTree(n));
  }

  // ---------------------------------------------------------------------
  // toggleNode

  /** Flips the expand flag of the directory whose path is `p`. The search
      stops at a match and does not look below it; files are never changed. */
  function Toggle(n: FsNode, p: string): (r: FsNode)
    ensures EraseOpen(r) == EraseOpen(n)
    ensures !HasDir(n, p) ==> r == n
  {
    match n
    case File(_, _, _) => n
    case Dir(_, q, ch, _, _) =>
      if q == p then
        n.(isOpen := Some(!Opened(n)))
      else
        match ch
        case Absent => n
        case Present(cs) =>
          var r := n.(children := Present(seq(|cs|, i requires 0 <= i < |cs| => Toggle(cs[i], p))));
          assert EraseOpen(r) == EraseOpen(n) by {
            assert forall i :: 0 <= i < |cs| ==> EraseOpen(Toggle(cs[i], p)) == EraseOpen(cs[i]);
            assert Kids(EraseOpen(r)) == Kids(EraseOpen(n));
          }
          assert !HasDir(n, p) ==> r == n by {
            if !HasDir(n, p) {
              assert forall i :: 0 <= i < |cs| ==> !HasDir(cs[i], p);
              assert Kids(r) == cs;
            }
          }
          r
  }

  /** toggleNode on the session's tree cell: an empty cell stays empty. */
  function ToggleNode(tree: Option<FsNode>, p: string): (r: Option<FsNode>)
    ensures r.Some? <==> tree.Some?
    ensures tree.Some? ==> EraseOpen(r.value) == EraseOpen(tree.value)
  {
    match tree
    case None => None
    case Some(t) => Some(Toggle(t, p))
  }

  /** Toggling the same path twice restores the tree, provided every
      directory carries an explicit expand flag. */
  lemma {:induction false} ToggleTwice(n: FsNode, p: string)
    requires FlagsSet(n)
    ensures Toggle(Toggle(n, p), p) == n
  {
    if n.Dir? && n.path == p {
      var b := n.isOpen.value;
      assert n.isOpen == Some(b);
      if b { assert Opened(n); } else { assert !Opened(n); }
    } else if n.Dir? && n.children.Present? {
      var cs := Kids(n);
      forall i | 0 <= i < |cs| ensures Toggle(Toggle(cs[i], p), p) == cs[i] {
        ToggleTwice(cs[i], p);
      }
      var t1 := Toggle(n, p);
      assert t1 == n.(children := Present(seq(|cs|, i requires 0 <= i < |cs| => Toggle(cs[i], p))));
      var t2 := Toggle(t1, p);
      var xs := seq(|cs|, i requires 0 <= i < |cs| => Toggle(Kids(t1)[i], p));
      assert t2 == t1.(children := Present(xs));
      assert xs == cs;
      assert n.children == Present(cs);
    }
  }

  /** After initialisation every directory carries an explicit flag, so
      ToggleTwice applies to every tree the session holds. */
  lemma {:induction false} ClosedHasFlags(n: FsNode)
    requires AllClosed(n)
    ensures FlagsSet(n)
  {
    forall i | 0 <= i < |Kids(n)| {
      ClosedHasFlags(Kids(n)[i]);
    }
  }

  /** Toggling keeps every directory's flag explicit. */
  lemma {:induction false} ToggleKeepsFlagsSet(n: FsNode, p: string)
    requires FlagsSet(n)
    ensures FlagsSet(Toggle(n, p))
  {
    if n.Dir? && n.path != p && n.children.Present? {
      var cs := Kids(n);
      forall i | 0 <= i < |cs| ensures FlagsSet(Toggle(cs[i], p)) {
        ToggleKeepsFlagsSet(cs[i], p);
      }
      assert Kids(Toggle(n, p)) == seq(|cs|, i requires 0 <= i < |cs| => Toggle(cs[i], p));
    }
  }

  /** A directory with path `p` is in particular a node with path `p`. */
  lemma {:induction false} HasDirContains(n: FsNode, p: string)
    requires HasDir(n, p)
    ensures Contains(n, p)
  {
    if !(n.Dir? && n.path == p) {
      var i :| 0 <= i < |Kids(n)| && HasDir(Kids(n)[i], p);
      HasDirContains(Kids(n)[i], p);
    }
  }

  /** Looking a path up after a toggle finds the toggled version of the node
      found before. */
  lemma {:induction false} LookupToggle(n: FsNode, p: string, q: string)
    requires Unique(n) && Lookup(n, q).Some?
    ensures Lookup(Toggle(n, p), q) == Some(Toggle(Lookup(n, q).value, p))
    decreases n, 1
  {
    if n.path != q {
      var i :| 0 <= i < |Kids(n)| && Contains(Kids(n)[i], q);
      if n.path == p {
        LookupToggleAtMatch(n, p, q, i);
      } else {
        LookupToggleBelow(n, p, q, i);
      }
    }
  }

  /** LookupToggle when the path lies below a root the toggle passes through. */
  lemma {:induction false} LookupToggleBelow(n: FsNode, p: string, q: string, i: int)
    requires Unique(n) && n.path != q && n.path != p
    requires 0 <= i < |Kids(n)| && Contains(Kids(n)[i], q)
    ensures Lookup(Toggle(n, p), q) == Some(Toggle(Lookup(n, q).value, p))
    decreases n, 0
  {
    var k := Kids(n)[i];
    assert k in Kids(n);
    assert k < n;
    LookupInKid(n, q, i);
    ToggleLookupInKid(n, p, q, i);
    LookupToggle(k, p, q);
  }

  /** LookupToggle when the root itself is the toggled directory. */
  lemma LookupToggleAtMatch(n: FsNode, p: string, q: string, i: int)
    requires Unique(n) && n.path == p && n.path != q
    requires 0 <= i < |Kids(n)| && Contains(Kids(n)[i], q)
    ensures Lookup(Toggle(n, p), q) == Some(Toggle(Lookup(n, q).value, p))
  {
    var r := Toggle(n, p);
    SameFlaglessPaths(n, r);
    LookupInKid(n, q, i);
    LookupInside(Kids(n)[i], q);
    var x := Lookup(n, q).value;
    assert !Contains(x, p);
    if HasDir(x, p) { HasDirContains(x, p); }
    assert Kids(r) == Kids(n);
    LookupInKid(r, q, i);
  }

  /** Below a non-matching root, a toggled tree is searched in the toggled
      child that holds the path. */
  lemma ToggleLookupInKid(n: FsNode, p: string, q: string, i: int)
    requires Unique(n) && n.path != p && n.path != q
    requires 0 <= i < |Kids(n)| && Contains(Kids(n)[i], q)
    ensures Lookup(Toggle(n, p), q) == Lookup(Toggle(Kids(n)[i], p), q)
  {
    var r := Toggle(n, p);
    var ki := Kids(n)[i];
    var ri := Toggle(ki, p);
    assert Kids(r)[i] == ri;
    assert Unique(r) && Contains(ri, q) by {
      SameFlaglessPaths(n, r);
      SameFlaglessPaths(ki, ri);
    }
    LookupInKid(r, q, i);
  }

  /** The directory named by `p` has its expand flag flipped and nothing else
      of it changes. */
  lemma ToggleFlipsTarget(n: FsNode, p: string)
    requires Unique(n) && Lookup(n, p).Some? && Lookup(n, p).value.Dir?
    ensures var d := Lookup(n, p).value;
      Lookup(Toggle(n, p), p) == Some(d.(isOpen := Some(!Opened(d))))
  {
    LookupToggle(n, p, p);
  }

  /** Every other node keeps its expand flag. */
  lemma ToggleKeepsOtherFlags(n: FsNode, p: string, q: string)
    requires Unique(n) && q != p && Lookup(n, q).Some?
    ensures Lookup(Toggle(n, p), q).Some?
    ensures var x, y := Lookup(n, q).value, Lookup(Toggle(n, p), q).value;
      EraseOpen(y) == EraseOpen(Toggle(x, p)) && (x.Dir? ==> y.isOpen == x.isOpen)
  {
    LookupToggle(n, p, q);
  }

  // ---------------------------------------------------------------------
  // toggleSelect

  /** The state a toggled node moves to: checked becomes unchecked, anything
      else (unchecked or partially checked) becomes checked. */
  function Flip(s: TriState): (r: BiState)
    ensures r == Unchecked <==> s == Checked
  {
    if s == Checked then Unchecked else Checked
  }

  /** Sets `s` on the node and every node below it. */
  function ApplySubtree(n: FsNode, s: BiState): (r: FsNode)
    ensures EraseState(r) == EraseState(n)
    ensures Uniform(r, s)
  {
    match n
    case File(nm, p, _) => File(nm, p, s)
    case Dir(nm, p, ch, o, _) =>
      var ch' := match ch
        case Absent => Absent
        case Present(cs) => Present(seq(|cs|, i requires 0 <= i < |cs| => ApplySubtree(cs[i], s)));
      var r := Dir(nm, p, ch', o, s);
      assert EraseState(r) == EraseState(n) by {
        if ch.Present? {
          var cs := ch.items;
          assert forall i :: 0 <= i < |cs| ==> EraseState(ApplySubtree(cs[i], s)) == EraseState(cs[i]);
          assert Kids(EraseState(r)) == Kids(EraseState(n));
        }
      }
      r
  }

  /** The cascade down: the node whose path is `p` and its whole subtree take
      the flipped state of that node; the search stops at a match. */
  function ApplyToggle(n: FsNode, p: string): (r: FsNode)
    ensures EraseState(r) == EraseState(n)
    ensures !Contains(n, p) ==> r == n
  {
    if n.path == p then ApplySubtree(n, Flip(State(n)))
    else
      match n
      case Dir(_, _, Present(cs), _, _) =>
        var r := n.(children := Present(seq(|cs|, i requires 0 <= i < |cs| => ApplyToggle(cs[i], p))));
        assert EraseState(r) == EraseState(n) by {
          assert forall i :: 0 <= i < |cs| ==> EraseState(ApplyToggle(cs[i], p)) == EraseState(cs[i]);
          assert Kids(EraseState(r)) == Kids(EraseState(n));
        }
        assert !Contains(n, p) ==> r == n by {
          if !Contains(n, p) {
            assert forall i :: 0 <= i < |cs| ==> !Contains(cs[i], p);
            assert Kids(r) == cs;
          }
        }
        r
      case _ => n
  }

  /** The state a directory takes from its (already recomputed) children. */
  function Recompute(cs: seq<FsNode>): (s: TriState)
    ensures |cs| > 0 ==> StateRule(s, cs)
  {
    var allChecked := forall i :: 0 <= i < |cs| ==> State(cs[i]) == Checked;
    var noneChecked := forall i :: 0 <= i < |cs| ==> State(cs[i]) == Unchecked;
    assert |cs| > 0 && allChecked ==> !noneChecked by {
      if |cs| > 0 && allChecked { assert State(cs[0]) == Checked; }
    }
    if allChecked then Checked else if noneChecked then Unchecked else PartiallyChecked
  }

  /** The recompute up: every directory with at least one child takes its
      state from its recomputed children; files and childless directories are
      returned as they are. */
  function Recalc(n: FsNode): (r: FsNode)
    ensures EraseState(r) == EraseState(n)
    ensures Consistent(r)
    ensures Leaf(n) ==> r == n
    ensures Consistent(n) ==> r == n
  {
    match n
    case Dir(_, _, Present(cs), _, _) =>
      if |cs| > 0 then
        var cs' := seq(|cs|, i requires 0 <= i < |cs| => Recalc(cs[i]));
        var r := n.(children := Present(cs'), dirState := Recompute(cs'));
        assert EraseState(r) == EraseState(n) by {
          assert forall i :: 0 <= i < |cs| ==> EraseState(Recalc(cs[i])) == EraseState(cs[i]);
          assert Kids(EraseState(r)) == Kids(EraseState(n));
        }
        assert Kids(r) == cs';
        assert Consistent(r) by {
          assert StateRule(r.dirState, cs');
        }
        assert Consistent(n) ==> r == n by {
          if Consistent(n) {
            assert forall i :: 0 <= i < |cs| ==> Recalc(cs[i]) == cs[i];
            assert cs' == cs;
            StateRuleDetermined(Recompute(cs), n.dirState, cs);
          }
        }
        r
      else n
    case _ => n
  }

  /** toggleSelect on a loaded tree: the cascade down, then the recompute up. */
  function ToggleSelectIn(n: FsNode, p: string): (r: FsNode)
    ensures EraseState(r) == EraseState(n)
    ensures Consistent(r)
    ensures !Contains(n, p) ==> r == Recalc(n)
    ensures !Contains(n, p) && Consistent(n) ==> r == n
  {
    Recalc(ApplyToggle(n, p))
  }

  /** toggleSelect on the session's tree cell: an empty cell stays empty. */
  function ToggleSelect(tree: Option<FsNode>, p: string): (r: Option<FsNode>)
    ensures r.Some? <==> tree.Some?
    ensures tree.Some? ==> EraseState(r.value) == EraseState(tree.value) && Consistent(r.value)
  {
    match tree
    case None => None
    case Some(t) => Some(ToggleSelectIn(t, p))
  }

  // ---------------------------------------------------------------------
  // Properties of toggleSelect

  /** A uniform binary state is exactly a consistent subtree whose root shows
      that state. */
  lemma {:induction false} UniformIffConsistent(n: FsNode, s: TriState)
    requires s != PartiallyChecked
    ensures Uniform(n, s) <==> Consistent(n) && State(n) == s
  {
    var cs := Kids(n);
    forall i | 0 <= i < |cs| {
      UniformIffConsistent(cs[i], s);
    }
    if |cs| > 0 {
      assert State(cs[0]) == s ==> State(cs[0]) != Flip(s);
    }
  }

  /** Two trees that differ only in their states and are both uniform in the
      same state are equal. */
  lemma {:induction false} UniformDetermined(a: FsNode, b: FsNode, s: TriState)
    requires EraseState(a) == EraseState(b)
    requires Uniform(a, s) && Uniform(b, s)
    ensures a == b
  {
    forall i | 0 <= i < |Kids(a)|
      ensures Kids(a)[i] == Kids(b)[i]
    {
      UniformDetermined(Kids(a)[i], Kids(b)[i], s);
    }
    if a.Dir? && a.children.Present? {
      assert Kids(a) == Kids(b);
    }
  }

  /** The tri-state rule leaves a non-empty directory exactly one state. */
  lemma StateRuleDetermined(s: TriState, t: TriState, cs: seq<FsNode>)
    requires |cs| > 0 && StateRule(s, cs) && StateRule(t, cs)
    ensures s == t
  {
  }

  /** A consistent tree has consistent subtrees. */
  lemma {:induction false} LookupKeepsConsistent(n: FsNode, q: string)
    requires Consistent(n) && Lookup(n, q).Some?
    ensures Consistent(Lookup(n, q).value)
  {
    if n.path != q {
      var i :| 0 <= i < |Kids(n)| && Contains(Kids(n)[i], q) && Lookup(n, q) == Lookup(Kids(n)[i], q);
      LookupKeepsConsistent(Kids(n)[i], q);
    }
  }

  /** After a change of states only, a path below the root is still found in
      the same child. */
  lemma LookupInKidAfter(n: FsNode, r: FsNode, q: string, i: int)
    requires Unique(n) && n.path != q && EraseState(r) == EraseState(n)
    requires 0 <= i < |Kids(n)| && Contains(Kids(n)[i], q)
    ensures 0 <= i < |Kids(r)| && Lookup(r, q) == Lookup(Kids(r)[i], q)
  {
    SameStatelessPaths(n, r);
    assert EraseState(Kids(r)[i]) == EraseState(Kids(n)[i]);
    SameStatelessPaths(Kids(n)[i], Kids(r)[i]);
    LookupInKid(r, q, i);
  }

  /** The cascade, seen from a node whose subtree holds the target (the
      target itself or one of its ancestors): the node is the cascade of what
      it was. */
  lemma {:induction false} LookupApplyToggleAbove(n: FsNode, p: string, q: string)
    requires Unique(n) && Lookup(n, q).Some? && Contains(Lookup(n, q).value, p)
    ensures Lookup(ApplyToggle(n, p), q) == Some(ApplyToggle(Lookup(n, q).value, p))
    decreases n, 1
  {
    if n.path != q {
      var i :| 0 <= i < |Kids(n)| && Contains(Kids(n)[i], q);
      LookupApplyToggleAboveKid(n, p, q, i);
    }
  }

  /** LookupApplyToggleAbove, one level down. */
  lemma {:induction false} LookupApplyToggleAboveKid(n: FsNode, p: string, q: string, i: int)
    requires Unique(n) && Lookup(n, q).Some? && Contains(Lookup(n, q).value, p) && n.path != q
    requires 0 <= i < |Kids(n)| && Contains(Kids(n)[i], q)
    ensures Lookup(ApplyToggle(n, p), q) == Some(ApplyToggle(Lookup(n, q).value, p))
    decreases n, 0
  {
    var k := Kids(n)[i];
    assert k in Kids(n);
    assert k < n;
    LookupInKid(n, q, i);
    LookupInside(k, q);
    assert n.path != p;
    var m := ApplyToggle(n, p);
    LookupInKidAfter(n, m, q, i);
    assert Kids(m)[i] == ApplyToggle(k, p);
    LookupApplyToggleAbove(k, p, q);
  }

  /** The cascade, seen from a node that is neither the target, nor one of
      its ancestors, nor one of its descendants: the node is unchanged. */
  lemma {:induction false} LookupApplyToggleOff(n: FsNode, p: string, q: string)
    requires Unique(n) && Lookup(n, q).Some? && !Contains(Lookup(n, q).value, p)
    requires Lookup(n, p).Some? ==> !Contains(Lookup(n, p).value, q)
    ensures Lookup(ApplyToggle(n, p), q) == Lookup(n, q)
    decreases n, 1
  {
    if n.path != q {
      var i :| 0 <= i < |Kids(n)| && Contains(Kids(n)[i], q);
      LookupApplyToggleOffKid(n, p, q, i);
    }
  }

  /** LookupApplyToggleOff, one level down. */
  lemma {:induction false} LookupApplyToggleOffKid(n: FsNode, p: string, q: string, i: int)
    requires Unique(n) && Lookup(n, q).Some? && !Contains(Lookup(n, q).value, p)
    requires Lookup(n, p).Some? ==> !Contains(Lookup(n, p).value, q)
    requires n.path != q && 0 <= i < |Kids(n)| && Contains(Kids(n)[i], q)
    ensures Lookup(ApplyToggle(n, p), q) == Lookup(n, q)
    decreases n, 0
  {
    var k := Kids(n)[i];
    assert k in Kids(n);
    assert k < n;
    LookupInKid(n, q, i);
    assert n.path != p;
    if Contains(k, p) {
      LookupInKid(n, p, i);
    }
    var m := ApplyToggle(n, p);
    LookupInKidAfter(n, m, q, i);
    assert Kids(m)[i] == ApplyToggle(k, p);
    LookupApplyToggleOff(k, p, q);
  }

  /** The recompute, seen from any node: the node is the recompute of what it
      was. */
  lemma {:induction false} LookupRecalc(n: FsNode, q: string)
    requires Unique(n) && Lookup(n, q).Some?
    ensures Lookup(Recalc(n), q) == Some(Recalc(Lookup(n, q).value))
    decreases n, 1
  {
    if n.path != q {
      var i :| 0 <= i < |Kids(n)| && Contains(Kids(n)[i], q);
      LookupRecalcKid(n, q, i);
    }
  }

  /** LookupRecalc, one level down. */
  lemma {:induction false} LookupRecalcKid(n: FsNode, q: string, i: int)
    requires Unique(n) && Lookup(n, q).Some? && n.path != q
    requires 0 <= i < |Kids(n)| && Contains(Kids(n)[i], q)
    ensures Lookup(Recalc(n), q) == Some(Recalc(Lookup(n, q).value))
    decreases n, 0
  {
    var k := Kids(n)[i];
    assert k in Kids(n);
    assert k < n;
    LookupInKid(n, q, i);
    var m := Recalc(n);
    LookupInKidAfter(n, m, q, i);
    assert Kids(m)[i] == Recalc(k);
    LookupRecalc(k, q);
  }

  /** The toggled node and its whole subtree end up in the flipped state of
      the node, and nothing of them but their states changes. */
  lemma ToggleSelectTarget(n: FsNode, p: string)
    requires Unique(n) && Lookup(n, p).Some?
    ensures Lookup(ToggleSelectIn(n, p), p).Some?
    ensures var t, t' := Lookup(n, p).value, Lookup(ToggleSelectIn(n, p), p).value;
      EraseState(t') == EraseState(t) && Uniform(t', Flip(State(t)))
  {
    var t := Lookup(n, p).value;
    var f := Flip(State(t));
    var m := ApplyToggle(n, p);
    SameStatelessPaths(n, m);
    LookupApplyToggleAbove(n, p, p);
    assert Lookup(m, p) == Some(ApplySubtree(t, f));
    LookupRecalc(m, p);
    UniformIffConsistent(ApplySubtree(t, f), f);
  }

  /** A node that is neither the target, nor an ancestor, nor a descendant of
      it only goes through the recompute; in a consistent tree it is left
      exactly as it was. */
  lemma ToggleSelectElsewhere(n: FsNode, p: string, q: string)
    requires Unique(n) && Lookup(n, q).Some? && !Contains(Lookup(n, q).value, p)
    requires Lookup(n, p).Some? ==> !Contains(Lookup(n, p).value, q)
    ensures Lookup(ToggleSelectIn(n, p), q) == Some(Recalc(Lookup(n, q).value))
    ensures Consistent(n) ==> Lookup(ToggleSelectIn(n, p), q) == Lookup(n, q)
  {
    var m := ApplyToggle(n, p);
    SameStatelessPaths(n, m);
    LookupApplyToggleOff(n, p, q);
    LookupRecalc(m, q);
    if Consistent(n) {
      LookupKeepsConsistent(n, q);
    }
  }

  /** toggleSelect on a consistent tree whose target lies below the root:
      only the child holding the target changes, and the root takes the
      state the tri-state rule gives its new children. */
  lemma ToggleSelectStep(n: FsNode, p: string, j: int)
    requires Consistent(n) && n.path != p && n.Dir? && n.children.Present?
    requires 0 <= j < |Kids(n)|
    requires forall i :: 0 <= i < |Kids(n)| && i != j ==> !Contains(Kids(n)[i], p)
    ensures var cs := Kids(n)[j := ToggleSelectIn(Kids(n)[j], p)];
      ToggleSelectIn(n, p) == n.(children := Present(cs), dirState := Recompute(cs))
  {
    var cs := Kids(n);
    var cs' := cs[j := ToggleSelectIn(cs[j], p)];
    var m := ApplyToggle(n, p);
    assert Kids(m) == seq(|cs|, i requires 0 <= i < |cs| => ApplyToggle(cs[i], p));
    var rs := seq(|cs|, i requires 0 <= i < |cs| => Recalc(Kids(m)[i]));
    assert rs == cs';
  }

  /** Toggling the same node twice restores a consistent tree, provided the
      node was not partially checked. */
  lemma {:induction false} ToggleSelectTwice(n: FsNode, p: string)
    requires Unique(n) && Consistent(n) && Lookup(n, p).Some?
    requires State(Lookup(n, p).value) != PartiallyChecked
    ensures ToggleSelectIn(ToggleSelectIn(n, p), p) == n
  {
    var s := State(n);
    if n.path == p {
      var f := Flip(s);
      var m := ApplySubtree(n, f);
      UniformIffConsistent(m, f);
      assert ToggleSelectIn(n, p) == m;
      var m2 := ApplySubtree(m, Flip(f));
      UniformIffConsistent(m2, Flip(f));
      assert ToggleSelectIn(m, p) == m2;
      assert Flip(f) == s;
      UniformIffConsistent(n, s);
      UniformDetermined(m2, n, s);
    } else {
      var j :| 0 <= j < |Kids(n)| && Contains(Kids(n)[j], p);
      ToggleSelectTwiceBelow(n, p, j);
    }
  }

  /** ToggleSelectTwice when the target lies below the root, in child `j`. */
  lemma {:induction false} ToggleSelectTwiceBelow(n: FsNode, p: string, j: int)
    requires Unique(n) && Consistent(n) && Lookup(n, p).Some?
    requires State(Lookup(n, p).value) != PartiallyChecked
    requires n.path != p && 0 <= j < |Kids(n)| && Contains(Kids(n)[j], p)
    ensures ToggleSelectIn(ToggleSelectIn(n, p), p) == n
  {
    var cs := Kids(n);
    var k := cs[j];
    assert k in cs;
    assert k < n;
    LookupInKid(n, p, j);
    OnlyKidHolds(n, p, j);
    ToggleSelectTwice(k, p);
    ToggleSelectStep(n, p, j);
    var cs1 := cs[j := ToggleSelectIn(k, p)];
    var n1 := n.(children := Present(cs1), dirState := Recompute(cs1));
    TwiceSecondStep(n, n1, p, j);
    StateRuleDetermined(Recompute(cs), n.dirState, cs);
  }

  /** The second toggle of ToggleSelectTwiceBelow again only changes child
      `j` and the root's state. */
  lemma TwiceSecondStep(n: FsNode, n1: FsNode, p: string, j: int)
    requires n.Dir? && n.children.Present? && n.path != p && 0 <= j < |Kids(n)|
    requires forall i :: 0 <= i < |Kids(n)| && i != j ==> !Contains(Kids(n)[i], p)
    requires n1 == n.(children := Present(Kids(n)[j := ToggleSelectIn(Kids(n)[j], p)]), dirState := Recompute(Kids(n)[j := ToggleSelectIn(Kids(n)[j], p)]))
    requires ToggleSelectIn(ToggleSelectIn(Kids(n)[j], p), p) == Kids(n)[j]
    requires Consistent(n1)
    ensures ToggleSelectIn(n1, p) == n.(dirState := Recompute(Kids(n)))
  {
    var cs := Kids(n);
    var cs1 := Kids(n1);
    assert cs1 == cs[j := ToggleSelectIn(cs[j], p)];
    assert forall i :: 0 <= i < |cs1| && i != j ==> cs1[i] == cs[i];
    ToggleSelectStep(n1, p, j);
    assert cs1[j := ToggleSelectIn(cs1[j], p)] == cs;
  }

  /** A partially checked directory over one checked and one unchecked file. */
  function MixedDir(): FsNode
  {
    Dir("r", "/r", Present([File("a", "/r/a", Checked), File("b", "/r/b", Unchecked)]), Some(true), PartiallyChecked)
  }

  lemma MixedDirWellFormed()
    ensures Unique(MixedDir()) && Consistent(MixedDir())
  {
    var n := MixedDir();
    var a, b := Kids(n)[0], Kids(n)[1];
    assert forall q :: Contains(a, q) <==> q == "/r/a";
    assert forall q :: Contains(b, q) <==> q == "/r/b";
    assert "/r/a" != "/r/b" && "/r/a" != "/r" && "/r/b" != "/r";
    assert Consistent(a) && Consistent(b);
    assert State(b) != Checked && State(a) != Unchecked;
  }

  lemma MixedDirToggledTwice()
    ensures State(ToggleSelectIn(MixedDir(), "/r")) == Checked
    ensures State(ToggleSelectIn(ToggleSelectIn(MixedDir(), "/r"), "/r")) == Unchecked
  {
    var n1 := ToggleSelectIn(MixedDir(), "/r");
    assert Uniform(ApplyToggle(MixedDir(), "/r"), Checked);
    UniformIffConsistent(ApplyToggle(MixedDir(), "/r"), Checked);
    assert n1 == ApplyToggle(MixedDir(), "/r");
    assert Uniform(ApplyToggle(n1, "/r"), Unchecked);
    UniformIffConsistent(ApplyToggle(n1, "/r"), Unchecked);
  }

  /** A partially checked node does not come back: the first toggle checks
      its subtree and the second unchecks it. */
  lemma PartialDoesNotRoundTrip()
    ensures exists n: FsNode, p: string ::
      Unique(n) && Consistent(n) && Lookup(n, p).Some? && State(Lookup(n, p).value) == PartiallyChecked &&
      ToggleSelectIn(ToggleSelectIn(n, p), p) != n
  {
    var n := MixedDir();
    MixedDirWellFormed();
    MixedDirToggledTwice();
    assert Lookup(n, "/r") == Some(n);
  }

  // ---------------------------------------------------------------------
  // The session keeps the tri-state rule

  /** The tri-state rule ignores expand flags: two trees that differ only in
      their flags are consistent together or not at all. */
  lemma {:induction false} FlagsDoNotMatter(a: FsNode, b: FsNode)
    requires EraseOpen(a) == EraseOpen(b)
    ensures Consistent(a) <==> Consistent(b)
  {
    var ca, cb := Kids(a), Kids(b);
    assert |ca| == |cb|;
    forall i | 0 <= i < |ca|
      ensures EraseOpen(ca[i]) == EraseOpen(cb[i])
      ensures State(ca[i]) == State(cb[i])
      ensures Consistent(ca[i]) <==> Consistent(cb[i])
    {
      assert EraseOpen(ca[i]) == Kids(EraseOpen(a))[i] == Kids(EraseOpen(b))[i] == EraseOpen(cb[i]);
      assert State(ca[i]) == State(EraseOpen(ca[i]));
      FlagsDoNotMatter(ca[i], cb[i]);
    }
    assert State(a) == State(b);
  }

  /** A freshly loaded snapshot, every node unchecked, is consistent once
      initialised. */
  lemma LoadedTreeConsistent(n: FsNode)
    requires Uniform(n, Unchecked)
    ensures Consistent(InitTree(n))
  {
    UniformIffConsistent(n, Unchecked);
    FlagsDoNotMatter(n, InitTree(n));
  }

  /** Initialising keeps the tri-state rule, and so does expanding or
      collapsing a directory: together with toggle-select, every step of the
      session leaves a consistent tree consistent. */
  lemma SessionKeepsConsistent(n: FsNode, p: string)
    ensures Consistent(InitTree(n)) <==> Consistent(n)
    ensures Consistent(Toggle(n, p)) <==> Consistent(n)
    ensures Consistent(n) ==> Consistent(ToggleSelectIn(n, p))
  {
    FlagsDoNotMatter(n, InitTree(n));
    FlagsDoNotMatter(n, Toggle(n, p));
  }
}
