/**
 * The layout pass, `UiElementState::compute`, as a method over the arena
 * that rewrites the elements' states in place: sizing with flow
 * accumulation over the children (recursing into each element child),
 * box derivation, Absolute positioning, then the placement of the
 * Relative children.
 * (src/ui/elements/mod.rs)
 */
module Layout {
  import opened Wrappers
  import opened StyleValues
  import opened ElementTree
  import opened Resolution
  import opened LayoutSpec

  datatype Outcome = Pass | Fail(panic: Panic)

  // ---- Which states a phase may touch ----

  /** k lies in the subtree of one of the first i children of e. */
  ghost predicate InChildSubtree(tree: Tree, e: nat, i: int, k: nat)
    requires Wf(tree) && e < |tree| && k < |tree|
  {
    exists j | 0 <= j < i && IsChild(tree, e, j) :: Desc(tree, tree[e].children[j].node, k)
  }

  /** k is one of the first i element children of e. */
  ghost predicate IsChildNode(tree: Tree, e: nat, i: int, k: nat)
    requires e < |tree|
  {
    exists j | 0 <= j < i && IsChild(tree, e, j) :: tree[e].children[j].node == k
  }

  /** s2 agrees with s1 outside the subtrees of the first i children of e. */
  ghost predicate Outside(tree: Tree, e: nat, i: int, s1: seq<ElementState>, s2: seq<ElementState>)
    requires Wf(tree) && e < |tree| && |s1| == |tree| && |s2| == |tree|
  {
    forall k | 0 <= k < |tree| && !InChildSubtree(tree, e, i, k) :: s1[k] == s2[k]
  }

  /** s2 agrees with s1 outside the subtree rooted at a. */
  ghost predicate Unchanged(tree: Tree, a: nat, s1: seq<ElementState>, s2: seq<ElementState>)
    requires Wf(tree) && |s1| == |tree| && |s2| == |tree|
  {
    forall k | 0 <= k < |tree| && !Desc(tree, a, k) :: s1[k] == s2[k]
  }

  lemma {:induction false} OutsideWiden(tree: Tree, e: nat, i: int, n: int, s1: seq<ElementState>, s2: seq<ElementState>)
    requires Wf(tree) && e < |tree| && |s1| == |tree| && |s2| == |tree| && i <= n
    requires Outside(tree, e, i, s1, s2)
    ensures Outside(tree, e, n, s1, s2)
  {
  }

  lemma {:induction false} InChildSubtreeInside(tree: Tree, e: nat, i: int, k: nat)
    requires Wf(tree) && e < |tree| && k < |tree| && InChildSubtree(tree, e, i, k)
    ensures Desc(tree, e, k)
  {
    var j :| 0 <= j < i && IsChild(tree, e, j) && Desc(tree, tree[e].children[j].node, k);
    ChildSubtreeInside(tree, e, j, k);
  }

  lemma {:induction false} SubtreesInside(tree: Tree, e: nat)
    requires Wf(tree) && e < |tree|
    ensures forall k | 0 <= k < |tree| && InChildSubtree(tree, e, |tree[e].children|, k) :: Desc(tree, e, k)
  {
    forall k | 0 <= k < |tree| && InChildSubtree(tree, e, |tree[e].children|, k) ensures Desc(tree, e, k) {
      InChildSubtreeInside(tree, e, |tree[e].children|, k);
    }
  }

  lemma {:induction false} ChildNodesInside(tree: Tree, e: nat)
    requires Wf(tree) && e < |tree|
    ensures forall k | 0 <= k < |tree| && IsChildNode(tree, e, |tree[e].children|, k) :: Desc(tree, e, k)
  {
    forall j | IsChild(tree, e, j) ensures Desc(tree, e, tree[e].children[j].node) {
      assert Desc(tree, e, e);
    }
  }

  /** The node itself is never in the subtree of one of its children. */
  lemma {:induction false} InChildSubtreeOwnRoot(tree: Tree, e: nat)
    requires Wf(tree) && e < |tree|
    ensures !InChildSubtree(tree, e, |tree[e].children|, e)
  {
    forall j | 0 <= j < |tree[e].children| && IsChild(tree, e, j)
      ensures !Desc(tree, tree[e].children[j].node, e)
    {
      ParentOutsideChild(tree, e, j);
    }
  }

  /** Child i is not inside the subtree of an earlier child. */
  lemma {:induction false} NotInEarlierSubtrees(tree: Tree, e: nat, i: int)
    requires Wf(tree) && e < |tree| && IsChild(tree, e, i)
    ensures !InChildSubtree(tree, e, i, tree[e].children[i].node)
  {
    var c := tree[e].children[i].node;
    if InChildSubtree(tree, e, i, c) {
      var j :| 0 <= j < i && IsChild(tree, e, j) && Desc(tree, tree[e].children[j].node, c);
      SiblingsDisjoint(tree, e, j, i, c);
    }
  }

  // ---- Sizing: the loop over the children (mod.rs:175-228) ----

  /** The text fit the accumulation uses (only text children read it). */
  ghost function FitUsed(tree: Tree, e: nat): TextFit
    requires Wf(tree) && e < |tree|
  {
    if HasText(tree, e) && TextFitOf(tree, e).Success? then TextFitOf(tree, e).value else CropText
  }

  /**
   * The first i element children of e are laid out by their own compute,
   * each from the content position it had in `initial`.
   */
  ghost predicate EarlierLaid(tree: Tree, st: seq<ElementState>, initial: seq<ElementState>, e: nat, i: int,
                              measure: (nat, string) -> Dim)
    requires Wf(tree) && e < |tree| && |st| == |tree| && |initial| == |tree|
  {
    forall j | 0 <= j < i :: ChildLaid(tree, st, initial, e, j, measure)
  }

  /** Child j of e, when it is an element, is laid out from its content position in `initial`. */
  ghost predicate ChildLaid(tree: Tree, st: seq<ElementState>, initial: seq<ElementState>, e: nat, j: int,
                            measure: (nat, string) -> Dim)
    requires Wf(tree) && e < |tree| && |st| == |tree| && |initial| == |tree|
  {
    IsChild(tree, e, j) ==>
      OwnLaid(tree, st, tree[e].children[j].node,
              initial[tree[e].children[j].node].contentX, initial[tree[e].children[j].node].contentY, measure)
  }

  /**
   * Computing child i leaves every earlier sibling's layout and
   * contribution as it was.
   */
  lemma {:induction false} EarlierChildrenKept(tree: Tree, s1: seq<ElementState>, s2: seq<ElementState>,
                                               initial: seq<ElementState>, e: nat, i: int, fit: TextFit,
                                               measure: (nat, string) -> Dim)
    requires Wf(tree) && e < |tree| && IsChild(tree, e, i)
    requires |s1| == |tree| && |s2| == |tree| && |initial| == |tree|
    requires Unchanged(tree, tree[e].children[i].node, s1, s2)
    requires EarlierLaid(tree, s1, initial, e, i, measure)
    ensures EarlierLaid(tree, s2, initial, e, i, measure)
    ensures Contribs(tree, s1, e, fit, measure)[..i] == Contribs(tree, s2, e, fit, measure)[..i]
  {
    forall j | 0 <= j < i && IsChild(tree, e, j)
      ensures s1[tree[e].children[j].node] == s2[tree[e].children[j].node]
      ensures OwnLaid(tree, s2, tree[e].children[j].node,
                      initial[tree[e].children[j].node].contentX, initial[tree[e].children[j].node].contentY, measure)
    {
      var cj := tree[e].children[j].node;
      assert ChildLaid(tree, s1, initial, e, j, measure);
      assert Desc(tree, cj, cj);
      SiblingsDisjoint(tree, e, j, i, cj);
      forall g | IsChild(tree, cj, g) ensures s1[tree[cj].children[g].node] == s2[tree[cj].children[g].node] {
        var k := tree[cj].children[g].node;
        assert Desc(tree, cj, k);
        SiblingsDisjoint(tree, e, j, i, k);
      }
      OwnLaidFrame(tree, s1, s2, cj, initial[cj].contentX, initial[cj].contentY, measure);
    }
    var a, b := Contribs(tree, s1, e, fit, measure), Contribs(tree, s2, e, fit, measure);
    forall j | 0 <= j < i ensures a[j] == b[j] {
      if tree[e].children[j].Element? { assert IsChild(tree, e, j); }
    }
  }

  /**
   * One element child through the loop body: it is given its flow offset
   * (before -> written, the state w) and computed (written -> after). Only
   * its subtree changes, and when its compute passed the invariants carry
   * over to the next child.
   */
  lemma {:induction false} ElementStep(tree: Tree, e: nat, i: int, initial: seq<ElementState>,
                                       before: seq<ElementState>, w: ElementState, written: seq<ElementState>,
                                       after: seq<ElementState>, used: TextFit, measure: (nat, string) -> Dim,
                                       dir: Direction, occ: Size, passed: bool)
    requires Wf(tree) && e < |tree| && IsChild(tree, e, i)
    requires |initial| == |tree| && |before| == |tree| && |after| == |tree|
    requires Outside(tree, e, i, initial, before)
    requires EarlierLaid(tree, before, initial, e, i, measure)
    requires occ == Occupied(dir, Contribs(tree, before, e, used, measure)[..i])
    requires written == before[tree[e].children[i].node := w]
    requires w.contentX == before[tree[e].children[i].node].contentX
    requires w.contentY == before[tree[e].children[i].node].contentY
    requires Unchanged(tree, tree[e].children[i].node, written, after)
    requires passed ==> OwnLaid(tree, after, tree[e].children[i].node, w.contentX, w.contentY, measure)
    ensures Outside(tree, e, i + 1, initial, after)
    ensures passed ==> EarlierLaid(tree, after, initial, e, i + 1, measure)
    ensures passed ==>
              Occupied(dir, Contribs(tree, after, e, used, measure)[..i + 1])
              == Step(dir, occ, Some(Size(after[tree[e].children[i].node].boundingWidth,
                                          after[tree[e].children[i].node].boundingHeight)))
  {
    var c := tree[e].children[i].node;
    assert Desc(tree, c, c);
    NotInEarlierSubtrees(tree, e, i);
    forall k | 0 <= k < |tree| && !InChildSubtree(tree, e, i + 1, k) ensures initial[k] == after[k] {
      assert !(IsChild(tree, e, i) && Desc(tree, c, k));
    }
    if passed {
      assert before[c] == initial[c];
      assert Unchanged(tree, c, before, after);
      assert OwnLaid(tree, after, c, initial[c].contentX, initial[c].contentY, measure);
      EarlierChildrenKept(tree, before, after, initial, e, i, used, measure);
      var cs := Contribs(tree, after, e, used, measure);
      assert cs[..i + 1][..i] == cs[..i];
    }
  }

  /**
   * The loop body for text child i (mod.rs:199-226): the element's text
   * fit is resolved (it panics where the resolution does), and under
   * ExpandParent the measured size of the text is added to the flow. The
   * states do not change, and the invariants carry over to the next child.
   */
  method SizeText(tree: Tree, ghost st: seq<ElementState>, e: nat, i: int, dir: Direction, occupied: Size,
                  ghost initial: seq<ElementState>, ghost used: TextFit, measure: (nat, string) -> Dim)
    returns (r: Outcome, occupied': Size, fit: TextFit)
    requires Wf(tree) && e < |tree| && 0 <= i < |tree[e].children| && tree[e].children[i].Text?
    requires |st| == |tree| && |initial| == |tree| && used == FitUsed(tree, e)
    requires Outside(tree, e, i, initial, st)
    requires EarlierLaid(tree, st, initial, e, i, measure)
    requires occupied == Occupied(dir, Contribs(tree, st, e, used, measure)[..i])
    ensures r.Pass? <==> TextFitOf(tree, e).Success?
    ensures r.Pass? ==> TextFitOf(tree, e) == Success(fit) && fit == used
    ensures Outside(tree, e, i + 1, initial, st)
    ensures EarlierLaid(tree, st, initial, e, i + 1, measure)
    ensures r.Pass? ==> occupied' == Occupied(dir, Contribs(tree, st, e, used, measure)[..i + 1])
  {
    TextStepLaw(tree, st, initial, e, i, used, measure, dir, occupied);
    occupied', fit := occupied, CropText;
    var f := TextFitOf(tree, e);
    if f.Failure? {
      return Fail(f.error), occupied', fit;
    }
    r, fit := Pass, f.value;
    assert HasText(tree, e);
    if f.value == ExpandParent {
      var d := measure(e, tree[e].children[i].text);
      occupied' := Step(dir, occupied, Some(Size(d.width, d.height)));
    }
  }

  /** A text child leaves the states alone and adds its measured size under ExpandParent. */
  lemma {:induction false} TextStepLaw(tree: Tree, st: seq<ElementState>, initial: seq<ElementState>, e: nat, i: int,
                                       used: TextFit, measure: (nat, string) -> Dim, dir: Direction, occ: Size)
    requires Wf(tree) && e < |tree| && 0 <= i < |tree[e].children| && tree[e].children[i].Text?
    requires |st| == |tree| && |initial| == |tree|
    requires Outside(tree, e, i, initial, st)
    requires EarlierLaid(tree, st, initial, e, i, measure)
    requires occ == Occupied(dir, Contribs(tree, st, e, used, measure)[..i])
    ensures Outside(tree, e, i + 1, initial, st)
    ensures EarlierLaid(tree, st, initial, e, i + 1, measure)
    ensures Occupied(dir, Contribs(tree, st, e, used, measure)[..i + 1])
            == if used == ExpandParent
               then Step(dir, occ, Some(Size(measure(e, tree[e].children[i].text).width,
                                             measure(e, tree[e].children[i].text).height)))
               else occ
  {
    OutsideWiden(tree, e, i, i + 1, initial, st);
    var cs := Contribs(tree, st, e, used, measure);
    assert cs[..i + 1][..i] == cs[..i];
    assert Occupied(dir, cs[..i + 1]) == Step(dir, occ, cs[i]);
  }

  /**
   * The loop body for element child i (mod.rs:176-189): the child's flow
   * offset along the direction is set to the extent occupied so far, the
   * child is computed, and on success its bounding size is added to the
   * flow. Only the child's subtree changes, in this call and over the
   * loop so far.
   */
  method SizeElement(tree: Tree, states: array<ElementState>, e: nat, i: int, dir: Direction, occupied: Size,
                     ghost initial: seq<ElementState>, ghost used: TextFit, measure: (nat, string) -> Dim)
    returns (r: Outcome, occupied': Size)
    requires Wf(tree) && e < |tree| && IsChild(tree, e, i) && states.Length == |tree| && |initial| == |tree|
    requires Outside(tree, e, i, initial, states[..])
    requires EarlierLaid(tree, states[..], initial, e, i, measure)
    requires occupied == Occupied(dir, Contribs(tree, states[..], e, used, measure)[..i])
    modifies states
    ensures Outside(tree, e, i + 1, initial, states[..])
    ensures r.Pass? ==> EarlierLaid(tree, states[..], initial, e, i + 1, measure)
    ensures r.Pass? ==> occupied' == Occupied(dir, Contribs(tree, states[..], e, used, measure)[..i + 1])
    ensures Unchanged(tree, tree[e].children[i].node, old(states[..]), states[..])
    decreases |tree| - tree[e].children[i].node, 3
  {
    var c := tree[e].children[i].node;
    ghost var before := states[..];
    var w := if dir == Horizontal then states[c].(x := occupied.w) else states[c].(y := occupied.h);
    states[c] := w;
    ghost var written := states[..];
    assert written == before[c := w];
    var rc, _ := Compute(tree, states, c, measure);
    ElementStep(tree, e, i, initial, before, w, written, states[..], used, measure, dir, occupied, rc.Pass?);
    r := rc;
    occupied' := occupied;
    if rc.Pass? {
      occupied' := Step(dir, occupied, Some(Size(states[c].boundingWidth, states[c].boundingHeight)));
    }
  }

  /**
   * The sizing loop (mod.rs:175-228): each element child is given the
   * occupied extent so far as its flow offset, computed, and added to the
   * flow by its bounding size; each text child adds its measured size when
   * the element's text fit is ExpandParent. Only the children's subtrees
   * change; on success every element child is laid out and `occupied` is
   * the flow accumulation of all the contributions.
   */
  method SizeChildren(tree: Tree, states: array<ElementState>, e: nat, dir: Direction, measure: (nat, string) -> Dim)
    returns (r: Outcome, occupied: Size, fit: TextFit)
    requires Wf(tree) && e < |tree| && states.Length == |tree|
    modifies states
    ensures Outside(tree, e, |tree[e].children|, old(states[..]), states[..])
    ensures r.Pass? ==> fit == FitUsed(tree, e) && (HasText(tree, e) ==> TextFitOf(tree, e).Success?)
    ensures r.Pass? ==> occupied == Occupied(dir, Contribs(tree, states[..], e, fit, measure))
    ensures r.Pass? ==> EarlierLaid(tree, states[..], old(states[..]), e, |tree[e].children|, measure)
    decreases |tree| - e, 0
  {
    ghost var initial := states[..];
    ghost var used := FitUsed(tree, e);
    var children := tree[e].children;
    r, occupied, fit := Pass, Size(0, 0), CropText;
    var i := 0;
    ghost var seen := false;
    while i < |children|
      invariant 0 <= i <= |children|
      invariant Outside(tree, e, i, initial, states[..])
      invariant seen ==> fit == used && TextFitOf(tree, e).Success?
      invariant !seen ==> fit == CropText && forall j | 0 <= j < i :: !children[j].Text?
      invariant occupied == Occupied(dir, Contribs(tree, states[..], e, used, measure)[..i])
      invariant EarlierLaid(tree, states[..], initial, e, i, measure)
    {
      match children[i] {
      case Element(c) =>
        var rc;
        rc, occupied := SizeElement(tree, states, e, i, dir, occupied, initial, used, measure);
        if rc.Fail? {
          r := rc;
          OutsideWiden(tree, e, i + 1, |children|, initial, states[..]);
          return;
        }
      case Text(_) =>
        var rt;
        rt, occupied, fit := SizeText(tree, states[..], e, i, dir, occupied, initial, used, measure);
        if rt.Fail? {
          r := rt;
          OutsideWiden(tree, e, i, |children|, initial, states[..]);
          return;
        }
        seen := true;
      }
      i := i + 1;
    }
    if !seen {
      NoTextFit(tree, e);
    }
    assert Contribs(tree, states[..], e, used, measure)[..i] == Contribs(tree, states[..], e, used, measure);
  }

  /** Without a text child the element's text fit is never resolved. */
  lemma {:induction false} NoTextFit(tree: Tree, e: nat)
    requires Wf(tree) && e < |tree|
    requires forall j | 0 <= j < |tree[e].children| :: !tree[e].children[j].Text?
    ensures !HasText(tree, e) && FitUsed(tree, e) == CropText
  {
  }

  // ---- Placement: the loop over the element children (mod.rs:278-367) ----

  /** The states after placing, in order, the first i children of e over st. */
  function PlaceFirst(tree: Tree, e: nat, parent: ElementState, p: Props, st: seq<ElementState>, i: nat)
    : (r: Result<seq<ElementState>, Panic>)
    requires Wf(tree) && e < |tree| && |st| == |tree| && i <= |tree[e].children|
    ensures r.Success? ==> |r.value| == |tree|
    decreases i
  {
    if i == 0 then Success(st)
    else
      var prev :- PlaceFirst(tree, e, parent, p, st, i - 1);
      match tree[e].children[i - 1]
      case Text(_) => Success(prev)
      case Element(c) =>
        var placed :- PlaceChild(tree, e, parent, p, c, prev[c]);
        Success(prev[c := placed])
  }

  predicate SameSize(a: ElementState, b: ElementState) {
    && a.contentWidth == b.contentWidth && a.contentHeight == b.contentHeight
    && a.width == b.width && a.height == b.height
    && a.boundingWidth == b.boundingWidth && a.boundingHeight == b.boundingHeight
  }

  /** Placement moves only the element children of e, and resizes nothing. */
  ghost predicate PlacedOnly(tree: Tree, e: nat, s1: seq<ElementState>, s2: seq<ElementState>)
    requires Wf(tree) && e < |tree| && |s1| == |tree| && |s2| == |tree|
  {
    && (forall k | 0 <= k < |tree| && !IsChildNode(tree, e, |tree[e].children|, k) :: s2[k] == s1[k])
    && (forall k | 0 <= k < |tree| :: SameSize(s1[k], s2[k]))
  }

  lemma {:induction false} PlaceFirstFrame(tree: Tree, e: nat, parent: ElementState, p: Props,
                                           st: seq<ElementState>, i: nat)
    requires Wf(tree) && e < |tree| && |st| == |tree| && i <= |tree[e].children|
    requires PlaceFirst(tree, e, parent, p, st, i).Success?
    ensures PlacedOnly(tree, e, st, PlaceFirst(tree, e, parent, p, st, i).value)
    ensures forall k | 0 <= k < |tree| && !IsChildNode(tree, e, i, k) :: PlaceFirst(tree, e, parent, p, st, i).value[k] == st[k]
    decreases i
  {
    if i > 0 {
      PlaceFirstFrame(tree, e, parent, p, st, i - 1);
      if tree[e].children[i - 1].Element? {
        assert IsChild(tree, e, i - 1);
      }
    }
  }

  /** Each of the first i element children ends up as PlaceChild made it from its state in st. */
  lemma {:induction false} PlaceFirstPlaced(tree: Tree, e: nat, parent: ElementState, p: Props,
                                            st: seq<ElementState>, i: nat)
    requires Wf(tree) && e < |tree| && |st| == |tree| && i <= |tree[e].children|
    requires PlaceFirst(tree, e, parent, p, st, i).Success?
    ensures forall j | 0 <= j < i && IsChild(tree, e, j) ::
      PlaceChild(tree, e, parent, p, tree[e].children[j].node, st[tree[e].children[j].node])
        == Success(PlaceFirst(tree, e, parent, p, st, i).value[tree[e].children[j].node])
    decreases i
  {
    if i > 0 {
      PlaceFirstPlaced(tree, e, parent, p, st, i - 1);
      var ch := tree[e].children;
      if ch[i - 1].Element? {
        var c := ch[i - 1].node;
        PlaceFirstFrame(tree, e, parent, p, st, i - 1);
        assert !IsChildNode(tree, e, i - 1, c) by {
          forall j | 0 <= j < i - 1 && IsChild(tree, e, j) ensures ch[j].node != c {
            assert ch[j].node != ch[i - 1].node;
          }
        }
        forall j | 0 <= j < i - 1 && IsChild(tree, e, j) ensures ch[j].node != c {
          assert ch[j].node != ch[i - 1].node;
        }
      }
    }
  }

  /** A placement that panics at child i panics for every longer prefix. */
  lemma {:induction false} PlaceFirstFails(tree: Tree, e: nat, parent: ElementState, p: Props,
                                           st: seq<ElementState>, i: nat, n: nat)
    requires Wf(tree) && e < |tree| && |st| == |tree| && i <= n <= |tree[e].children|
    requires PlaceFirst(tree, e, parent, p, st, i).Failure?
    ensures PlaceFirst(tree, e, parent, p, st, n).Failure?
    decreases n
  {
    if n > i {
      PlaceFirstFails(tree, e, parent, p, st, i, n - 1);
    }
  }

  /**
   * The placement loop (mod.rs:278-367): every element child, in order, is
   * rewritten by PlaceChild against e's own final state. It succeeds
   * exactly when PlaceFirst does over all the children, and then leaves
   * its result.
   */
  method PlaceChildren(tree: Tree, states: array<ElementState>, e: nat, p: Props) returns (r: Outcome)
    requires Wf(tree) && e < |tree| && states.Length == |tree|
    modifies states
    ensures PlacedOnly(tree, e, old(states[..]), states[..])
    ensures r.Pass? <==> PlaceFirst(tree, e, old(states[e]), p, old(states[..]), |tree[e].children|).Success?
    ensures r.Pass? ==> states[..] == PlaceFirst(tree, e, old(states[e]), p, old(states[..]), |tree[e].children|).value
  {
    ghost var initial := states[..];
    var parent := states[e];
    var children := tree[e].children;
    r := Pass;
    var i := 0;
    while i < |children|
      invariant 0 <= i <= |children|
      invariant PlaceFirst(tree, e, parent, p, initial, i) == Success(states[..])
    {
      if children[i].Element? {
        var c := children[i].node;
        var placed := PlaceChild(tree, e, parent, p, c, states[c]);
        if placed.Failure? {
          r := Fail(placed.error);
          PlaceFirstFails(tree, e, parent, p, initial, i + 1, |children|);
          PlaceFirstFrame(tree, e, parent, p, initial, i);
          return;
        }
        ghost var prev := states[..];
        states[c] := placed.value;
        assert states[..] == prev[c := placed.value];
      }
      i := i + 1;
    }
    PlaceFirstFrame(tree, e, parent, p, initial, i);
  }

  // ---- The whole pass ----

  /** What compute leaves in the states of element child j of e. */
  ghost predicate ChildDone(tree: Tree, before: seq<ElementState>, mid: seq<ElementState>, after: seq<ElementState>,
                            e: nat, j: int, measure: (nat, string) -> Dim)
    requires Wf(tree) && e < |tree| && IsChild(tree, e, j) && PropsOf(tree, e).Success?
    requires |before| == |mid| == |after| == |tree|
  {
    var c := tree[e].children[j].node;
    var p := PropsOf(tree, e).value;
    && (p.widthAuto || p.heightAuto ==> OwnLaid(tree, mid, c, before[c].contentX, before[c].contentY, measure))
    && (!(p.widthAuto || p.heightAuto) ==> mid[c] == before[c])
    && PlaceChild(tree, e, after[e], p, c, mid[c]) == Success(after[c])
  }

  /**
   * `UiElementState::compute(e)`. Only e's subtree changes. On success, e
   * is laid out as OwnLaid says, and every element child j was sized by
   * its own compute (only when some dimension of e is auto: otherwise it
   * keeps its state) and then placed by PlaceChild; `mid` is the state
   * between the two phases.
   */
  method Compute(tree: Tree, states: array<ElementState>, e: nat, measure: (nat, string) -> Dim)
    returns (r: Outcome, ghost mid: seq<ElementState>)
    requires Wf(tree) && e < |tree| && states.Length == |tree|
    modifies states
    ensures |mid| == |tree|
    ensures Unchanged(tree, e, old(states[..]), states[..])
    ensures r.Pass? ==> PropsOf(tree, e).Success?
    ensures r.Pass? ==> OwnLaid(tree, states[..], e, old(states[e].contentX), old(states[e].contentY), measure)
    ensures r.Pass? ==> forall j | IsChild(tree, e, j) :: ChildDone(tree, old(states[..]), mid, states[..], e, j, measure)
    ensures r.Pass? ==> PlacedOnly(tree, e, mid[e := states[e]], states[..])
    ensures r.Pass? && !(PropsOf(tree, e).value.widthAuto || PropsOf(tree, e).value.heightAuto) ==> mid == old(states[..])
    decreases |tree| - e, 2
  {
    mid := states[..];
    var head := HeadOf(tree, e);
    if head.Failure? { return Fail(head.error), mid; }
    var h := head.value;
    var rs, width, height, fit := SizePhase(tree, states, e, h, measure);
    if rs.Fail? { return rs, states[..]; }
    mid := states[..];
    var tail := TailOf(tree, e);
    if tail.Failure? { return Fail(tail.error), mid; }
    var t := tail.value;
    SetBox(states, e, h.origin, t, width, height);
    ghost var sized := states[..];

    var p := Combine(h, fit, t);
    assert PropsOf(tree, e) == Success(p);
    OwnLaidIntro(tree, mid, sized, e, old(states[e].contentX), old(states[e].contentY), measure, p);
    r := PlaceChildren(tree, states, e, p);
    ComputeFrame(tree, old(states[..]), mid, sized, states[..], e);
    if r.Pass? {
      ComputeLaid(tree, old(states[..]), mid, sized, states[..], e, p, measure);
    }
  }

  /**
   * The sizing phase of compute (mod.rs:164-237): the literal sizes, grown
   * to the children's flow where auto. Only when some dimension is auto
   * are the children computed; only their subtrees change. On success the
   * text fit is the one the flow used and the sizes are the auto-sized
   * ones.
   */
  method SizePhase(tree: Tree, states: array<ElementState>, e: nat, h: Head, measure: (nat, string) -> Dim)
    returns (r: Outcome, width: int, height: int, fit: TextFit)
    requires Wf(tree) && e < |tree| && states.Length == |tree| && HeadOf(tree, e) == Success(h)
    modifies states
    ensures Unchanged(tree, e, old(states[..]), states[..])
    ensures states[e] == old(states[e])
    ensures !(h.widthAuto || h.heightAuto) ==> states[..] == old(states[..])
    ensures r.Pass? ==> FitOf(tree, e) == Success(fit)
    ensures r.Pass? ==>
              var occ := Occupied(h.direction, Contribs(tree, states[..], e, fit, measure));
              width == AutoDim(h.widthAuto, h.literalWidth, occ.w) && height == AutoDim(h.heightAuto, h.literalHeight, occ.h)
    ensures r.Pass? && (h.widthAuto || h.heightAuto) ==>
              EarlierLaid(tree, states[..], old(states[..]), e, |tree[e].children|, measure)
    decreases |tree| - e, 1
  {
    r := Pass;
    width, height := h.literalWidth, h.literalHeight;
    fit := CropText;
    if h.widthAuto || h.heightAuto {
      var rs, occupied, textFit := SizeChildren(tree, states, e, h.direction, measure);
      OutsideUnchanged(tree, e, old(states[..]), states[..]);
      InChildSubtreeOwnRoot(tree, e);
      if rs.Fail? {
        return rs, width, height, fit;
      }
      fit := textFit;
      if h.widthAuto && occupied.w > width {
        width := occupied.w;
      }
      if h.heightAuto && occupied.h > height {
        height := occupied.h;
      }
    }
  }

  /**
   * e's own box (mod.rs:239-276): the content size is the resolved one,
   * the content position moves to the anchored absolute position when
   * there is one and stays otherwise, and the box and bounding rectangles
   * grow from it by padding and margin. No other state changes.
   */
  method SetBox(states: array<ElementState>, e: nat, origin: Origin, t: Tail, width: int, height: int)
    requires e < states.Length
    modifies states
    ensures states[..] == old(states[..])[e := states[e]]
    ensures states[e].contentWidth == width && states[e].contentHeight == height
    ensures states[e].contentX == if t.absX.Some? then GetActualX(origin, t.absX.value, width) else old(states[e].contentX)
    ensures states[e].contentY == if t.absY.Some? then GetActualY(origin, t.absY.value, height) else old(states[e].contentY)
    ensures BoxOk(states[e], t.padding, t.margin)
  {
    var st := states[e];
    st := st.(contentWidth := width, contentHeight := height,
              width := width + t.padding.left + t.padding.right,
              height := height + t.padding.top + t.padding.bottom);
    st := st.(boundingWidth := st.width + t.margin.left + t.margin.right,
              boundingHeight := st.height + t.margin.top + t.margin.bottom);
    if t.absX.Some? {
      st := st.(contentX := GetActualX(origin, t.absX.value, st.contentWidth));
    }
    if t.absY.Some? {
      st := st.(contentY := GetActualY(origin, t.absY.value, st.contentHeight));
    }
    st := st.(x := st.contentX - t.padding.left, y := st.contentY - t.padding.bottom);
    st := st.(boundingX := st.x - t.margin.left, boundingY := st.y - t.margin.bottom);
    states[e] := st;
  }

  /** e's new state, written over `mid` (where the children were sized), satisfies OwnLaid. */
  lemma {:induction false} OwnLaidIntro(tree: Tree, mid: seq<ElementState>, sized: seq<ElementState>, e: nat,
                                        px: int, py: int, measure: (nat, string) -> Dim, p: Props)
    requires Wf(tree) && e < |tree| && |mid| == |sized| == |tree|
    requires PropsOf(tree, e) == Success(p)
    requires sized == mid[e := sized[e]]
    requires var occ := Occupied(p.direction, Contribs(tree, mid, e, p.fit, measure));
      && sized[e].contentWidth == AutoDim(p.widthAuto, p.literalWidth, occ.w)
      && sized[e].contentHeight == AutoDim(p.heightAuto, p.literalHeight, occ.h)
    requires sized[e].contentX == (if p.absX.Some? then GetActualX(p.origin, p.absX.value, sized[e].contentWidth) else px)
    requires sized[e].contentY == (if p.absY.Some? then GetActualY(p.origin, p.absY.value, sized[e].contentHeight) else py)
    requires BoxOk(sized[e], p.padding, p.margin)
    ensures OwnLaid(tree, sized, e, px, py, measure)
  {
    assert SameChildSizes(tree, mid, sized, e);
    ContribsFrame(tree, mid, sized, e, p.fit, measure);
  }

  /** Only e's subtree changed across the phases of compute. */
  lemma {:induction false} ComputeFrame(tree: Tree, before: seq<ElementState>, mid: seq<ElementState>,
                                        sized: seq<ElementState>, after: seq<ElementState>, e: nat)
    requires Wf(tree) && e < |tree| && |before| == |mid| == |sized| == |after| == |tree|
    requires Unchanged(tree, e, before, mid)
    requires sized == mid[e := sized[e]]
    requires PlacedOnly(tree, e, sized, after)
    ensures Unchanged(tree, e, before, after)
  {
    ChildNodesInside(tree, e);
    assert Desc(tree, e, e);
  }

  /** Sizing, which changes only the children's subtrees, changes only e's subtree. */
  lemma {:induction false} OutsideUnchanged(tree: Tree, e: nat, s1: seq<ElementState>, s2: seq<ElementState>)
    requires Wf(tree) && e < |tree| && |s1| == |tree| && |s2| == |tree|
    requires Outside(tree, e, |tree[e].children|, s1, s2)
    ensures Unchanged(tree, e, s1, s2)
  {
    SubtreesInside(tree, e);
  }

  /** Compute's success postcondition, from the facts its phases establish. */
  lemma {:induction false} ComputeLaid(tree: Tree, before: seq<ElementState>, mid: seq<ElementState>,
                                       sized: seq<ElementState>, after: seq<ElementState>, e: nat, p: Props,
                                       measure: (nat, string) -> Dim)
    requires Wf(tree) && e < |tree| && |before| == |mid| == |sized| == |after| == |tree|
    requires PropsOf(tree, e) == Success(p)
    requires OwnLaid(tree, sized, e, before[e].contentX, before[e].contentY, measure)
    requires p.widthAuto || p.heightAuto ==> EarlierLaid(tree, mid, before, e, |tree[e].children|, measure)
    requires !(p.widthAuto || p.heightAuto) ==> mid == before
    requires sized == mid[e := sized[e]]
    requires PlaceFirst(tree, e, sized[e], p, sized, |tree[e].children|) == Success(after)
    ensures OwnLaid(tree, after, e, before[e].contentX, before[e].contentY, measure)
    ensures forall j | IsChild(tree, e, j) :: ChildDone(tree, before, mid, after, e, j, measure)
    ensures PlacedOnly(tree, e, mid[e := after[e]], after)
  {
    var n := |tree[e].children|;
    PlaceFirstFrame(tree, e, sized[e], p, sized, n);
    PlaceFirstPlaced(tree, e, sized[e], p, sized, n);
    assert !IsChildNode(tree, e, n, e);
    assert mid[e := after[e]] == sized;
    assert SameChildSizes(tree, sized, after, e) by {
      forall j | 0 <= j < n && tree[e].children[j].Element?
        ensures SameSize(sized[tree[e].children[j].node], after[tree[e].children[j].node])
      {
      }
    }
    OwnLaidFrame(tree, sized, after, e, before[e].contentX, before[e].contentY, measure);
    forall j | IsChild(tree, e, j) ensures ChildDone(tree, before, mid, after, e, j, measure) {
      if p.widthAuto || p.heightAuto {
        assert ChildLaid(tree, mid, before, e, j, measure);
      }
    }
  }

  // ---- Consequences ----

  /**
   * The flow offset an auto parent writes into a child (mod.rs:183-187) is
   * lost: the child's own compute rewrites x and y from its content
   * position (mod.rs:273-274), which for a non-Absolute child is the one it
   * had before the pass. So the offset the parent reads back when placing
   * the child (mod.rs:299-300) is that content position minus the child's
   * padding, whatever the children before it occupied.
   */
  lemma {:induction false} FlowOffsetOverwritten(tree: Tree, before: seq<ElementState>, mid: seq<ElementState>,
                                                 after: seq<ElementState>, e: nat, j: int, measure: (nat, string) -> Dim)
    requires Wf(tree) && e < |tree| && IsChild(tree, e, j) && PropsOf(tree, e).Success?
    requires |before| == |mid| == |after| == |tree|
    requires PropsOf(tree, e).value.widthAuto || PropsOf(tree, e).value.heightAuto
    requires ChildDone(tree, before, mid, after, e, j, measure)
    ensures var c := tree[e].children[j].node;
      && PropsOf(tree, c).Success?
      && (PropsOf(tree, c).value.absX.None? ==> mid[c].x == before[c].contentX - PropsOf(tree, c).value.padding.left)
      && (PropsOf(tree, c).value.absY.None? ==> mid[c].y == before[c].contentY - PropsOf(tree, c).value.padding.bottom)
  {
    var c := tree[e].children[j].node;
    assert OwnLaid(tree, mid, c, before[c].contentX, before[c].contentY, measure);
  }

  /** A Vertical auto-sized element over children of 50 x 20 and 30 x 40 gets content 50 x 60. */
  lemma {:induction false} AutoSizeExample(tree: Tree, st: seq<ElementState>, e: nat, a: nat, b: nat,
                                           px: int, py: int, measure: (nat, string) -> Dim)
    requires Wf(tree) && e < |tree| && |st| == |tree| && a < |tree| && b < |tree|
    requires tree[e].children == [Element(a), Element(b)]
    requires OwnLaid(tree, st, e, px, py, measure)
    requires var p := PropsOf(tree, e).value;
      p.direction == Vertical && p.widthAuto && p.heightAuto && p.literalWidth == 0 && p.literalHeight == 0
    requires st[a].boundingWidth == 50 && st[a].boundingHeight == 20
    requires st[b].boundingWidth == 30 && st[b].boundingHeight == 40
    ensures st[e].contentWidth == 50 && st[e].contentHeight == 60
  {
    var p := PropsOf(tree, e).value;
    var cs := Contribs(tree, st, e, p.fit, measure);
    assert cs == [Some(Size(50, 20)), Some(Size(30, 40))];
    FlowExample();
  }
}
