/**
 * `UiElementState::compute` as written, up to the end of its sizing loop,
 * with the element locks it takes. The loop's recursive call
 * (src/ui/elements/mod.rs:189) passes `elem`, the element being computed,
 * not the child `e`; that element's write guard (mod.rs:139) is still
 * held, and a `parking_lot::RwLock` is not reentrant, so the call blocks.
 * Module Layout models the evidently intended call on the child.
 */
module Reentry {
  import opened Wrappers
  import opened StyleValues
  import opened ElementTree
  import opened Resolution
  import opened LayoutSpec

  /** How compute's entry and sizing loop end: finished, panicked, or blocked on a held lock. */
  datatype Run = Sized | Panicked(panic: Panic) | Blocked

  /**
   * compute on e while this thread holds the write locks in `held`:
   * taking e's own write lock blocks when e is among them; otherwise the
   * leading properties are resolved and, when a dimension is auto, the
   * children are walked with e's lock held.
   */
  function Enter(tree: Tree, e: nat, held: set<nat>): Run
    requires Wf(tree) && e < |tree|
    decreases if e in held then 0 else 1, 0
  {
    if e in held then Blocked
    else
      match HeadOf(tree, e)
      case Failure(p) => Panicked(p)
      case Success(h) => if h.widthAuto || h.heightAuto then Walk(tree, e, held + {e}, 0) else Sized
  }

  /** The rest of the loop runs only when the step before it finished. */
  function Then(first: Run, rest: Run): Run {
    if first.Sized? then rest else first
  }

  /** The sizing loop from child j on: an element child re-enters compute on e itself. */
  function Walk(tree: Tree, e: nat, held: set<nat>, j: nat): Run
    requires Wf(tree) && e < |tree| && e in held && j <= |tree[e].children|
    decreases 0, |tree[e].children| - j + 1
  {
    if j == |tree[e].children| then Sized
    else
      match tree[e].children[j]
      case Element(_) => Then(Enter(tree, e, held), Walk(tree, e, held, j + 1))
      case Text(_) =>
        match TextFitOf(tree, e)
        case Failure(p) => Panicked(p)
        case Success(_) => Walk(tree, e, held, j + 1)
  }

  lemma {:induction false} WalkBlocks(tree: Tree, e: nat, held: set<nat>, j: nat)
    requires Wf(tree) && e < |tree| && e in held && j <= |tree[e].children|
    requires exists k | j <= k < |tree[e].children| :: tree[e].children[k].Element?
    ensures Walk(tree, e, held, j) == Blocked ||
            (TextFitOf(tree, e).Failure? && Walk(tree, e, held, j) == Panicked(TextFitOf(tree, e).error))
    ensures TextFitOf(tree, e).Success? ==> Walk(tree, e, held, j) == Blocked
    decreases |tree[e].children| - j
  {
    if tree[e].children[j].Text? && TextFitOf(tree, e).Success? {
      var k :| j <= k < |tree[e].children| && tree[e].children[k].Element?;
      assert k != j;
      WalkBlocks(tree, e, held, j + 1);
    }
  }

  /**
   * As written, compute on an element with an auto dimension and an
   * element child never finishes sizing: it blocks at the first element
   * child, unless a text child before it panics first.
   */
  lemma ReentryBlocks(tree: Tree, e: nat, held: set<nat>)
    requires Wf(tree) && e < |tree| && e !in held
    requires HeadOf(tree, e).Success? && (tree[e].style.width.IsAuto() || tree[e].style.height.IsAuto())
    requires exists j :: IsChild(tree, e, j)
    ensures Enter(tree, e, held) == Blocked ||
            (TextFitOf(tree, e).Failure? && Enter(tree, e, held) == Panicked(TextFitOf(tree, e).error))
    ensures TextFitOf(tree, e).Success? ==> Enter(tree, e, held) == Blocked
  {
    var j :| IsChild(tree, e, j);
    WalkBlocks(tree, e, held + {e}, 0);
  }

  lemma {:induction false} WalkTextOnly(tree: Tree, e: nat, held: set<nat>, j: nat)
    requires Wf(tree) && e < |tree| && e in held && j <= |tree[e].children|
    requires forall k | j <= k < |tree[e].children| :: tree[e].children[k].Text?
    ensures Walk(tree, e, held, j) ==
              if j < |tree[e].children| && TextFitOf(tree, e).Failure? then Panicked(TextFitOf(tree, e).error)
              else Sized
    decreases |tree[e].children| - j
  {
    if j < |tree[e].children| && TextFitOf(tree, e).Success? {
      WalkTextOnly(tree, e, held, j + 1);
    }
  }

  /**
   * Without element children the as-written code never reaches the
   * re-entrant call, and sizing ends as the intended model says: it panics
   * exactly where HeadOf or FitOf does.
   */
  lemma TextOnlyAsIntended(tree: Tree, e: nat, held: set<nat>)
    requires Wf(tree) && e < |tree| && e !in held
    requires forall j :: !IsChild(tree, e, j)
    ensures Enter(tree, e, held) ==
              if HeadOf(tree, e).Failure? then Panicked(HeadOf(tree, e).error)
              else if FitOf(tree, e).Failure? then Panicked(FitOf(tree, e).error)
              else Sized
  {
    var ch := tree[e].children;
    forall k | 0 <= k < |ch| ensures ch[k].Text? {
      assert !IsChild(tree, e, k);
    }
    if HeadOf(tree, e).Success? {
      var h := HeadOf(tree, e).value;
      if h.widthAuto || h.heightAuto {
        WalkTextOnly(tree, e, held + {e}, 0);
        if |ch| > 0 {
          assert ch[0].Text?;
          assert HasText(tree, e);
        }
      }
    }
  }

  /** The smallest tree that shows it: an auto root with one element child. */
  function ExampleTree(): Tree {
    [Node(DefaultStyle(), Option.None, [Element(1)]), Node(DefaultStyle(), Some(0), [])]
  }

  lemma ReentryExample()
    ensures Wf(ExampleTree())
    ensures Enter(ExampleTree(), 0, {}) == Blocked
  {
    var tree := ExampleTree();
    assert Wf(tree);
    assert IsChild(tree, 0, 0);
    ReentryBlocks(tree, 0, {});
  }
}
