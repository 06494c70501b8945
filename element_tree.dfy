/**
 * The element tree as an arena: each node holds its style sheet, the index
 * of its parent (a non-owning handle) and its children in order; element
 * children are arena indices, text leaves carry their string. The per-element
 * layout output (`UiElementState`) is a record kept beside the arena.
 * (src/ui/elements/mod.rs)
 */
module ElementTree {
  import opened Wrappers
  import opened StyleValues

  datatype Child = Element(node: nat) | Text(text: string)

  datatype Node = Node(style: UiStyle, parent: Option<nat>, children: seq<Child>)

  type Tree = seq<Node>

  /** A cloned-from handle names an element of the arena. */
  predicate RefOk<T>(v: UiValue<T>, n: nat) { v.CloneOf? ==> v.elem < n }

  predicate FieldRefsOk(f: LayoutField, n: nat) {
    RefOk(f.value, n) && RefOk(f.min, n) && RefOk(f.max, n)
  }

  predicate StyleRefsOk(s: UiStyle, n: nat) {
    && FieldRefsOk(s.x, n) && FieldRefsOk(s.y, n)
    && FieldRefsOk(s.width, n) && FieldRefsOk(s.height, n)
    && FieldRefsOk(s.padding.top, n) && FieldRefsOk(s.padding.bottom, n)
    && FieldRefsOk(s.padding.left, n) && FieldRefsOk(s.padding.right, n)
    && RefOk(s.origin, n) && RefOk(s.position, n) && RefOk(s.direction, n)
    && RefOk(s.childAlign, n) && RefOk(s.textFit, n)
  }

  /**
   * Tree shape: parents precede their children in the arena, every element
   * child names a later node whose parent is this node, no element child is
   * listed twice, and every cloned-from handle is in range.
   */
  predicate Wf(tree: Tree) {
    && (forall i | 0 <= i < |tree| :: tree[i].parent.Some? ==> tree[i].parent.value < i)
    && (forall i | 0 <= i < |tree| :: StyleRefsOk(tree[i].style, |tree|))
    && (forall i, j | 0 <= i < |tree| && 0 <= j < |tree[i].children| ::
          tree[i].children[j].Element? ==>
            i < tree[i].children[j].node < |tree| && tree[tree[i].children[j].node].parent == Some(i))
    && (forall i, j, k | 0 <= i < |tree| && 0 <= j < k < |tree[i].children| ::
          tree[i].children[j].Element? && tree[i].children[k].Element? ==>
            tree[i].children[j].node != tree[i].children[k].node)
  }

  /** The element children of node e are its only direct descendants. */
  predicate IsChild(tree: Tree, e: nat, j: int)
    requires e < |tree|
  {
    0 <= j < |tree[e].children| && tree[e].children[j].Element?
  }

  /** k lies in the subtree rooted at a (following parent handles upwards). */
  predicate Desc(tree: Tree, a: nat, k: nat)
    requires Wf(tree) && k < |tree|
    decreases k
  {
    k == a || (tree[k].parent.Some? && a < k && Desc(tree, a, tree[k].parent.value))
  }

  lemma {:induction false} DescAbove(tree: Tree, a: nat, k: nat)
    requires Wf(tree) && k < |tree| && Desc(tree, a, k)
    ensures a <= k
  {
  }

  /**
   * Subtrees of two different element children of one node are disjoint.
   */
  lemma {:induction false} SiblingsDisjoint(tree: Tree, e: nat, j1: int, j2: int, k: nat)
    requires Wf(tree) && e < |tree| && k < |tree|
    requires IsChild(tree, e, j1) && IsChild(tree, e, j2) && j1 != j2
    requires Desc(tree, tree[e].children[j1].node, k)
    ensures !Desc(tree, tree[e].children[j2].node, k)
    decreases k
  {
    var c1, c2 := tree[e].children[j1].node, tree[e].children[j2].node;
    assert c1 != c2 by {
      if j1 < j2 { assert tree[e].children[j1].node != tree[e].children[j2].node; }
      else { assert tree[e].children[j2].node != tree[e].children[j1].node; }
    }
    if k == c1 {
      if Desc(tree, c2, k) {
        DescAbove(tree, c2, tree[k].parent.value);
      }
    } else if k == c2 {
      DescAbove(tree, c1, tree[k].parent.value);
    } else {
      SiblingsDisjoint(tree, e, j1, j2, tree[k].parent.value);
    }
  }

  /** A node is never in the subtree of one of its element children. */
  lemma ParentOutsideChild(tree: Tree, e: nat, j: int)
    requires Wf(tree) && e < |tree| && IsChild(tree, e, j)
    ensures !Desc(tree, tree[e].children[j].node, e)
  {
    assert e < tree[e].children[j].node;
  }

  /** The subtree of a child lies inside the subtree of its parent. */
  lemma {:induction false} ChildSubtreeInside(tree: Tree, e: nat, j: int, k: nat)
    requires Wf(tree) && e < |tree| && k < |tree| && IsChild(tree, e, j)
    requires Desc(tree, tree[e].children[j].node, k)
    ensures Desc(tree, e, k)
    decreases k
  {
    if k != tree[e].children[j].node {
      ChildSubtreeInside(tree, e, j, tree[k].parent.value);
    }
  }

  /** The layout output of one element (`UiElementState`, without transforms). */
  datatype ElementState = ElementState(
    x: int, y: int,
    contentX: int, contentY: int,
    boundingX: int, boundingY: int,
    width: int, height: int,
    contentWidth: int, contentHeight: int,
    boundingWidth: int, boundingHeight: int)

  /**
   * The box relations: box = content grown by padding, bounding = box grown
   * by margin; the left and bottom sides carry the offsets (y grows upwards).
   */
  predicate BoxOk(s: ElementState, padding: Sides, margin: Sides) {
    && s.width == s.contentWidth + padding.left + padding.right
    && s.height == s.contentHeight + padding.top + padding.bottom
    && s.boundingWidth == s.width + margin.left + margin.right
    && s.boundingHeight == s.height + margin.top + margin.bottom
    && s.x == s.contentX - padding.left
    && s.y == s.contentY - padding.bottom
    && s.boundingX == s.x - margin.left
    && s.boundingY == s.y - margin.bottom
  }

  /** `UiElementState::new`: every rectangle empty at the origin. */
  function NewState(): (s: ElementState)
    ensures BoxOk(s, Sides(0, 0, 0, 0), Sides(0, 0, 0, 0))
    ensures s.contentX == 0 && s.contentY == 0
    ensures s.boundingWidth == s.boundingHeight == 0
  {
    ElementState(0, 0, 0, 0, 0, 0, 0, 0, 0, 0, 0, 0)
  }
}
