/**
 * What one layout pass computes for an element, as functions over the
 * arena and the states: the element's resolved properties, the flow
 * accumulation of its children, auto-sizing, and the cross-axis placement
 * of a relative child.
 * (src/ui/elements/mod.rs)
 */
module LayoutSpec {
  import opened Wrappers
  import opened StyleValues
  import opened ElementTree
  import opened Resolution

  // ---- The element's own properties (mod.rs:143-173, 239-271) ----

  function DirectionOf(tree: Tree, e: nat): (r: Result<Direction, Panic>)
    requires Wf(tree) && e < |tree|
    ensures !tree[e].style.direction.IsSet() ==> r == Success(Horizontal)
    ensures tree[e].style.direction.Just? ==> r == Success(tree[e].style.direction.v)
  {
    SelectorsOk(tree);
    if tree[e].style.direction.IsSet() then ResolveValueOr(tree, e, DirectionSel, NoPx<Direction>)
    else Success(Horizontal)
  }

  function OriginOf(tree: Tree, e: nat): (r: Result<Origin, Panic>)
    requires Wf(tree) && e < |tree|
    ensures !tree[e].style.origin.IsSet() ==> r == Success(BottomLeft)
    ensures tree[e].style.origin.Just? ==> r == Success(tree[e].style.origin.v)
  {
    SelectorsOk(tree);
    if tree[e].style.origin.IsSet() then ResolveValueOr(tree, e, OriginSel, NoPx<Origin>)
    else Success(BottomLeft)
  }

  function ChildAlignOf(tree: Tree, e: nat): (r: Result<ChildAlign, Panic>)
    requires Wf(tree) && e < |tree|
    ensures !tree[e].style.childAlign.IsSet() ==> r == Success(Start)
    ensures tree[e].style.childAlign.Just? ==> r == Success(tree[e].style.childAlign.v)
  {
    SelectorsOk(tree);
    if tree[e].style.childAlign.IsSet() then ResolveValueOr(tree, e, ChildAlignSel, NoPx<ChildAlign>)
    else Success(Start)
  }

  function PositionOf(tree: Tree, e: nat): (r: Result<Position, Panic>)
    requires Wf(tree) && e < |tree|
    ensures !tree[e].style.position.IsSet() ==> r == Success(Relative)
    ensures tree[e].style.position.Just? ==> r == Success(tree[e].style.position.v)
  {
    SelectorsOk(tree);
    if tree[e].style.position.IsSet() then ResolveValueOr(tree, e, PositionSel, NoPx<Position>)
    else Success(Relative)
  }

  /** An unset fit maps None to ExpandParent and Auto to CropText. */
  function TextFitOf(tree: Tree, e: nat): (r: Result<TextFit, Panic>)
    requires Wf(tree) && e < |tree|
    ensures tree[e].style.textFit.None? ==> r == Success(ExpandParent)
    ensures tree[e].style.textFit.Auto? ==> r == Success(CropText)
    ensures tree[e].style.textFit.Just? ==> r == Success(tree[e].style.textFit.v)
  {
    SelectorsOk(tree);
    if tree[e].style.textFit.IsSet() then ResolveValueOr(tree, e, TextFitSel, NoPx<TextFit>)
    else if tree[e].style.textFit.None? then Success(ExpandParent)
    else Success(CropText)
  }

  /** A set i32 field takes its resolved (clamped) value, an unset one 0. */
  function LiteralOf(tree: Tree, e: nat, field: IntField): (r: Result<int, Panic>)
    requires Wf(tree) && e < |tree|
    ensures !FieldOf(tree[e].style, field).IsSet() ==> r == Success(0)
    ensures var f := FieldOf(tree[e].style, field);
      f.value.Just? && !f.min.IsSet() && !f.max.IsSet() ==> r == Success(f.value.v)
  {
    if FieldOf(tree[e].style, field).IsSet() then ResolveFieldOr(tree, e, field) else Success(0)
  }

  /** A set size that resolves with bounds min <= max is clamped into them. */
  lemma LiteralClamped(tree: Tree, e: nat, field: IntField, lo: int, hi: int)
    requires Wf(tree) && e < |tree| && lo <= hi
    requires FieldOf(tree[e].style, field).IsSet()
    requires FieldOf(tree[e].style, field).min == Just(lo) && FieldOf(tree[e].style, field).max == Just(hi)
    requires ResolveField(tree, FieldOf(tree[e].style, field), tree[e].parent, field, Fuel(tree)).Success?
    requires ResolveField(tree, FieldOf(tree[e].style, field), tree[e].parent, field, Fuel(tree)).value.Some?
    ensures LiteralOf(tree, e, field).Success? && lo <= LiteralOf(tree, e, field).value <= hi
  {
    var f := FieldOf(tree[e].style, field);
    assert StyleRefsOk(tree[e].style, |tree|);
    assert FieldRefsOk(f, |tree|) by {
      match field
      case X => case Y => case Width => case Height =>
      case PaddingTop => case PaddingBottom => case PaddingLeft => case PaddingRight =>
    }
    SelectorsOk(tree);
    FieldClampLaw(tree, f, tree[e].parent, field, Fuel(tree));
    ResolveBaseCases(tree, f.min, tree[e].parent, IntSel, IntKey(field, Min), IntPx, Fuel(tree));
    ResolveBaseCases(tree, f.max, tree[e].parent, IntSel, IntKey(field, Max), IntPx, Fuel(tree));
  }

  /**
   * An inherited direction whose ancestor leaves it unset is a fatal error:
   * the default sheet's direction is Auto too.
   */
  lemma InheritedUnsetDirectionPanics(tree: Tree, e: nat)
    requires Wf(tree) && e < |tree| && tree[e].style.direction == Inherit
    requires tree[e].parent.Some? && tree[tree[e].parent.value].parent.Some?
    requires !tree[tree[e].parent.value].style.direction.IsSet()
    ensures DirectionOf(tree, e) == Failure(DefaultUnresolved)
  {
    SelectorsOk(tree);
    var p := tree[e].parent.value;
    InheritLaw(tree, tree[e].parent, DirectionSel, (), NoPx<Direction>, Fuel(tree));
    ResolveBaseCases(tree, tree[p].style.direction, tree[p].parent, DirectionSel, (), NoPx<Direction>, Fuel(tree) - 1);
    ResolveBaseCases(tree, DefaultStyle().direction, Option.None, DirectionSel, (), NoPx<Direction>, Fuel(tree));
  }

  /** An inherited origin whose ancestor leaves it unset falls back to BottomLeft. */
  lemma InheritedUnsetOriginFallsBack(tree: Tree, e: nat)
    requires Wf(tree) && e < |tree| && tree[e].style.origin == Inherit
    requires tree[e].parent.Some? && tree[tree[e].parent.value].parent.Some?
    requires !tree[tree[e].parent.value].style.origin.IsSet()
    ensures OriginOf(tree, e) == Success(BottomLeft)
  {
    SelectorsOk(tree);
    var p := tree[e].parent.value;
    InheritLaw(tree, tree[e].parent, OriginSel, (), NoPx<Origin>, Fuel(tree));
    ResolveBaseCases(tree, tree[p].style.origin, tree[p].parent, OriginSel, (), NoPx<Origin>, Fuel(tree) - 1);
    ResolveBaseCases(tree, DefaultStyle().origin, Option.None, OriginSel, (), NoPx<Origin>, Fuel(tree));
  }

  predicate HasText(tree: Tree, e: nat)
    requires e < |tree|
  {
    exists j | 0 <= j < |tree[e].children| :: tree[e].children[j].Text?
  }

  /** What compute resolves about element e before sizing (mod.rs:143-173). */
  datatype Head = Head(direction: Direction, origin: Origin, align: ChildAlign,
                       widthAuto: bool, heightAuto: bool, literalWidth: int, literalHeight: int)

  /** What compute resolves about element e after sizing (mod.rs:239-271). */
  datatype Tail = Tail(padding: Sides, margin: Sides, position: Position, absX: Option<int>, absY: Option<int>)

  /** Everything compute resolves about element e itself, in the source's order. */
  datatype Props = Props(
    direction: Direction, origin: Origin, align: ChildAlign,
    widthAuto: bool, heightAuto: bool, literalWidth: int, literalHeight: int,
    fit: TextFit, padding: Sides, margin: Sides, position: Position,
    absX: Option<int>, absY: Option<int>)

  function HeadOf(tree: Tree, e: nat): (r: Result<Head, Panic>)
    requires Wf(tree) && e < |tree|
    ensures r.Success? <==>
              && DirectionOf(tree, e).Success? && OriginOf(tree, e).Success? && ChildAlignOf(tree, e).Success?
              && LiteralOf(tree, e, Width).Success? && LiteralOf(tree, e, Height).Success?
    ensures r.Success? && r.value.widthAuto ==> r.value.literalWidth == 0
    ensures r.Success? && r.value.heightAuto ==> r.value.literalHeight == 0
    ensures r.Success? ==>
              && r.value.direction == DirectionOf(tree, e).value && r.value.origin == OriginOf(tree, e).value
              && r.value.align == ChildAlignOf(tree, e).value
              && r.value.widthAuto == tree[e].style.width.IsAuto() && r.value.heightAuto == tree[e].style.height.IsAuto()
              && r.value.literalWidth == LiteralOf(tree, e, Width).value
              && r.value.literalHeight == LiteralOf(tree, e, Height).value
  {
    var s := tree[e].style;
    var direction :- DirectionOf(tree, e);
    var origin :- OriginOf(tree, e);
    var align :- ChildAlignOf(tree, e);
    var litW :- LiteralOf(tree, e, Width);
    var litH :- LiteralOf(tree, e, Height);
    Success(Head(direction, origin, align, s.width.IsAuto(), s.height.IsAuto(), litW, litH))
  }

  /** The text fit is resolved only when some dimension is auto and there is a text child. */
  function FitOf(tree: Tree, e: nat): (r: Result<TextFit, Panic>)
    requires Wf(tree) && e < |tree|
    ensures r.Failure? ==> TextFitOf(tree, e).Failure?
    ensures r == Success(ExpandParent) ==> HasText(tree, e) && TextFitOf(tree, e) == Success(ExpandParent)
    ensures (tree[e].style.width.IsAuto() || tree[e].style.height.IsAuto()) && HasText(tree, e) ==>
              r == TextFitOf(tree, e)
    ensures !((tree[e].style.width.IsAuto() || tree[e].style.height.IsAuto()) && HasText(tree, e)) ==>
              r == Success(CropText)
  {
    var s := tree[e].style;
    if (s.width.IsAuto() || s.height.IsAuto()) && HasText(tree, e) then TextFitOf(tree, e) else Success(CropText)
  }

  /** The x/y coordinate is resolved only for an Absolute element whose x/y is not Auto. */
  function TailOf(tree: Tree, e: nat): (r: Result<Tail, Panic>)
    requires Wf(tree) && e < |tree|
    ensures r.Success? <==>
              && SideGet(tree, tree[e].style.padding, e).Success? && SideGet(tree, tree[e].style.margin, e).Success?
              && PositionOf(tree, e).Success?
              && (PositionOf(tree, e).value == Absolute && !tree[e].style.x.IsAuto() ==> LiteralOf(tree, e, X).Success?)
              && (PositionOf(tree, e).value == Absolute && !tree[e].style.y.IsAuto() ==> LiteralOf(tree, e, Y).Success?)
    ensures r.Success? ==> PositionOf(tree, e) == Success(r.value.position)
    ensures r.Success? && (r.value.absX.Some? || r.value.absY.Some?) ==> r.value.position == Absolute
    ensures r.Success? ==> (r.value.absX.Some? <==> r.value.position == Absolute && !tree[e].style.x.IsAuto())
    ensures r.Success? ==> (r.value.absY.Some? <==> r.value.position == Absolute && !tree[e].style.y.IsAuto())
    ensures r.Success? && r.value.absX.Some? ==> LiteralOf(tree, e, X) == Success(r.value.absX.value)
    ensures r.Success? && r.value.absY.Some? ==> LiteralOf(tree, e, Y) == Success(r.value.absY.value)
    ensures r.Success? ==> SideGet(tree, tree[e].style.padding, e) == Success(r.value.padding)
                           && SideGet(tree, tree[e].style.margin, e) == Success(r.value.margin)
  {
    var s := tree[e].style;
    var padding :- SideGet(tree, s.padding, e);
    var margin :- SideGet(tree, s.margin, e);
    var position :- PositionOf(tree, e);
    var absX :- if position == Absolute && !s.x.IsAuto() then (var v :- LiteralOf(tree, e, X); Success(Some(v)))
                else Success(Option.None);
    var absY :- if position == Absolute && !s.y.IsAuto() then (var v :- LiteralOf(tree, e, Y); Success(Some(v)))
                else Success(Option.None);
    Success(Tail(padding, margin, position, absX, absY))
  }

  function Combine(h: Head, fit: TextFit, t: Tail): Props {
    Props(h.direction, h.origin, h.align, h.widthAuto, h.heightAuto, h.literalWidth, h.literalHeight,
          fit, t.padding, t.margin, t.position, t.absX, t.absY)
  }

  /**
   * The resolutions compute performs on its own element; each panics where
   * the source panics, and only when the source evaluates it.
   */
  function PropsOf(tree: Tree, e: nat): (r: Result<Props, Panic>)
    requires Wf(tree) && e < |tree|
    ensures r.Success? <==> HeadOf(tree, e).Success? && FitOf(tree, e).Success? && TailOf(tree, e).Success?
    ensures r.Success? ==> r.value.widthAuto == tree[e].style.width.IsAuto()
                           && r.value.heightAuto == tree[e].style.height.IsAuto()
    ensures r.Success? ==>
              var h, t := HeadOf(tree, e).value, TailOf(tree, e).value;
              && r.value == Combine(h, FitOf(tree, e).value, t)
  {
    var h :- HeadOf(tree, e);
    var fit :- FitOf(tree, e);
    var t :- TailOf(tree, e);
    Success(Combine(h, fit, t))
  }

  // ---- Flow accumulation (mod.rs:176-228) ----

  datatype Size = Size(w: int, h: int)

  function Larger(a: int, b: int): int { if a < b then b else a }

  /** One child added to the occupied size; None contributes nothing. */
  function Step(dir: Direction, occ: Size, c: Option<Size>): Size {
    match c
    case None => occ
    case Some(s) =>
      if dir == Horizontal then Size(occ.w + s.w, Larger(occ.h, s.h))
      else Size(Larger(occ.w, s.w), occ.h + s.h)
  }

  /** The occupied size does not depend on the order in which two children are added. */
  lemma StepCommutes(dir: Direction, occ: Size, a: Option<Size>, b: Option<Size>)
    ensures Step(dir, Step(dir, occ, a), b) == Step(dir, Step(dir, occ, b), a)
  {
  }

  /** The occupied size after the children in order, starting from 0 x 0. */
  function Occupied(dir: Direction, cs: seq<Option<Size>>): Size
    decreases |cs|
  {
    if cs == [] then Size(0, 0) else Step(dir, Occupied(dir, cs[..|cs| - 1]), cs[|cs| - 1])
  }

  /** Reference definitions: the sum of the widths and the largest height (at least 0). */
  function SumW(cs: seq<Option<Size>>): int {
    if cs == [] then 0 else (if cs[0].Some? then cs[0].value.w else 0) + SumW(cs[1..])
  }

  function SumH(cs: seq<Option<Size>>): int {
    if cs == [] then 0 else (if cs[0].Some? then cs[0].value.h else 0) + SumH(cs[1..])
  }

  function MaxW(cs: seq<Option<Size>>): int {
    if cs == [] then 0 else Larger(if cs[0].Some? then cs[0].value.w else 0, MaxW(cs[1..]))
  }

  function MaxH(cs: seq<Option<Size>>): int {
    if cs == [] then 0 else Larger(if cs[0].Some? then cs[0].value.h else 0, MaxH(cs[1..]))
  }

  lemma {:induction false} AppendLast(cs: seq<Option<Size>>, c: Option<Size>)
    ensures SumW(cs + [c]) == SumW(cs) + (if c.Some? then c.value.w else 0)
    ensures SumH(cs + [c]) == SumH(cs) + (if c.Some? then c.value.h else 0)
    ensures MaxW(cs + [c]) == Larger(MaxW(cs), if c.Some? then c.value.w else 0)
    ensures MaxH(cs + [c]) == Larger(MaxH(cs), if c.Some? then c.value.h else 0)
  {
    if cs != [] {
      assert (cs + [c])[1..] == cs[1..] + [c];
      AppendLast(cs[1..], c);
    }
  }

  lemma {:induction false} MaxNonNegative(cs: seq<Option<Size>>)
    ensures MaxW(cs) >= 0 && MaxH(cs) >= 0
  {
    if cs != [] { MaxNonNegative(cs[1..]); }
  }

  /**
   * Flow accumulation: horizontally the widths add up and the height is the
   * largest one; vertically the converse.
   */
  lemma {:induction false} OccupiedLaw(dir: Direction, cs: seq<Option<Size>>)
    ensures dir == Horizontal ==> Occupied(dir, cs) == Size(SumW(cs), MaxH(cs))
    ensures dir == Vertical ==> Occupied(dir, cs) == Size(MaxW(cs), SumH(cs))
    decreases |cs|
  {
    if cs != [] {
      var init, last := cs[..|cs| - 1], cs[|cs| - 1];
      assert init + [last] == cs;
      OccupiedLaw(dir, init);
      AppendLast(init, last);
      MaxNonNegative(init);
    }
  }

  lemma FlowExample()
    ensures Occupied(Horizontal, [Some(Size(30, 10)), Some(Size(40, 20))]) == Size(70, 20)
    ensures Occupied(Vertical, [Some(Size(50, 20)), Some(Size(30, 40))]) == Size(50, 60)
  {
    var h := [Some(Size(30, 10)), Some(Size(40, 20))];
    assert h[..1] == [Some(Size(30, 10))] && h[..1][..0] == [];
    var v := [Some(Size(50, 20)), Some(Size(30, 40))];
    assert v[..1] == [Some(Size(50, 20))] && v[..1][..0] == [];
  }

  predicate LeOpt(a: Option<Size>, b: Option<Size>) {
    (a.None? && b.None?) || (a.Some? && b.Some? && a.value.w <= b.value.w && a.value.h <= b.value.h)
  }

  /** Growing any child's contribution never shrinks the occupied size. */
  lemma {:induction false} OccupiedMonotone(dir: Direction, a: seq<Option<Size>>, b: seq<Option<Size>>)
    requires |a| == |b| && forall i | 0 <= i < |a| :: LeOpt(a[i], b[i])
    ensures Occupied(dir, a).w <= Occupied(dir, b).w && Occupied(dir, a).h <= Occupied(dir, b).h
    decreases |a|
  {
    if a != [] {
      OccupiedMonotone(dir, a[..|a| - 1], b[..|b| - 1]);
    }
  }

  /** An auto dimension grows to the occupied size; a fixed one keeps its literal. */
  function AutoDim(auto: bool, literal: int, occupied: int): (r: int)
    ensures auto ==> r == Larger(literal, occupied)
    ensures !auto ==> r == literal
  {
    if auto && occupied > literal then occupied else literal
  }

  /** Auto-sizing only grows, and grows with the content. */
  lemma AutoDimMonotone(auto: bool, literal: int, o1: int, o2: int)
    requires o1 <= o2
    ensures literal <= AutoDim(auto, literal, o1) || !auto
    ensures AutoDim(auto, literal, o1) <= AutoDim(auto, literal, o2)
  {
  }

  /**
   * What one child adds to the flow: an element its bounding size, a text
   * leaf its measured size under ExpandParent and nothing under CropText.
   */
  function Contribution(st: seq<ElementState>, e: nat, c: Child, fit: TextFit, measure: (nat, string) -> Dim)
    : (r: Option<Size>)
    requires c.Element? ==> c.node < |st|
    ensures r.None? <==> c.Text? && fit.CropText?
    ensures c.Text? && r.Some? ==> r.value.w >= 0 && r.value.h >= 0
  {
    match c
    case Element(k) => Some(Size(st[k].boundingWidth, st[k].boundingHeight))
    case Text(s) => if fit == ExpandParent then Some(Size(measure(e, s).width, measure(e, s).height)) else Option.None
  }

  /** The text measurement's result: a non-negative size. */
  datatype Dim = Dim(width: nat, height: nat)

  function Contribs(tree: Tree, st: seq<ElementState>, e: nat, fit: TextFit, measure: (nat, string) -> Dim)
    : (cs: seq<Option<Size>>)
    requires Wf(tree) && e < |tree| && |st| == |tree|
    ensures |cs| == |tree[e].children|
  {
    seq(|tree[e].children|, j requires 0 <= j < |tree[e].children| =>
      Contribution(st, e, tree[e].children[j], fit, measure))
  }

  /** Contributions read only the bounding sizes of the element children. */
  predicate SameChildSizes(tree: Tree, s1: seq<ElementState>, s2: seq<ElementState>, e: nat)
    requires Wf(tree) && e < |tree| && |s1| == |tree| && |s2| == |tree|
  {
    forall j | 0 <= j < |tree[e].children| && tree[e].children[j].Element? ::
      s1[tree[e].children[j].node].boundingWidth == s2[tree[e].children[j].node].boundingWidth
      && s1[tree[e].children[j].node].boundingHeight == s2[tree[e].children[j].node].boundingHeight
  }

  lemma ContribsFrame(tree: Tree, s1: seq<ElementState>, s2: seq<ElementState>, e: nat, fit: TextFit,
                      measure: (nat, string) -> Dim)
    requires Wf(tree) && e < |tree| && |s1| == |tree| && |s2| == |tree|
    requires SameChildSizes(tree, s1, s2, e)
    ensures Contribs(tree, s1, e, fit, measure) == Contribs(tree, s2, e, fit, measure)
  {
    var a, b := Contribs(tree, s1, e, fit, measure), Contribs(tree, s2, e, fit, measure);
    forall j | 0 <= j < |a| ensures a[j] == b[j] {
      if tree[e].children[j].Element? { assert IsChild(tree, e, j); }
    }
  }

  /**
   * Element e's state after its own compute: sizes from its literals and
   * (when auto) its children's flow, box and bounding rectangles from its
   * padding and margin, and its content position from the origin anchor
   * when Absolute, else kept from before the pass.
   */
  ghost predicate OwnLaid(tree: Tree, st: seq<ElementState>, e: nat, priorX: int, priorY: int,
                          measure: (nat, string) -> Dim)
    requires Wf(tree) && e < |tree| && |st| == |tree|
  {
    && PropsOf(tree, e).Success?
    && var p := PropsOf(tree, e).value;
       var occ := Occupied(p.direction, Contribs(tree, st, e, p.fit, measure));
       var cw := AutoDim(p.widthAuto, p.literalWidth, occ.w);
       var ch := AutoDim(p.heightAuto, p.literalHeight, occ.h);
       && st[e].contentWidth == cw
       && st[e].contentHeight == ch
       && st[e].contentX == (if p.absX.Some? then GetActualX(p.origin, p.absX.value, cw) else priorX)
       && st[e].contentY == (if p.absY.Some? then GetActualY(p.origin, p.absY.value, ch) else priorY)
       && BoxOk(st[e], p.padding, p.margin)
  }

  lemma OwnLaidFrame(tree: Tree, s1: seq<ElementState>, s2: seq<ElementState>, e: nat, px: int, py: int,
                     measure: (nat, string) -> Dim)
    requires Wf(tree) && e < |tree| && |s1| == |tree| && |s2| == |tree|
    requires OwnLaid(tree, s1, e, px, py, measure)
    requires s1[e] == s2[e] && SameChildSizes(tree, s1, s2, e)
    ensures OwnLaid(tree, s2, e, px, py, measure)
  {
    ContribsFrame(tree, s1, s2, e, PropsOf(tree, e).value.fit, measure);
  }

  /**
   * A bare literal width is the laid-out content width as it stands: it is
   * neither auto-sized nor floored, so a negative literal gives a negative
   * content width.
   */
  lemma LiteralWidthKept(tree: Tree, st: seq<ElementState>, e: nat, w: int, px: int, py: int,
                         measure: (nat, string) -> Dim)
    requires Wf(tree) && e < |tree| && |st| == |tree|
    requires tree[e].style.width == FromValue(Just(w))
    requires OwnLaid(tree, st, e, px, py, measure)
    ensures st[e].contentWidth == w
  {
    assert !FieldOf(tree[e].style, Width).min.IsSet() && !FieldOf(tree[e].style, Width).max.IsSet();
  }

  // ---- Child placement (mod.rs:278-366) ----

  /** Start of a child on the cross axis, from the parent's content start and size. */
  function CrossStart(align: ChildAlign, start: int, size: int, childSize: int): int {
    match align
    case Start => start
    case End => start + size - childSize
    case Middle => start + Half(size) - Half(childSize)
    case OffsetStart(o) => start + o
    case OffsetEnd(o) => start + size - childSize - o
    case OffsetMiddle(o) => start + Half(size) - Half(childSize) + o
  }

  /**
   * Start places the child at the parent's content edge, End makes the far
   * edges meet, Middle lines up the (truncated) centres, and the Offset
   * forms move these by o (End-wards against the axis).
   */
  lemma CrossAlignment(start: int, size: int, childSize: int, o: int)
    ensures CrossStart(Start, start, size, childSize) == start
    ensures CrossStart(End, start, size, childSize) + childSize == start + size
    ensures CrossStart(Middle, start, size, childSize) + Half(childSize) == start + Half(size)
    ensures CrossStart(OffsetStart(o), start, size, childSize) == CrossStart(Start, start, size, childSize) + o
    ensures CrossStart(OffsetEnd(o), start, size, childSize) == CrossStart(End, start, size, childSize) - o
    ensures CrossStart(OffsetMiddle(o), start, size, childSize) == CrossStart(Middle, start, size, childSize) + o
  {
  }

  /**
   * The parent's rewrite of one element child c: a Relative child is
   * anchored at its stored flow offset on the flow axis and aligned on the
   * cross axis; its padding and margin are resolved against the PARENT e.
   * An Absolute child is returned unchanged.
   */
  function PlaceChild(tree: Tree, e: nat, parent: ElementState, p: Props, c: nat, cs: ElementState)
    : (r: Result<ElementState, Panic>)
    requires Wf(tree) && e < |tree| && c < |tree|
    ensures r.Success? ==>
      && r.value.contentWidth == cs.contentWidth && r.value.contentHeight == cs.contentHeight
      && r.value.width == cs.width && r.value.height == cs.height
      && r.value.boundingWidth == cs.boundingWidth && r.value.boundingHeight == cs.boundingHeight
  {
    var position :- PositionOf(tree, c);
    if position == Absolute then Success(cs)
    else
      var co :- OriginOf(tree, c);
      var content :=
        if p.direction == Vertical then
          cs.(contentY := GetActualY(co, cs.y, cs.contentHeight),
              contentX := GetActualX(co, CrossStart(p.align, parent.contentX, parent.contentWidth, cs.contentWidth),
                                     cs.contentWidth))
        else
          cs.(contentX := GetActualX(co, cs.x, cs.contentWidth),
              contentY := GetActualY(co, CrossStart(p.align, parent.contentY, parent.contentHeight, cs.contentHeight),
                                     cs.contentHeight));
      var padding :- SideGet(tree, tree[c].style.padding, e);
      var margin :- SideGet(tree, tree[c].style.margin, e);
      var x := content.contentX - padding.left;
      var y := content.contentY - padding.bottom;
      Success(content.(x := x, y := y, boundingX := x - margin.left, boundingY := y - margin.bottom))
  }

  /**
   * A placed Relative child: its flow-axis start is the anchored stored
   * offset, its cross-axis start the aligned parent edge, and its box and
   * bounding corners follow from padding and margin resolved on the parent.
   */
  lemma PlacedRelative(tree: Tree, e: nat, parent: ElementState, p: Props, c: nat, cs: ElementState)
    requires Wf(tree) && e < |tree| && c < |tree|
    requires PlaceChild(tree, e, parent, p, c, cs).Success? && PositionOf(tree, c) == Success(Relative)
    ensures
      var r := PlaceChild(tree, e, parent, p, c, cs).value;
      var co := OriginOf(tree, c).value;
      var pad := SideGet(tree, tree[c].style.padding, e).value;
      var mar := SideGet(tree, tree[c].style.margin, e).value;
      && OriginOf(tree, c).Success?
      && SideGet(tree, tree[c].style.padding, e).Success?
      && SideGet(tree, tree[c].style.margin, e).Success?
      && (p.direction == Horizontal ==>
            r.contentX == GetActualX(co, cs.x, cs.contentWidth)
            && r.contentY == GetActualY(co, CrossStart(p.align, parent.contentY, parent.contentHeight, cs.contentHeight),
                                        cs.contentHeight))
      && (p.direction == Vertical ==>
            r.contentY == GetActualY(co, cs.y, cs.contentHeight)
            && r.contentX == GetActualX(co, CrossStart(p.align, parent.contentX, parent.contentWidth, cs.contentWidth),
                                        cs.contentWidth))
      && r.x == r.contentX - pad.left && r.y == r.contentY - pad.bottom
      && r.boundingX == r.x - mar.left && r.boundingY == r.y - mar.bottom
  {
  }

  /** Absolute children are left as they are. */
  lemma PlacedAbsolute(tree: Tree, e: nat, parent: ElementState, p: Props, c: nat, cs: ElementState)
    requires Wf(tree) && e < |tree| && c < |tree|
    requires PositionOf(tree, c) == Success(Absolute)
    ensures PlaceChild(tree, e, parent, p, c, cs) == Success(cs)
  {
  }

  /**
   * Placement is not idempotent: placing an already placed Relative child
   * again re-anchors it from the x (or y) the first placement wrote, which
   * is its content position minus its resolved left (or bottom) padding. So
   * every pass moves it by the same amount along the flow axis, for a left
   * (or bottom) origin by minus that padding; the cross axis stays.
   */
  lemma PlaceTwiceDrifts(tree: Tree, e: nat, parent: ElementState, p: Props, c: nat, cs: ElementState)
    requires Wf(tree) && e < |tree| && c < |tree|
    requires PlaceChild(tree, e, parent, p, c, cs).Success? && PositionOf(tree, c) == Success(Relative)
    ensures
      var once := PlaceChild(tree, e, parent, p, c, cs).value;
      var co := OriginOf(tree, c).value;
      var pad := SideGet(tree, tree[c].style.padding, e).value;
      && OriginOf(tree, c).Success? && SideGet(tree, tree[c].style.padding, e).Success?
      && PlaceChild(tree, e, parent, p, c, once).Success?
      && var twice := PlaceChild(tree, e, parent, p, c, once).value;
         && (p.direction == Horizontal ==>
               && twice.x - once.x == once.x - cs.x
               && (co.IsLeft() ==> twice.contentX == once.contentX - pad.left)
               && twice.contentY == once.contentY)
         && (p.direction == Vertical ==>
               && twice.y - once.y == once.y - cs.y
               && (co == BottomLeft || co == BottomRight ==> twice.contentY == once.contentY - pad.bottom)
               && twice.contentX == once.contentX)
  {
    var once := PlaceChild(tree, e, parent, p, c, cs).value;
    var co := OriginOf(tree, c).value;
    PlacedRelative(tree, e, parent, p, c, cs);
    assert PlaceChild(tree, e, parent, p, c, once).Success?;
    PlacedRelative(tree, e, parent, p, c, once);
    AnchorIsTranslation(co, cs.x, cs.y, once.x - cs.x, cs.contentWidth, cs.contentHeight);
    AnchorIsTranslation(co, cs.x, cs.y, once.y - cs.y, cs.contentWidth, cs.contentHeight);
  }
}
