/**
 * Style resolution: `UiValue::resolve`, the `resolve!` fallback to the
 * default sheet, `LayoutField::resolve` (clamping), `LayoutField::apply`
 * and `SideStyle::get`.
 * (src/ui/styles.rs)
 */
module Resolution {
  import opened Wrappers
  import opened StyleValues
  import opened ElementTree

  /**
   * The source's fatal errors: Inherit without a parent (or grandparent),
   * a property the default sheet cannot resolve either, and a cloned-from
   * chain longer than the arena, which in the source recurses forever.
   */
  datatype Panic = NoParent | DefaultUnresolved | Exhausted

  /** Every node's (and the default sheet's) selected value has an in-range cloned-from handle. */
  predicate SelOk<K, T>(tree: Tree, sel: (UiStyle, K) -> UiValue<T>, key: K) {
    && (forall i | 0 <= i < |tree| :: RefOk(sel(tree[i].style, key), |tree|))
    && RefOk(sel(DefaultStyle(), key), |tree|)
  }

  /**
   * `UiValue::resolve`: v is resolved with `parent` as the element's parent;
   * `sel`/`key` say which property Inherit and CloneOf look up on other
   * sheets; `px` is the measurement conversion of the property's type.
   */
  function Resolve<K, T>(tree: Tree, v: UiValue<T>, parent: Option<nat>,
                         sel: (UiStyle, K) -> UiValue<T>, key: K, px: int -> Option<T>, fuel: nat)
    : (r: Result<Option<T>, Panic>)
    requires Wf(tree) && SelOk(tree, sel, key) && RefOk(v, |tree|)
    requires parent.Some? ==> parent.value < |tree|
    ensures r.Failure? ==> v.Inherit? || v.CloneOf?
    decreases fuel
  {
    match v
    case None => Success(Option.None)
    case Auto => Success(Option.None)
    case Inherit =>
      if parent.None? || tree[parent.value].parent.None? then Failure(NoParent)
      else if fuel == 0 then Failure(Exhausted)
      else
        var p := parent.value;
        Resolve(tree, sel(tree[p].style, key), tree[p].parent, sel, key, px, fuel - 1)
    case CloneOf(e) =>
      if fuel == 0 then Failure(Exhausted)
      else Resolve(tree, sel(tree[e].style, key), tree[e].parent, sel, key, px, fuel - 1)
    case Just(x) => Success(Some(x))
    case Measurement(u) => Success(px(AsPx(u)))
  }

  /** The base cases of resolution. */
  lemma ResolveBaseCases<K, T>(tree: Tree, v: UiValue<T>, parent: Option<nat>,
                               sel: (UiStyle, K) -> UiValue<T>, key: K, px: int -> Option<T>, fuel: nat)
    requires Wf(tree) && SelOk(tree, sel, key) && RefOk(v, |tree|)
    requires parent.Some? ==> parent.value < |tree|
    ensures !v.IsSet() ==> Resolve(tree, v, parent, sel, key, px, fuel) == Success(Option.None)
    ensures v.Just? ==> Resolve(tree, v, parent, sel, key, px, fuel) == Success(Some(v.v))
    ensures v.Measurement? ==> Resolve(tree, v, parent, sel, key, px, fuel) == Success(px(v.unit.px))
  {
  }

  /** A pixel measurement resolves to its pixels for an i32 property, to nothing otherwise. */
  lemma MeasurementByType<K, T>(tree: Tree, parent: Option<nat>, p: int,
                                isel: (UiStyle, K) -> UiValue<int>, sel: (UiStyle, K) -> UiValue<T>, key: K, fuel: nat)
    requires Wf(tree) && SelOk(tree, isel, key) && SelOk(tree, sel, key)
    requires parent.Some? ==> parent.value < |tree|
    ensures Resolve(tree, Measurement(Px(p)), parent, isel, key, IntPx, fuel) == Success(Some(p))
    ensures Resolve(tree, Measurement(Px(p)), parent, sel, key, NoPx<T>, fuel) == Success(Option.None)
  {
  }

  /**
   * Inherit fails when there is no parent, and also when the parent itself
   * has none; otherwise it is the parent's same property resolved against
   * the grandparent.
   */
  lemma InheritLaw<K, T>(tree: Tree, parent: Option<nat>,
                         sel: (UiStyle, K) -> UiValue<T>, key: K, px: int -> Option<T>, fuel: nat)
    requires Wf(tree) && SelOk(tree, sel, key)
    requires parent.Some? ==> parent.value < |tree|
    ensures parent.None? ==> Resolve(tree, Inherit, parent, sel, key, px, fuel) == Failure(NoParent)
    ensures parent.Some? && tree[parent.value].parent.None? ==>
              Resolve(tree, Inherit, parent, sel, key, px, fuel) == Failure(NoParent)
    ensures parent.Some? && tree[parent.value].parent.Some? && fuel > 0 ==>
              Resolve(tree, Inherit, parent, sel, key, px, fuel)
              == Resolve(tree, sel(tree[parent.value].style, key), tree[parent.value].parent, sel, key, px, fuel - 1)
  {
  }

  /**
   * The `resolve!` macro: the element's own resolution, else the default
   * sheet's (resolved without a parent), else a fatal error; a panic of
   * the first resolution propagates.
   */
  function Fallback<T>(primary: Result<Option<T>, Panic>, default: Result<Option<T>, Panic>): (r: Result<T, Panic>)
    ensures primary.Failure? ==> r == Failure(primary.error)
    ensures primary.Success? && primary.value.Some? ==> r == Success(primary.value.value)
    ensures primary == Success(Option.None) ==>
              r == (if default.Failure? then Failure(default.error)
                    else if default.value.None? then Failure(DefaultUnresolved)
                    else Success(default.value.value))
  {
    match primary
    case Failure(p) => Failure(p)
    case Success(Some(v)) => Success(v)
    case Success(None) =>
      match default
      case Failure(p) => Failure(p)
      case Success(None) => Failure(DefaultUnresolved)
      case Success(Some(d)) => Success(d)
  }

  /** Resolution fuel: a longer chain revisits an arena node, so it would never end. */
  function Fuel(tree: Tree): nat { |tree| }

  /** Structural well-formedness gives every selector's handle condition. */
  lemma SelectorsOk(tree: Tree)
    requires Wf(tree)
    ensures forall k: IntKey :: SelOk(tree, IntSel, k)
    ensures SelOk(tree, DirectionSel, ()) && SelOk(tree, OriginSel, ())
    ensures SelOk(tree, PositionSel, ()) && SelOk(tree, ChildAlignSel, ())
    ensures SelOk(tree, TextFitSel, ())
  {
    forall k: IntKey ensures SelOk(tree, IntSel, k) {
      forall i | 0 <= i < |tree| ensures RefOk(IntSel(tree[i].style, k), |tree|) {
        assert StyleRefsOk(tree[i].style, |tree|);
      }
    }
  }

  /** `resolve!(elem, p)` for a plain style value p of node n. */
  function ResolveValueOr<T>(tree: Tree, n: nat, sel: (UiStyle, ()) -> UiValue<T>, px: int -> Option<T>)
    : (r: Result<T, Panic>)
    requires Wf(tree) && n < |tree| && SelOk(tree, sel, ())
    ensures sel(tree[n].style, ()).Just? ==> r == Success(sel(tree[n].style, ()).v)
    ensures !sel(tree[n].style, ()).IsSet() && sel(DefaultStyle(), ()).Just? ==> r == Success(sel(DefaultStyle(), ()).v)
    ensures !sel(tree[n].style, ()).IsSet() && !sel(DefaultStyle(), ()).IsSet() ==> r == Failure(DefaultUnresolved)
  {
    ResolveBaseCases(tree, sel(tree[n].style, ()), tree[n].parent, sel, (), px, Fuel(tree));
    ResolveBaseCases(tree, sel(DefaultStyle(), ()), Option.None, sel, (), px, Fuel(tree));
    Fallback(Resolve(tree, sel(tree[n].style, ()), tree[n].parent, sel, (), px, Fuel(tree)),
             Resolve(tree, sel(DefaultStyle(), ()), Option.None, sel, (), px, Fuel(tree)))
  }

  /** `p_clamp`: an ordinary clamp into [lo, hi]. */
  function Clamp(v: int, lo: int, hi: int): (r: int)
    ensures lo <= hi ==> lo <= r <= hi
    ensures lo <= v <= hi ==> r == v
  {
    if v < lo then lo else if v > hi then hi else v
  }

  /**
   * `LayoutField::resolve`: value, min and max are all resolved (any of
   * them may panic); an unresolved value gives None; otherwise the value is
   * clamped, a missing bound standing in as the value itself.
   */
  function ResolveField(tree: Tree, f: LayoutField, parent: Option<nat>, field: IntField, fuel: nat)
    : (r: Result<Option<int>, Panic>)
    requires Wf(tree) && FieldRefsOk(f, |tree|)
    requires parent.Some? ==> parent.value < |tree|
    ensures !f.min.IsSet() && !f.max.IsSet() ==>
              r == Resolve(tree, f.value, parent, IntSel, IntKey(field, Value), IntPx, fuel)
  {
    SelectorsOk(tree);
    ResolveBaseCases(tree, f.min, parent, IntSel, IntKey(field, Min), IntPx, fuel);
    ResolveBaseCases(tree, f.max, parent, IntSel, IntKey(field, Max), IntPx, fuel);
    var value :- Resolve(tree, f.value, parent, IntSel, IntKey(field, Value), IntPx, fuel);
    var min :- Resolve(tree, f.min, parent, IntSel, IntKey(field, Min), IntPx, fuel);
    var max :- Resolve(tree, f.max, parent, IntSel, IntKey(field, Max), IntPx, fuel);
    if value.None? then Success(Option.None)
    else Success(Some(Clamp(value.value, min.GetOr(value.value), max.GetOr(value.value))))
  }

  /** A field built from a bare value (no bounds) resolves exactly as that value. */
  lemma FromValueResolvesAsValue(tree: Tree, v: UiValue<int>, parent: Option<nat>, field: IntField, fuel: nat)
    requires Wf(tree) && RefOk(v, |tree|)
    requires parent.Some? ==> parent.value < |tree|
    ensures SelOk(tree, IntSel, IntKey(field, Value))
    ensures ResolveField(tree, FromValue(v), parent, field, fuel)
            == Resolve(tree, v, parent, IntSel, IntKey(field, Value), IntPx, fuel)
  {
    SelectorsOk(tree);
  }

  /** `LayoutField::resolve` with its mutable locals `emin` and `emax`. */
  method ResolveFieldImperative(tree: Tree, f: LayoutField, parent: Option<nat>, field: IntField, fuel: nat)
    returns (r: Result<Option<int>, Panic>)
    requires Wf(tree) && FieldRefsOk(f, |tree|)
    requires parent.Some? ==> parent.value < |tree|
    ensures r == ResolveField(tree, f, parent, field, fuel)
  {
    SelectorsOk(tree);
    var value := Resolve(tree, f.value, parent, IntSel, IntKey(field, Value), IntPx, fuel);
    if value.Failure? { return Failure(value.error); }
    var min := Resolve(tree, f.min, parent, IntSel, IntKey(field, Min), IntPx, fuel);
    if min.Failure? { return Failure(min.error); }
    var max := Resolve(tree, f.max, parent, IntSel, IntKey(field, Max), IntPx, fuel);
    if max.Failure? { return Failure(max.error); }
    if value.value.None? { return Success(Option.None); }
    var emin: Option<int> := Option.None;
    var emax: Option<int> := Option.None;
    if min.value.None? {
      emin := Some(value.value.value);
    } else {
      emin := min.value;
    }
    if max.value.None? {
      emax := Some(value.value.value);
    } else {
      emax := max.value;
    }
    var v := value.value.value;
    var clamped := v;
    if v < emin.value {
      clamped := emin.value;
    } else if v > emax.value {
      clamped := emax.value;
    }
    return Success(Some(clamped));
  }

  /**
   * The clamp law of a layout field: an unresolved value gives None whatever
   * the bounds; without bounds the value comes back unchanged; with
   * min <= max the result lies in [min, max].
   */
  lemma FieldClampLaw(tree: Tree, f: LayoutField, parent: Option<nat>, field: IntField, fuel: nat)
    requires Wf(tree) && FieldRefsOk(f, |tree|)
    requires parent.Some? ==> parent.value < |tree|
    ensures
      var r := ResolveField(tree, f, parent, field, fuel);
      var v := Resolve(tree, f.value, parent, IntSel, IntKey(field, Value), IntPx, fuel);
      var lo := Resolve(tree, f.min, parent, IntSel, IntKey(field, Min), IntPx, fuel);
      var hi := Resolve(tree, f.max, parent, IntSel, IntKey(field, Max), IntPx, fuel);
      && (r.Success? <==> v.Success? && lo.Success? && hi.Success?)
      && (r.Success? ==> (r.value.None? <==> v.value.None?))
      && (r.Success? && !f.min.IsSet() && !f.max.IsSet() ==> r.value == v.value)
      && (r.Success? && r.value.Some? && lo.value.Some? && hi.value.Some? && lo.value.value <= hi.value.value ==>
            lo.value.value <= r.value.value <= hi.value.value)
  {
    SelectorsOk(tree);
    ResolveBaseCases(tree, f.min, parent, IntSel, IntKey(field, Min), IntPx, fuel);
    ResolveBaseCases(tree, f.max, parent, IntSel, IntKey(field, Max), IntPx, fuel);
  }

  /** `resolve!(elem, f)` for one of node n's i32 layout fields. */
  function ResolveFieldOr(tree: Tree, n: nat, field: IntField): (r: Result<int, Panic>)
    requires Wf(tree) && n < |tree|
    ensures var f := FieldOf(tree[n].style, field);
      f.value.Just? && !f.min.IsSet() && !f.max.IsSet() ==> r == Success(f.value.v)
    ensures var f := FieldOf(tree[n].style, field);
      !f.value.IsSet() && !f.min.IsSet() && !f.max.IsSet() ==>
        r == if field == Width || field == Height then Failure(DefaultUnresolved) else Success(0)
  {
    assert StyleRefsOk(tree[n].style, |tree|);
    SelectorsOk(tree);
    ResolveBaseCases(tree, FieldOf(tree[n].style, field).value, tree[n].parent, IntSel, IntKey(field, Value),
                     IntPx, Fuel(tree));
    ResolveBaseCases(tree, FieldOf(DefaultStyle(), field).value, Option.None, IntSel, IntKey(field, Value),
                     IntPx, Fuel(tree));
    Fallback(ResolveField(tree, FieldOf(tree[n].style, field), tree[n].parent, field, Fuel(tree)),
             ResolveField(tree, FieldOf(DefaultStyle(), field), Option.None, field, Fuel(tree)))
  }

  /**
   * `LayoutField::apply`: both bounds are read from `self.min` (the second
   * one looking up `max` on other sheets), and the "max" step also raises
   * the value, so the result is the largest of the input and the bounds.
   */
  method Apply(tree: Tree, f: LayoutField, value: int, elem: nat, field: IntField) returns (r: Result<int, Panic>)
    requires Wf(tree) && elem < |tree| && FieldRefsOk(f, |tree|)
    ensures
      var lo := Resolve(tree, f.min, tree[elem].parent, IntSel, IntKey(field, Min), IntPx, Fuel(tree));
      var hi := Resolve(tree, f.min, tree[elem].parent, IntSel, IntKey(field, Max), IntPx, Fuel(tree));
      && (r.Success? <==> lo.Success? && hi.Success?)
      && (r.Success? ==>
            && value <= r.value
            && (lo.value.Some? ==> lo.value.value <= r.value)
            && (hi.value.Some? ==> hi.value.value <= r.value)
            && (r.value == value || (lo.value.Some? && r.value == lo.value.value)
                                 || (hi.value.Some? && r.value == hi.value.value)))
  {
    SelectorsOk(tree);
    var min := Resolve(tree, f.min, tree[elem].parent, IntSel, IntKey(field, Min), IntPx, Fuel(tree));
    if min.Failure? { return Failure(min.error); }
    var max := Resolve(tree, f.min, tree[elem].parent, IntSel, IntKey(field, Max), IntPx, Fuel(tree));
    if max.Failure? { return Failure(max.error); }
    var ret := value;
    if min.value.Some? {
      if ret < min.value.value {
        ret := min.value.value;
      }
    }
    if max.value.Some? {
      if ret < max.value.value {
        ret := max.value.value;
      }
    }
    return Success(ret);
  }

  /** With `min` unset, `apply` returns its input. */
  lemma ApplyWithoutMin(tree: Tree, f: LayoutField, elem: nat, field: IntField)
    requires Wf(tree) && elem < |tree| && FieldRefsOk(f, |tree|) && !f.min.IsSet()
    ensures Resolve(tree, f.min, tree[elem].parent, IntSel, IntKey(field, Min), IntPx, Fuel(tree)) == Success(Option.None)
    ensures Resolve(tree, f.min, tree[elem].parent, IntSel, IntKey(field, Max), IntPx, Fuel(tree)) == Success(Option.None)
  {
    SelectorsOk(tree);
    ResolveBaseCases(tree, f.min, tree[elem].parent, IntSel, IntKey(field, Min), IntPx, Fuel(tree));
    ResolveBaseCases(tree, f.min, tree[elem].parent, IntSel, IntKey(field, Max), IntPx, Fuel(tree));
  }

  /** An unset side: 5 when auto, else 0. */
  function Unresolved(f: LayoutField): int { if f.IsAuto() then 5 else 0 }

  /**
   * `SideStyle::get(elem)`: a set side always resolves elem's PADDING (even
   * when called on a margin style), and an unset right side looks at the
   * left side's Auto flag.
   */
  function SideGet(tree: Tree, side: SideStyle, elem: nat): (r: Result<Sides, Panic>)
    requires Wf(tree) && elem < |tree|
    ensures r.Failure? <==>
              || (side.top.IsSet() && ResolveFieldOr(tree, elem, PaddingTop).Failure?)
              || (side.bottom.IsSet() && ResolveFieldOr(tree, elem, PaddingBottom).Failure?)
              || (side.left.IsSet() && ResolveFieldOr(tree, elem, PaddingLeft).Failure?)
              || (side.right.IsSet() && ResolveFieldOr(tree, elem, PaddingRight).Failure?)
    ensures r.Success? ==>
              && (side.top.IsSet() ==> r.value.top == ResolveFieldOr(tree, elem, PaddingTop).value)
              && (side.bottom.IsSet() ==> r.value.bottom == ResolveFieldOr(tree, elem, PaddingBottom).value)
              && (side.left.IsSet() ==> r.value.left == ResolveFieldOr(tree, elem, PaddingLeft).value)
              && (side.right.IsSet() ==> r.value.right == ResolveFieldOr(tree, elem, PaddingRight).value)
  {
    var top :- if side.top.IsSet() then ResolveFieldOr(tree, elem, PaddingTop) else Success(Unresolved(side.top));
    var bottom :- if side.bottom.IsSet() then ResolveFieldOr(tree, elem, PaddingBottom) else Success(Unresolved(side.bottom));
    var left :- if side.left.IsSet() then ResolveFieldOr(tree, elem, PaddingLeft) else Success(Unresolved(side.left));
    var right :- if side.right.IsSet() then ResolveFieldOr(tree, elem, PaddingRight) else Success(Unresolved(side.left));
    Success(Sides(top, bottom, left, right))
  }

  /** Which sides of a side style are set or auto: all that `get` looks at. */
  predicate SameFlags(a: SideStyle, b: SideStyle) {
    && a.top.IsSet() == b.top.IsSet() && a.top.IsAuto() == b.top.IsAuto()
    && a.bottom.IsSet() == b.bottom.IsSet() && a.bottom.IsAuto() == b.bottom.IsAuto()
    && a.left.IsSet() == b.left.IsSet() && a.left.IsAuto() == b.left.IsAuto()
    && a.right.IsSet() == b.right.IsSet()
  }

  /**
   * `get` reads only the flags of the side style it is called on: so the
   * margin, whose sides are set like the padding's, yields the padding.
   */
  lemma SideGetReadsFlagsOnly(tree: Tree, a: SideStyle, b: SideStyle, elem: nat)
    requires Wf(tree) && elem < |tree| && SameFlags(a, b)
    ensures SideGet(tree, a, elem) == SideGet(tree, b, elem)
  {
  }

  /** Margin sides set like the element's padding sides resolve to the padding sides. */
  lemma MarginResolvesPadding(tree: Tree, elem: nat)
    requires Wf(tree) && elem < |tree|
    requires SameFlags(tree[elem].style.margin, tree[elem].style.padding)
    ensures SideGet(tree, tree[elem].style.margin, elem) == SideGet(tree, tree[elem].style.padding, elem)
  {
    SideGetReadsFlagsOnly(tree, tree[elem].style.margin, tree[elem].style.padding, elem);
  }

  /** Unset sides give 5 when auto and 0 otherwise, the right side using the left's flag. */
  lemma SideGetUnset(tree: Tree, side: SideStyle, elem: nat)
    requires Wf(tree) && elem < |tree| && SideGet(tree, side, elem).Success?
    ensures var s := SideGet(tree, side, elem).value;
      && (!side.top.IsSet() ==> s.top == (if side.top.IsAuto() then 5 else 0))
      && (!side.bottom.IsSet() ==> s.bottom == (if side.bottom.IsAuto() then 5 else 0))
      && (!side.left.IsSet() ==> s.left == (if side.left.IsAuto() then 5 else 0))
      && (!side.right.IsSet() ==> s.right == (if side.left.IsAuto() then 5 else 0))
  {
  }

  /** For the all-zero sheet of the default style every side is 0. */
  lemma SideGetAllZero(tree: Tree, side: SideStyle, elem: nat)
    requires Wf(tree) && elem < |tree|
    requires side == AllI32(0) && tree[elem].style.padding == AllI32(0)
    ensures SideGet(tree, side, elem) == Success(Sides(0, 0, 0, 0))
  {
    SelectorsOk(tree);
    var p := tree[elem].parent;
    var fuel := Fuel(tree);
    forall field | field in {PaddingTop, PaddingBottom, PaddingLeft, PaddingRight}
      ensures ResolveFieldOr(tree, elem, field) == Success(0)
    {
      assert FieldOf(tree[elem].style, field) == FromValue(Just(0));
      ResolveBaseCases(tree, UiValue<int>.None, p, IntSel, IntKey(field, Min), IntPx, fuel);
      ResolveBaseCases(tree, UiValue<int>.None, p, IntSel, IntKey(field, Max), IntPx, fuel);
      ResolveBaseCases(tree, Just(0), p, IntSel, IntKey(field, Value), IntPx, fuel);
    }
  }

  // ---- The fuel bound is exact ----

  /** Every parent handle points to an earlier slot (the part of Wf a chain walk needs). */
  predicate ParentsBelow(tree: Tree) {
    forall i | 0 <= i < |tree| :: tree[i].parent.Some? ==> tree[i].parent.value < i
  }

  /** At node n the selected value sends resolution on to another node. */
  predicate Moves<K, T>(tree: Tree, sel: (UiStyle, K) -> UiValue<T>, key: K, n: nat)
    requires ParentsBelow(tree) && SelOk(tree, sel, key) && n < |tree|
  {
    var v := sel(tree[n].style, key);
    v.CloneOf? || (v.Inherit? && tree[n].parent.Some? && tree[tree[n].parent.value].parent.Some?)
  }

  /** The node resolution moves on to: the cloned-from element, or the parent. */
  function Next<K, T>(tree: Tree, sel: (UiStyle, K) -> UiValue<T>, key: K, n: nat): (m: nat)
    requires ParentsBelow(tree) && SelOk(tree, sel, key) && n < |tree| && Moves(tree, sel, key, n)
    ensures m < |tree|
  {
    var v := sel(tree[n].style, key);
    assert RefOk(sel(tree[n].style, key), |tree|);
    if v.CloneOf? then v.elem else tree[n].parent.value
  }

  /** m moves in a row are possible from node n. */
  predicate Walks<K, T>(tree: Tree, sel: (UiStyle, K) -> UiValue<T>, key: K, n: nat, m: nat)
    requires ParentsBelow(tree) && SelOk(tree, sel, key) && n < |tree|
    decreases m
  {
    m == 0 || (Moves(tree, sel, key, n) && Walks(tree, sel, key, Next(tree, sel, key, n), m - 1))
  }

  /** The node reached after m moves from n. */
  function Iter<K, T>(tree: Tree, sel: (UiStyle, K) -> UiValue<T>, key: K, n: nat, m: nat): (k: nat)
    requires ParentsBelow(tree) && SelOk(tree, sel, key) && n < |tree| && Walks(tree, sel, key, n, m)
    ensures k < |tree|
    decreases m
  {
    if m == 0 then n else Iter(tree, sel, key, Next(tree, sel, key, n), m - 1)
  }

  /** Resolution of node n's own selected value against n's parent. */
  function ResolveAt<K, T>(tree: Tree, sel: (UiStyle, K) -> UiValue<T>, key: K, px: int -> Option<T>, n: nat, fuel: nat)
    : Result<Option<T>, Panic>
    requires Wf(tree) && SelOk(tree, sel, key) && n < |tree|
  {
    Resolve(tree, sel(tree[n].style, key), tree[n].parent, sel, key, px, fuel)
  }

  /** One move costs one unit of fuel. */
  lemma StepOnce<K, T>(tree: Tree, sel: (UiStyle, K) -> UiValue<T>, key: K, px: int -> Option<T>, n: nat, fuel: nat)
    requires Wf(tree) && SelOk(tree, sel, key) && n < |tree| && Moves(tree, sel, key, n) && fuel > 0
    ensures ResolveAt(tree, sel, key, px, n, fuel) == ResolveAt(tree, sel, key, px, Next(tree, sel, key, n), fuel - 1)
  {
    var v := sel(tree[n].style, key);
    assert RefOk(v, |tree|);
    var m := Next(tree, sel, key, n);
    assert Resolve(tree, v, tree[n].parent, sel, key, px, fuel)
        == Resolve(tree, sel(tree[m].style, key), tree[m].parent, sel, key, px, fuel - 1);
  }

  /** m moves cost m units of fuel and lead to the node they reach. */
  lemma {:induction false} Unfold<K, T>(tree: Tree, sel: (UiStyle, K) -> UiValue<T>, key: K, px: int -> Option<T>,
                                        n: nat, fuel: nat, m: nat)
    requires Wf(tree) && SelOk(tree, sel, key) && n < |tree| && Walks(tree, sel, key, n, m) && m <= fuel
    ensures ResolveAt(tree, sel, key, px, n, fuel) == ResolveAt(tree, sel, key, px, Iter(tree, sel, key, n, m), fuel - m)
    decreases m
  {
    if m > 0 {
      StepOnce(tree, sel, key, px, n, fuel);
      Unfold(tree, sel, key, px, Next(tree, sel, key, n), fuel - 1, m - 1);
    }
  }

  /** More moves ahead than fuel: resolution runs out. */
  lemma {:induction false} Starve<K, T>(tree: Tree, sel: (UiStyle, K) -> UiValue<T>, key: K, px: int -> Option<T>,
                                        n: nat, fuel: nat)
    requires Wf(tree) && SelOk(tree, sel, key) && n < |tree| && Walks(tree, sel, key, n, fuel + 1)
    ensures ResolveAt(tree, sel, key, px, n, fuel) == Failure(Exhausted)
    decreases fuel
  {
    if fuel > 0 {
      StepOnce(tree, sel, key, px, n, fuel);
      Starve(tree, sel, key, px, Next(tree, sel, key, n), fuel - 1);
    }
  }

  lemma {:induction false} WalksPrefix<K, T>(tree: Tree, sel: (UiStyle, K) -> UiValue<T>, key: K, n: nat, m: nat, m': nat)
    requires ParentsBelow(tree) && SelOk(tree, sel, key) && n < |tree| && Walks(tree, sel, key, n, m) && m' <= m
    ensures Walks(tree, sel, key, n, m')
    decreases m'
  {
    if m' > 0 {
      WalksPrefix(tree, sel, key, Next(tree, sel, key, n), m - 1, m' - 1);
    }
  }

  lemma {:induction false} WalksExtend<K, T>(tree: Tree, sel: (UiStyle, K) -> UiValue<T>, key: K, n: nat, m: nat)
    requires ParentsBelow(tree) && SelOk(tree, sel, key) && n < |tree| && Walks(tree, sel, key, n, m)
    requires Moves(tree, sel, key, Iter(tree, sel, key, n, m))
    ensures Walks(tree, sel, key, n, m + 1)
    decreases m
  {
    if m > 0 {
      WalksExtend(tree, sel, key, Next(tree, sel, key, n), m - 1);
    }
  }

  lemma {:induction false} IterSplit<K, T>(tree: Tree, sel: (UiStyle, K) -> UiValue<T>, key: K, n: nat, i: nat, j: nat)
    requires ParentsBelow(tree) && SelOk(tree, sel, key) && n < |tree| && i <= j && Walks(tree, sel, key, n, j)
    ensures Walks(tree, sel, key, n, i)
    ensures Walks(tree, sel, key, Iter(tree, sel, key, n, i), j - i)
    ensures Iter(tree, sel, key, Iter(tree, sel, key, n, i), j - i) == Iter(tree, sel, key, n, j)
    decreases i
  {
    if i > 0 {
      IterSplit(tree, sel, key, Next(tree, sel, key, n), i - 1, j - 1);
    }
  }

  /** From n, either m moves in a row are possible or the walk stops earlier. */
  lemma {:induction false} WalkOrStop<K, T>(tree: Tree, sel: (UiStyle, K) -> UiValue<T>, key: K, n: nat, m: nat)
    requires ParentsBelow(tree) && SelOk(tree, sel, key) && n < |tree|
    ensures Walks(tree, sel, key, n, m) ||
            exists j | 0 <= j < m :: Walks(tree, sel, key, n, j) && !Moves(tree, sel, key, Iter(tree, sel, key, n, j))
    decreases m
  {
    if m > 0 {
      WalkOrStop(tree, sel, key, n, m - 1);
      if Walks(tree, sel, key, n, m - 1) {
        if Moves(tree, sel, key, Iter(tree, sel, key, n, m - 1)) {
          WalksExtend(tree, sel, key, n, m - 1);
        }
      }
    }
  }

  /** A walk that comes back to its start runs out of fuel, whatever the fuel. */
  lemma {:induction false} CycleExhausts<K, T>(tree: Tree, sel: (UiStyle, K) -> UiValue<T>, key: K, px: int -> Option<T>,
                                               c: nat, d: nat, fuel: nat)
    requires Wf(tree) && SelOk(tree, sel, key) && c < |tree| && d >= 1
    requires Walks(tree, sel, key, c, d) && Iter(tree, sel, key, c, d) == c
    ensures ResolveAt(tree, sel, key, px, c, fuel) == Failure(Exhausted)
    decreases fuel
  {
    if fuel < d {
      WalksPrefix(tree, sel, key, c, d, fuel + 1);
      Starve(tree, sel, key, px, c, fuel);
    } else {
      Unfold(tree, sel, key, px, c, fuel, d);
      CycleExhausts(tree, sel, key, px, c, d, fuel - d);
    }
  }

  /** The nodes visited by m moves from n, n included. */
  function Path<K, T>(tree: Tree, sel: (UiStyle, K) -> UiValue<T>, key: K, n: nat, m: nat): (p: seq<nat>)
    requires ParentsBelow(tree) && SelOk(tree, sel, key) && n < |tree| && Walks(tree, sel, key, n, m)
    ensures |p| == m + 1
    decreases m
  {
    if m == 0 then [n] else [n] + Path(tree, sel, key, Next(tree, sel, key, n), m - 1)
  }

  lemma {:induction false} PathIter<K, T>(tree: Tree, sel: (UiStyle, K) -> UiValue<T>, key: K, n: nat, m: nat, j: nat)
    requires ParentsBelow(tree) && SelOk(tree, sel, key) && n < |tree| && Walks(tree, sel, key, n, m) && j <= m
    ensures Walks(tree, sel, key, n, j)
    ensures Path(tree, sel, key, n, m)[j] == Iter(tree, sel, key, n, j)
    decreases m
  {
    if j > 0 {
      PathIter(tree, sel, key, Next(tree, sel, key, n), m - 1, j - 1);
    }
  }

  /** The entries of s, as a set. */
  function Elems(s: seq<nat>): (e: set<nat>)
    ensures forall x :: x in e <==> x in s
  {
    set x | x in s
  }

  lemma {:induction false} DistinctSize(s: seq<nat>)
    requires forall i, j | 0 <= i < j < |s| :: s[i] != s[j]
    ensures |Elems(s)| == |s|
  {
    if s != [] {
      var init, last := s[..|s| - 1], s[|s| - 1];
      assert s == init + [last];
      DistinctSize(init);
      assert forall k | 0 <= k < |init| :: init[k] != last;
      assert last !in Elems(init);
      assert Elems(s) == Elems(init) + {last};
    }
  }

  /** The numbers below n. */
  function Below(n: nat): (b: set<nat>)
    ensures |b| == n
    ensures forall x :: x in b <==> 0 <= x < n
  {
    if n == 0 then {} else Below(n - 1) + {n - 1}
  }

  lemma {:induction false} SubsetSize(a: set<nat>, b: set<nat>)
    requires a <= b
    ensures |a| <= |b|
    decreases |b|
  {
    if a != {} {
      var y :| y in a;
      SubsetSize(a - {y}, b - {y});
    }
  }

  /** Pigeonhole: more entries than values below n means a repeated entry. */
  lemma Pigeonhole(s: seq<nat>, n: nat)
    requires |s| > n && forall i | 0 <= i < |s| :: s[i] < n
    ensures exists i, j | 0 <= i < j < |s| :: s[i] == s[j]
  {
    if forall i, j | 0 <= i < j < |s| :: s[i] != s[j] {
      DistinctSize(s);
      SubsetSize(Elems(s), Below(n));
      assert false;
    }
  }

  /** A walk of |tree| moves visits some node twice. */
  lemma WalkRepeats<K, T>(tree: Tree, sel: (UiStyle, K) -> UiValue<T>, key: K, n: nat)
    requires ParentsBelow(tree) && SelOk(tree, sel, key) && n < |tree| && Walks(tree, sel, key, n, |tree|)
    ensures exists i, j | 0 <= i < j <= |tree| ::
              Walks(tree, sel, key, n, i) && Walks(tree, sel, key, n, j) &&
              Iter(tree, sel, key, n, i) == Iter(tree, sel, key, n, j)
  {
    var size := |tree|;
    var p := Path(tree, sel, key, n, size);
    forall j | 0 <= j < |p| ensures p[j] < size {
      PathIter(tree, sel, key, n, size, j);
    }
    Pigeonhole(p, size);
    var i, j :| 0 <= i < j < |p| && p[i] == p[j];
    PathIter(tree, sel, key, n, size, i);
    PathIter(tree, sel, key, n, size, j);
    assert Walks(tree, sel, key, n, i) && Walks(tree, sel, key, n, j) &&
              Iter(tree, sel, key, n, i) == Iter(tree, sel, key, n, j);
  }

  /** A walk of |tree| moves runs, after i moves, into a cycle of d moves. */
  lemma WalkCycles<K, T>(tree: Tree, sel: (UiStyle, K) -> UiValue<T>, key: K, n: nat)
    requires ParentsBelow(tree) && SelOk(tree, sel, key) && n < |tree| && Walks(tree, sel, key, n, |tree|)
    ensures exists i, d | 0 <= i < |tree| && d >= 1 ::
              Walks(tree, sel, key, n, i) &&
              Walks(tree, sel, key, Iter(tree, sel, key, n, i), d) &&
              Iter(tree, sel, key, Iter(tree, sel, key, n, i), d) == Iter(tree, sel, key, n, i)
  {
    WalkRepeats(tree, sel, key, n);
    var i, j :| 0 <= i < j <= |tree| &&
                Walks(tree, sel, key, n, i) && Walks(tree, sel, key, n, j) &&
                Iter(tree, sel, key, n, i) == Iter(tree, sel, key, n, j);
    IterSplit(tree, sel, key, n, i, j);
    var d := j - i;
    assert Walks(tree, sel, key, Iter(tree, sel, key, n, i), d) &&
           Iter(tree, sel, key, Iter(tree, sel, key, n, i), d) == Iter(tree, sel, key, n, i);
  }

  /** A walk of |tree| moves never ends: from its start, fuel runs out. */
  lemma LongWalkExhausts<K, T>(tree: Tree, sel: (UiStyle, K) -> UiValue<T>, key: K, px: int -> Option<T>,
                               n: nat, fuel: nat)
    requires Wf(tree) && SelOk(tree, sel, key) && n < |tree| && Walks(tree, sel, key, n, |tree|)
    requires fuel >= |tree| - 1
    ensures ResolveAt(tree, sel, key, px, n, fuel) == Failure(Exhausted)
  {
    WalkCycles(tree, sel, key, n);
    var i, d :| 0 <= i < |tree| && d >= 1 &&
                Walks(tree, sel, key, n, i) &&
                Walks(tree, sel, key, Iter(tree, sel, key, n, i), d) &&
                Iter(tree, sel, key, Iter(tree, sel, key, n, i), d) == Iter(tree, sel, key, n, i);
    Unfold(tree, sel, key, px, n, fuel, i);
    CycleExhausts(tree, sel, key, px, Iter(tree, sel, key, n, i), d, fuel - i);
  }

  /** A walk that stops after j moves gives one result for every fuel of at least j. */
  lemma StopStable<K, T>(tree: Tree, sel: (UiStyle, K) -> UiValue<T>, key: K, px: int -> Option<T>,
                         n: nat, j: nat, f1: nat, f2: nat)
    requires Wf(tree) && SelOk(tree, sel, key) && n < |tree| && Walks(tree, sel, key, n, j)
    requires !Moves(tree, sel, key, Iter(tree, sel, key, n, j)) && f1 >= j && f2 >= j
    ensures ResolveAt(tree, sel, key, px, n, f1) == ResolveAt(tree, sel, key, px, n, f2)
  {
    Unfold(tree, sel, key, px, n, f1, j);
    Unfold(tree, sel, key, px, n, f2, j);
  }

  /** From any node, all fuels of at least |tree| - 1 give the same result. */
  lemma NodeFuelStable<K, T>(tree: Tree, sel: (UiStyle, K) -> UiValue<T>, key: K,
                             px: int -> Option<T>, n: nat, f1: nat, f2: nat)
    requires Wf(tree) && SelOk(tree, sel, key) && n < |tree|
    requires f1 >= |tree| - 1 && f2 >= |tree| - 1
    ensures ResolveAt(tree, sel, key, px, n, f1) == ResolveAt(tree, sel, key, px, n, f2)
  {
    WalkOrStop(tree, sel, key, n, |tree|);
    if Walks(tree, sel, key, n, |tree|) {
      LongWalkExhausts(tree, sel, key, px, n, f1);
      LongWalkExhausts(tree, sel, key, px, n, f2);
    } else {
      var j :| 0 <= j < |tree| && Walks(tree, sel, key, n, j) && !Moves(tree, sel, key, Iter(tree, sel, key, n, j));
      StopStable(tree, sel, key, px, n, j, f1, f2);
    }
  }

  /**
   * The fuel bound is exact: every fuel of at least the arena size gives
   * the same result. A chain that has not ended by then has revisited a
   * node and so never ends, which is where the source recurses forever.
   */
  lemma {:induction false} ResolveFuelStable<K, T>(tree: Tree, v: UiValue<T>, parent: Option<nat>,
                                                   sel: (UiStyle, K) -> UiValue<T>, key: K, px: int -> Option<T>,
                                                   f1: nat, f2: nat)
    requires Wf(tree) && SelOk(tree, sel, key) && RefOk(v, |tree|)
    requires parent.Some? ==> parent.value < |tree|
    requires f1 >= Fuel(tree) && f2 >= Fuel(tree)
    ensures Resolve(tree, v, parent, sel, key, px, f1) == Resolve(tree, v, parent, sel, key, px, f2)
  {
    match v
    case Inherit =>
      if parent.Some? && tree[parent.value].parent.Some? {
        NodeFuelStable(tree, sel, key, px, parent.value, f1 - 1, f2 - 1);
      }
    case CloneOf(e) =>
      NodeFuelStable(tree, sel, key, px, e, f1 - 1, f2 - 1);
    case _ =>
  }
}
