/**
 * The style-sheet data model of the UI engine: the small enums a style
 * names, the tagged style value, the value-with-bounds layout field, the
 * four-sided padding/margin style and the default sheet.
 * (src/ui/styles.rs)
 */
module StyleValues {
  import opened Wrappers

  /** Anchor of an element; y grows upwards, so "Bottom" anchors sit at y. */
  datatype Origin = TopLeft | BottomLeft | TopRight | BottomRight | Center | Custom(cx: int, cy: int) {
    predicate IsRight() { this == BottomRight || this == TopRight }
    predicate IsLeft() { this == BottomLeft || this == TopLeft }
  }

  datatype Position = Absolute | Relative

  datatype Direction = Vertical | Horizontal

  datatype TextFit = ExpandParent | CropText

  datatype ChildAlign = Start | End | Middle | OffsetStart(o: int) | OffsetEnd(o: int) | OffsetMiddle(o: int)

  /** `a / 2` on i32: the quotient is truncated toward zero. */
  function Half(a: int): (r: int)
    ensures a >= 0 ==> 0 <= r && 2 * r <= a < 2 * r + 2
    ensures a < 0 ==> r <= 0 && 2 * r - 2 < a <= 2 * r
  {
    if a >= 0 then a / 2 else -((-a) / 2)
  }

  /** Left edge of a box of the given width whose anchor point is at x. */
  function GetActualX(o: Origin, x: int, width: int): (r: int)
    ensures o.IsLeft() ==> r == x
    ensures o.IsRight() ==> r == x - width
    ensures o == Center ==> r == x - Half(width)
    ensures o.Custom? ==> r == x - o.cx
  {
    match o
    case TopLeft => x
    case BottomLeft => x
    case TopRight => x - width
    case BottomRight => x - width
    case Center => x - Half(width)
    case Custom(cx, _) => x - cx
  }

  /** Bottom edge of a box of the given height whose anchor point is at y. */
  function GetActualY(o: Origin, y: int, height: int): (r: int)
    ensures o == BottomLeft || o == BottomRight ==> r == y
    ensures o == TopLeft || o == TopRight ==> r == y - height
    ensures o == Center ==> r == y - Half(height)
    ensures o.Custom? ==> r == y - o.cy
  {
    match o
    case TopLeft => y - height
    case BottomLeft => y
    case TopRight => y - height
    case BottomRight => y
    case Center => y - Half(height)
    case Custom(_, cy) => y - cy
  }

  /**
   * The origin that plays, on the x axis, the role `o` plays on the y axis:
   * a top anchor subtracts the full extent like a right anchor does.
   */
  function SwapAxes(o: Origin): Origin {
    match o
    case TopLeft => TopRight
    case BottomLeft => BottomLeft
    case TopRight => TopRight
    case BottomRight => BottomLeft
    case Center => Center
    case Custom(cx, cy) => Custom(cy, cx)
  }

  /** The y table is the x table with the axes swapped. */
  lemma AnchorTablesAgree(o: Origin, v: int, extent: int)
    ensures GetActualY(o, v, extent) == GetActualX(SwapAxes(o), v, extent)
  {
  }

  /** Anchoring commutes with translating the anchor point. */
  lemma AnchorIsTranslation(o: Origin, x: int, y: int, d: int, w: int, h: int)
    ensures GetActualX(o, x + d, w) == GetActualX(o, x, w) + d
    ensures GetActualY(o, y + d, h) == GetActualY(o, y, h) + d
  {
  }

  /** A non-negative box anchored by a left, right or centre origin contains its anchor. */
  lemma AnchorInsideBox(o: Origin, x: int, w: int)
    requires !o.Custom? && w >= 0
    ensures GetActualX(o, x, w) <= x <= GetActualX(o, x, w) + w
  {
  }

  lemma AnchorExamples()
    ensures GetActualX(Center, 100, 50) == 75
    ensures GetActualX(BottomRight, 100, 50) == 50
  {
  }

  /** Physical units: only the pixel unit is modelled. */
  datatype Unit = Px(px: int)

  function AsPx(u: Unit): (p: int)
    ensures u == Px(p)
  {
    match u
    case Px(p) => p
  }

  /**
   * A style value: absent, auto, inherited from the parent, cloned from
   * another element (an arena index), a literal or a measurement.
   */
  datatype UiValue<T> = None | Auto | Inherit | CloneOf(elem: nat) | Just(v: T) | Measurement(unit: Unit) {
    predicate IsSet() { !(None? || Auto?) }
  }

  /** A value with optional bounds (only the i32 instance is modelled). */
  datatype LayoutField = LayoutField(value: UiValue<int>, min: UiValue<int>, max: UiValue<int>) {
    predicate IsSet() { value.IsSet() }
    predicate IsNone() { value.None? }
    predicate IsAuto() { value.Auto? }
  }

  /** `From<UiValue<T>> for LayoutField<T>`: no bounds. */
  function FromValue(v: UiValue<int>): LayoutField {
    LayoutField(v, UiValue.None, UiValue.None)
  }

  /** The flags of a layout field look at its value only, never at its bounds. */
  lemma FieldFlagsIgnoreBounds(f: LayoutField, g: LayoutField)
    requires f.value == g.value
    ensures f.IsSet() == g.IsSet() && f.IsNone() == g.IsNone() && f.IsAuto() == g.IsAuto()
    ensures f.IsSet() <==> !(f.IsNone() || f.IsAuto())
  {
  }

  datatype SideStyle = SideStyle(top: LayoutField, bottom: LayoutField, left: LayoutField, right: LayoutField)

  function All(v: UiValue<int>): (s: SideStyle)
    ensures s.top == s.bottom == s.left == s.right == FromValue(v)
  {
    SideStyle(FromValue(v), FromValue(v), FromValue(v), FromValue(v))
  }

  /** `SideStyle::all_i32`: built side by side, with no bounds; it agrees with `all(Just(v))`. */
  function AllI32(v: int): (s: SideStyle)
    ensures s == All(Just(v))
  {
    SideStyle(FromValue(Just(v)), FromValue(Just(v)), FromValue(Just(v)), FromValue(Just(v)))
  }

  /** `SideStyle::set`: every side is overwritten, whatever it held. */
  method Set(s: SideStyle, v: UiValue<int>) returns (s': SideStyle)
    ensures s' == All(v)
  {
    s' := s;
    s' := s'.(top := FromValue(v));
    s' := s'.(bottom := FromValue(v));
    s' := s'.(left := FromValue(v));
    s' := s'.(right := FromValue(v));
  }

  /** Resolved sides, in the order of the source's `[i32; 4]`: top, bottom, left, right. */
  datatype Sides = Sides(top: int, bottom: int, left: int, right: int)

  /** One element's style sheet (the f32 properties and the background are not modelled). */
  datatype UiStyle = UiStyle(
    x: LayoutField,
    y: LayoutField,
    width: LayoutField,
    height: LayoutField,
    padding: SideStyle,
    margin: SideStyle,
    origin: UiValue<Origin>,
    position: UiValue<Position>,
    rotationOrigin: UiValue<Origin>,
    direction: UiValue<Direction>,
    childAlign: UiValue<ChildAlign>,
    textFit: UiValue<TextFit>)

  /** The library-wide default sheet. */
  function DefaultStyle(): (s: UiStyle)
    ensures s.width.IsAuto() && s.height.IsAuto()
    ensures !s.direction.IsSet() && !s.childAlign.IsSet() && !s.textFit.IsSet()
    ensures s.padding == s.margin == AllI32(0)
    ensures s.origin == Just(BottomLeft) && s.position == Just(Relative)
  {
    UiStyle(
      FromValue(Just(0)), FromValue(Just(0)),
      FromValue(Auto), FromValue(Auto),
      AllI32(0), AllI32(0),
      Just(BottomLeft), Just(Relative), Just(Center),
      Auto, Auto, Auto)
  }

  // Property selectors: the `map` closures of the source, made first-order.

  /** The i32 layout fields the engine resolves. */
  datatype IntField = X | Y | Width | Height | PaddingTop | PaddingBottom | PaddingLeft | PaddingRight

  datatype Part = Value | Min | Max

  datatype IntKey = IntKey(field: IntField, part: Part)

  function FieldOf(s: UiStyle, f: IntField): LayoutField {
    match f
    case X => s.x
    case Y => s.y
    case Width => s.width
    case Height => s.height
    case PaddingTop => s.padding.top
    case PaddingBottom => s.padding.bottom
    case PaddingLeft => s.padding.left
    case PaddingRight => s.padding.right
  }

  function PartOf(f: LayoutField, p: Part): UiValue<int> {
    match p
    case Value => f.value
    case Min => f.min
    case Max => f.max
  }

  function IntSel(s: UiStyle, k: IntKey): UiValue<int> { PartOf(FieldOf(s, k.field), k.part) }

  function DirectionSel(s: UiStyle, u: ()): UiValue<Direction> { s.direction }

  function OriginSel(s: UiStyle, u: ()): UiValue<Origin> { s.origin }

  function PositionSel(s: UiStyle, u: ()): UiValue<Position> { s.position }

  function ChildAlignSel(s: UiStyle, u: ()): UiValue<ChildAlign> { s.childAlign }

  function TextFitSel(s: UiStyle, u: ()): UiValue<TextFit> { s.textFit }

  /** A measurement converts to pixels only for the i32 properties. */
  function IntPx(p: int): Option<int> { Some(p) }

  function NoPx<T>(p: int): Option<T> { Option.None }
}
