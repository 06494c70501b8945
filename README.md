# MVCore UI layout: style resolution and the layout pass

This project models the core of MVCore's UI engine in Dafny.

**Style resolution.** A style value (`UiValue`) can be:
- absent;
- auto;
- inherited from the parent;
- cloned from another element;
- a literal;
- a pixel measurement.

Resolution turns a value into an optional result, walking the element tree for Inherit and Clone. A layout field bundles a value with min/max bounds and clamps. Padding and margin styles resolve four sides at once. The `resolve!` macro falls back to the library's default style sheet and panics when that fails too.

**The layout pass.** `UiElementState::compute` runs over an element and its subtree:
1. It resolves the element's own properties.
2. It sizes the element. When a dimension is auto, it computes each element child in turn and accumulates the children's bounding sizes along the flow direction.
3. It derives the content, box and bounding rectangles from padding and margin.
4. It applies Absolute positioning through the origin anchor.
5. It places every Relative child on the flow axis from its stored offset, and on the cross axis by the child alignment.

## Structure

**The tree.** The element tree is an arena: a `seq<Node>`.
- Each node holds its style sheet, its parent index and its children in order. A child is an element index or a text leaf.
- `ElementTree.Wf` states the shape: parents precede their children, children name their parent, no child is listed twice, and cloned-from handles are in range.

**Layout states.** The per-element layout states are the `array<ElementState>` that the methods of module `Layout` rewrite in place, as the source does through its element locks.

**Files.**
- `style_values.dfy`: the style data model, the origin anchor tables, the default sheet and `SideStyle::set/all`.
- `element_tree.dfy`: the arena and its shape lemmas; `UiElementState` and `UiElementState::new`.
- `resolution.dfy`: `UiValue::resolve`, the `resolve!` fallback, `LayoutField::resolve` (as a function, and as the source's imperative code proved equal to it), `LayoutField::apply` and `SideStyle::get`.
- `layout_spec.dfy`: functions that say what one pass computes:
  - `PropsOf`, the element's resolved properties;
  - `Occupied`, the flow accumulation, with reference definitions `SumW`/`MaxH`/...;
  - `AutoDim`, auto-sizing;
  - `OwnLaid`, the element's own state after the pass;
  - `PlaceChild`, the parent's rewrite of one child.
- `layout.dfy`: the pass itself. It is imperative:
  - `Compute` calls `SizePhase`, which calls `SizeChildren` when a dimension is auto; its loop calls `SizeElement`, which recurses into `Compute`;
  - then `SetBox`;
  - then `PlaceChildren`.

  Each method is proved against the functions above.
- `reentry.dfy`: `compute` as written, up to the end of its sizing loop, with the write locks it holds. Its recursive call re-enters the element being computed (see "## Findings").

**How the source's details are modelled.**
- Properties are selected by first-order selectors. `IntSel` works with an `IntKey`; the other property kinds have one selector each.
- Measurements convert to pixels only for i32 properties. `IntPx` and `NoPx` stand for the source's `TypeId` test.
- Rust's truncating `/ 2` is `Half`.
- Integers are unbounded.

**Quirks.** The model follows the code as written:
- a margin style resolves the padding fields;
- an unset right side takes the left side's Auto flag;
- a child's padding and margin are resolved against its parent;
- the flow offset written into a child is overwritten by the child's own compute;
- children are computed only when a dimension is auto, but are placed always;
- `LayoutField::apply` reads both bounds from `min`;
- a literal width or height is used as it is, so a negative literal gives a negative content size.

**Departures from the evidently intended behaviour.** The model keeps them:
- An auto dimension is never clamped by the field's min/max. Its literal starts at 0 and grows to the content.
- A placed child's box is derived from padding resolved on the parent, not from the child's own padding.
- The flow offset assigned before recursion does not reach placement.
- Placement is not idempotent. It reads a Relative child's offset from the child's box corner (`x`, `y`), and writes back a content corner and then a box corner that lies the left (or bottom) padding further out. A second placement pass therefore moves the child again by the same amount as the first.

## Model

| member | source | states |
|---|---|---|
| StyleValues.Half | src/ui/styles.rs:87 | i32 `/ 2` truncates toward zero: for a >= 0, 2r <= a < 2r+2; for a < 0, 2r-2 < a <= 2r |
| StyleValues.GetActualX | src/ui/styles.rs:81-90 | left origins give x, right origins x - width, Center x - width/2 (truncated), Custom(cx, _) x - cx |
| StyleValues.GetActualY | src/ui/styles.rs:92-101 | bottom origins give y, top origins y - height, Center y - height/2 (truncated), Custom(_, cy) y - cy |
| StyleValues.AnchorTablesAgree | src/ui/styles.rs:81-101 | the y table is the x table with the axes swapped (top plays the role of right) |
| StyleValues.AnchorIsTranslation | src/ui/styles.rs:81-101 | moving the anchor point by d moves the anchored edge by d, on both axes |
| StyleValues.AnchorInsideBox | src/ui/styles.rs:81-90 | for a non-custom origin and a non-negative width, the anchor lies between the left and right edges of the box |
| StyleValues.AnchorExamples | src/ui/styles.rs:81-90 | Center at x = 100 with width 50 gives 75; BottomRight gives 50 |
| StyleValues.FieldFlagsIgnoreBounds | src/ui/styles.rs:203-214 | is_set, is_none and is_auto of a layout field depend only on its value, never on min/max; is_set holds exactly when the value is neither None nor Auto |
| StyleValues.All | src/ui/styles.rs:282-289 | all four sides hold the given value with no bounds |
| StyleValues.AllI32 | src/ui/styles.rs:273-280 | all_i32(v), built side by side from `Just(v)` fields with no bounds, is the same style as all(Just(v)) |
| StyleValues.AsPx | src/ui/styles.rs:456-458 | a `Px` measurement is its own pixel count |
| StyleValues.Set | src/ui/styles.rs:291-296 | set overwrites every side, whatever it held, leaving the same style as all(v) |
| StyleValues.DefaultStyle | src/ui/styles.rs:396-415 | the default sheet: width and height Auto; direction, child alignment and text fit unset; padding and margin all 0; origin BottomLeft; position Relative |
| ElementTree.NewState | src/ui/elements/mod.rs:92-116 | a new state has every size 0 and every corner (content, box and bounding) at the origin, satisfying the box relations for zero padding and margin |
| Resolution.Resolve | src/ui/styles.rs:340-378 | resolution can fail only for Inherit and CloneOf; every other value resolves |
| Resolution.ResolveFuelStable | src/ui/styles.rs:340-378 | any two fuels of at least the arena size give the same result: a chain of Inherit and CloneOf links that is still going after that many steps has revisited a node, so it never ends |
| Resolution.ResolveBaseCases | src/ui/styles.rs:345-375 | None and Auto resolve to nothing, Just(v) to v, a measurement to the property type's pixel conversion, whatever the parent and fuel |
| Resolution.MeasurementByType | src/ui/styles.rs:366-375 | a pixel measurement resolves to its pixels for an i32 property and to nothing for any other property type |
| Resolution.InheritLaw | src/ui/styles.rs:348-363 | Inherit panics without a parent, and also when the parent has no parent; otherwise it is the parent's same property resolved against the grandparent |
| Resolution.Fallback | src/ui/styles.rs:14-31 | resolve! returns the element's own resolution when there is one; otherwise the default sheet's, resolved without a parent; a panic when that is absent too; and it propagates a panic of the first resolution |
| Resolution.ResolveValueOr | src/ui/styles.rs:14-31 | resolve! on a non-field property: the element's own literal is the result; an unset own value falls back to the default sheet's literal, and panics when that is unset too |
| Resolution.ResolveFieldOr | src/ui/styles.rs:14-31 | resolve! on a layout field: an own literal without bounds is the result; an unset field without bounds falls back to the default sheet, which panics for width and height (Auto) and gives 0 for every other field |
| Resolution.Clamp | src/ui/styles.rs:189 | with lo <= hi the result lies in [lo, hi], and a value already inside comes back unchanged |
| Resolution.ResolveField | src/ui/styles.rs:166-191 | a field without bounds resolves exactly as its value does |
| Resolution.FromValueResolvesAsValue | src/ui/styles.rs:193-201 | a field made from a bare value (no bounds) resolves exactly as that value |
| Resolution.ResolveFieldImperative | src/ui/styles.rs:166-190 | the source's step-by-step code (mutable locals emin/emax) computes exactly the functional resolution ResolveField |
| Resolution.FieldClampLaw | src/ui/styles.rs:166-190 | a field resolves iff its value and both bounds do; the result is None iff the value resolves to None; without bounds it is the value; with min <= max it lies in [min, max] |
| Resolution.Apply | src/ui/styles.rs:216-237 | apply succeeds iff both bounds resolve (both read from `min`); its result is at least the input and at least each resolved bound, and equals one of them |
| Resolution.ApplyWithoutMin | src/ui/styles.rs:216-237 | with min unset both bounds resolve to nothing, so apply returns its input |
| Resolution.SideGet | src/ui/styles.rs:298-320 | get panics exactly when some set side's padding field fails to resolve on the element; every set side is that padding field's resolution |
| Resolution.SideGetReadsFlagsOnly | src/ui/styles.rs:298-320 | get reads only the set/auto flags of the style it is called on, never its values |
| Resolution.MarginResolvesPadding | src/ui/styles.rs:298-320 | a margin whose sides are set like the padding's resolves to exactly the padding |
| Resolution.SideGetUnset | src/ui/styles.rs:298-320 | an unset side is 5 when Auto and 0 otherwise; the right side uses the left side's Auto flag |
| Resolution.SideGetAllZero | src/ui/styles.rs:403-404 | for the all-zero sheet of the default style (padding all 0), every side resolves to 0 |
| LayoutSpec.DirectionOf | src/ui/elements/mod.rs:143-147 | an unset direction is Horizontal; a literal one is itself |
| LayoutSpec.OriginOf | src/ui/elements/mod.rs:149-153 | an unset origin is BottomLeft; a literal one is itself |
| LayoutSpec.ChildAlignOf | src/ui/elements/mod.rs:155-159 | an unset child alignment is Start; a literal one is itself |
| LayoutSpec.PositionOf | src/ui/elements/mod.rs:249-253 | an unset position is Relative; a literal one is itself |
| LayoutSpec.TextFitOf | src/ui/elements/mod.rs:201-209 | an unset text fit is ExpandParent when None and CropText when Auto; a literal one is itself |
| LayoutSpec.LiteralOf | src/ui/elements/mod.rs:164-173 | an unset width or height is 0; a literal one without bounds is itself |
| LayoutSpec.HeadOf | src/ui/elements/mod.rs:143-173 | the element's leading properties resolve iff direction, origin, child alignment, width and height all do; it carries exactly those resolutions and the width's and height's Auto flags; an auto dimension's literal is 0 |
| LayoutSpec.FitOf | src/ui/elements/mod.rs:198-211 | when a dimension is auto and there is a text child, the fit used by the flow is exactly the resolved text fit; otherwise it is CropText, so no text is measured |
| LayoutSpec.TailOf | src/ui/elements/mod.rs:239-271 | the trailing properties resolve iff padding, margin and position do, and the x (y) literal too when it is resolved; they carry padding and margin as `SideStyle::get` resolves them on the element, and the resolved position; an x (y) coordinate is resolved exactly when the element is Absolute and its x (y) is not Auto, and then it is that field's literal resolution |
| LayoutSpec.PropsOf | src/ui/elements/mod.rs:143-271 | all of the element's properties resolve iff the leading ones, the fit and the trailing ones do, and are then exactly those three results combined; the auto flags are the width's and height's own Auto |
| LayoutSpec.LiteralWidthKept | src/ui/elements/mod.rs:164-168 | a laid-out element whose width is a bare literal w has content width w, negative or not |
| LayoutSpec.LiteralClamped | src/ui/elements/mod.rs:164-173 | a set width/height with literal bounds lo <= hi resolves into [lo, hi] |
| LayoutSpec.InheritedUnsetDirectionPanics | src/ui/elements/mod.rs:143-147 | an inherited direction whose parent leaves it unset is a fatal error, because the default sheet's direction is Auto |
| LayoutSpec.InheritedUnsetOriginFallsBack | src/ui/elements/mod.rs:149-153 | an inherited origin whose parent leaves it unset falls back to the default sheet's BottomLeft |
| LayoutSpec.OccupiedLaw | src/ui/elements/mod.rs:191-197 | horizontal flow sums the widths and takes the largest height (at least 0); vertical flow is the converse; absent contributions count for nothing |
| LayoutSpec.StepCommutes | src/ui/elements/mod.rs:191-197 | one flow step after another gives the same size in either order |
| LayoutSpec.Contribution | src/ui/elements/mod.rs:191-226 | a child counts for nothing exactly when it is text under CropText; measured text has a non-negative size |
| LayoutSpec.FlowExample | src/ui/elements/mod.rs:176-197 | Horizontal flow over 30 x 10 and 40 x 20 occupies 70 x 20; Vertical over 50 x 20 and 30 x 40 occupies 50 x 60 |
| LayoutSpec.OccupiedMonotone | src/ui/elements/mod.rs:176-228 | growing any child's contribution never shrinks the occupied size |
| LayoutSpec.AutoDim | src/ui/elements/mod.rs:230-236 | an auto dimension becomes the larger of its literal and the occupied extent; a fixed one keeps its literal |
| LayoutSpec.AutoDimMonotone | src/ui/elements/mod.rs:230-236 | auto-sizing never shrinks below the literal and grows with the content |
| LayoutSpec.CrossAlignment | src/ui/elements/mod.rs:312-353 | Start puts the child at the parent's content edge; End makes the far edges meet; Middle lines up the truncated centres; OffsetStart, OffsetMiddle and OffsetEnd shift these by o (End against the axis) |
| LayoutSpec.PlaceChild | src/ui/elements/mod.rs:292-366 | placing a child never changes any of its sizes: content, box or bounding |
| LayoutSpec.PlacedRelative | src/ui/elements/mod.rs:297-366 | a Relative child is anchored by its own origin at its stored offset on the flow axis and at the aligned parent edge on the cross axis; its box and bounding corners follow from padding and margin resolved on the parent |
| LayoutSpec.PlaceTwiceDrifts | src/ui/elements/mod.rs:297-366 | placing a Relative child twice moves its box corner on the flow axis by the same amount twice; for a left (bottom) origin the content corner moves by the left (bottom) padding; the cross axis does not move |
| LayoutSpec.PlacedAbsolute | src/ui/elements/mod.rs:292-297 | an Absolute child is left unchanged by placement |
| Layout.SizeElement | src/ui/elements/mod.rs:180-197 | one element child: the call changes only that child's subtree, and the loop so far only the subtrees of the children up to it; when its compute passes, it and the earlier children are laid out, and the new occupied size is the flow accumulation of the contributions up to and including it |
| Layout.SizeChildren | src/ui/elements/mod.rs:175-228 | the sizing loop changes only the children's subtrees; on success every element child is laid out by its own compute, the text fit used is the resolved one exactly when there is a text child, and the occupied size is the flow accumulation of all contributions |
| Layout.SizeText | src/ui/elements/mod.rs:197-226 | one text child: it passes exactly when the element's text fit resolves, and then that fit is the one the flow uses; it changes no state, and under ExpandParent the new occupied size is the flow accumulation up to and including the measured text |
| Layout.SizePhase | src/ui/elements/mod.rs:160-237 | only e's children's subtrees change, and only when a dimension is auto; on success the text fit used is e's resolved one, each auto dimension is the larger of its literal and the children's flow, a fixed one keeps its literal, and when auto every element child is laid out |
| Layout.SetBox | src/ui/elements/mod.rs:242-276 | content size is the resolved size; an Absolute element's content position is the anchored coordinate, otherwise it stays; box = content + padding and bounding = box + margin (sizes and corners); no other state changes |
| Layout.PlaceFirstPlaced | src/ui/elements/mod.rs:278-367 | after placing a prefix of the children, each element child in it holds exactly what PlaceChild makes from its state before placement |
| Layout.PlaceFirstFails | src/ui/elements/mod.rs:278-367 | once placing a child panics, placing any longer prefix of the children panics |
| Layout.PlaceFirstFrame | src/ui/elements/mod.rs:278-367 | placement rewrites only the parent's element children and resizes nothing |
| Layout.PlaceChildren | src/ui/elements/mod.rs:278-367 | the placement loop succeeds iff placing all the children in order succeeds, and then leaves that result; it moves only element children and resizes nothing |
| Layout.Compute | src/ui/elements/mod.rs:138-368 | only e's subtree changes; on success e's state is OwnLaid (sizes from literals and, when auto, the children's flow; box and bounding from padding and margin; Absolute anchoring); each element child is sized by its own compute only when some dimension is auto, then placed by PlaceChild; when neither dimension is auto nothing before placement changes; placement moves only e's element children and resizes nothing |
| Layout.FlowOffsetOverwritten | src/ui/elements/mod.rs:183-189 | the flow offset written into a child is lost: after the child's compute, its x and y are its own prior content position minus its padding, whatever the earlier children occupied |
| Reentry.ReentryBlocks | src/ui/elements/mod.rs:139-197 | as written, compute on an element with an auto dimension and an element child never finishes sizing: it blocks re-taking its own write lock at the first element child, or panics first on a text child's unresolvable fit |
| Reentry.TextOnlyAsIntended | src/ui/elements/mod.rs:143-228 | without element children the as-written sizing panics exactly where HeadOf or FitOf fails, and otherwise finishes, as the intended model does |
| Reentry.ReentryExample | src/ui/elements/mod.rs:175-189 | an auto root sheet with a single element child blocks |
| Layout.AutoSizeExample | src/ui/elements/mod.rs:175-237 | a Vertical, fully auto element over children of bounding size 50 x 20 and 30 x 40 gets content size 50 x 60 |

## Left out

- Units other than `Px`, and the DPI: these are f32 conversions cast to i32 (src/ui/styles.rs:459-481). `AsPx` covers the `Px` case only.
- Rotation, the rotation origin's use, text size, kerning, skew, stretch and font: f32 or rendering properties. The text fit, which lives in the text style in the source, is a field of the modelled style sheet.
- The layout state's transform and DPI snapshot: these are not read by the layout pass.
- The `RwLock`/`Arc` locking in `compute`: it serves concurrent access only. The arena and the states array stand in for the locked elements.
- `UiElementState::comp` (mod.rs:118-136): it resolves a text fit and measures a fixed string, but writes nothing apart from the DPI.
- Text measurement (`get_size`): this needs font metrics. It is the parameter `measure`, which returns a non-negative size.
- The `log::error!` diagnostic of `resolve!`: only its value semantics are modelled.
- i32 overflow: the model's integers are unbounded, so a wrapping sum in the source is not represented.
- Cycles of cloned-from handles: the source recurses without end. The model runs out of fuel after as many steps as the arena has nodes and reports `Exhausted`; `ResolveFuelStable` shows that no larger fuel changes any result.
- `p_clamp` comes from an external crate. `Clamp` assumes an ordinary clamp that tests the lower bound first; with min > max its result is whatever that order gives.
- Layout.Compute: the source at mod.rs:189 recurses on the element itself rather than on the child. Module Layout recurses into the child, as the surrounding code (mod.rs:191-197) evidently expects. The as-written behaviour is modelled in module Reentry (see "## Findings").
- Lock reads during the pass: resolving Inherit reads the parent's lock (styles.rs:349-357). In the intended recursion that parent's write guard is still held, so such a read would block as well. Layout treats every read as succeeding, and Reentry models only the write lock that compute itself takes.
- Layout.Compute: on a panic the source has already written some of the element's fields, and a panic ends the program. The model resolves the element's padding, margin, position and coordinates before writing any of its own fields, and on a panic says only which states may have changed, not what they hold.
- Layout.Compute: its contract states the element's own layout and that of its element children. When a dimension is auto, deeper descendants are covered by the children's own Compute calls and are not composed into one whole-tree function. "Pass implies the properties resolve" is stated in one direction only; the exact conditions under which compute panics are not characterised.
- Layout.FlowOffsetOverwritten and Layout.AutoSizeExample are stated over the facts Compute ensures (ChildDone, OwnLaid), not over a concrete run of Compute.

## Findings

| source | as written | input that shows it | evidently intended | confidence | as-written member | corrected member |
|---|---|---|---|---|---|---|
| src/ui/elements/mod.rs:189 | the sizing loop calls `compute(elem.clone(), ctx)` on the element being computed, whose non-reentrant write guard (mod.rs:139) is still held, so the call blocks | `Reentry.ExampleTree`: a root with the default sheet (width and height Auto) and one element child | compute the child `e`, whose bounding size mod.rs:191-197 reads next | not executed; high | Reentry.ReentryBlocks | Layout.SizeElement |
