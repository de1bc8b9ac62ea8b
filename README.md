# SLEAP timeline slider bookkeeping and stride padding, in Dafny

This project models two small pieces of SLEAP in Dafny and proves properties of them.

**The timeline slider (`sleap/gui/slider.py`).** This is the bookkeeping behind `VideoSlider` and
`SliderMark`, without any Qt drawing:

- the list of selection endpoints and its normalised `(start, end)` readback;
- the mark set, whose marks compare by identity (`cmp=False`), with its side tables of
  drawn items and tick labels;
- the per-kind attributes of a mark;
- the packing of track rows into stacked columns;
- the power-of-ten tick step and the ticks it places;
- the walk outward over contiguously marked values;
- the rule by which the handle snaps to a nearby mark;
- the slider's height bounds.

**Stride padding (`sleap/nn/data/resizing.py`).** This covers `find_padding_for_stride`,
`pad_to_stride` as zero padding of a height × width × channels integer tensor, and the
per-example `resize` step of `Resizer`.

Files:

- `wrappers.dfy`: `Option` and `Result`.
- `arith.dfy` (module `IntArith`): uniqueness of integer quotient and remainder.
- `resizing.dfy` (module `Resizing`): Python floor-mod, the padding arithmetic, zero padding,
  and `Resizer`.
- `slider_mark.dfy` (module `SliderMarks`): `class Mark`, a reference type, so two marks with
  equal fields stay distinct, as `cmp=False` makes them in Python.
- `track_layout.dfy` (module `TrackLayout`): the pure integer rules. These are track columns and
  rows, vertical lane offsets, the tick-step exponent and tick positions.
- `handle_snap.dfy` (module `HandleSnap`): the order in which `moveHandle` prefers marks under the
  handle, and the snap target it picks.
- `slider.dfy` (module `Slider`): `class VideoSlider`.
  - Its fields are the selection `seq<int>`, the mark `set<Mark>`, the side-table maps, the
    tick-mark sequence, the track count and the header and box heights.
  - Methods update these fields in place.
  - Three ghost predicates describe the state:
    - `Valid`: one item per mark, and one label per tick mark. The constructor, `ClearMarks` and
      `SetMarks` establish it; every other method that changes the mark set keeps it.
    - `MarksInRange`: every mark lies in `[valMin, valMax]`. The constructor, `ClearMarks` and
      `SetMarks` establish it. `AddMark`, `RemoveMark`, `AddMarks`, `AddTickMarks`,
      `ClearTickMarks` and `SetTickMarks` keep it when it held before. `SetMinimum` and
      `SetMaximum` can break it, because the source does not re-check existing marks.
    - `ItemsCurrent`: every item has the layout `addMark` gives its mark, and every label shows
      the tick's value plus one. The same methods establish it and keep it when it held before.
      `SetHeaderSeries` and `ClearHeader` can break it, because the redraw that follows them is
      not modelled.

Values are integers (frame indices).

### Raising cases

- **`endSelection`.** When `endSelection` runs on an empty endpoint list, the code raises.
  - With `update`, it pops an empty list.
  - Without `update`, it unpacks a single endpoint into two names.
  - The model returns `None` in these cases and keeps the list the code leaves behind.
- **Emitting `selectionChanged`.** The code emits `selectionChanged` after clearing a zero-width
  selection as well. The model returns the emitted pair in both cases.

## Model

| member | source | states |
|---|---|---|
| Resizing.PyMod | sleap/nn/data/resizing.py:26-27 | Python `%` takes the divisor's sign: the result is in `[0, b)` for `b > 0` and in `(b, 0]` for `b < 0`, and `a - r` is a multiple of `b` |
| Resizing.PyModExamples | sleap/nn/data/resizing.py:26-27 | Python's values on negative operands: `5 % -4 == -3`, `-5 % -4 == -1`, `-7 % 3 == 2` |
| Resizing.FindPaddingForStride | sleap/nn/data/resizing.py:8-28 | for a positive stride both pads lie in `[0, max_stride)` and make height and width divisible; for a negative stride both pads are `<= 0` |
| Resizing.PadValue | sleap/nn/data/resizing.py:26-27 | the pad is 0 on a multiple of the stride, else `stride - dim % stride` |
| Resizing.PadDivides | sleap/nn/data/resizing.py:26-28 | the padded dimension is a multiple of the stride, and the pad is below the stride |
| Resizing.PaddingMinimal | sleap/nn/data/resizing.py:26-27 | for both the bottom pad of the height and the right pad of the width, no smaller non-negative pad makes that side divisible |
| Resizing.PaddingZeroIff | sleap/nn/data/resizing.py:26-27 | each pad is 0 exactly when its side (height for the bottom pad, width for the right pad) is already a multiple of the stride |
| Resizing.PaddingExample | sleap/nn/data/resizing.py:8-28 | a 17 × 9 image at stride 8 needs padding (7, 7) |
| Resizing.ZeroPad | sleap/nn/data/resizing.py:54-56 | `tf.pad` on bottom and right: the shape grows by the pads, channels are kept, original pixels keep their indices, and every added cell is 0 |
| Resizing.PadToStride | sleap/nn/data/resizing.py:31-57 | the result is well formed and keeps the channels; for a positive stride both sides become multiples of the stride, each less than one stride larger; original pixels are kept and added cells are 0; for a negative stride the image is returned unchanged |
| Resizing.PadToStrideIdentity | sleap/nn/data/resizing.py:49-57 | an image whose sides are already multiples of the stride is returned unchanged |
| Resizing.PadToStrideLeastShape | sleap/nn/data/resizing.py:49-57 | each padded side is the least multiple of the stride that is not below the original side |
| Resizing.Resizer.OutputKeys | sleap/nn/data/resizing.py:117-125 | `output_keys == input_keys == [image_key]` |
| Resizing.DefaultResizerIsIdentity | sleap/nn/data/resizing.py:113-115 | with the default fields (`"image"`, scale 1.0, stride 1) the keys are `["image"]` and every example passes through unchanged |
| Resizing.Resize | sleap/nn/data/resizing.py:138-152 | scales only when `scale != 1.0` and pads only when `pad_to_stride > 1`, scaling first; only the `image_key` entry changes and the key set is kept; a missing key is a `KeyError` exactly when some step applies |
| Resizing.ResizeThenPadShape | sleap/nn/data/resizing.py:138-152 | after scaling and padding, the image sides are the least multiples of the stride that cover the scaled sides |
| TrackLayout.GetTrackColRow | sleap/gui/slider.py:752-765 | rows below 120 map to `(0, r)`; later rows map to `(col, rd)` with `col >= 1`, `0 <= rd < 110` and `120 + (col-1)*110 + rd == r` |
| TrackLayout.ColRowRoundTrip | sleap/gui/slider.py:752-765 | the column/row packing is a bijection between raw rows and slots, proved in both round-trip directions |
| TrackLayout.GetTrackVerticalPos | sleap/gui/slider.py:767-773 | column 0 is at `row*5`; any later column is at `(10 + row)*5` |
| TrackLayout.TrackRowsStack | sleap/gui/slider.py:752-773 | every non-negative row's lane lies within 120 lanes; later columns start below the 10 reserved lanes; two rows in the same column do not overlap |
| TrackLayout.NewColTrackIff | sleap/gui/slider.py:775-777 | `isNewColTrack(r)` holds exactly for the first row of a column (row 0, or `r - 120` a multiple of 110), that is, for the raw rows of slots `(col, 0)` |
| TrackLayout.TickExponentFrom | sleap/gui/slider.py:665-667 | the exponent search from `from` ends at the least exponent whose step leaves at most 24 steps |
| TrackLayout.TickStepExponent | sleap/gui/slider.py:665-667 | the tick exponent is the least `k >= 1` with `range // 10^k <= 24` |
| TrackLayout.TickExponentUnique | sleap/gui/slider.py:665-667 | any least exponent with that property equals the computed one |
| TrackLayout.TickPositions | sleap/gui/slider.py:671 | Python `range(start, stop, step)`: element `i` is `start + i*step`, all are below `stop`, and the next one would not be |
| HandleSnap.SnapUnique | sleap/gui/slider.py:893-898 | the snap target is unique, so the unordered mark set cannot change where the handle lands |
| SliderMarks.Mark.constructor | sleap/gui/slider.py:16-42 | a mark holds the given kind, value, end value, row and stored colour |
| SliderMarks.Mark.SetColor | sleap/gui/slider.py:61-64 | the colour setter replaces the stored colour |
| SliderMarks.Mark.GetHeight | sleap/gui/slider.py:107-114 | a track bar is 2 high; any other mark fills the container less its top and bottom pads |
| SliderMarks.NewTwinMarks | sleap/gui/slider.py:16 | two marks built from identical fields are different marks, and a set holds both (`cmp=False`) |
| SliderMarks.KindAttributes | sleap/gui/slider.py:75-114 | `filled` is false only for "open"; pads are (40, 200) for "tick_column", (0, 0) for "tick", (2, 2) otherwise; heights follow from the pads |
| SliderMarks.ColorSource | sleap/gui/slider.py:44-59 | the six fixed kinds take their colour from the table; "track" takes the stored colour |
| SliderMarks.VisualWidthOfKinds | sleap/gui/slider.py:99-105 | on the seven kinds the source creates, widths are 2 for open/filled/tick, 1 for tick_column, 0 otherwise |
| SliderMarks.VisualWidthSubstring | sleap/gui/slider.py:99-105 | the width test is substring containment, so a kind such as "column" is also 1 wide |
| Slider.MinOf | sleap/gui/slider.py:948-955 | Python `min` over a non-empty collection: the result is a member and is below every member |
| Slider.MaxOf | sleap/gui/slider.py:967-974 | Python `max` over a non-empty collection: the result is a member and is above every member |
| Slider.TickStep | sleap/gui/slider.py:665-667 | the step loop ends at `10^k` for the least `k >= 1` with at most 24 steps in the visible range |
| Slider.NewTickMarks | sleap/gui/slider.py:669-672 | one fresh "tick" mark per position of `range(start, stop, step)`, in order |
| Slider.LayoutPlacement | sleap/gui/slider.py:712-741 | a point mark's rectangle spans the box below the header less its pads; a track bar is 2 high inside the 120-lane area below the header; ticks sit behind other marks (z 0); the rectangle straddles the mark's x position |
| Slider.TicksInRange | sleap/gui/slider.py:671-675 | every generated tick lies in `[min, max)`, so `addMark` keeps all of them |
| Slider.NewTickRun | sleap/gui/slider.py:662-672 | the new tick sequence is a fresh tick generation for the least power-of-ten step, and every one of its marks lies in `[min, max]` |
| Slider.VideoSlider.constructor | sleap/gui/slider.py:152-236 | sets the bounds, the value, an empty selection, no tracks, the label-only header and a box height of `19 + 20 - 3 = 36`; the tick sequence is a fresh tick generation for the least power-of-ten step; the marks are those ticks plus the given marks that lie in range; every mark has the item `addMark` draws for it in its current colour, and every tick the label `val + 1`; all three invariants hold |
| Slider.VideoSlider.SetValue | sleap/gui/slider.py:413-418 | sets the current value |
| Slider.VideoSlider.SetMinimum | sleap/gui/slider.py:420-422 | sets the lower bound |
| Slider.VideoSlider.SetMaximum | sleap/gui/slider.py:424-426 | sets the upper bound |
| Slider.VideoSlider.ClearSelection | sleap/gui/slider.py:440-443 | the endpoint list becomes empty |
| Slider.VideoSlider.StartSelection | sleap/gui/slider.py:445-453 | appends one endpoint |
| Slider.VideoSlider.GetSelection | sleap/gui/slider.py:487-494 | always `start <= end`; for a non-empty even list it is the last two endpoints in order, otherwise `(0, 0)` |
| Slider.VideoSlider.HasSelection | sleap/gui/slider.py:482-485 | holds exactly when the list is non-empty and even and its last two endpoints differ, that is, when `start < end` |
| Slider.VideoSlider.EndSelection | sleap/gui/slider.py:455-475 | with `update` on an even list, the last endpoint is replaced rather than a new one added; equal last endpoints clear the list; the pair is emitted in both cases; the two raising cases return `None` |
| Slider.VideoSlider.SetSelection | sleap/gui/slider.py:477-480 | from an even list, `a != b` selects `(min(a,b), max(a,b))` and `a == b` clears to `(0, 0)`; the emitted pair is the new selection |
| Slider.VideoSlider.ClearMarks | sleap/gui/slider.py:614-626 | the mark set and both side tables become empty |
| Slider.VideoSlider.AddMark | sleap/gui/slider.py:695-750 | a mark outside `[min, max]` changes nothing; otherwise exactly that mark is inserted and drawn, with a label `val + 1` if it is a tick; all three invariants are preserved |
| Slider.VideoSlider.RemoveMark | sleap/gui/slider.py:677-686 | the mark leaves the set and both side tables and nothing else changes; an absent mark is a no-op |
| Slider.VideoSlider.GetMarks | sleap/gui/slider.py:688-693 | all marks for the empty kind, else exactly the marks of that kind |
| Slider.VideoSlider.IsMarkedVal | sleap/gui/slider.py:934-944 | a value is marked exactly when some mark starts at it or it lies in `[val, end_val)` of a "track" mark |
| Slider.VideoSlider.AddMarks | sleap/gui/slider.py:642-646 | the `addMark` loop adds exactly the in-range marks of the sequence, from any consistent state; entries of the other marks keep their items and labels; each added mark gets the item `addMark` draws in its current colour, and each added tick the label `val + 1`; it keeps `MarksInRange` and `ItemsCurrent` when they held before |
| Slider.VideoSlider.AddTickMarks | sleap/gui/slider.py:662-675 | the tick marks are fresh "tick" marks at `min+step-1, min+2*step-1, ...`, all below `max`, for the least power-of-ten step; all of them join the mark set and are drawn with the label `val + 1`, while the earlier side-table entries are kept; runs from any consistent state and keeps `MarksInRange` and `ItemsCurrent` when they held before |
| Slider.VideoSlider.ClearTickMarks | sleap/gui/slider.py:655-660 | the marks of the last tick generation leave the mark set and both side tables, and every other entry stays; runs from any consistent state and keeps `MarksInRange` and `ItemsCurrent` when they held before |
| Slider.VideoSlider.SetTickMarks | sleap/gui/slider.py:650-653 | the old ticks leave the mark set and the side tables, and a fresh tick generation for the least power-of-ten step is added and drawn; every other entry stays; this holds also when earlier bound changes left marks out of range |
| Slider.VideoSlider.SetMarks | sleap/gui/slider.py:628-648 | afterwards the marks are exactly a fresh tick generation plus the given marks in range; the side tables hold exactly the items `addMark` draws for them and the labels `val + 1` of the ticks; all three invariants hold |
| Slider.VideoSlider.SetTracks | sleap/gui/slider.py:326-333 | sets the number of track rows |
| Slider.VideoSlider.SetHeaderSeries | sleap/gui/slider.py:307-318 | the header grows to label height plus graph height (50) |
| Slider.VideoSlider.ClearHeader | sleap/gui/slider.py:320-324 | the header returns to the label height (20) |
| Slider.VideoSlider.GetMinMaxHeights | sleap/gui/slider.py:335-354 | both heights are at least 39 and min ≤ max; with no tracks both are 39; otherwise they leave room for up to 20 and up to 120 lanes |
| Slider.VideoSlider.TracksFitMaxHeight | sleap/gui/slider.py:335-354 | the maximum height has room for the lane of every track row, whatever column it lands in |
| Slider.VideoSlider.DecrementContiguousMarkedVal | sleap/gui/slider.py:946-963 | the result is `<= v`; every value from it up to `v` is marked; it reaches down to the start of every track mark with `val < v <= end_val`; it equals `v` exactly when nothing starts at `v-1` and no track mark has `val < v <= end_val` |
| Slider.VideoSlider.IncrementContiguousMarkedVal | sleap/gui/slider.py:965-982 | the result is `>= v`; every value after `v` up to it is marked; it reaches the last frame of every track mark covering `v`; it equals `v` exactly when nothing starts at `v+1` and no covering track extends past `v` |
| Slider.VideoSlider.WalkDown | sleap/gui/slider.py:916-923 | the downward walk ends at or below its start; everything it passes is marked; it stops at a fixed point of the decrement or at or below `valMin` |
| Slider.VideoSlider.WalkUp | sleap/gui/slider.py:925-932 | the upward walk ends at or above its start; everything it passes is marked; it stops at a fixed point of the increment or at or above `valMax` |
| Slider.VideoSlider.GetStartContiguousMark | sleap/gui/slider.py:916-923 | the loop returns exactly `WalkDown(v)`, including the value that overshoots `valMin` when the walk stops there; the result is `<= v` and everything from it up to `v` is marked; it is a fixed point or at/below `min`; when all marks are in range and `v >= min`, it is not below `min` |
| Slider.VideoSlider.GetEndContiguousMark | sleap/gui/slider.py:925-932 | the loop returns exactly `WalkUp(v)`, including the value that overshoots `valMax` when the walk stops there; the result is `>= v` and everything from `v` up to it is marked; it is a fixed point or at/above `max` |
| Slider.VideoSlider.ContiguousSelectionMarksAroundVal | sleap/gui/slider.py:906-914 | does nothing unless `v` is marked; otherwise `lo == WalkDown(v)` and `hi == WalkUp(v)`, so the run `[lo, hi]` around `v` is pinned even where a walk stops past a bound; every value in it is marked, and the endpoint list changes as `setSelection(lo, hi)` changes it: from an even list, `[]` when `lo == hi`, else `lo, hi` appended; from an odd list, `[]` when the last endpoint equals `hi`, else `hi` appended; the emitted pair is the new selection |
| Slider.VideoSlider.SnapFromScan | sleap/gui/slider.py:889-898 | a scan that keeps the best in-handle value so far yields the snap target |
| Slider.VideoSlider.MoveHandle | sleap/gui/slider.py:874-904 | the new value is the in-handle mark nearest `val`, the lower one on a tie, or `val` when none is inside; a change is reported exactly when the value differs from the old one |

## Left out

- Qt drawing: scene items, pens, brushes, fonts, `updatePos`, `resizeEvent`, `drawSelection`, the selection and zoom boxes. A drawn rectangle is modelled as a `MarkItem` value, and a tick label as the number it shows.
- Signals: `selectionChanged` and `valueChanged` are the values `EndSelection`, `SetSelection` and `MoveHandle` return; `heightUpdated` and `updatedMarks` are not modelled.
- Pixel/value conversion: `_toPos`, `_toVal` and `_sliderWidth` use float arithmetic. The zoom operations and the pointer handlers are also left out. The visible value range, the value under the handle and the handle's edge values are parameters.
- Values are integers, while the source types them as floats. The tick label's `:g` formatting is not modelled.
- `drawHeader` and the header series data use float down-sampling. `SetHeaderSeries` models only the header height.
- `setTracksFromLabels` depends on `Labels`, `Video` and `ColorManager`, which are not part of this model.
- `updateHeight`: the widget height calls, `resizeEvent` and `heightUpdated` are not modelled, and its redraw `setMarks(getMarks())` is not replayed (sleap/gui/slider.py:356-369). That redraw clears both side tables and then draws and labels every mark again. Afterwards `resizeEvent` resets the box height and runs `setTickMarks`, which swaps the fresh tick generation for another one (sleap/gui/slider.py:1011, 1029). This affects the three methods below.
- Slider.VideoSlider.SetTracks: sets the track count and leaves the mark set and the side tables unchanged. The source then runs `updateHeight`. Its `setMarks(getMarks())` drops the marks that fall outside the bounds and keeps the previous tick generation as ordinary marks beside a new one (sleap/gui/slider.py:650-675). Those re-added old ticks get their labels again, since `addMark` labels every "tick" mark (sleap/gui/slider.py:742).
- Slider.VideoSlider.SetHeaderSeries: sets the header height and leaves the mark set and the side tables unchanged. The source runs the same `updateHeight` redraw as `setTracks`. The model does not capture the changes that redraw makes to the marks.
- Slider.VideoSlider.ClearHeader: resets the header height and leaves the mark set and the side tables unchanged. The source runs the same `updateHeight` redraw as `setTracks`. The model does not capture the changes that redraw makes to the marks.
- `setMarks` accepts plain numbers and wraps them into "simple" marks. The model takes marks only.
- A tick mark has `end_val` and `row` equal to `None` in the source. The model gives it its own value and row 0, which no computation on tick marks reads. The `track` reference field of a mark is not modelled.
- `SliderMark.QColor` (Qt colour conversion) is not modelled. A colour is a name or an RGB triple.
- `resize_image`: float scale products and bilinear `tf.image.resize` become the parameter `scaleImage`. The model assumes it returns a well-formed image.
- `Resizer.transform_dataset` is not modelled: its `ds_input.map(..., num_parallel_calls=AUTOTUNE)` is dataset runtime and parallelism. `tf.ensure_shape` on non-rank-3 tensors is also left out, because images are rank 3 by construction.
- A stride of 0 raises `ZeroDivisionError` in the source. `FindPaddingForStride` and `PadToStride` require a non-zero stride.
- Slider.VideoSlider.ItemsCurrent: an item keeps the colour its mark had when it was drawn, so a later `SetColor` does not make the item stale, as in the source. The invariant fixes the shape of each item, not its colour.
