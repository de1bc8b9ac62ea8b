/**
 * The bookkeeping of `VideoSlider` (sleap/gui/slider.py) without its Qt
 * drawing: the selection endpoints, the identity-keyed mark set with its
 * side tables of drawn items and tick labels, tick generation, the
 * contiguous-marked-range search, handle snapping and the height rule.
 *
 * Pixel/value conversions use floats in the source; every value that would
 * come out of them (the visible value range, the value under the pointer,
 * the handle's edges) is a parameter here.
 */
module Slider {
  import opened Wrappers
  import opened SliderMarks
  import opened TrackLayout
  import opened HandleSnap

  const HeaderLabelHeight := 20
  const HeaderGraphHeight := 30
  /** `_min_height`. */
  const MinHeight := 19 + HeaderLabelHeight

  function Min(a: int, b: int): int { if a <= b then a else b }
  function Max(a: int, b: int): int { if a >= b then a else b }

  lemma {:induction false} MinExists(s: set<int>, x: int)
    requires x in s
    ensures exists m :: m in s && forall y :: y in s ==> m <= y
    decreases |s|
  {
    if z :| z in s && z != x {
      var rest := s - {x};
      MinExists(rest, z);
      var m :| m in rest && forall y :: y in rest ==> m <= y;
      var least := if x <= m then x else m;
      forall y | y in s
        ensures least <= y
      {
        if y != x {
          assert y in rest;
        }
      }
      assert least in s;
    } else {
      assert forall y :: y in s ==> x <= y;
    }
  }

  lemma {:induction false} MaxExists(s: set<int>, x: int)
    requires x in s
    ensures exists m :: m in s && forall y :: y in s ==> y <= m
    decreases |s|
  {
    if z :| z in s && z != x {
      var rest := s - {x};
      MaxExists(rest, z);
      var m :| m in rest && forall y :: y in rest ==> y <= m;
      var most := if x >= m then x else m;
      forall y | y in s
        ensures y <= most
      {
        if y != x {
          assert y in rest;
        }
      }
      assert most in s;
    } else {
      assert forall y :: y in s ==> y <= x;
    }
  }

  /** Python's `min` of a non-empty collection. */
  function MinOf(s: set<int>): (m: int)
    requires exists x :: x in s
    ensures m in s && forall y :: y in s ==> m <= y
  {
    var x :| x in s;
    MinExists(s, x);
    var m :| m in s && forall y :: y in s ==> m <= y;
    m
  }

  /** Python's `max` of a non-empty collection. */
  function MaxOf(s: set<int>): (m: int)
    requires exists x :: x in s
    ensures m in s && forall y :: y in s ==> y <= m
  {
    var x :| x in s;
    MaxExists(s, x);
    var m :| m in s && forall y :: y in s ==> y <= m;
    m
  }

  /** The rectangle item drawn for a mark: position, size, colour, fill and stacking order. */
  datatype MarkItem = MarkItem(x: int, y: int, width: int, height: int, color: Color, filled: bool, z: int)

  /**
   * The tick step loop of `_add_tick_marks`: multiply by ten from 10 while
   * more than 24 steps fit in the visible range.
   */
  method TickStep(visibleRange: int) returns (step: int)
    ensures step == Pow10(TickStepExponent(visibleRange))
    ensures step >= 10 && visibleRange / step <= MaxTicks
  {
    step := 10;
    ghost var k: nat := 1;
    while visibleRange / step > MaxTicks
      invariant k >= 1 && step == Pow10(k) && step >= 10
      invariant forall j :: 1 <= j < k ==> visibleRange / Pow10(j) > MaxTicks
      decreases visibleRange - step
    {
      step := step * 10;
      k := k + 1;
    }
    TickExponentUnique(visibleRange, k);
  }

  /** The tick creation loop of `_add_tick_marks`: one fresh black tick mark per position. */
  method NewTickMarks(start: int, stop: int, step: int) returns (ticks: seq<Mark>)
    requires step > 0
    ensures TicksAt(ticks, TickPositions(start, stop, step))
    ensures forall i :: 0 <= i < |ticks| ==> fresh(ticks[i])
  {
    ghost var vals: seq<int> := [];
    ticks := [];
    var pos := start;
    while pos < stop
      invariant vals + TickPositions(pos, stop, step) == TickPositions(start, stop, step)
      invariant |ticks| == |vals|
      invariant forall i :: 0 <= i < |vals| ==>
                  ticks[i].kind == "tick" && ticks[i].val == vals[i] && fresh(ticks[i])
      decreases stop - pos
    {
      var t := new Mark("tick", pos, pos, 0, Named("black"));
      ticks := ticks + [t];
      vals := vals + [pos];
      pos := pos + step;
    }
  }

  /**
   * The item `addMark` draws for `m` in colour `color`: centred on the mark,
   * below the header and the mark's top pad, lowered to its lane for a
   * track mark, ticks behind everything else.
   */
  function Layout(m: Mark, color: Color, headerHeight: int, boxHeight: int): MarkItem
  {
    var vTopPad := headerHeight + 1 + m.TopPad();
    var width := m.VisualWidth();
    var vOffset := vTopPad + if m.kind == "track" then
                               var cr := GetTrackColRow(m.row); GetTrackVerticalPos(cr.0, cr.1)
                             else 0;
    var height := m.GetHeight(boxHeight - headerHeight);
    MarkItem(-width / 2, vOffset, width, height, color, m.Filled(), if m.kind == "tick" then 0 else 1)
  }

  /**
   * Where `addMark` puts a mark's rectangle: a point mark spans the box
   * below the header, less its pads; a track bar is 2 high in its own lane,
   * inside the 120-lane track area; ticks sit behind the other marks.
   */
  lemma LayoutPlacement(m: Mark, color: Color, headerHeight: int, boxHeight: int)
    ensures var item := Layout(m, color, headerHeight, boxHeight);
            && item.color == color && (item.filled <==> m.kind != "open")
            && (item.z == 0 <==> m.kind == "tick")
            && item.x <= 0 && item.x + item.width >= 0
            && (m.kind != "track" ==>
                  item.y == headerHeight + 1 + m.TopPad() && item.y + item.height + m.BottomPad() == boxHeight + 1)
            && (m.kind == "track" ==> item.height == 2)
            && (m.kind == "track" && m.row >= 0 ==>
                  headerHeight + 3 <= item.y && item.y + TrackHeight <= headerHeight + 3 + MaxTracksStacked * TrackHeight)
  {
    if m.kind == "track" && m.row >= 0 {
      TrackRowsStack(m.row, m.row + 1);
    }
  }

  /** `ticks` are tick marks at the positions `ps`, in order. */
  ghost predicate TicksAt(ticks: seq<Mark>, ps: seq<int>)
  {
    && |ticks| == |ps|
    && forall i :: 0 <= i < |ps| ==> ticks[i].kind == "tick" && ticks[i].val == ps[i]
  }

  /** The tick marks `_add_tick_marks` makes for a slider over `[min, max]`. */
  ghost predicate IsTickRun(ticks: seq<Mark>, min: int, max: int, visibleRange: int)
  {
    var step := Pow10(TickStepExponent(visibleRange));
    TicksAt(ticks, TickPositions(min + step - 1, max, step))
  }

  /** The marks of `ms` that `addMark` keeps on a slider over `[lo, hi]`. */
  ghost function Kept(ms: seq<Mark>, lo: int, hi: int): set<Mark>
  {
    set m | m in ms && lo <= m.val <= hi
  }

  /** Going through `ms` one more mark adds that mark when it lies in range. */
  lemma KeptStep(ms: seq<Mark>, i: int, lo: int, hi: int)
    requires 0 <= i < |ms|
    ensures Kept(ms[..i + 1], lo, hi) == Kept(ms[..i], lo, hi) + if lo <= ms[i].val <= hi then {ms[i]} else {}
  {
    assert ms[..i + 1] == ms[..i] + [ms[i]];
  }

  /** The marks a sequence holds. */
  ghost function Elems(ms: seq<Mark>): set<Mark>
  {
    set t | t in ms
  }

  /** The marks of a prefix grow by one mark per step. */
  lemma PrefixSetStep(ms: seq<Mark>, i: int)
    requires 0 <= i < |ms|
    ensures Elems(ms[..i + 1]) == Elems(ms[..i]) + {ms[i]}
  {
    assert ms[..i + 1] == ms[..i] + [ms[i]];
  }

  /** Every tick `_add_tick_marks` places lies in `[lo, hi)`, so `addMark` keeps them all. */
  lemma TicksInRange(ticks: seq<Mark>, lo: int, hi: int, step: int)
    requires step > 0 && TicksAt(ticks, TickPositions(lo + step - 1, hi, step))
    ensures Kept(ticks, lo, hi) == Elems(ticks)
    ensures forall i :: 0 <= i < |ticks| ==> lo <= ticks[i].val < hi
  {
    var ps := TickPositions(lo + step - 1, hi, step);
    assert forall i :: 0 <= i < |ticks| ==> lo <= ticks[i].val == ps[i] < hi;
  }

  /**
   * Side tables `items`/`labels` grown from `items0`/`labels0` by drawing the
   * marks of `added`: every entry of a mark outside `added` is as it was,
   * every mark of `added` has the item `addMark` draws for it in its current
   * colour, and every tick of `added` the label `val + 1`.
   */
  ghost predicate Extends(items: map<Mark, MarkItem>, labels: map<Mark, int>,
                          items0: map<Mark, MarkItem>, labels0: map<Mark, int>,
                          added: set<Mark>, headerHeight: int, boxHeight: int)
    reads added
  {
    && (forall m :: m in items0 && m !in added ==> m in items && items[m] == items0[m])
    && (forall m :: m in labels0 && m !in added ==> m in labels && labels[m] == labels0[m])
    && (forall m :: m in added ==> m in items && items[m] == Layout(m, m.DisplayColor(), headerHeight, boxHeight))
    && (forall m :: m in added && m.kind == "tick" ==> m in labels && labels[m] == m.val + 1)
  }

  /**
   * The `addMark` of the next mark of `ms` keeps `added` equal to the kept
   * prefix and the mark set equal to `base` plus `added`.
   */
  lemma KeptUnionStep(ms: seq<Mark>, i: int, lo: int, hi: int,
                      base: set<Mark>, added: set<Mark>, prev: set<Mark>, next: set<Mark>)
    requires 0 <= i < |ms| && added == Kept(ms[..i], lo, hi) && prev == base + added
    requires lo <= ms[i].val <= hi ==> next == prev + {ms[i]}
    requires !(lo <= ms[i].val <= hi) ==> next == prev
    ensures lo <= ms[i].val <= hi ==> added + {ms[i]} == Kept(ms[..i + 1], lo, hi) && next == base + (added + {ms[i]})
    ensures !(lo <= ms[i].val <= hi) ==> added == Kept(ms[..i + 1], lo, hi) && next == base + added
  {
    KeptStep(ms, i, lo, hi);
  }

  /** One more `addMark` of an in-range mark `x` grows the tables by `x`. */
  lemma ExtendsStep(items: map<Mark, MarkItem>, labels: map<Mark, int>,
                    items0: map<Mark, MarkItem>, labels0: map<Mark, int>,
                    added: set<Mark>, x: Mark, headerHeight: int, boxHeight: int)
    requires Extends(items, labels, items0, labels0, added, headerHeight, boxHeight)
    ensures Extends(items[x := Layout(x, x.DisplayColor(), headerHeight, boxHeight)],
                    if x.kind == "tick" then labels[x := x.val + 1] else labels,
                    items0, labels0, added + {x}, headerHeight, boxHeight)
  {
  }

  /** Two extensions in a row are one extension by both sets of marks. */
  lemma ExtendsTrans(items2: map<Mark, MarkItem>, labels2: map<Mark, int>,
                     items1: map<Mark, MarkItem>, labels1: map<Mark, int>,
                     items0: map<Mark, MarkItem>, labels0: map<Mark, int>,
                     a: set<Mark>, b: set<Mark>, headerHeight: int, boxHeight: int)
    requires Extends(items1, labels1, items0, labels0, a, headerHeight, boxHeight)
    requires Extends(items2, labels2, items1, labels1, b, headerHeight, boxHeight)
    ensures Extends(items2, labels2, items0, labels0, a + b, headerHeight, boxHeight)
  {
  }

  /** Removing the marks of a sequence one at a time removes all of them. */
  lemma RemoveStep<V>(mp: map<Mark, V>, ms: seq<Mark>, i: int)
    requires 0 <= i < |ms|
    ensures (mp - Elems(ms[..i])) - {ms[i]} == mp - Elems(ms[..i + 1])
  {
    PrefixSetStep(ms, i);
  }

  /**
   * The tick generation of `_add_tick_marks` for a slider over `[min, max]`:
   * fresh tick marks at the tick positions, every one of them in range.
   */
  method NewTickRun(min: int, max: int, visibleRange: int) returns (ticks: seq<Mark>)
    ensures IsTickRun(ticks, min, max, visibleRange)
    ensures forall i :: 0 <= i < |ticks| ==> fresh(ticks[i])
    ensures Kept(ticks, min, max) == Elems(ticks)
  {
    var step := TickStep(visibleRange);
    ticks := NewTickMarks(min + step - 1, max, step);
    TicksInRange(ticks, min, max, step);
  }

  class VideoSlider {
    var valMin: int
    var valMax: int
    /** The slider's current value (`_val_main`). */
    var valMain: int
    /** Selection endpoints (`_selection`), appended to and popped in place. */
    var selection: seq<int>
    /** The mark set (`_marks`), keyed by object identity. */
    var marks: set<Mark>
    /** Side table mark -> drawn item (`_mark_items`). */
    var markItems: map<Mark, MarkItem>
    /** Side table tick mark -> the number its header label shows (`_mark_labels`). */
    var markLabels: map<Mark, int>
    /** The tick marks of the last tick generation (`_tick_marks`). */
    var tickMarks: seq<Mark>
    /** Number of track lanes shown (`_track_rows`). */
    var trackRows: int
    /** Height of the header area (`_header_height`). */
    var headerHeight: int
    /** Height of the outline box (`getBoxRect().height()`). */
    var boxHeight: int

    /** The side tables follow the mark set: one item per mark, one label per tick mark. */
    ghost predicate Valid()
      reads this`marks, this`markItems, this`markLabels
    {
      && markItems.Keys == marks
      && markLabels.Keys <= marks
      && (forall m :: m in marks ==> (m in markLabels <==> m.kind == "tick"))
    }

    /** What `addMark` keeps: every mark lies within `[valMin, valMax]`. */
    ghost predicate MarksInRange()
      reads this`marks, this`valMin, this`valMax
    {
      forall m :: m in marks ==> valMin <= m.val <= valMax
    }

    ghost function TickSet(): set<Mark>
      reads this`tickMarks
    {
      Elems(tickMarks)
    }

    /**
     * Every drawn item has the shape `addMark` gives its mark (in the colour
     * the mark had when drawn), and every tick label shows the tick's value
     * plus one.
     */
    ghost predicate ItemsCurrent()
      reads this`markItems, this`markLabels, this`headerHeight, this`boxHeight
    {
      && (forall m :: m in markItems ==> markItems[m] == Layout(m, markItems[m].color, headerHeight, boxHeight))
      && (forall m :: m in markLabels ==> markLabels[m] == m.val + 1)
    }

    /** The item `addMark` draws for `m` now, in the mark's current colour. */
    function ItemFor(m: Mark): (item: MarkItem)
      reads this`headerHeight, this`boxHeight, m
    {
      Layout(m, m.DisplayColor(), headerHeight, boxHeight)
    }

    /**
     * `__init__` without its drawing: bounds, value, an empty selection, and
     * the marks set through `setMarks`.
     */
    constructor (min: int, max: int, val: int, initialMarks: seq<Mark>, visibleRange: int)
      ensures Valid() && MarksInRange() && ItemsCurrent()
      ensures valMin == min && valMax == max && valMain == val && selection == []
      ensures trackRows == 0 && headerHeight == HeaderLabelHeight && boxHeight == MinHeight - 3
      ensures marks == TickSet() + (set m | m in initialMarks && min <= m.val <= max)
      ensures IsTickRun(tickMarks, min, max, visibleRange)
      ensures forall i :: 0 <= i < |tickMarks| ==> fresh(tickMarks[i])
      ensures Extends(markItems, markLabels, map[], map[], marks, headerHeight, boxHeight)
    {
      valMin, valMax, valMain := min, max, val;
      selection := [];
      marks, markItems, markLabels, tickMarks := {}, map[], map[], [];
      trackRows := 0;
      headerHeight := HeaderLabelHeight;
      boxHeight := MinHeight - 3;
      new;
      SetMarks(initialMarks, visibleRange);
    }

    /** `setValue` (moving the handle's drawing is not modelled). */
    method SetValue(v: int)
      modifies this`valMain
      ensures valMain == v
    {
      valMain := v;
    }

    /** `setMinimum`: marks already added are not re-checked against the new bound. */
    method SetMinimum(min: int)
      modifies this`valMin
      ensures valMin == min
    {
      valMin := min;
    }

    /** `setMaximum`: marks already added are not re-checked against the new bound. */
    method SetMaximum(max: int)
      modifies this`valMax
      ensures valMax == max
    {
      valMax := max;
    }

    // ---------------------------------------------------------------- selection

    method ClearSelection()
      modifies this`selection
      ensures selection == []
    {
      selection := [];
    }

    method StartSelection(v: int)
      modifies this`selection
      ensures selection == old(selection) + [v]
    {
      selection := selection + [v];
    }

    /** `getSelection`: the last two endpoints in order, or (0, 0) without a complete pair. */
    function GetSelection(): (span: (int, int))
      reads this`selection
      ensures span.0 <= span.1
      ensures |selection| > 0 && |selection| % 2 == 0 ==>
                multiset{span.0, span.1} == multiset{selection[|selection| - 2], selection[|selection| - 1]}
      ensures !(|selection| > 0 && |selection| % 2 == 0) ==> span == (0, 0)
    {
      var pair := if |selection| % 2 == 0 && |selection| > 0
                  then (selection[|selection| - 2], selection[|selection| - 1]) else (0, 0);
      (Min(pair.0, pair.1), Max(pair.0, pair.1))
    }

    /** `hasSelection`: a selection of zero width counts as none. */
    predicate HasSelection()
      reads this`selection
      ensures HasSelection() <==>
                |selection| > 0 && |selection| % 2 == 0 && selection[|selection| - 2] != selection[|selection| - 1]
    {
      GetSelection().0 < GetSelection().1
    }

    /**
     * `endSelection`. Returns what `selectionChanged` emits; `None` where the
     * source raises instead (popping an empty list, or unpacking a single
     * endpoint into two) and leaves the list as shown.
     */
    method EndSelection(v: int, update: bool) returns (emitted: Option<(int, int)>)
      modifies this`selection
      ensures old(selection) == [] ==> emitted == None && selection == if update then [] else [v]
      ensures old(selection) != [] ==>
                var kept := if update && |old(selection)| % 2 == 0
                            then old(selection)[..|old(selection)| - 1] else old(selection);
                && selection == (if kept[|kept| - 1] == v then [] else kept + [v])
                && emitted == Some(GetSelection())
      ensures update && old(selection) != [] && |old(selection)| % 2 == 0 ==>
                selection == [] || selection == old(selection)[..|old(selection)| - 1] + [v]
    {
      if update && |selection| % 2 == 0 {
        if selection == [] {
          return None;
        }
        selection := selection[..|selection| - 1];
      }
      selection := selection + [v];
      if |selection| < 2 {
        return None;
      }
      var a, b := selection[|selection| - 2], selection[|selection| - 1];
      if a == b {
        ClearSelection();
      }
      emitted := Some(GetSelection());
    }

    /** `setSelection`: start at `a`, then move the far end to `b`. */
    method SetSelection(a: int, b: int) returns (emitted: (int, int))
      modifies this`selection
      ensures |old(selection)| % 2 == 0 ==> selection == if a == b then [] else old(selection) + [a, b]
      ensures |old(selection)| % 2 == 1 ==>
                selection == if old(selection)[|old(selection)| - 1] == b then [] else old(selection) + [b]
      ensures |old(selection)| % 2 == 0 && a != b ==> GetSelection() == (Min(a, b), Max(a, b)) && HasSelection()
      ensures |old(selection)| % 2 == 0 && a == b ==> GetSelection() == (0, 0) && !HasSelection()
      ensures emitted == GetSelection()
    {
      StartSelection(a);
      var e := EndSelection(b, true);
      emitted := e.value;
    }

    // ---------------------------------------------------------------- marks

    method ClearMarks()
      modifies this`marks, this`markItems, this`markLabels
      ensures Valid() && MarksInRange() && ItemsCurrent()
      ensures marks == {} && markItems == map[] && markLabels == map[]
    {
      marks, markItems, markLabels := {}, map[], map[];
    }

    /** `addMark`: a mark outside `[valMin, valMax]` is dropped; otherwise it is inserted and drawn. */
    method AddMark(m: Mark)
      requires Valid()
      modifies this`marks, this`markItems, this`markLabels
      ensures Valid()
      ensures m.val > valMax || m.val < valMin ==>
                marks == old(marks) && markItems == old(markItems) && markLabels == old(markLabels)
      ensures valMin <= m.val <= valMax ==>
                && marks == old(marks) + {m}
                && markItems == old(markItems)[m := ItemFor(m)]
                && markLabels == if m.kind == "tick" then old(markLabels)[m := m.val + 1] else old(markLabels)
      ensures old(MarksInRange()) ==> MarksInRange()
      ensures old(ItemsCurrent()) ==> ItemsCurrent()
    {
      if m.val > valMax {
        return;
      }
      if m.val < valMin {
        return;
      }
      marks := marks + {m};
      markItems := markItems[m := ItemFor(m)];
      if m.kind == "tick" {
        markLabels := markLabels[m := m.val + 1];
      }
    }

    /** `removeMark`: the mark leaves the set and both side tables; nothing else changes. */
    method RemoveMark(m: Mark)
      requires Valid()
      modifies this`marks, this`markItems, this`markLabels
      ensures Valid()
      ensures marks == old(marks) - {m}
      ensures markItems == old(markItems) - {m} && markLabels == old(markLabels) - {m}
      ensures m !in old(marks) ==>
                marks == old(marks) && markItems == old(markItems) && markLabels == old(markLabels)
      ensures old(MarksInRange()) ==> MarksInRange()
      ensures old(ItemsCurrent()) ==> ItemsCurrent()
    {
      if m in markLabels {
        markLabels := markLabels - {m};
      }
      if m in markItems {
        markItems := markItems - {m};
      }
      if m in marks {
        marks := marks - {m};
      }
    }

    /** `getMarks`: all marks, or those of one kind when a kind is given. */
    function GetMarks(kind: string): (ms: set<Mark>)
      reads this`marks
      ensures ms <= marks
      ensures forall m :: m in marks ==> (m in ms <==> kind == "" || m.kind == kind)
    {
      if kind != "" then set m | m in marks && m.kind == kind else marks
    }

    /** The `addMark(mark, update=False)` loop of `setMarks` and `_add_tick_marks`. */
    method AddMarks(ms: seq<Mark>)
      requires Valid()
      modifies this`marks, this`markItems, this`markLabels
      ensures Valid() && (old(MarksInRange()) ==> MarksInRange()) && (old(ItemsCurrent()) ==> ItemsCurrent())
      ensures marks == old(marks) + Kept(ms, valMin, valMax)
      ensures Extends(markItems, markLabels, old(markItems), old(markLabels), Kept(ms, valMin, valMax), headerHeight, boxHeight)
    {
      ghost var inRange, current := MarksInRange(), ItemsCurrent();
      ghost var marks0, items0, labels0 := marks, markItems, markLabels;
      ghost var added: set<Mark> := {};
      var i := 0;
      while i < |ms|
        invariant 0 <= i <= |ms|
        invariant Valid() && (inRange ==> MarksInRange()) && (current ==> ItemsCurrent())
        invariant added == Kept(ms[..i], valMin, valMax) && marks == marks0 + added
        invariant Extends(markItems, markLabels, items0, labels0, added, headerHeight, boxHeight)
      {
        ghost var prev := marks;
        ghost var next := AddDrawn(ms[i], items0, labels0, added);
        KeptUnionStep(ms, i, valMin, valMax, marks0, added, prev, marks);
        added := next;
        i := i + 1;
      }
      assert ms[..i] == ms;
    }

    /** `addMark` on `x`, which grows the side tables drawn so far by `x` when it is kept. */
    method AddDrawn(x: Mark, ghost items0: map<Mark, MarkItem>, ghost labels0: map<Mark, int>,
                    ghost added: set<Mark>) returns (ghost next: set<Mark>)
      requires Valid() && Extends(markItems, markLabels, items0, labels0, added, headerHeight, boxHeight)
      modifies this`marks, this`markItems, this`markLabels
      ensures Valid() && (old(MarksInRange()) ==> MarksInRange()) && (old(ItemsCurrent()) ==> ItemsCurrent())
      ensures valMin <= x.val <= valMax ==> marks == old(marks) + {x} && next == added + {x}
      ensures !(valMin <= x.val <= valMax) ==> marks == old(marks) && next == added
      ensures Extends(markItems, markLabels, items0, labels0, next, headerHeight, boxHeight)
    {
      ghost var items, labels := markItems, markLabels;
      AddMark(x);
      assert Extends(items, labels, items0, labels0, added, headerHeight, boxHeight);
      if valMin <= x.val <= valMax {
        assert x.DisplayColor() == old(x.DisplayColor());
        ExtendsStep(items, labels, items0, labels0, added, x, headerHeight, boxHeight);
        next := added + {x};
      } else {
        next := added;
      }
    }

    /**
     * `_add_tick_marks`: fresh tick marks at the positions `TickPositions`
     * gives, remembered in `tickMarks` and added to the mark set.
     */
    method AddTickMarks(visibleRange: int)
      requires Valid()
      modifies this`tickMarks, this`marks, this`markItems, this`markLabels
      ensures Valid() && (old(MarksInRange()) ==> MarksInRange()) && (old(ItemsCurrent()) ==> ItemsCurrent())
      ensures IsTickRun(tickMarks, valMin, valMax, visibleRange)
      ensures forall i :: 0 <= i < |tickMarks| ==> fresh(tickMarks[i])
      ensures marks == old(marks) + TickSet()
      ensures Extends(markItems, markLabels, old(markItems), old(markLabels), TickSet(), headerHeight, boxHeight)
    {
      var ticks := NewTickRun(valMin, valMax, visibleRange);
      tickMarks := ticks;
      AddMarks(ticks);
    }

    /** `_clear_tick_marks`: every mark of the last tick generation leaves the slider. */
    method ClearTickMarks()
      requires Valid()
      modifies this`marks, this`markItems, this`markLabels
      ensures Valid() && (old(MarksInRange()) ==> MarksInRange()) && (old(ItemsCurrent()) ==> ItemsCurrent())
      ensures marks == old(marks) - TickSet()
      ensures markItems == old(markItems) - TickSet() && markLabels == old(markLabels) - TickSet()
    {
      ghost var inRange, current := MarksInRange(), ItemsCurrent();
      ghost var items0, labels0 := markItems, markLabels;
      var i := 0;
      while i < |tickMarks|
        invariant 0 <= i <= |tickMarks|
        invariant Valid() && (inRange ==> MarksInRange()) && (current ==> ItemsCurrent())
        invariant marks == old(marks) - Elems(tickMarks[..i])
        invariant markItems == items0 - Elems(tickMarks[..i]) && markLabels == labels0 - Elems(tickMarks[..i])
      {
        RemoveMark(tickMarks[i]);
        PrefixSetStep(tickMarks, i);
        RemoveStep(items0, tickMarks, i);
        RemoveStep(labels0, tickMarks, i);
        i := i + 1;
      }
      assert tickMarks[..i] == tickMarks;
    }

    /** `setTickMarks`: replace the tick marks by a fresh generation for the visible range. */
    method SetTickMarks(visibleRange: int)
      requires Valid()
      modifies this`tickMarks, this`marks, this`markItems, this`markLabels
      ensures Valid() && (old(MarksInRange()) ==> MarksInRange()) && (old(ItemsCurrent()) ==> ItemsCurrent())
      ensures IsTickRun(tickMarks, valMin, valMax, visibleRange)
      ensures forall i :: 0 <= i < |tickMarks| ==> fresh(tickMarks[i])
      ensures marks == (old(marks) - old(TickSet())) + TickSet()
      ensures Extends(markItems, markLabels, old(markItems) - old(TickSet()), old(markLabels) - old(TickSet()),
                      TickSet(), headerHeight, boxHeight)
    {
      ClearTickMarks();
      AddTickMarks(visibleRange);
    }

    /** `setMarks`: clear, add fresh ticks, then add every given mark that lies in range. */
    method SetMarks(newMarks: seq<Mark>, visibleRange: int)
      modifies this`tickMarks, this`marks, this`markItems, this`markLabels
      ensures Valid() && MarksInRange() && ItemsCurrent()
      ensures marks == TickSet() + Kept(newMarks, valMin, valMax)
      ensures IsTickRun(tickMarks, valMin, valMax, visibleRange)
      ensures forall i :: 0 <= i < |tickMarks| ==> fresh(tickMarks[i])
      ensures Extends(markItems, markLabels, map[], map[], marks, headerHeight, boxHeight)
    {
      ClearMarks();
      AddTickMarks(visibleRange);
      ghost var ticks, items1, labels1 := TickSet(), markItems, markLabels;
      assert marks == ticks;
      AddMarks(newMarks);
      assert TickSet() == ticks;
      ExtendsTrans(markItems, markLabels, items1, labels1, map[], map[],
                   ticks, Kept(newMarks, valMin, valMax), headerHeight, boxHeight);
    }

    // ---------------------------------------------------------------- tracks and height

    /** `setTracks` (the redraw it triggers is not modelled). */
    method SetTracks(rows: int)
      modifies this`trackRows
      ensures trackRows == rows
    {
      trackRows := rows;
    }

    /** `setHeaderSeries`: the header grows by the graph's height (the series itself is not modelled). */
    method SetHeaderSeries()
      modifies this`headerHeight
      ensures headerHeight == HeaderLabelHeight + HeaderGraphHeight
    {
      headerHeight := HeaderLabelHeight + HeaderGraphHeight;
    }

    /** `clearHeader`: back to the label header only. */
    method ClearHeader()
      modifies this`headerHeight
      ensures headerHeight == HeaderLabelHeight
    {
      headerHeight := HeaderLabelHeight;
    }

    /**
     * `getMinMaxHeights`: never below the minimum height; the maximum leaves
     * room for up to 120 stacked lanes, the minimum for up to 20.
     */
    function GetMinMaxHeights(): (hs: (int, int))
      reads this`trackRows, this`headerHeight
      ensures MinHeight <= hs.0 <= hs.1
      ensures trackRows == 0 ==> hs == (MinHeight, MinHeight)
      ensures trackRows != 0 ==>
                && hs.0 == Max(MinHeight, 8 + headerHeight + TrackHeight * Min(trackRows, 20))
                && hs.1 == Max(MinHeight, 8 + headerHeight + TrackHeight * Min(trackRows, MaxTracksStacked))
    {
      if trackRows == 0 then (MinHeight, MinHeight)
      else
        var extraHeight := 8 + headerHeight;
        var minHeight := extraHeight + TrackHeight * Min(trackRows, 20);
        var maxHeight := extraHeight + TrackHeight * Min(trackRows, MaxTracksStacked);
        (Max(MinHeight, minHeight), Max(MinHeight, maxHeight))
    }

    /** The maximum height has room for the lane of every track row, in whatever column it lands. */
    lemma TracksFitMaxHeight(r: int)
      requires 0 <= r < trackRows
      ensures var cr := GetTrackColRow(r);
              GetTrackVerticalPos(cr.0, cr.1) + TrackHeight <= GetMinMaxHeights().1 - 8 - headerHeight
    {
      TrackRowsStack(r, r + 1);
    }

    // ---------------------------------------------------------------- contiguous marks

    /** `val in [mark.val for mark in self._marks]`. */
    predicate HasMarkAt(x: int)
      reads this`marks
    {
      exists m :: m in marks && m.val == x
    }

    /** `isMarkedVal`: a mark starts at `x`, or `x` lies in `[val, end_val)` of a track mark. */
    function IsMarkedVal(x: int): (b: bool)
      reads this`marks
      ensures b <==> exists m :: m in marks && (m.val == x || (m.kind == "track" && m.val <= x < m.endVal))
    {
      HasMarkAt(x) || exists m :: m in marks && m.kind == "track" && m.val <= x < m.endVal
    }

    /**
     * `decrementContiguousMarkedVal`: the lowest start of a track mark that
     * reaches `v`, else `v - 1` if a mark starts there, else `v`. Everything
     * skipped over is marked.
     */
    function DecrementContiguousMarkedVal(v: int): (r: int)
      reads this`marks
      ensures r <= v
      ensures r == v || HasMarkAt(r)
      ensures forall x :: r <= x < v ==> IsMarkedVal(x)
      ensures forall m :: m in marks && m.kind == "track" && m.val < v <= m.endVal ==> r <= m.val
      ensures r == v <==> !HasMarkAt(v - 1) && forall m :: m in marks && m.kind == "track" ==> !(m.val < v <= m.endVal)
    {
      var starts := set m | m in marks && m.kind == "track" && m.val < v <= m.endVal :: m.val;
      var dec := if exists x :: x in starts then MinOf(starts) else v;
      assert forall m :: m in marks && m.kind == "track" && m.val < v <= m.endVal ==> m.val in starts;
      if dec < v then dec
      else if HasMarkAt(v - 1) then v - 1
      else v
    }

    /**
     * `incrementContiguousMarkedVal`: the highest last frame of a track mark
     * covering `v`, else `v + 1` if a mark starts there, else `v`.
     */
    function IncrementContiguousMarkedVal(v: int): (r: int)
      reads this`marks
      ensures r >= v
      ensures forall x :: v < x <= r ==> IsMarkedVal(x)
      ensures forall m :: m in marks && m.kind == "track" && m.val <= v < m.endVal ==> r >= m.endVal - 1
      ensures r == v <==> !HasMarkAt(v + 1) && forall m :: m in marks && m.kind == "track" && m.val <= v < m.endVal ==> m.endVal - 1 <= v
    {
      var ends := set m | m in marks && m.kind == "track" && m.val <= v < m.endVal :: m.endVal - 1;
      var inc := if exists x :: x in ends then MaxOf(ends) else v;
      assert forall m :: m in marks && m.kind == "track" && m.val <= v < m.endVal ==> m.endVal - 1 in ends;
      if inc > v then inc
      else if HasMarkAt(v + 1) then v + 1
      else v
    }

    /**
     * The value `getStartContiguousMark` returns: repeat the decrement while
     * it moves and stays above `valMin`, and return the value that stopped it.
     */
    ghost function WalkDown(last: int): (r: int)
      reads this`marks, this`valMin
      ensures r <= last
      ensures forall x :: r <= x < last ==> IsMarkedVal(x)
      ensures r <= valMin || DecrementContiguousMarkedVal(r) == r
      decreases last - valMin
    {
      var dec := DecrementContiguousMarkedVal(last);
      if dec < last && dec > valMin then WalkDown(dec) else dec
    }

    /** The mirror of `WalkDown`, for `getEndContiguousMark` and `valMax`. */
    ghost function WalkUp(last: int): (r: int)
      reads this`marks, this`valMax
      ensures r >= last
      ensures forall x :: last < x <= r ==> IsMarkedVal(x)
      ensures r >= valMax || IncrementContiguousMarkedVal(r) == r
      decreases valMax - last
    {
      var inc := IncrementContiguousMarkedVal(last);
      if inc > last && inc < valMax then WalkUp(inc) else inc
    }

    /**
     * `getStartContiguousMark`: walks down until the walk stops moving or
     * reaches `valMin`. Everything from the result up to `v` is marked, and
     * with all marks in range the result does not pass below `valMin`.
     */
    method GetStartContiguousMark(v: int) returns (r: int)
      ensures r == WalkDown(v)
      ensures r <= v
      ensures forall x :: r <= x < v ==> IsMarkedVal(x)
      ensures r <= valMin || DecrementContiguousMarkedVal(r) == r
      ensures MarksInRange() && v >= valMin ==> r >= valMin
    {
      var last := v;
      var dec := DecrementContiguousMarkedVal(last);
      while dec < last && dec > valMin
        invariant dec <= last <= v
        invariant dec == DecrementContiguousMarkedVal(last)
        invariant WalkDown(last) == WalkDown(v)
        invariant forall x :: dec <= x < v ==> IsMarkedVal(x)
        invariant MarksInRange() && v >= valMin ==> last >= valMin && dec >= valMin
        decreases last - valMin
      {
        last := dec;
        dec := DecrementContiguousMarkedVal(last);
      }
      r := dec;
    }

    /**
     * `getEndContiguousMark`: walks up until the walk stops moving or reaches
     * `valMax`. Everything from `v` up to the result is marked.
     */
    method GetEndContiguousMark(v: int) returns (r: int)
      ensures r == WalkUp(v)
      ensures r >= v
      ensures forall x :: v < x <= r ==> IsMarkedVal(x)
      ensures r >= valMax || IncrementContiguousMarkedVal(r) == r
    {
      var last := v;
      var inc := IncrementContiguousMarkedVal(last);
      while inc > last && inc < valMax
        invariant inc >= last >= v
        invariant inc == IncrementContiguousMarkedVal(last)
        invariant WalkUp(last) == WalkUp(v)
        invariant forall x :: v < x <= inc ==> IsMarkedVal(x)
        decreases valMax - last
      {
        last := inc;
        inc := IncrementContiguousMarkedVal(last);
      }
      r := inc;
    }

    /**
     * `[lo, hi]` is the marked run the two walks find around `v`: the walks'
     * results, every value in between marked, each end a fixed point of its
     * step or at the bound, and with all marks in range `lo` not below `valMin`.
     */
    ghost predicate RunAround(v: int, lo: int, hi: int)
      reads this`marks, this`valMin, this`valMax
    {
      && lo == WalkDown(v) && hi == WalkUp(v)
      && lo <= v <= hi
      && (forall x :: lo <= x <= hi ==> IsMarkedVal(x))
      && (lo <= valMin || DecrementContiguousMarkedVal(lo) == lo)
      && (hi >= valMax || IncrementContiguousMarkedVal(hi) == hi)
      && (MarksInRange() ==> lo >= valMin)
    }

    /**
     * `contiguousSelectionMarksAroundVal`: for a marked value, select the
     * marked run around it; otherwise do nothing. `lo` and `hi` are the run's
     * ends, which the source passes to `setSelection`.
     */
    method ContiguousSelectionMarksAroundVal(v: int) returns (emitted: Option<(int, int)>, ghost lo: int, ghost hi: int)
      modifies this`selection
      ensures !IsMarkedVal(v) ==> selection == old(selection) && emitted == None
      ensures IsMarkedVal(v) ==>
                && RunAround(v, lo, hi)
                && emitted == Some(GetSelection())
                && (|old(selection)| % 2 == 0 ==> selection == if lo == hi then [] else old(selection) + [lo, hi])
                && (|old(selection)| % 2 == 1 ==>
                      selection == if old(selection)[|old(selection)| - 1] == hi then [] else old(selection) + [hi])
                && (|old(selection)| % 2 == 0 ==> GetSelection() == if lo < hi then (lo, hi) else (0, 0))
    {
      lo, hi := v, v;
      if !IsMarkedVal(v) {
        return None, lo, hi;
      }
      var decVal, incVal := MarkedRunAround(v);
      lo, hi := decVal, incVal;
      var e := SetSelection(decVal, incVal);
      assert IsMarkedVal(v) && RunAround(v, lo, hi);
      emitted := Some(e);
    }

    /** The two walks of `contiguousSelectionMarksAroundVal` from a marked value. */
    method MarkedRunAround(v: int) returns (lo: int, hi: int)
      requires IsMarkedVal(v)
      ensures RunAround(v, lo, hi)
    {
      lo := GetStartContiguousMark(v);
      hi := GetEndContiguousMark(v);
    }

    // ---------------------------------------------------------------- handle

    ghost function MarkVals(): set<int>
      reads this`marks
    {
      set m | m in marks :: m.val
    }

    /** A scan of every mark that kept the best in-handle value so far yields the snap target. */
    lemma SnapFromScan(best: int, found: bool, val: int, handleLeft: int, handleRight: int)
      requires !found ==> best == val && forall m :: m in marks ==> !(handleLeft < m.val < handleRight)
      requires found ==> best in InHandle(MarkVals(), handleLeft, handleRight)
      requires found ==> forall m :: m in marks && handleLeft < m.val < handleRight ==> SnapsBefore(best, m.val, val)
      ensures IsSnapOf(best, val, MarkVals(), handleLeft, handleRight)
    {
      var inside := InHandle(MarkVals(), handleLeft, handleRight);
      if found {
        forall y | y in inside
          ensures SnapsBefore(best, y, val)
        {
          var m :| m in marks && m.val == y;
        }
      }
    }

    /**
     * The integer part of `moveHandle`: `val` is the value under the handle,
     * `handleLeft`/`handleRight` the values at its edges. The handle snaps to
     * the nearest mark strictly inside it (the lower on a tie); the result
     * says whether `valueChanged` is emitted.
     */
    method MoveHandle(val: int, handleLeft: int, handleRight: int) returns (changed: bool)
      modifies this`valMain
      ensures IsSnapOf(valMain, val, MarkVals(), handleLeft, handleRight)
      ensures changed <==> valMain != old(valMain)
    {
      var best, found := val, false;
      var rest := marks;
      while exists m :: m in rest
        invariant rest <= marks
        invariant !found ==> best == val && forall m :: m in marks - rest ==> !(handleLeft < m.val < handleRight)
        invariant found ==> best in InHandle(MarkVals(), handleLeft, handleRight)
        invariant found ==> forall m :: m in marks - rest && handleLeft < m.val < handleRight ==> SnapsBefore(best, m.val, val)
        decreases rest
      {
        var m :| m in rest;
        rest := rest - {m};
        if handleLeft < m.val < handleRight && (!found || SnapsBefore(m.val, best, val)) {
          best, found := m.val, true;
        }
      }
      SnapFromScan(best, found, val, handleLeft, handleRight);
      var previous := valMain;
      SetValue(best);
      changed := previous != best;
    }
  }
}
