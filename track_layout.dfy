/**
 * The integer layout rules of the timeline slider (sleap/gui/slider.py):
 * packing of track rows into stacked columns, their vertical offsets, the
 * power-of-ten tick step and the tick positions.
 */
module TrackLayout {
  import opened IntArith

  /** Height in pixels of one track lane (`_track_height`). */
  const TrackHeight := 5
  /** Rows stacked in the first column before wrapping (`_max_tracks_stacked`). */
  const MaxTracksStacked := 120
  /** Row slots reserved at the top of every later column (`_track_stack_skip_count`). */
  const TrackStackSkipCount := 10
  /** Rows in each column after the first. */
  const RowsPerLaterCol := MaxTracksStacked - TrackStackSkipCount

  /** `getTrackColRow`: the (column, row-within-column) of a raw track row. */
  function GetTrackColRow(rawRow: int): (cr: (int, int))
    ensures rawRow < MaxTracksStacked ==> cr == (0, rawRow)
    ensures rawRow >= MaxTracksStacked ==>
              && cr.0 >= 1 && 0 <= cr.1 < RowsPerLaterCol
              && MaxTracksStacked + (cr.0 - 1) * RowsPerLaterCol + cr.1 == rawRow
  {
    if rawRow < MaxTracksStacked then (0, rawRow)
    else
      var rowsAfterFirstCol := rawRow - MaxTracksStacked;
      (rowsAfterFirstCol / RowsPerLaterCol + 1, rowsAfterFirstCol % RowsPerLaterCol)
  }

  /** The raw row that sits at a given column and row-within-column. */
  function RawRowOf(col: nat, row: int): int {
    if col == 0 then row else MaxTracksStacked + (col - 1) * RowsPerLaterCol + row
  }

  /** A (column, row) pair that the layout can produce. */
  predicate IsSlot(col: nat, row: int) {
    if col == 0 then row < MaxTracksStacked else 0 <= row < RowsPerLaterCol
  }

  /** The layout is a bijection between raw rows and slots: both round trips hold. */
  lemma {:induction false} ColRowRoundTrip(rawRow: int, col: nat, row: int)
    ensures GetTrackColRow(rawRow).0 >= 0 && IsSlot(GetTrackColRow(rawRow).0, GetTrackColRow(rawRow).1)
    ensures RawRowOf(GetTrackColRow(rawRow).0, GetTrackColRow(rawRow).1) == rawRow
    ensures IsSlot(col, row) ==> GetTrackColRow(RawRowOf(col, row)) == (col, row)
  {
    if IsSlot(col, row) && col > 0 {
      DivModUnique(RawRowOf(col, row) - MaxTracksStacked, RowsPerLaterCol, col - 1, row);
    }
  }

  /** `getTrackVerticalPos`: pixel offset of a slot below the top of the track area. */
  function GetTrackVerticalPos(col: int, row: int): (y: int)
    ensures col == 0 ==> y == row * TrackHeight
    ensures col != 0 ==> y == (TrackStackSkipCount + row) * TrackHeight
  {
    if col == 0 then row * TrackHeight
    else TrackHeight * TrackStackSkipCount + TrackHeight * row
  }

  /**
   * Every non-negative raw row lands inside the height of one full column,
   * later columns start below the reserved slots, and two rows of the same
   * column never overlap.
   */
  lemma TrackRowsStack(r1: int, r2: int)
    requires 0 <= r1 < r2
    ensures var cr := GetTrackColRow(r1);
            0 <= GetTrackVerticalPos(cr.0, cr.1)
            && GetTrackVerticalPos(cr.0, cr.1) + TrackHeight <= MaxTracksStacked * TrackHeight
            && (cr.0 >= 1 ==> GetTrackVerticalPos(cr.0, cr.1) >= TrackStackSkipCount * TrackHeight)
    ensures var c1, c2 := GetTrackColRow(r1), GetTrackColRow(r2);
            c1.0 == c2.0 ==> GetTrackVerticalPos(c2.0, c2.1) >= GetTrackVerticalPos(c1.0, c1.1) + TrackHeight
  {
    var c1, c2 := GetTrackColRow(r1), GetTrackColRow(r2);
    if c1.0 == c2.0 && c1.0 >= 1 {
      assert c2.1 - c1.1 == r2 - r1;
    }
  }

  /** `isNewColTrack`: the raw row opens a column. */
  predicate IsNewColTrack(row: int) {
    GetTrackColRow(row).1 == 0
  }

  /** Exactly the first row of each column is a new-column row. */
  lemma {:induction false} NewColTrackIff(row: int)
    ensures IsNewColTrack(row) <==>
              if row < MaxTracksStacked then row == 0
              else (row - MaxTracksStacked) % RowsPerLaterCol == 0
    ensures row >= 0 ==> (IsNewColTrack(row) <==> exists col: nat :: RawRowOf(col, 0) == row)
  {
    if row >= 0 && IsNewColTrack(row) {
      var cr := GetTrackColRow(row);
      ColRowRoundTrip(row, 0, 0);
      assert cr.0 >= 0 && RawRowOf(cr.0, 0) == row;
    }
    if row >= 0 && exists col: nat :: RawRowOf(col, 0) == row {
      var col: nat :| RawRowOf(col, 0) == row;
      ColRowRoundTrip(row, col, 0);
    }
  }

  /** 10 to the power `k`. */
  function Pow10(k: nat): (p: int)
    ensures p >= 1
  {
    if k == 0 then 1 else 10 * Pow10(k - 1)
  }

  /** The widest value range that still gets the finest step (`val_range // val_order > 24`). */
  const MaxTicks := 24

  /**
   * The exponent of the tick step of `_add_tick_marks`: the least `k >= 1`
   * such that `range // 10^k <= 24`, searching upward from `from`.
   */
  function TickExponentFrom(range: int, from: nat): (k: nat)
    requires from >= 1
    requires forall j :: 1 <= j < from ==> range / Pow10(j) > MaxTicks
    ensures k >= from
    ensures range / Pow10(k) <= MaxTicks
    ensures forall j :: 1 <= j < k ==> range / Pow10(j) > MaxTicks
    decreases range - Pow10(from)
  {
    if range / Pow10(from) > MaxTicks then
      MulAtLeast(range / Pow10(from), Pow10(from));
      TickExponentFrom(range, from + 1)
    else from
  }

  /** The exponent of the tick step for a visible value range. */
  function TickStepExponent(range: int): (k: nat)
    ensures k >= 1 && range / Pow10(k) <= MaxTicks
    ensures forall j :: 1 <= j < k ==> range / Pow10(j) > MaxTicks
  {
    TickExponentFrom(range, 1)
  }

  /** Two exponents that are both least with the tick-step property are equal. */
  lemma TickExponentUnique(range: int, k: nat)
    requires k >= 1 && range / Pow10(k) <= MaxTicks
    requires forall j :: 1 <= j < k ==> range / Pow10(j) > MaxTicks
    ensures k == TickStepExponent(range)
  {
  }

  /** Python's `range(start, stop, step)` for a positive step. */
  function TickPositions(start: int, stop: int, step: int): (ps: seq<int>)
    requires step > 0
    ensures forall i :: 0 <= i < |ps| ==> ps[i] == start + i * step && ps[i] < stop
    ensures start + |ps| * step >= stop
    decreases stop - start
  {
    if start >= stop then [] else [start] + TickPositions(start + step, stop, step)
  }
}
