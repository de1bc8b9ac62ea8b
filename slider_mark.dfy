/**
 * `SliderMark` (sleap/gui/slider.py): one annotation on the timeline.
 *
 * The source declares the record with `cmp=False`, so two marks are equal
 * only when they are the same object; a Dafny class has exactly that
 * reference identity. The kind stays a string, as in the source, because
 * `visual_width` tests it by substring containment.
 */
module SliderMarks {

  /** A colour: a Qt colour name or an (r, g, b) triple. */
  datatype Color = Named(name: string) | Rgb(red: int, green: int, blue: int)

  /** The fixed colour of every kind except "track". */
  const KindColors: map<string, Color> := map[
    "simple" := Named("black"),
    "filled" := Named("blue"),
    "open" := Named("blue"),
    "predicted" := Named("yellow"),
    "tick" := Named("lightGray"),
    "tick_column" := Named("gray")
  ]

  /** Python's `s in t` on two strings. */
  predicate IsSubstring(s: string, t: string) {
    exists i, j :: 0 <= i <= j <= |t| && t[i..j] == s
  }

  /** A string holding a character that `t` lacks is not a substring of `t`. */
  lemma NotSubstring(s: string, t: string, k: nat)
    requires k < |s| && s[k] !in t
    ensures !IsSubstring(s, t)
  {
    forall i, j | 0 <= i <= j <= |t| && j - i == |s|
      ensures t[i..j] != s
    {
      assert t[i..j][k] == t[i + k];
    }
  }

  class Mark {
    const kind: string
    /** Start of the mark (`val`). */
    const val: int
    /** Exclusive end of a "track" mark (`end_val`). */
    const endVal: int
    /** Track lane of a "track" mark (`row`). */
    const row: int
    /** The colour given at creation or through the setter (`_color`). */
    var storedColor: Color

    constructor (kind: string, val: int, endVal: int, row: int, color: Color)
      ensures this.kind == kind && this.val == val && this.endVal == endVal && this.row == row
      ensures storedColor == color
    {
      this.kind := kind;
      this.val := val;
      this.endVal := endVal;
      this.row := row;
      storedColor := color;
    }

    /** The `color` property: the kind's fixed colour, else the stored one. */
    function DisplayColor(): Color
      reads this
    {
      if kind in KindColors then KindColors[kind] else storedColor
    }

    /** The `color` setter. */
    method SetColor(c: Color)
      modifies this
      ensures storedColor == c
    {
      storedColor := c;
    }

    predicate Filled() {
      kind != "open"
    }

    function TopPad(): int {
      if kind == "tick_column" then 40 else if kind == "tick" then 0 else 2
    }

    function BottomPad(): int {
      if kind == "tick_column" then 200 else if kind == "tick" then 0 else 2
    }

    /** `visual_width`, with its second test read as substring containment, as Python does. */
    function VisualWidth(): int {
      if kind in ["open", "filled", "tick"] then 2
      else if IsSubstring(kind, "tick_column") then 1
      else 0
    }

    /** `get_height`: a track bar is 2 high; other marks fill the container less their pads. */
    function GetHeight(containerHeight: int): (h: int)
      ensures kind != "track" ==> TopPad() + h + BottomPad() == containerHeight
      ensures kind == "track" ==> h == 2
    {
      if kind == "track" then 2 else containerHeight - (TopPad() + BottomPad())
    }
  }

  /**
   * `cmp=False`: two marks built from the same fields are still two marks,
   * and a set holds both.
   */
  method NewTwinMarks(kind: string, val: int, endVal: int, row: int, color: Color) returns (a: Mark, b: Mark)
    ensures a.kind == b.kind == kind && a.val == b.val == val && a.endVal == b.endVal == endVal
    ensures a.row == b.row == row && a.storedColor == b.storedColor == color
    ensures a != b && |{a, b}| == 2
  {
    a := new Mark(kind, val, endVal, row, color);
    b := new Mark(kind, val, endVal, row, color);
  }

  /** The per-kind attribute table of `SliderMark`. */
  lemma KindAttributes(m: Mark, containerHeight: int)
    ensures m.Filled() <==> m.kind != "open"
    ensures m.kind == "tick_column" ==> (m.TopPad(), m.BottomPad()) == (40, 200)
    ensures m.kind == "tick" ==> (m.TopPad(), m.BottomPad()) == (0, 0)
    ensures m.kind != "tick_column" && m.kind != "tick" ==> (m.TopPad(), m.BottomPad()) == (2, 2)
    ensures m.kind == "tick_column" ==> m.GetHeight(containerHeight) == containerHeight - 240
    ensures m.kind == "tick" ==> m.GetHeight(containerHeight) == containerHeight
    ensures m.kind == "track" ==> m.GetHeight(containerHeight) == 2
  {
  }

  /** Only a "track" mark shows the stored colour; every other kind ignores it. */
  lemma ColorSource(m: Mark)
    ensures m.kind == "track" ==> m.DisplayColor() == m.storedColor
    ensures m.kind in ["simple", "filled", "open", "predicted", "tick", "tick_column"] ==>
              m.DisplayColor() == KindColors[m.kind]
  {
  }

  /**
   * On the seven kinds the source creates, the substring test agrees with
   * membership in `("tick_column",)`: only "tick_column" is one pixel wide.
   */
  lemma VisualWidthOfKinds(m: Mark)
    ensures m.kind in ["open", "filled", "tick"] ==> m.VisualWidth() == 2
    ensures m.kind == "tick_column" ==> m.VisualWidth() == 1
    ensures m.kind in ["simple", "predicted", "track"] ==> m.VisualWidth() == 0
  {
    if m.kind == "tick_column" {
      assert "tick_column"[0..11] == m.kind;
    } else if m.kind == "simple" {
      NotSubstring(m.kind, "tick_column", 0);
    } else if m.kind == "predicted" {
      NotSubstring(m.kind, "tick_column", 0);
    } else if m.kind == "track" {
      NotSubstring(m.kind, "tick_column", 1);
    }
  }

  /** The substring reading also makes some other kinds one pixel wide, "column" among them. */
  lemma VisualWidthSubstring(m: Mark)
    requires m.kind == "column"
    ensures m.VisualWidth() == 1
  {
    assert "tick_column"[5..11] == m.kind;
  }
}
