/** The pinned editor's screen layout in region pixels: the closed hit
    rectangle, the panel height, the per-row value and stepper rectangles the
    draw callback records, the footer buttons, hover hit-testing and the text a
    value box shows. Colours, fonts and text measurement are not modelled. */
module Layout {
  import opened Wrappers
  import opened Text
  import opened Params

  datatype Rect = Rect(x: int, y: int, w: int, h: int)

  /** `_UIRect.contains`: both edges are inside. */
  predicate Contains(r: Rect, mx: int, my: int) {
    r.x <= mx <= r.x + r.w && r.y <= my <= r.y + r.h
  }

  /** The edges are closed: a rectangle of non-negative size holds its
      corners, one pixel past an edge is outside, a rectangle of negative size
      holds nothing, and the test depends only on the offset from the origin. */
  lemma ContainsClosedEdges(r: Rect, mx: int, my: int)
    ensures r.w >= 0 && r.h >= 0 ==> Contains(r, r.x, r.y) && Contains(r, r.x + r.w, r.y + r.h)
    ensures !Contains(r, r.x - 1, my) && !Contains(r, r.x + r.w + 1, my)
    ensures !Contains(r, mx, r.y - 1) && !Contains(r, mx, r.y + r.h + 1)
    ensures Contains(r, mx, my) ==> r.w >= 0 && r.h >= 0
    ensures Contains(r, mx, my) <==> Contains(Rect(0, 0, r.w, r.h), mx - r.x, my - r.y)
  {
  }

  /** Every point of `inner` lies in `outer`. */
  ghost predicate Within(inner: Rect, outer: Rect) {
    forall mx, my :: Contains(inner, mx, my) ==> Contains(outer, mx, my)
  }

  /** No point lies in both. */
  ghost predicate Disjoint(a: Rect, b: Rect) {
    forall mx, my :: !(Contains(a, mx, my) && Contains(b, mx, my))
  }

  lemma WithinByCorners(inner: Rect, outer: Rect)
    requires inner.w >= 0 && inner.h >= 0
    requires outer.x <= inner.x && inner.x + inner.w <= outer.x + outer.w
    requires outer.y <= inner.y && inner.y + inner.h <= outer.y + outer.h
    ensures Within(inner, outer)
  {
  }

  lemma DisjointByRows(a: Rect, b: Rect)
    requires a.y + a.h < b.y || b.y + b.h < a.y
    ensures Disjoint(a, b)
  {
  }

  // ---------------------------------------------------------------------------
  // Constants of the pinned editor

  const Pad: int := 10
  const PanelW: int := 340
  const HeaderH: int := 26
  const SubH: int := 20
  const RowH: int := 26
  const FooterH: int := 40
  const LabelW: int := 115
  const BtnW: int := 16
  const Gap: int := 4
  const ValueW: int := 80
  const BtnH: int := 16
  const ValueH: int := 18

  /** The fields shown, in panel order: thickness only for a 3D star. */
  function PanelFields(is3D: bool): (fs: seq<Field>)
    ensures |fs| == if is3D then 5 else 4
    ensures forall i, j :: 0 <= i < j < |fs| ==> fs[i] != fs[j]
    ensures Spikes in fs && Outer in fs && Inner in fs && Scale in fs
    ensures Thick in fs <==> is3D
  {
    if is3D then [Spikes, Outer, Inner, Scale, Thick] else [Spikes, Outer, Inner, Scale]
  }

  /** `_compute_panel_height`: padding, header, subheader, rows and footer. */
  function PanelHeight(is3D: bool): (h: int)
    ensures h == Pad * 2 + HeaderH + SubH + |PanelFields(is3D)| * RowH + FooterH
    ensures h == if is3D then 236 else 210
  {
    if is3D then 236 else 210
  }

  /** One parameter row's hit rectangles. */
  datatype Row = Row(field: Field, value: Rect, left: Option<Rect>, right: Option<Rect>)

  /** What one draw records for the event handler to hit-test. */
  datatype Layout = Layout(panel: Rect, rows: seq<Row>, save: Option<Rect>, close: Option<Rect>)

  /** The rectangles `_draw_param_row` records for a row whose baseline is
      `y`; steppers only when the row is hovered or edited. */
  function RowAt(y: int, f: Field, showArrows: bool): (r: Row)
    ensures r.field == f
    ensures r.value == Rect(Pad + 12 + LabelW, y + Gap, BtnW + Gap + ValueW + Gap + BtnW, ValueH)
    ensures r.value.w == 120
    ensures r.left.Some? <==> showArrows
    ensures r.right.Some? <==> showArrows
  {
    var baseX := Pad + 12 + LabelW;
    var valueX := baseX + BtnW + Gap;
    var rightX := valueX + ValueW + Gap;
    Row(f,
        Rect(baseX, y + 4, BtnW + Gap + ValueW + Gap + BtnW, ValueH),
        if showArrows then Some(Rect(baseX, y + 4, BtnW, BtnH)) else None,
        if showArrows then Some(Rect(rightX, y + 4, BtnW, BtnH)) else None)
  }

  /** The baseline of the `i`-th row: rows go downwards from under the header. */
  function RowY(is3D: bool, i: int): int {
    Pad + PanelHeight(is3D) - 42 - SubH - RowH - i * RowH
  }

  /** The save and close buttons of the footer. */
  const SaveRect: Rect := Rect(Pad + 10, Pad + 8, (PanelW - 10 * 2 - 8) / 2, 20)
  const CloseRect: Rect := Rect(Pad + 10 + (PanelW - 10 * 2 - 8) / 2 + 8, Pad + 8, (PanelW - 10 * 2 - 8) / 2, 20)

  /** `_draw`'s bookkeeping: the panel rectangle always, then, only with a
      target star, one row per shown field and the two footer buttons. */
  function ComputeLayout(star: Option<Params>, hover: Option<Field>, editing: Option<Field>): (l: Layout)
    ensures l.panel == Rect(Pad, Pad, PanelW, PanelHeight(star.Some? && star.value.starType == Star3D))
    ensures star.None? ==> l.rows == [] && l.save.None? && l.close.None?
    ensures star.Some? ==> l.save == Some(SaveRect) && l.close == Some(CloseRect)
    ensures star.Some? ==>
      var fs := PanelFields(star.value.starType == Star3D);
      && |l.rows| == |fs|
      && forall i :: 0 <= i < |fs| ==> l.rows[i].field == fs[i]
    ensures forall i :: 0 <= i < |l.rows| ==>
      (l.rows[i].left.Some? <==> (hover == Some(l.rows[i].field) || editing == Some(l.rows[i].field)))
  {
    var is3D := star.Some? && star.value.starType == Star3D;
    var panel := Rect(Pad, Pad, PanelW, PanelHeight(is3D));
    if star.None? then Layout(panel, [], None, None)
    else
      Layout(panel, LayoutRows(is3D, hover, editing), Some(SaveRect), Some(CloseRect))
  }

  /** One row per shown field, each at its own baseline, with steppers on the
      hovered or edited row. */
  function LayoutRows(is3D: bool, hover: Option<Field>, editing: Option<Field>): (rows: seq<Row>)
    ensures |rows| == |PanelFields(is3D)|
    ensures forall i :: 0 <= i < |rows| ==>
      var f := PanelFields(is3D)[i];
      rows[i] == RowAt(RowY(is3D, i), f, hover == Some(f) || editing == Some(f))
  {
    var fs := PanelFields(is3D);
    seq(|fs|, i requires 0 <= i < |fs| =>
      RowAt(RowY(is3D, i), fs[i], hover == Some(fs[i]) || editing == Some(fs[i])))
  }

  /** Row `i` of a drawn panel sits at its baseline, 26 pixels under the row before. */
  lemma RowInPlace(star: Option<Params>, hover: Option<Field>, editing: Option<Field>, i: int)
    requires star.Some?
    requires 0 <= i < |ComputeLayout(star, hover, editing).rows|
    ensures var l := ComputeLayout(star, hover, editing);
      var is3D := star.value.starType == Star3D;
      var f := l.rows[i].field;
      l.rows[i] == RowAt(RowY(is3D, i), f, hover == Some(f) || editing == Some(f))
  {
  }

  /** The geometry the hit tests rely on: each row's steppers sit inside its
      value rectangle, every value rectangle sits inside the panel, value
      rectangles of different rows never overlap, and none overlaps a footer
      button. */
  lemma LayoutGeometry(star: Option<Params>, hover: Option<Field>, editing: Option<Field>)
    requires star.Some?
    ensures var l := ComputeLayout(star, hover, editing);
      && (forall i :: 0 <= i < |l.rows| && l.rows[i].left.Some? ==> Within(l.rows[i].left.value, l.rows[i].value))
      && (forall i :: 0 <= i < |l.rows| && l.rows[i].right.Some? ==> Within(l.rows[i].right.value, l.rows[i].value))
      && (forall i :: 0 <= i < |l.rows| ==> Within(l.rows[i].value, l.panel))
      && (forall i, j :: 0 <= i < j < |l.rows| ==> Disjoint(l.rows[i].value, l.rows[j].value))
      && (forall i :: 0 <= i < |l.rows| ==> Disjoint(l.rows[i].value, SaveRect) && Disjoint(l.rows[i].value, CloseRect))
      && Within(SaveRect, l.panel) && Within(CloseRect, l.panel) && Disjoint(SaveRect, CloseRect)
  {
    var l := ComputeLayout(star, hover, editing);
    var is3D := star.value.starType == Star3D;
    forall i | 0 <= i < |l.rows|
      ensures l.rows[i].left.Some? ==> Within(l.rows[i].left.value, l.rows[i].value)
      ensures l.rows[i].right.Some? ==> Within(l.rows[i].right.value, l.rows[i].value)
      ensures Within(l.rows[i].value, l.panel)
      ensures Disjoint(l.rows[i].value, SaveRect) && Disjoint(l.rows[i].value, CloseRect)
    {
      RowInPlace(star, hover, editing, i);
      if l.rows[i].left.Some? { WithinByCorners(l.rows[i].left.value, l.rows[i].value); }
      if l.rows[i].right.Some? { WithinByCorners(l.rows[i].right.value, l.rows[i].value); }
      WithinByCorners(l.rows[i].value, l.panel);
      DisjointByRows(l.rows[i].value, SaveRect);
      DisjointByRows(l.rows[i].value, CloseRect);
    }
    forall i, j | 0 <= i < j < |l.rows| ensures Disjoint(l.rows[i].value, l.rows[j].value) {
      RowInPlace(star, hover, editing, i);
      RowInPlace(star, hover, editing, j);
      DisjointByRows(l.rows[i].value, l.rows[j].value);
    }
    WithinByCorners(SaveRect, l.panel);
    WithinByCorners(CloseRect, l.panel);
    assert SaveRect.x + SaveRect.w < CloseRect.x;
  }

  // ---------------------------------------------------------------------------
  // Hit-testing

  /** `_update_hover`: the first row, in panel order, whose value rectangle
      contains the pointer. */
  function HoverIn(rows: seq<Row>, mx: int, my: int): (h: Option<Field>)
    ensures h.None? <==> forall i :: 0 <= i < |rows| ==> !Contains(rows[i].value, mx, my)
    ensures h.Some? ==> exists i :: (0 <= i < |rows| && rows[i].field == h.value
      && Contains(rows[i].value, mx, my)
      && forall j :: 0 <= j < i ==> !Contains(rows[j].value, mx, my))
    decreases |rows|
  {
    if rows == [] then None
    else if Contains(rows[0].value, mx, my) then Some(rows[0].field)
    else
      var h := HoverIn(rows[1..], mx, my);
      assert h.Some? ==> exists i :: (0 <= i < |rows| && rows[i].field == h.value
        && Contains(rows[i].value, mx, my)
        && forall j :: 0 <= j < i ==> !Contains(rows[j].value, mx, my))
      by {
        if h.Some? {
          var i :| 0 <= i < |rows[1..]| && rows[1..][i].field == h.value
            && Contains(rows[1..][i].value, mx, my)
            && forall j :: 0 <= j < i ==> !Contains(rows[1..][j].value, mx, my);
          assert rows[i + 1] == rows[1..][i];
        }
      }
      h
  }

  /** `_update_hover`: nothing before the first draw; otherwise some row holds
      the pointer under the hovered field, and no row holds it when none is. */
  function Hover(layout: Option<Layout>, mx: int, my: int): (h: Option<Field>)
    ensures layout.None? ==> h.None?
    ensures h.Some? ==> exists i :: (0 <= i < |layout.value.rows|
      && layout.value.rows[i].field == h.value && Contains(layout.value.rows[i].value, mx, my))
    ensures layout.Some? && h.None? ==>
      forall i :: 0 <= i < |layout.value.rows| ==> !Contains(layout.value.rows[i].value, mx, my)
  {
    if layout.None? then None
    else
      var h := HoverIn(layout.value.rows, mx, my);
      assert h.Some? ==> exists i :: (0 <= i < |layout.value.rows|
        && layout.value.rows[i].field == h.value && Contains(layout.value.rows[i].value, mx, my));
      h
  }

  /** On a drawn panel the rows are disjoint, so the hovered field is the one
      whose value rectangle holds the pointer. */
  lemma HoverIsTheContainingRow(star: Option<Params>, hover: Option<Field>, editing: Option<Field>, i: int, mx: int, my: int)
    requires star.Some?
    requires var l := ComputeLayout(star, hover, editing);
      0 <= i < |l.rows| && Contains(l.rows[i].value, mx, my)
    ensures var l := ComputeLayout(star, hover, editing);
      HoverIn(l.rows, mx, my) == Some(l.rows[i].field)
  {
    var l := ComputeLayout(star, hover, editing);
    LayoutGeometry(star, hover, editing);
    forall j | 0 <= j < |l.rows| && j != i ensures !Contains(l.rows[j].value, mx, my) {
      if j < i {
        assert Disjoint(l.rows[j].value, l.rows[i].value);
      } else {
        assert Disjoint(l.rows[i].value, l.rows[j].value);
      }
    }
    OnlyRowUnderPointer(l.rows, i, mx, my);
  }

  /** When only row `i` holds the pointer, it is the hovered one. */
  lemma OnlyRowUnderPointer(rows: seq<Row>, i: int, mx: int, my: int)
    requires 0 <= i < |rows| && Contains(rows[i].value, mx, my)
    requires forall j :: 0 <= j < |rows| && j != i ==> !Contains(rows[j].value, mx, my)
    ensures HoverIn(rows, mx, my) == Some(rows[i].field)
  {
  }

  // ---------------------------------------------------------------------------
  // Value text

  /** The text shown for a field's value when it is not being edited. */
  function ValueText(p: Params, f: Field): (s: string)
    ensures f == Spikes ==> ParseInteger(s) == Some(p.spikes)
    ensures f != Spikes ==> ThreeDecimals(s) && ParseDecimal(s) == Some(Round3(GetField(p, f)))
  {
    if f == Spikes then IntToString(p.spikes)
    else
      FormatFixed3RoundTrip(GetField(p, f));
      FormatFixed3(GetField(p, f))
  }

  /** The edit buffer as shown: a trailing `|` caret in caret mode only. */
  function EditText(text: string, selectAll: bool): (s: string)
    ensures selectAll ==> s == text
    ensures !selectAll ==> |s| == |text| + 1 && s[..|text|] == text && s[|text|] == '|'
  {
    if selectAll then text else text + "|"
  }
}
