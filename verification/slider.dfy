/** The older slider editor: a pinned panel of horizontal bars, one per
    field, where a press on a bar writes the value under the pointer and a
    held press keeps writing as the pointer moves. It shares the parameter
    store, the debounce and the running flags with the pinned editor, but
    has its own write rule from a bar position, its own layout and a
    simpler event loop with no text entry and no steppers. */
module Slider {
  import opened Wrappers
  import opened Text
  import opened Params
  import opened Debounce
  import opened Layout
  import opened EditorState
  import opened Editor

  // ---------------------------------------------------------------------------
  // Writing from a bar position

  /** `_clamp(t, 0.0, 1.0)`. */
  function Clamp01(t: real): (c: real)
    ensures 0.0 <= c <= 1.0
    ensures 0.0 <= t <= 1.0 ==> c == t
    ensures t <= 0.0 ==> c == 0.0
    ensures t >= 1.0 ==> c == 1.0
  {
    if t < 0.0 then 0.0 else if t > 1.0 then 1.0 else t
  }

  /** The right end of the spikes bar; values above it can be stored but not
      reached by sliding. */
  const SpikesUiMax: int := 64

  /** The value each bar's left end stands for. */
  function BarLow(f: Field): real {
    match f
    case Spikes => MinSpikes as real
    case Outer => 0.01
    case Inner => 0.01
    case Scale => 0.01
    case Thick => 0.0
  }

  /** The value each bar's right end stands for. */
  function BarHigh(f: Field): real {
    match f
    case Spikes => SpikesUiMax as real
    case Outer => 10.0
    case Inner => 9.5
    case Scale => 10.0
    case Thick => 5.0
  }

  /** `_set_slider_value` on the stored parameters, with each field's own
      clamp and, for the outer radius, the fallback of inner to half of it. */
  function SetSliderValue(p: Params, f: Field, tNorm: real): (r: Params)
    // the written field stays on the bar's range
    ensures f == Spikes ==> MinSpikes <= r.spikes <= SpikesUiMax
    ensures f == Outer ==> 0.01 <= r.outer <= 10.0
    ensures f == Inner ==> MinPositive <= r.inner <= 9.5 && r.inner <= InnerCap(p.outer)
    ensures f == Scale ==> 0.01 <= r.scale <= 10.0
    ensures f == Thick ==> 0.0 <= r.thickness <= 5.0
    // the bar's ends write its end values
    ensures f != Inner && tNorm <= 0.0 ==> GetField(r, f) == BarLow(f)
    ensures f != Inner && tNorm >= 1.0 ==> GetField(r, f) == BarHigh(f)
    // the outer write keeps inner below it unless inner was already at or above it
    ensures f == Outer ==> (p.inner < r.outer ==> r.inner == p.inner) && r.inner < r.outer
    ensures SameExcept(p, r, f) || (f == Outer && SameExcept(p, r.(inner := p.inner), f))
  {
    var t := Clamp01(tNorm);
    match f
    case Spikes =>
      var v := RoundHalfEven(3.0 + t * (SpikesUiMax - 3) as real);
      p.(spikes := if v < 3 then 3 else if v > 256 then 256 else v)
    case Outer =>
      var o := Max(0.0001, 0.01 + t * (10.0 - 0.01));
      if p.inner >= o then p.(outer := o, inner := Max(0.0001, o * 0.5)) else p.(outer := o)
    case Inner =>
      var v := Max(0.0001, 0.01 + t * (9.5 - 0.01));
      p.(inner := Min(v, Max(0.0001, p.outer * 0.999)))
    case Scale =>
      p.(scale := Max(0.0001, 0.01 + t * (10.0 - 0.01)))
    case Thick =>
      p.(thickness := Max(0.0, 0.0 + t * (5.0 - 0.0)))
  }

  /** The value a bar position stands for, before any write rule. */
  function BarValue(f: Field, t: real): real {
    BarLow(f) + t * (BarHigh(f) - BarLow(f))
  }

  /** A slider write is the pinned editor's field write of the value under
      the pointer: both editors store through the same clamps and coupling. */
  lemma SliderWriteIsFieldWrite(p: Params, f: Field, t: real)
    ensures SetSliderValue(p, f, t) == SetField(p, f, BarValue(f, Clamp01(t)))
  {
    match f
    case Spikes => SliderWriteSpikes(p, t);
    case Outer => SliderWriteOuter(p, t);
    case Inner => SliderWriteInner(p, t);
    case Scale => SliderWriteScale(p, t);
    case Thick => SliderWriteThick(p, t);
  }

  lemma SliderWriteSpikes(p: Params, t: real)
    ensures SetSliderValue(p, Spikes, t) == SetField(p, Spikes, BarValue(Spikes, Clamp01(t)))
  {
  }

  lemma SliderWriteOuter(p: Params, t: real)
    ensures SetSliderValue(p, Outer, t) == SetField(p, Outer, BarValue(Outer, Clamp01(t)))
  {
  }

  lemma SliderWriteInner(p: Params, t: real)
    ensures SetSliderValue(p, Inner, t) == SetField(p, Inner, BarValue(Inner, Clamp01(t)))
  {
  }

  lemma SliderWriteScale(p: Params, t: real)
    ensures SetSliderValue(p, Scale, t) == SetField(p, Scale, BarValue(Scale, Clamp01(t)))
  {
  }

  lemma SliderWriteThick(p: Params, t: real)
    ensures SetSliderValue(p, Thick, t) == SetField(p, Thick, BarValue(Thick, Clamp01(t)))
  {
  }

  /** A bar's fill, as the draw computes it from the stored value. */
  function BarFraction(p: Params, f: Field): (t: real)
    ensures BarValue(f, t) == GetField(p, f)
  {
    (GetField(p, f) - BarLow(f)) / (BarHigh(f) - BarLow(f))
  }

  /** Writing at the end of a bar's fill gives back the stored value whenever
      that value lies on the bar and the write rule would keep it. */
  lemma {:induction false} FillEndWritesBack(p: Params, f: Field)
    requires BarLow(f) <= GetField(p, f) <= BarHigh(f)
    requires f == Spikes ==> MinSpikes <= p.spikes
    requires f == Outer ==> p.inner < p.outer
    requires f == Inner ==> p.inner <= InnerCap(p.outer)
    ensures SetSliderValue(p, f, BarFraction(p, f)) == p
  {
    var t := BarFraction(p, f);
    assert Clamp01(t) == t;
    SliderWriteIsFieldWrite(p, f, t);
    if f == Spikes {
      RoundHalfEvenUnique(p.spikes as real, p.spikes);
    }
  }

  /** Further right on a bar never writes less. */
  lemma {:induction false} SliderMonotone(p: Params, f: Field, t1: real, t2: real)
    requires t1 <= t2
    ensures GetField(SetSliderValue(p, f, t1), f) <= GetField(SetSliderValue(p, f, t2), f)
  {
    var a, b := Clamp01(t1), Clamp01(t2);
    assert a <= b;
    SliderWriteIsFieldWrite(p, f, t1);
    SliderWriteIsFieldWrite(p, f, t2);
    BarValueMonotone(f, a, b);
    if f == Spikes {
      RoundHalfEvenMonotone(BarValue(f, a), BarValue(f, b));
    }
  }

  lemma BarValueMonotone(f: Field, a: real, b: real)
    requires a <= b
    ensures BarValue(f, a) <= BarValue(f, b)
  {
    assert BarLow(f) <= BarHigh(f);
    assert (b - a) * (BarHigh(f) - BarLow(f)) >= 0.0;
  }

  // ---------------------------------------------------------------------------
  // Layout

  const SliderPad: int := 10
  const SliderPanelW: int := 360
  const SliderHeaderH: int := 26
  const SliderLineH: int := 20
  const SliderRowH: int := 24
  const BarW: int := 160
  const BarH: int := 10
  const SliderFooterH: int := 40

  /** `_compute_panel_height`: four rows, five for a 3D star. */
  function SliderPanelHeight(is3D: bool): (h: int)
    ensures h == SliderPad * 2 + SliderHeaderH + SliderLineH + |PanelFields(is3D)| * SliderRowH + SliderFooterH
    ensures h == if is3D then 226 else 202
  {
    if is3D then 226 else 202
  }

  /** One bar the draw recorded. */
  datatype Bar = Bar(field: Field, rect: Rect)

  /** What one draw records: the panel, the bars in panel order, and the
      footer buttons (absent without a star). */
  datatype SliderLayout = SliderLayout(panel: Rect, bars: seq<Bar>, save: Option<Rect>, close: Option<Rect>)

  /** The bar of the `i`-th row, counted from the top. */
  function BarRect(is3D: bool, i: int): Rect {
    Rect(SliderPad + 150, SliderPad + SliderPanelHeight(is3D) - 44 - SliderLineH - SliderRowH - i * SliderRowH + 6, BarW, BarH)
  }

  const SliderBtnW: int := (SliderPanelW - 12 * 2 - 10) / 2
  const SliderSaveRect: Rect := Rect(SliderPad + 12, SliderPad + 10, SliderBtnW, 22)
  const SliderCloseRect: Rect := Rect(SliderPad + 12 + SliderBtnW + 10, SliderPad + 10, SliderBtnW, 22)

  /** `_draw`: without a star only the panel; with one a bar per shown field
      and the two footer buttons. */
  function SliderDraw(star: Option<Params>): (l: SliderLayout)
    ensures l.panel == Rect(SliderPad, SliderPad, SliderPanelW, SliderPanelHeight(star.Some? && star.value.starType == Star3D))
    ensures star.None? ==> l.bars == [] && l.save.None? && l.close.None?
    ensures star.Some? ==> l.save == Some(SliderSaveRect) && l.close == Some(SliderCloseRect)
    ensures star.Some? ==> |l.bars| == |PanelFields(star.value.starType == Star3D)|
    ensures forall i :: 0 <= i < |l.bars| ==>
      l.bars[i] == Bar(PanelFields(star.value.starType == Star3D)[i], BarRect(star.value.starType == Star3D, i))
  {
    var is3D := star.Some? && star.value.starType == Star3D;
    var panel := Rect(SliderPad, SliderPad, SliderPanelW, SliderPanelHeight(is3D));
    if star.None? then SliderLayout(panel, [], None, None)
    else
      var fs := PanelFields(is3D);
      SliderLayout(panel, seq(|fs|, i requires 0 <= i < |fs| => Bar(fs[i], BarRect(is3D, i))),
                   Some(SliderSaveRect), Some(SliderCloseRect))
  }

  /** The bars sit inside the panel, one above another, all above the footer. */
  lemma SliderGeometry(star: Option<Params>)
    requires star.Some?
    ensures var l := SliderDraw(star);
      && (forall i :: 0 <= i < |l.bars| ==> Within(l.bars[i].rect, l.panel))
      && (forall i, j :: 0 <= i < j < |l.bars| ==> Disjoint(l.bars[i].rect, l.bars[j].rect))
      && (forall i :: 0 <= i < |l.bars| ==> Disjoint(l.bars[i].rect, SliderSaveRect) && Disjoint(l.bars[i].rect, SliderCloseRect))
      && Disjoint(SliderSaveRect, SliderCloseRect)
      && Within(SliderSaveRect, l.panel) && Within(SliderCloseRect, l.panel)
  {
    var l := SliderDraw(star);
    forall i | 0 <= i < |l.bars|
      ensures Within(l.bars[i].rect, l.panel)
      ensures Disjoint(l.bars[i].rect, SliderSaveRect) && Disjoint(l.bars[i].rect, SliderCloseRect)
    {
      WithinByCorners(l.bars[i].rect, l.panel);
      DisjointByRows(l.bars[i].rect, SliderSaveRect);
      DisjointByRows(l.bars[i].rect, SliderCloseRect);
    }
    forall i, j | 0 <= i < j < |l.bars|
      ensures Disjoint(l.bars[i].rect, l.bars[j].rect)
    {
      DisjointByRows(l.bars[i].rect, l.bars[j].rect);
    }
    WithinByCorners(SliderSaveRect, l.panel);
    WithinByCorners(SliderCloseRect, l.panel);
  }

  /** The slider press scan: the first bar under the pointer. */
  function BarAt(bars: seq<Bar>, x: int, y: int): (r: Option<Bar>)
    ensures r.None? <==> forall i :: 0 <= i < |bars| ==> !Contains(bars[i].rect, x, y)
    ensures r.Some? ==> exists i :: 0 <= i < |bars| && bars[i] == r.value && Contains(r.value.rect, x, y)
    decreases |bars|
  {
    if bars == [] then None
    else if Contains(bars[0].rect, x, y) then Some(bars[0])
    else
      var r := BarAt(bars[1..], x, y);
      assert r.Some? ==> exists i :: 0 <= i < |bars| && bars[i] == r.value && Contains(r.value.rect, x, y) by {
        if r.Some? {
          var i :| 0 <= i < |bars[1..]| && bars[1..][i] == r.value && Contains(r.value.rect, x, y);
          assert bars[i + 1] == r.value;
        }
      }
      assert r.None? ==> forall i :: 0 <= i < |bars| ==> !Contains(bars[i].rect, x, y) by {
        if r.None? {
          forall i | 0 <= i < |bars| ensures !Contains(bars[i].rect, x, y) {
            if i > 0 { assert bars[i] == bars[1..][i - 1]; }
          }
        }
      }
      r
  }

  /** The rectangle last recorded for field `f`, looked up by field. */
  function BarOf(bars: seq<Bar>, f: Field): (r: Option<Rect>)
    ensures r.None? <==> forall i :: 0 <= i < |bars| ==> bars[i].field != f
    ensures r.Some? ==> exists i :: 0 <= i < |bars| && bars[i] == Bar(f, r.value)
    decreases |bars|
  {
    if bars == [] then None
    else if bars[0].field == f then Some(bars[0].rect)
    else
      var r := BarOf(bars[1..], f);
      assert r.Some? ==> exists i :: 0 <= i < |bars| && bars[i] == Bar(f, r.value) by {
        if r.Some? {
          var i :| 0 <= i < |bars[1..]| && bars[1..][i] == Bar(f, r.value);
          assert bars[i + 1] == Bar(f, r.value);
        }
      }
      assert r.None? ==> forall i :: 0 <= i < |bars| ==> bars[i].field != f by {
        if r.None? {
          forall i | 0 <= i < |bars| ensures bars[i].field != f {
            if i > 0 { assert bars[i] == bars[1..][i - 1]; }
          }
        }
      }
      r
  }

  /** Where on a bar the pointer is, as the fraction the handler computes. */
  function BarPosition(rect: Rect, x: int): (t: real)
    ensures rect.w > 0 ==> t * rect.w as real == (x - rect.x) as real
    ensures rect.w > 0 && rect.x <= x <= rect.x + rect.w ==> 0.0 <= t <= 1.0
    ensures rect.w <= 0 ==> t == 0.0
  {
    if rect.w > 0 then (x - rect.x) as real / rect.w as real else 0.0
  }

  // ---------------------------------------------------------------------------
  // The operator

  /** The slider operator's state: the field being dragged, the debounce
      pulse, whether the timer exists, and the last draw's rectangles. */
  datatype SliderUi = SliderUi(dragging: Option<Field>, pulse: Pulse, timer: bool, layout: Option<SliderLayout>)

  datatype SliderSys = SliderSys(ui: SliderUi, star: Option<Params>)

  const FreshSlider: SliderUi := SliderUi(None, Idle, false, None)

  /** The outcome of one event, as for the pinned editor. */
  datatype SliderStep = SliderStep(sys: SliderSys, globals: Globals, ret: Ret, dialog: bool, rebuilt: bool)

  function SliderContinue(s: SliderSys, g: Globals, ret: Ret): SliderStep {
    SliderStep(s, g, ret, false, false)
  }

  /** The draw callback records the rectangles for the current star. */
  function SliderRedraw(s: SliderSys): (r: SliderSys)
    ensures r.ui.layout == Some(SliderDraw(s.star)) && r.star == s.star
    ensures r.ui.dragging == s.ui.dragging && r.ui.pulse == s.ui.pulse && r.ui.timer == s.ui.timer
  {
    s.(ui := s.ui.(layout := Some(SliderDraw(s.star))))
  }

  /** `_set_slider_value` on the operator: without a star nothing happens;
      otherwise the field is written and the editor is marked dirty. */
  function SlideTo(s: SliderSys, f: Field, t: real, now: real): (r: SliderSys)
    ensures s.star.None? ==> r == s
    ensures s.star.Some? ==>
      && r.star == Some(SetSliderValue(s.star.value, f, t))
      && r.ui == s.ui.(pulse := MarkDirty(s.ui.pulse, now), timer := true)
  {
    if s.star.None? then s
    else SliderSys(s.ui.(pulse := MarkDirty(s.ui.pulse, now), timer := true), Some(SetSliderValue(s.star.value, f, t)))
  }

  /** `invoke`: refused while an editor is running; otherwise raises the
      flags and starts from a fresh state with no timer. */
  function SliderInvoke(star: Option<Params>, g: Globals): (r: SliderStep)
    ensures g.running ==> r.ret == Cancelled && r.globals == g
    ensures !g.running ==> r.ret == RunningModal && r.globals == Globals(true, true) && r.sys == SliderSys(FreshSlider, star)
  {
    if g.running then SliderContinue(SliderSys(FreshSlider, star), g, Cancelled)
    else SliderContinue(SliderSys(FreshSlider, star), Globals(true, true), RunningModal)
  }

  /** `_finish`: drops the timer, removes the draw handle and lowers the
      running flag, whatever state it is called in. */
  function SliderFinish(s: SliderSys): (r: (SliderSys, Globals))
    ensures !r.0.ui.timer && r.1 == NotRunning
    ensures r.0 == s.(ui := s.ui.(timer := false))
  {
    (s.(ui := s.ui.(timer := false)), NotRunning)
  }

  /** A closed slider editor can be opened again. */
  lemma SliderFinishAllowsInvoke(s: SliderSys, star: Option<Params>)
    ensures SliderInvoke(star, SliderFinish(s).1).ret == RunningModal
  {
  }

  /** The timer tick: the debounced rebuild with the slider's window, then
      `_stop_timer_if_idle`; the event always passes on. */
  function SliderOnTimer(s: SliderSys, g: Globals, objectMode: bool, now: real): (r: SliderStep)
    ensures r.ret == PassThrough && r.globals == g && r.sys.star == s.star
    ensures r.rebuilt == Tick(s.ui.pulse, now, SliderWindow, s.star, objectMode).rebuilt
    ensures r.sys.ui.timer <==> s.ui.timer && (r.sys.ui.pulse.dirty || s.ui.dragging.Some?)
  {
    var t := Tick(s.ui.pulse, now, SliderWindow, s.star, objectMode);
    var ui := s.ui.(pulse := t.pulse, timer := KeepSliderTimer(s.ui.timer, t.pulse.dirty, s.ui.dragging.Some?));
    SliderStep(s.(ui := ui), g, PassThrough, false, t.rebuilt)
  }

  /** A left press: Save opens the dialog, Close finishes, a bar starts a
      drag and writes the value under the pointer; anywhere else passes on. */
  function SliderOnPress(s: SliderSys, g: Globals, x: int, y: int, now: real): (r: SliderStep)
    ensures r.dialog <==> s.ui.layout.Some? && s.ui.layout.value.save.Some? && Contains(s.ui.layout.value.save.value, x, y)
    ensures r.ret == Cancelled ==> r.globals == NotRunning && !r.sys.ui.timer && r.sys.star == s.star
    ensures r.ret != Cancelled ==> r.globals == g
    ensures r.ret == PassThrough ==> r.sys == s
  {
    var l := if s.ui.layout.None? then SliderLayout(Rect(0, 0, 0, 0), [], None, None) else s.ui.layout.value;
    if l.save.Some? && Contains(l.save.value, x, y) then SliderStep(s, g, RunningModal, true, false)
    else if l.close.Some? && Contains(l.close.value, x, y) then
      var fin := SliderFinish(s);
      SliderContinue(fin.0, fin.1, Cancelled)
    else
      match BarAt(l.bars, x, y)
      case Some(bar) =>
        var started := s.(ui := s.ui.(dragging := Some(bar.field), timer := true));
        SliderContinue(SlideTo(started, bar.field, BarPosition(bar.rect, x), now), g, RunningModal)
      case None => SliderContinue(s, g, PassThrough)
  }

  /** A left release ends any drag, keeping the timer only while a rebuild is
      pending, and the editor keeps the event. */
  function SliderOnRelease(s: SliderSys, g: Globals): (r: SliderStep)
    ensures r.ret == RunningModal && r.globals == g && r.sys.star == s.star
    ensures r.sys.ui.dragging.None? && r.sys.ui.pulse == s.ui.pulse && r.sys.ui.layout == s.ui.layout
    ensures s.ui.dragging.Some? ==> r.sys.ui.timer == (s.ui.timer && s.ui.pulse.dirty)
    ensures s.ui.dragging.None? ==> r.sys == s
  {
    if s.ui.dragging.Some? then
      SliderContinue(s.(ui := s.ui.(dragging := None, timer := KeepSliderTimer(s.ui.timer, s.ui.pulse.dirty, false))), g, RunningModal)
    else SliderContinue(s, g, RunningModal)
  }

  /** A move while dragging writes the value under the pointer on the dragged
      field's bar, if the last draw recorded one; the editor keeps the event. */
  function SliderOnDragMove(s: SliderSys, g: Globals, x: int, now: real): (r: SliderStep)
    requires s.ui.dragging.Some?
    ensures r.ret == RunningModal && r.globals == g && !r.dialog && !r.rebuilt
    ensures r.sys.ui.dragging == s.ui.dragging && r.sys.ui.layout == s.ui.layout
    ensures var bars := if s.ui.layout.None? then [] else s.ui.layout.value.bars;
      match BarOf(bars, s.ui.dragging.value)
      case None => r.sys == s
      case Some(rect) =>
        && (s.star.None? ==> r.sys == s)
        && (s.star.Some? ==> r.sys.star == Some(SetSliderValue(s.star.value, s.ui.dragging.value, BarPosition(rect, x)))
                             && r.sys.ui.pulse.dirty && r.sys.ui.timer)
  {
    var bars := if s.ui.layout.None? then [] else s.ui.layout.value.bars;
    match BarOf(bars, s.ui.dragging.value)
    case Some(rect) => SliderContinue(SlideTo(s, s.ui.dragging.value, BarPosition(rect, x), now), g, RunningModal)
    case None => SliderContinue(s, g, RunningModal)
  }

  /** A pointer event outside the drawn panel while no bar is held. */
  predicate SliderOutside(s: SliderSys, ev: Event) {
    && (ev.LeftMouse? || ev.MouseMove?)
    && s.ui.dragging.None?
    && s.ui.layout.Some?
    && !Contains(s.ui.layout.value.panel, ev.x, ev.y)
  }

  /** `modal` of the slider editor. */
  function SliderModal(s: SliderSys, g: Globals, ev: Event, objectMode: bool, now: real): (r: SliderStep)
    ensures ev.Timer? ==> r == SliderOnTimer(s, g, objectMode, now)
    ensures (ev.KeyIn? || ev.OtherMouse? || SliderOutside(s, ev)) ==> r == SliderContinue(s, g, PassThrough)
    ensures ev.MouseMove? && s.ui.dragging.None? ==> r == SliderContinue(s, g, PassThrough)
    ensures r.ret == Cancelled ==> r.globals == NotRunning && ev.LeftMouse? && ev.value == Press
    ensures r.ret != Cancelled ==> r.globals == g
    ensures r.rebuilt ==> ev.Timer?
    ensures r.dialog ==> ev.LeftMouse? && ev.value == Press && r.ret == RunningModal
  {
    if ev.Timer? then SliderOnTimer(s, g, objectMode, now)
    else if SliderOutside(s, ev) then SliderContinue(s, g, PassThrough)
    else if ev.LeftMouse? && ev.value == Press then SliderOnPress(s, g, ev.x, ev.y, now)
    else if ev.LeftMouse? && ev.value == Release then SliderOnRelease(s, g)
    else if ev.MouseMove? && s.ui.dragging.Some? then SliderOnDragMove(s, g, ev.x, now)
    else SliderContinue(s, g, PassThrough)
  }

  // ---------------------------------------------------------------------------
  // Properties of the slider editor

  /** A left release always ends the drag and leaves the star alone; while a
      bar was held the editor keeps the event wherever the pointer is. */
  lemma SliderReleaseEndsDrag(s: SliderSys, g: Globals, x: int, y: int, shift: bool, ctrl: bool, objectMode: bool, now: real)
    ensures var r := SliderModal(s, g, LeftMouse(x, y, Release, shift, ctrl), objectMode, now);
      && r.sys.ui.dragging.None? && r.sys.star == s.star && r.globals == g
      && (s.ui.dragging.Some? ==> r.ret == RunningModal && r.sys.ui.timer == (s.ui.timer && s.ui.pulse.dirty))
  {
  }

  /** On a drawn panel, a press on the `i`-th bar starts dragging that field
      and writes the value at the pointer's place on the bar. */
  lemma PressOnBarWrites(s: SliderSys, g: Globals, i: int, x: int, y: int, shift: bool, ctrl: bool, objectMode: bool, now: real)
    requires s.star.Some? && s.ui.layout == Some(SliderDraw(s.star))
    requires 0 <= i < |SliderDraw(s.star).bars| && Contains(SliderDraw(s.star).bars[i].rect, x, y)
    ensures var bar := SliderDraw(s.star).bars[i];
      var r := SliderModal(s, g, LeftMouse(x, y, Press, shift, ctrl), objectMode, now);
      && r.ret == RunningModal && r.globals == g
      && r.sys.ui.dragging == Some(bar.field)
      && r.sys.star == Some(SetSliderValue(s.star.value, bar.field, (x - bar.rect.x) as real / BarW as real))
      && r.sys.ui.pulse.dirty && r.sys.ui.timer
  {
    var l := SliderDraw(s.star);
    BarHit(s.star, i, x, y);
    assert SliderModal(s, g, LeftMouse(x, y, Press, shift, ctrl), objectMode, now) == SliderOnPress(s, g, x, y, now);
    PressOnFoundBar(s, g, l.bars[i], x, y, now);
    assert BarPosition(l.bars[i].rect, x) == (x - l.bars[i].rect.x) as real / BarW as real;
  }

  /** A point on a drawn bar is inside the panel, on neither footer button,
      and on no other bar. */
  lemma BarHit(star: Option<Params>, i: int, x: int, y: int)
    requires star.Some?
    requires 0 <= i < |SliderDraw(star).bars| && Contains(SliderDraw(star).bars[i].rect, x, y)
    ensures var l := SliderDraw(star);
      && Contains(l.panel, x, y)
      && !Contains(SliderSaveRect, x, y) && !Contains(SliderCloseRect, x, y)
      && BarAt(l.bars, x, y) == Some(l.bars[i])
  {
    var l := SliderDraw(star);
    SliderGeometry(star);
    OnlyBarUnderPointer(l.bars, i, x, y);
  }

  /** A press that misses both footer buttons and finds a bar starts dragging
      that bar's field and slides it to the pointer. */
  lemma PressOnFoundBar(s: SliderSys, g: Globals, bar: Bar, x: int, y: int, now: real)
    requires s.star.Some? && s.ui.layout.Some?
    requires s.ui.layout.value.save.Some? ==> !Contains(s.ui.layout.value.save.value, x, y)
    requires s.ui.layout.value.close.Some? ==> !Contains(s.ui.layout.value.close.value, x, y)
    requires BarAt(s.ui.layout.value.bars, x, y) == Some(bar)
    ensures var r := SliderOnPress(s, g, x, y, now);
      && r.ret == RunningModal && r.globals == g
      && r.sys.ui.dragging == Some(bar.field)
      && r.sys.star == Some(SetSliderValue(s.star.value, bar.field, BarPosition(bar.rect, x)))
      && r.sys.ui.pulse.dirty && r.sys.ui.timer
  {
  }

  /** When only bar `i` holds the pointer, the scan finds it. */
  lemma OnlyBarUnderPointer(bars: seq<Bar>, i: int, x: int, y: int)
    requires 0 <= i < |bars| && Contains(bars[i].rect, x, y)
    requires forall j :: 0 <= j < |bars| && j != i ==> Disjoint(bars[i].rect, bars[j].rect)
    ensures BarAt(bars, x, y) == Some(bars[i])
  {
  }

  /** While a bar is held, moves write wherever the pointer goes, even off
      the bar and outside the panel: the value follows the pointer's x only. */
  lemma DragFollowsPointer(s: SliderSys, g: Globals, x: int, y: int, shift: bool, ctrl: bool, objectMode: bool, now: real)
    requires s.star.Some? && s.ui.dragging.Some? && s.ui.layout == Some(SliderDraw(s.star))
    requires s.ui.dragging.value in PanelFields(s.star.value.starType == Star3D)
    ensures var r := SliderModal(s, g, MouseMove(x, y, shift, ctrl), objectMode, now);
      && r.ret == RunningModal && r.globals == g
      && r.sys.ui.dragging == s.ui.dragging
      && r.sys.star == Some(SetSliderValue(s.star.value, s.ui.dragging.value, (x - (SliderPad + 150)) as real / BarW as real))
  {
    var l := SliderDraw(s.star);
    var f := s.ui.dragging.value;
    var fs := PanelFields(s.star.value.starType == Star3D);
    var k :| 0 <= k < |fs| && fs[k] == f;
    assert l.bars[k].field == f;
    var rect := BarOf(l.bars, f);
    assert rect.Some?;
  }

  /** Without a star the draw records no Close button, so only a press on a
      Close button kept from an earlier draw can end the editor. */
  lemma SliderNoCloseWithoutStar(s: SliderSys, g: Globals, ev: Event, objectMode: bool, now: real)
    requires s.ui.layout == Some(SliderDraw(None))
    ensures SliderModal(s, g, ev, objectMode, now).ret != Cancelled
    ensures SliderModal(s, g, ev, objectMode, now).sys.star == s.star
  {
  }

  // ---------------------------------------------------------------------------
  // Invariants

  /** A pending rebuild or a held bar always has a timer to finish it. */
  predicate SliderTimerCovers(s: SliderSys) {
    (s.ui.pulse.dirty || s.ui.dragging.Some?) ==> s.ui.timer
  }

  /** Every event that leaves the editor running keeps the timer covering
      the pending work. */
  lemma SliderModalKeepsTimer(s: SliderSys, g: Globals, ev: Event, objectMode: bool, now: real)
    requires SliderTimerCovers(s)
    ensures var r := SliderModal(s, g, ev, objectMode, now);
      r.ret != Cancelled ==> SliderTimerCovers(r.sys)
  {
  }

  /** Every slider event keeps a floored store floored. */
  lemma {:induction false} SliderModalKeepsFloored(s: SliderSys, g: Globals, ev: Event, objectMode: bool, now: real)
    requires s.star.Some? && Floored(s.star.value)
    ensures var r := SliderModal(s, g, ev, objectMode, now);
      r.sys.star.Some? && Floored(r.sys.star.value)
  {
    var p := s.star.value;
    forall f: Field, t: real ensures Floored(SetSliderValue(p, f, t)) {
      SliderWriteIsFieldWrite(p, f, t);
      WriteKeepsFloored(p, f, BarValue(f, Clamp01(t)));
    }
  }
}
