/** The pinned editor's pointer interactions on a value: the `<` and `>`
    steppers, and a press on the value area that becomes either a drag (once
    the pointer has moved four pixels) or, on release, a click that opens the
    inline edit. */
module Pointer {
  import opened Wrappers
  import opened Text
  import opened Params
  import opened Layout
  import opened EditorState
  import opened TextEdit

  /** Pixels the pointer must move before a press becomes a drag. */
  const DragThreshold: int := 4
  /** Pixels of drag per spike. */
  const PixelsPerSpike: real := 10.0
  /** Value change per pixel of drag on a float field, before modifiers. */
  const DragSensitivity: real := 0.002

  /** `_step_multiplier`: shift multiplies by ten, ctrl by a tenth. */
  function StepMultiplier(shift: bool, ctrl: bool): (m: real)
    ensures m > 0.0
    ensures m == 1.0 <==> shift == ctrl
    ensures m > 1.0 <==> shift && !ctrl
    ensures m < 1.0 <==> ctrl && !shift
  {
    (if shift then 10.0 else 1.0) * (if ctrl then 0.1 else 1.0)
  }

  // ---------------------------------------------------------------------------
  // Steppers

  /** `_apply_step`: the field's step, scaled by the modifiers, is added in
      direction `dir` and the sum goes through the field's write rule; a
      rebuild is scheduled. Without a star nothing happens. */
  function ApplyStep(s: Sys, f: Field, dir: int, shift: bool, ctrl: bool, now: real): (r: Sys)
    ensures s.star.None? ==> r == s
    ensures s.star.Some? ==>
      && r.star.Some?
      && (|| SameExcept(s.star.value, r.star.value, f)
          || (f == Outer && SameExcept(s.star.value, r.star.value.(inner := s.star.value.inner), f)))
    ensures s.star.Some? ==> r.ed == s.ed.(pulse := r.ed.pulse, timer := true) && r.ed.pulse.dirty && r.ed.pulse.since == now
  {
    if s.star.None? then s
    else
      var p := s.star.value;
      var next := GetField(p, f) + dir as real * FieldStep(f) * StepMultiplier(shift, ctrl);
      SetDirty(s.(star := Some(SetField(p, f, next))), now)
  }

  /** A plain step moves a float field by 0.01 while it stays above the
      floor; shift makes it 0.1 and ctrl 0.001. */
  lemma StepMovesFloatField(s: Sys, f: Field, dir: int, shift: bool, ctrl: bool, now: real)
    requires s.star.Some? && (f == Scale || f == Thick)
    requires GetField(s.star.value, f) + dir as real * 0.01 * StepMultiplier(shift, ctrl) >= MinPositive
    ensures GetField(ApplyStep(s, f, dir, shift, ctrl, now).star.value, f)
            == GetField(s.star.value, f) + dir as real * 0.01 * StepMultiplier(shift, ctrl)
    ensures !shift && !ctrl ==>
      GetField(ApplyStep(s, f, dir, shift, ctrl, now).star.value, f) == GetField(s.star.value, f) + dir as real * 0.01
  {
  }

  /** A step on the spike count moves it by one, or by ten with shift,
      within 3..256; with ctrl alone the tenth of a spike rounds away and the
      count stays as it was. */
  lemma StepSpikes(s: Sys, dir: int, shift: bool, ctrl: bool, now: real)
    requires s.star.Some? && MinSpikes <= s.star.value.spikes <= MaxSpikes
    requires dir == 1 || dir == -1
    ensures var n := s.star.value.spikes;
      var m := ApplyStep(s, Spikes, dir, shift, ctrl, now).star.value.spikes;
      && (shift == ctrl ==> m == Clamp(n + dir))
      && (shift && !ctrl ==> m == Clamp(n + 10 * dir))
      && (ctrl && !shift ==> m == n)
  {
    var n := s.star.value.spikes;
    assert FieldStep(Spikes) == 1.0;
    if shift == ctrl {
      RoundHalfEvenUnique((n + dir) as real, n + dir);
    } else if shift {
      RoundHalfEvenUnique((n + 10 * dir) as real, n + 10 * dir);
    } else {
      assert n as real + dir as real * 1.0 * 0.1 - n as real == dir as real * 0.1;
      RoundHalfEvenUnique(n as real + dir as real * 1.0 * 0.1, n);
    }
  }

  /** The spike count clamped to 3..256. */
  function Clamp(n: int): (r: int)
    ensures MinSpikes <= r <= MaxSpikes
    ensures MinSpikes <= n <= MaxSpikes ==> r == n
  {
    if n < MinSpikes then MinSpikes else if n > MaxSpikes then MaxSpikes else n
  }

  /** `<` undoes `>` on a float field: the step up never reaches the floor,
      so the step back lands on the original value. */
  lemma StepBackRestores(s: Sys, f: Field, shift: bool, ctrl: bool, now: real, later: real)
    requires s.star.Some? && Floored(s.star.value) && (f == Scale || f == Thick)
    ensures ApplyStep(ApplyStep(s, f, 1, shift, ctrl, now), f, -1, shift, ctrl, later).star == s.star
  {
    var p := s.star.value;
    var up := SetField(p, f, GetField(p, f) + 1.0 * 0.01 * StepMultiplier(shift, ctrl));
    assert GetField(up, f) + -1.0 * 0.01 * StepMultiplier(shift, ctrl) == GetField(p, f);
    WriteForgetsPrevious(up, p, f, GetField(p, f));
  }

  // ---------------------------------------------------------------------------
  // Pressing, dragging and releasing on a value

  /** `_start_value_drag`: remembers the field, the pointer's x and the
      field's value, and ensures the timer; the value itself is untouched.
      Without a star nothing happens. */
  function StartValueDrag(s: Sys, f: Field, mx: int): (r: Sys)
    ensures s.star.None? ==> r == s
    ensures s.star.Some? ==>
      && r.ed.drag == Drag(f, mx, GetField(s.star.value, f), false)
      && r == s.(ed := s.ed.(drag := r.ed.drag, timer := true))
  {
    if s.star.None? then s
    else s.(ed := s.ed.(drag := Drag(f, mx, GetField(s.star.value, f), false), timer := true))
  }

  /** The value a drag `dx` pixels from its start asks for: whole spikes per
      ten pixels (rounded half to even, modifiers ignored), or 0.002 per
      pixel scaled by the modifiers for the other fields. */
  function DragValue(f: Field, start: real, dx: int, shift: bool, ctrl: bool): (r: real)
    ensures dx == 0 ==> r == start
    ensures dx > 0 ==> r >= start
    ensures dx < 0 ==> r <= start
    ensures f != Spikes ==> (dx > 0 ==> r > start) && (dx < 0 ==> r < start)
    ensures f == Spikes ==> r - start == (r - start).Floor as real
    ensures f == Spikes ==> -0.5 <= dx as real / PixelsPerSpike - (r - start) <= 0.5
  {
    if f == Spikes then
      var q := dx as real / PixelsPerSpike;
      var k := RoundHalfEven(q);
      RoundHalfEvenSign(q);
      var r := start + k as real;
      assert r - start == k as real && (k as real).Floor == k;
      r
    else start + dx as real * (DragSensitivity * StepMultiplier(shift, ctrl))
  }

  /** `_update_value_drag`: a pending press within four pixels of its start
      does nothing; crossing the threshold turns it into a drag and commits
      any open edit; from then on each move writes the start value plus the
      drag offset through the field's write rule and schedules a rebuild. */
  function UpdateValueDrag(s: Sys, mx: int, shift: bool, ctrl: bool, now: real): (r: Sys)
    ensures s.ed.drag.NoDrag? ==> r == s
    ensures s.ed.drag.Drag? && !s.ed.drag.dragging && -DragThreshold < mx - s.ed.drag.startX < DragThreshold
            ==> r == s
    ensures s.ed.drag.Drag? && (s.ed.drag.dragging || !(-DragThreshold < mx - s.ed.drag.startX < DragThreshold)) ==>
      && r.ed.drag == s.ed.drag.(dragging := true)
      && (s.ed.drag.dragging ==> r.ed.edit == s.ed.edit)
      && (!s.ed.drag.dragging ==> r.ed.edit == NoEdit)
      && (r.star.Some? ==> r.ed.pulse.dirty && r.ed.pulse.since == now)
      && r.ed.hover == s.ed.hover && r.ed.layout == s.ed.layout
  {
    match s.ed.drag
    case NoDrag => s
    case Drag(f, x0, v0, dragging) =>
      var dx := mx - x0;
      if !dragging && -DragThreshold < dx < DragThreshold then s
      else
        var crossed := s.(ed := s.ed.(drag := s.ed.drag.(dragging := true)));
        var s1 := if dragging then crossed else CommitEditing(crossed, now);
        if s1.star.None? then s1
        else SetDirty(s1.(star := Some(SetField(s1.star.value, f, DragValue(f, v0, dx, shift, ctrl)))), now)
  }

  /** `_end_value_drag`: the press is over. After a real drag nothing else
      happens. A click that never moved opens the field for editing with the
      whole text selected, committing an edit of another field first; a
      click on the field already open in select-all mode switches it to
      caret mode, and in caret mode it does nothing. */
  function EndValueDrag(s: Sys, now: real): (r: Sys)
    ensures r.ed.drag == NoDrag
    ensures s.ed.drag.NoDrag? ==> r == s
    ensures IsDragging(s.ed.drag) ==> r == s.(ed := s.ed.(drag := NoDrag))
    ensures s.ed.drag.Drag? && !s.ed.drag.dragging && s.ed.edit.Editing? && s.ed.edit.field == s.ed.drag.field ==>
      r == s.(ed := s.ed.(drag := NoDrag, edit := s.ed.edit.(selectAll := false)))
    ensures s.ed.drag.Drag? && !s.ed.drag.dragging && EditField(s.ed.edit) != Some(s.ed.drag.field) && s.star.Some? ==>
      && r.star.Some? && r.ed.edit.Editing? && r.ed.edit.field == s.ed.drag.field && r.ed.edit.selectAll
      && r.ed.edit.text == ValueText(r.star.value, s.ed.drag.field)
      && r.ed.edit.original == GetField(r.star.value, s.ed.drag.field)
  {
    match s.ed.drag
    case NoDrag => s
    case Drag(f, _, _, dragging) =>
      var s0 := s.(ed := s.ed.(drag := NoDrag));
      if dragging then s0
      else if s0.ed.edit.Editing? && s0.ed.edit.field == f then
        WithEdit(s0, s0.ed.edit.(selectAll := false))
      else
        StartEditing(CommitEditing(s0, now), f, true)
  }

  // ---------------------------------------------------------------------------
  // Properties of whole gestures

  /** A press on a value changes no parameter. */
  lemma PressChangesNothing(s: Sys, f: Field, mx: int)
    ensures StartValueDrag(s, f, mx).star == s.star
    ensures StartValueDrag(s, f, mx).ed.edit == s.ed.edit
  {
  }

  /** A press and release without moving past the threshold, with no edit
      open, opens the field in select-all mode seeded with the value as
      shown, and changes no parameter. */
  lemma ClickOpensSelectAllEdit(s: Sys, f: Field, mx: int, moves: seq<int>, now: real)
    requires s.star.Some? && s.ed.edit.NoEdit?
    requires forall i :: 0 <= i < |moves| ==> -DragThreshold < moves[i] - mx < DragThreshold
    ensures var pressed := StartValueDrag(s, f, mx);
      var r := EndValueDrag(MovesWithin(pressed, moves, now), now);
      && r.star == s.star
      && r.ed.edit == Editing(f, ValueText(s.star.value, f), GetField(s.star.value, f), true)
      && r.ed.drag == NoDrag
  {
    var pressed := StartValueDrag(s, f, mx);
    SmallMovesDoNothing(pressed, mx, moves, now);
  }

  /** Pointer moves to each x in `moves`, without modifiers. */
  function MovesWithin(s: Sys, moves: seq<int>, now: real): Sys
    decreases |moves|
  {
    if moves == [] then s else MovesWithin(UpdateValueDrag(s, moves[0], false, false, now), moves[1..], now)
  }

  lemma {:induction false} SmallMovesDoNothing(s: Sys, mx: int, moves: seq<int>, now: real)
    requires s.ed.drag.Drag? && !s.ed.drag.dragging && s.ed.drag.startX == mx
    requires forall i :: 0 <= i < |moves| ==> -DragThreshold < moves[i] - mx < DragThreshold
    ensures MovesWithin(s, moves, now) == s
    decreases |moves|
  {
    if moves != [] {
      assert -DragThreshold < moves[0] - mx < DragThreshold;
      SmallMovesDoNothing(s, mx, moves[1..], now);
    }
  }

  /** Clicking again on the field open in select-all mode keeps its text
      and switches it to caret mode. */
  lemma SecondClickEntersCaretMode(s: Sys, mx: int, now: real)
    requires s.star.Some? && s.ed.edit.Editing? && s.ed.edit.selectAll
    ensures var f := s.ed.edit.field;
      var r := EndValueDrag(StartValueDrag(s, f, mx), now);
      && r.star == s.star
      && r.ed.edit == s.ed.edit.(selectAll := false)
  {
  }

  /** Releasing after a real drag opens no edit. */
  lemma ReleaseAfterDragOpensNothing(s: Sys, now: real)
    requires IsDragging(s.ed.drag)
    ensures EndValueDrag(s, now).ed.edit == s.ed.edit
    ensures EndValueDrag(s, now).star == s.star
  {
  }

  /** Dragging is measured from the press: where the pointer went before
      does not matter, only where it is now. The outer radius is the
      exception, since a move that pulled it down to the inner radius has
      already reset inner. */
  lemma DragIsMemoryless(s: Sys, m1: int, m2: int, shift1: bool, ctrl1: bool, shift2: bool, ctrl2: bool, t1: real, t2: real)
    requires IsDragging(s.ed.drag) && s.ed.drag.field != Outer && s.star.Some?
    ensures UpdateValueDrag(UpdateValueDrag(s, m1, shift1, ctrl1, t1), m2, shift2, ctrl2, t2).star
            == UpdateValueDrag(s, m2, shift2, ctrl2, t2).star
  {
    var d := s.ed.drag;
    var p := s.star.value;
    var q := UpdateValueDrag(s, m1, shift1, ctrl1, t1).star.value;
    WriteForgetsPrevious(p, q, d.field, DragValue(d.field, d.startValue, m2 - d.startX, shift2, ctrl2));
  }

  /** Spikes follow the pointer one per ten pixels from the press, whatever
      the modifiers; `k` is reached from 10k-5 to 10k+5 pixels, the halfway
      points going to the even count. */
  lemma DragSpikes(s: Sys, mx: int, shift: bool, ctrl: bool, now: real, k: int)
    requires s.ed.drag.Drag? && s.ed.drag.field == Spikes && s.ed.drag.dragging && s.star.Some?
    requires s.ed.drag.startValue == s.ed.drag.startValue.Floor as real
    requires 10 * k - 5 < mx - s.ed.drag.startX < 10 * k + 5
    ensures UpdateValueDrag(s, mx, shift, ctrl, now).star.value.spikes
            == Clamp(s.ed.drag.startValue.Floor + k)
  {
    var d := s.ed.drag;
    var dx := mx - d.startX;
    RoundHalfEvenUnique(dx as real / PixelsPerSpike, k);
    var n := d.startValue.Floor;
    RoundHalfEvenUnique((n + k) as real, n + k);
  }

  /** A float field follows the pointer at 0.002 per pixel, ten times that
      with shift and a tenth with ctrl, while it stays above the floor. */
  lemma DragScale(s: Sys, mx: int, shift: bool, ctrl: bool, now: real)
    requires s.ed.drag.Drag? && s.ed.drag.field == Scale && s.ed.drag.dragging && s.star.Some?
    requires s.ed.drag.startValue + (mx - s.ed.drag.startX) as real * 0.002 * StepMultiplier(shift, ctrl) >= MinPositive
    ensures UpdateValueDrag(s, mx, shift, ctrl, now).star.value.scale
            == s.ed.drag.startValue + (mx - s.ed.drag.startX) as real * 0.002 * StepMultiplier(shift, ctrl)
  {
  }
}
