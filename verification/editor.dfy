/** The pinned editor's modal operator: how each event is routed (key
    capture while editing, the debounce timer, gating at the panel's edge,
    hover and drag on moves, the footer buttons, the steppers and the value
    areas on presses, the end of a press on release), and the add-on-wide
    flags that keep a second editor from opening. */
module Editor {
  import opened Wrappers
  import opened Params
  import opened Debounce
  import opened Layout
  import opened EditorState
  import opened TextEdit
  import opened Pointer

  /** The events the operator tells apart. `OtherMouse` is a right or middle
      button; `KeyIn` is every other event that is not the timer. */
  datatype Event =
    | Timer
    | MouseMove(x: int, y: int, shift: bool, ctrl: bool)
    | LeftMouse(x: int, y: int, value: Value, shift: bool, ctrl: bool)
    | OtherMouse
    | KeyIn(k: KeyEvent)

  /** What `modal` returns to the window manager. */
  datatype Ret = RunningModal | PassThrough | Cancelled

  /** `_EDITOR_RUNNING` and whether `_EDITOR_DRAW_HANDLE` is installed. */
  datatype Globals = Globals(running: bool, handle: bool)

  const NotRunning: Globals := Globals(false, false)

  /** The outcome of one event: the new state, the flags, the return value,
      whether the save-preset dialog was opened, and whether the mesh was
      rebuilt. */
  datatype Step = Step(sys: Sys, globals: Globals, ret: Ret, dialog: bool, rebuilt: bool)

  function Continue(s: Sys, g: Globals, ret: Ret): Step {
    Step(s, g, ret, false, false)
  }

  // ---------------------------------------------------------------------------
  // Opening and closing

  /** `invoke`: refused while an editor is running; otherwise the flags are
      raised and a fresh operator starts with no timer and nothing drawn. */
  function Invoke(star: Option<Params>, g: Globals): (r: Step)
    ensures g.running ==> r.ret == Cancelled && r.globals == g
    ensures !g.running ==> r.ret == RunningModal && r.globals == Globals(true, true) && r.sys == Sys(Fresh, star)
  {
    if g.running then Continue(Sys(Fresh, star), g, Cancelled)
    else Continue(Sys(Fresh, star), Globals(true, true), RunningModal)
  }

  /** `_finish`: the timer and the draw handler are removed and the running
      flag drops. */
  function Finish(s: Sys): (r: (Sys, Globals))
    ensures !r.0.ed.timer && r.1 == NotRunning
    ensures r.0 == s.(ed := s.ed.(timer := false))
  {
    (s.(ed := s.ed.(timer := false)), NotRunning)
  }

  /** A closed editor can be opened again. */
  lemma FinishAllowsInvoke(s: Sys, star: Option<Params>)
    ensures Invoke(star, Finish(s).1).ret == RunningModal
  {
  }

  // ---------------------------------------------------------------------------
  // Hit tests of a press

  /** The rows the last draw recorded; none before the first draw. */
  function Rows(layout: Option<Layout>): seq<Row> {
    if layout.None? then [] else layout.value.rows
  }

  predicate InSave(layout: Option<Layout>, x: int, y: int) {
    layout.Some? && layout.value.save.Some? && Contains(layout.value.save.value, x, y)
  }

  predicate InClose(layout: Option<Layout>, x: int, y: int) {
    layout.Some? && layout.value.close.Some? && Contains(layout.value.close.value, x, y)
  }

  predicate OnLeft(row: Row, x: int, y: int) {
    row.left.Some? && Contains(row.left.value, x, y)
  }

  predicate OnRight(row: Row, x: int, y: int) {
    row.right.Some? && Contains(row.right.value, x, y)
  }

  /** Row `i` holds the arrow `hit` names under the pointer (its `<` for -1,
      its `>` but not its `<` for +1), and no earlier row has an arrow there. */
  predicate FirstArrow(rows: seq<Row>, i: int, x: int, y: int, hit: (Field, int)) {
    && 0 <= i < |rows|
    && rows[i].field == hit.0
    && (if hit.1 == -1 then OnLeft(rows[i], x, y) else !OnLeft(rows[i], x, y) && OnRight(rows[i], x, y))
    && forall j :: 0 <= j < i ==> !OnLeft(rows[j], x, y) && !OnRight(rows[j], x, y)
  }

  /** The stepper scan: rows in panel order, for each the `<` before the
      `>`; the field and direction of the first arrow under the pointer. */
  function FindStepper(rows: seq<Row>, x: int, y: int): (r: Option<(Field, int)>)
    ensures r.None? <==> forall i :: 0 <= i < |rows| ==> !OnLeft(rows[i], x, y) && !OnRight(rows[i], x, y)
    ensures r.Some? ==> (r.value.1 == -1 || r.value.1 == 1) && exists i :: FirstArrow(rows, i, x, y, r.value)
    decreases |rows|
  {
    if rows == [] then None
    else if OnLeft(rows[0], x, y) then
      assert FirstArrow(rows, 0, x, y, (rows[0].field, -1));
      Some((rows[0].field, -1))
    else if OnRight(rows[0], x, y) then
      assert FirstArrow(rows, 0, x, y, (rows[0].field, 1));
      Some((rows[0].field, 1))
    else
      var r := FindStepper(rows[1..], x, y);
      assert r.Some? ==> exists i :: FirstArrow(rows, i, x, y, r.value) by {
        if r.Some? {
          var i :| FirstArrow(rows[1..], i, x, y, r.value);
          assert rows[i + 1] == rows[1..][i];
          assert FirstArrow(rows, i + 1, x, y, r.value);
        }
      }
      r
  }

  // ---------------------------------------------------------------------------
  // The handlers, one per kind of event

  /** A timer tick: the debounced rebuild, then the timer is dropped unless
      something is still pending, dragging or open. */
  function OnTimer(s: Sys, g: Globals, objectMode: bool, now: real): (r: Step)
    ensures r.ret == PassThrough && r.globals == g && !r.dialog
    ensures r.sys.star == s.star && r.sys.ed.edit == s.ed.edit && r.sys.ed.drag == s.ed.drag
    ensures r.rebuilt == Tick(s.ed.pulse, now, EditorWindow, s.star, objectMode).rebuilt
    ensures r.sys.ed.timer <==>
      s.ed.timer && (r.sys.ed.pulse.dirty || IsDragging(s.ed.drag) || s.ed.edit.Editing?)
  {
    var t := Tick(s.ed.pulse, now, EditorWindow, s.star, objectMode);
    var keep := KeepTimer(s.ed.timer, t.pulse.dirty, IsDragging(s.ed.drag), s.ed.edit.Editing?);
    Step(s.(ed := s.ed.(pulse := t.pulse, timer := keep)), g, PassThrough, false, t.rebuilt)
  }

  /** A left press or a move outside the drawn panel while no press is held:
      a press commits an open edit, a move clears the hover; the event
      passes on. */
  function OnOutside(s: Sys, g: Globals, ev: Event, now: real): (r: Step)
    requires ev.LeftMouse? || ev.MouseMove?
    ensures r.ret == PassThrough && r.globals == g && !r.dialog && !r.rebuilt
    ensures ev.LeftMouse? && ev.value == Press ==> r.sys == CommitEditing(s, now)
    ensures ev.MouseMove? ==> r.sys == s.(ed := s.ed.(hover := None))
    ensures ev.LeftMouse? && ev.value != Press ==> r.sys == s
  {
    if ev.LeftMouse? then
      if ev.value == Press then Continue(CommitEditing(s, now), g, PassThrough)
      else Continue(s, g, PassThrough)
    else Continue(s.(ed := s.ed.(hover := None)), g, PassThrough)
  }

  /** A move inside the panel, or anywhere while a press is held: the hover
      follows the pointer, and a held press drags. */
  function OnMove(s: Sys, g: Globals, x: int, y: int, shift: bool, ctrl: bool, now: real): (r: Step)
    ensures r.globals == g && !r.dialog && !r.rebuilt
    ensures s.ed.drag.NoDrag? ==> r.ret == PassThrough && r.sys == s.(ed := s.ed.(hover := Hover(s.ed.layout, x, y)))
    ensures s.ed.drag.Drag? ==>
      && r.ret == RunningModal
      && r.sys == UpdateValueDrag(s.(ed := s.ed.(hover := Hover(s.ed.layout, x, y))), x, shift, ctrl, now)
  {
    var h := s.(ed := s.ed.(hover := Hover(s.ed.layout, x, y)));
    if s.ed.drag.Drag? then Continue(UpdateValueDrag(h, x, shift, ctrl, now), g, RunningModal)
    else Continue(h, g, PassThrough)
  }

  /** A left press inside the panel, tried in order: Save Preset (commit and
      open the dialog), Close (commit and finish), a stepper (commit and
      step), a value area (start a press); anything else passes on. */
  function OnPress(s: Sys, g: Globals, x: int, y: int, shift: bool, ctrl: bool, now: real): (r: Step)
    ensures InSave(s.ed.layout, x, y) ==>
      r == Step(CommitEditing(s, now), g, RunningModal, true, false)
    ensures !InSave(s.ed.layout, x, y) && InClose(s.ed.layout, x, y) ==>
      r.ret == Cancelled && r.globals == NotRunning && r.sys == Finish(CommitEditing(s, now)).0
    ensures r.ret == Cancelled <==> !InSave(s.ed.layout, x, y) && InClose(s.ed.layout, x, y)
    ensures !InSave(s.ed.layout, x, y) && !InClose(s.ed.layout, x, y) ==> r.globals == g && !r.dialog
    ensures !InSave(s.ed.layout, x, y) && !InClose(s.ed.layout, x, y) && FindStepper(Rows(s.ed.layout), x, y).Some? ==>
      var st := FindStepper(Rows(s.ed.layout), x, y).value;
      r.ret == RunningModal && r.sys == ApplyStep(CommitEditing(s, now), st.0, st.1, shift, ctrl, now)
    ensures !InSave(s.ed.layout, x, y) && !InClose(s.ed.layout, x, y) && FindStepper(Rows(s.ed.layout), x, y).None? ==>
      var hit := HoverIn(Rows(s.ed.layout), x, y);
      && (hit.Some? ==> r.ret == RunningModal && r.sys == StartValueDrag(s, hit.value, x))
      && (hit.None? ==> r.ret == PassThrough && r.sys == s)
    ensures !r.rebuilt
  {
    var l := s.ed.layout;
    if InSave(l, x, y) then Step(CommitEditing(s, now), g, RunningModal, true, false)
    else if InClose(l, x, y) then
      var fin := Finish(CommitEditing(s, now));
      Continue(fin.0, fin.1, Cancelled)
    else match FindStepper(Rows(l), x, y)
      case Some(st) => Continue(ApplyStep(CommitEditing(s, now), st.0, st.1, shift, ctrl, now), g, RunningModal)
      case None =>
        match HoverIn(Rows(l), x, y)
        case Some(f) => Continue(StartValueDrag(s, f, x), g, RunningModal)
        case None => Continue(s, g, PassThrough)
  }

  /** A left release while a press is held: the press ends (possibly opening
      an edit) and the timer is dropped if nothing keeps it. */
  function OnRelease(s: Sys, g: Globals, now: real): (r: Step)
    requires s.ed.drag.Drag?
    ensures r.ret == RunningModal && r.globals == g && !r.dialog && !r.rebuilt
    ensures r.sys.ed.drag == NoDrag
    ensures var e := EndValueDrag(s, now);
      r.sys == e.(ed := e.ed.(timer := KeepTimer(e.ed.timer, e.ed.pulse.dirty, false, e.ed.edit.Editing?)))
  {
    var e := EndValueDrag(s, now);
    Continue(e.(ed := e.ed.(timer := KeepTimer(e.ed.timer, e.ed.pulse.dirty, IsDragging(e.ed.drag), e.ed.edit.Editing?))), g, RunningModal)
  }

  /** Whether the event is a left press or move outside the drawn panel with
      no press held. */
  predicate Outside(s: Sys, ev: Event) {
    && (ev.LeftMouse? || ev.MouseMove?)
    && s.ed.drag.NoDrag?
    && s.ed.layout.Some?
    && !Contains(s.ed.layout.value.panel, ev.x, ev.y)
  }

  /** `modal`: one event. The draw callback is separate (`EditorState.Draw`). */
  function Modal(s: Sys, g: Globals, ev: Event, objectMode: bool, now: real): (r: Step)
    ensures s.ed.edit.Editing? && ev.KeyIn? ==>
      r == Continue(HandleKey(s, ev.k, now).0, g, RunningModal)
    ensures ev.Timer? ==> r == OnTimer(s, g, objectMode, now)
    ensures (ev.OtherMouse? || (ev.KeyIn? && s.ed.edit.NoEdit?)) ==> r == Continue(s, g, PassThrough)
    ensures r.ret == Cancelled ==> r.globals == NotRunning
    ensures r.ret != Cancelled ==> r.globals == g
    ensures r.rebuilt ==> ev.Timer?
    ensures r.dialog ==> ev.LeftMouse? && ev.value == Press && r.ret == RunningModal
  {
    if s.ed.edit.Editing? && ev.KeyIn? && HandleKey(s, ev.k, now).1 then
      Continue(HandleKey(s, ev.k, now).0, g, RunningModal)
    else if ev.Timer? then OnTimer(s, g, objectMode, now)
    else if Outside(s, ev) then OnOutside(s, g, ev, now)
    else if ev.MouseMove? then OnMove(s, g, ev.x, ev.y, ev.shift, ev.ctrl, now)
    else if ev.LeftMouse? && ev.value == Press then OnPress(s, g, ev.x, ev.y, ev.shift, ev.ctrl, now)
    else if ev.LeftMouse? && ev.value == Release && s.ed.drag.Drag? then OnRelease(s, g, now)
    else Continue(s, g, PassThrough)
  }

  // ---------------------------------------------------------------------------
  // Properties of the event loop

  /** While an edit is open every key is taken by the editor and never
      reaches the viewport; only Enter and Esc presses touch the star. */
  lemma EditingCapturesKeys(s: Sys, g: Globals, k: KeyEvent, objectMode: bool, now: real)
    requires s.ed.edit.Editing?
    ensures var r := Modal(s, g, KeyIn(k), objectMode, now);
      && r.ret == RunningModal && r.globals == g
      && (r.sys.star == s.star || (k.value == Press && k.key in {Enter, NumpadEnter, Esc}))
  {
  }

  /** A left press outside the drawn panel, with no press held, closes an
      open edit by committing it and then passes on to the viewport. */
  lemma PressOutsideCommits(s: Sys, g: Globals, x: int, y: int, shift: bool, ctrl: bool, objectMode: bool, now: real)
    requires s.ed.drag.NoDrag? && s.ed.layout.Some? && !Contains(s.ed.layout.value.panel, x, y)
    ensures var r := Modal(s, g, LeftMouse(x, y, Press, shift, ctrl), objectMode, now);
      && r.ret == PassThrough && r.globals == g
      && r.sys == CommitEditing(s, now)
      && r.sys.ed.edit == NoEdit
  {
  }

  /** A left release while a press is held always ends the press, and the
      editor keeps the event. */
  lemma ReleaseEndsPress(s: Sys, g: Globals, x: int, y: int, shift: bool, ctrl: bool, objectMode: bool, now: real)
    requires s.ed.drag.Drag?
    ensures var r := Modal(s, g, LeftMouse(x, y, Release, shift, ctrl), objectMode, now);
      r.ret == RunningModal && r.sys.ed.drag == NoDrag && r.globals == g
  {
  }

  /** Without a selected star the draw records no Close button, so no event
      can end the editor until a star is selected again and drawn. */
  lemma NoCloseWithoutStar(s: Sys, g: Globals, ev: Event, objectMode: bool, now: real)
    requires s.ed.layout.Some? && s.ed.layout.value.close.None?
    ensures Modal(s, g, ev, objectMode, now).ret != Cancelled
  {
  }

  /** On a panel drawn for the current state, a press on the Close button
      commits any open edit and ends the editor: the timer is gone and a new
      editor may be opened. */
  lemma PressOnCloseFinishes(s: Sys, g: Globals, x: int, y: int, shift: bool, ctrl: bool, objectMode: bool, now: real)
    requires s.star.Some? && s.ed.layout == Some(ComputeLayout(s.star, s.ed.hover, EditField(s.ed.edit)))
    requires Contains(CloseRect, x, y)
    ensures var r := Modal(s, g, LeftMouse(x, y, Press, shift, ctrl), objectMode, now);
      && r.ret == Cancelled && r.globals == NotRunning && !r.sys.ed.timer
      && r.sys.star == CommitEditing(s, now).star && r.sys.ed.edit == NoEdit
  {
    FooterFacts(s.star, s.ed.hover, EditField(s.ed.edit), x, y);
    PressInside(s, g, x, y, shift, ctrl, objectMode, now);
    assert !InSave(s.ed.layout, x, y) && InClose(s.ed.layout, x, y);
  }

  /** On a panel drawn for the current state, a press on row `i`'s value area
      away from its arrows starts a press on that row's field (which changes
      no value, see `Pointer.PressChangesNothing`). */
  lemma PressOnValueStartsDrag(s: Sys, g: Globals, i: int, x: int, y: int, shift: bool, ctrl: bool, objectMode: bool, now: real)
    requires s.star.Some? && s.ed.layout == Some(ComputeLayout(s.star, s.ed.hover, EditField(s.ed.edit)))
    requires s.ed.drag.NoDrag?
    requires var rows := s.ed.layout.value.rows;
      0 <= i < |rows| && Contains(rows[i].value, x, y) && !OnLeft(rows[i], x, y) && !OnRight(rows[i], x, y)
    ensures var f := s.ed.layout.value.rows[i].field;
      var r := Modal(s, g, LeftMouse(x, y, Press, shift, ctrl), objectMode, now);
      r == Continue(StartValueDrag(s, f, x), g, RunningModal)
  {
    var l := s.ed.layout.value;
    InsideRow(s.star, s.ed.hover, EditField(s.ed.edit), i, x, y);
    NoArrowAtAll(s.star, s.ed.hover, EditField(s.ed.edit), i, x, y);
    HoverIsTheContainingRow(s.star, s.ed.hover, EditField(s.ed.edit), i, x, y);
    PressOnFreeValue(s, g, l.rows[i].field, x, y, shift, ctrl, objectMode, now);
  }

  /** On a panel drawn for the current state, a press on row `i`'s `<` steps
      that row's field down, after committing any open edit. */
  lemma PressOnLeftArrowSteps(s: Sys, g: Globals, i: int, x: int, y: int, shift: bool, ctrl: bool, objectMode: bool, now: real)
    requires s.star.Some? && s.ed.layout == Some(ComputeLayout(s.star, s.ed.hover, EditField(s.ed.edit)))
    requires s.ed.drag.NoDrag?
    requires var rows := s.ed.layout.value.rows;
      0 <= i < |rows| && OnLeft(rows[i], x, y)
    ensures var f := s.ed.layout.value.rows[i].field;
      var r := Modal(s, g, LeftMouse(x, y, Press, shift, ctrl), objectMode, now);
      && r.ret == RunningModal && r.globals == g
      && r.sys == ApplyStep(CommitEditing(s, now), f, -1, shift, ctrl, now)
  {
    var l := s.ed.layout.value;
    ArrowInRow(s.star, s.ed.hover, EditField(s.ed.edit), i, x, y);
    InsideRow(s.star, s.ed.hover, EditField(s.ed.edit), i, x, y);
    NoArrowElsewhere(s.star, s.ed.hover, EditField(s.ed.edit), i, x, y);
    var st := FindStepper(l.rows, x, y);
    assert st.Some?;
    var k :| FirstArrow(l.rows, k, x, y, st.value);
    assert k == i;
    assert st.value == (l.rows[i].field, -1);
    PressInside(s, g, x, y, shift, ctrl, objectMode, now);
  }

  /** On a drawn panel the arrows of a row lie inside its value area, and the
      value areas are disjoint, so a point in row `i`'s value area is on no
      other row's arrow. */
  lemma NoArrowElsewhere(star: Option<Params>, hover: Option<Field>, editing: Option<Field>, i: int, x: int, y: int)
    requires star.Some?
    requires var rows := ComputeLayout(star, hover, editing).rows;
      0 <= i < |rows| && Contains(rows[i].value, x, y)
    ensures var rows := ComputeLayout(star, hover, editing).rows;
      forall j :: 0 <= j < |rows| && j != i ==> !OnLeft(rows[j], x, y) && !OnRight(rows[j], x, y)
  {
    var rows := ComputeLayout(star, hover, editing).rows;
    LayoutGeometry(star, hover, editing);
    forall j | 0 <= j < |rows| && j != i
      ensures !OnLeft(rows[j], x, y) && !OnRight(rows[j], x, y)
    {
      assert !Contains(rows[j].value, x, y) by {
        if j < i {
          assert Disjoint(rows[j].value, rows[i].value);
        } else {
          assert Disjoint(rows[i].value, rows[j].value);
        }
      }
    }
  }

  /** A point in a drawn row's value area is inside the panel and on neither
      footer button. */
  lemma InsideRow(star: Option<Params>, hover: Option<Field>, editing: Option<Field>, i: int, x: int, y: int)
    requires star.Some?
    requires var rows := ComputeLayout(star, hover, editing).rows;
      0 <= i < |rows| && Contains(rows[i].value, x, y)
    ensures var l := ComputeLayout(star, hover, editing);
      Contains(l.panel, x, y) && !Contains(SaveRect, x, y) && !Contains(CloseRect, x, y)
  {
    LayoutGeometry(star, hover, editing);
  }

  /** A drawn row's arrows lie in its value area. */
  lemma ArrowInRow(star: Option<Params>, hover: Option<Field>, editing: Option<Field>, i: int, x: int, y: int)
    requires star.Some?
    requires var rows := ComputeLayout(star, hover, editing).rows;
      0 <= i < |rows| && (OnLeft(rows[i], x, y) || OnRight(rows[i], x, y))
    ensures Contains(ComputeLayout(star, hover, editing).rows[i].value, x, y)
  {
    LayoutGeometry(star, hover, editing);
  }

  /** The Close button of a drawn panel is inside the panel and apart from
      the Save button. */
  lemma FooterFacts(star: Option<Params>, hover: Option<Field>, editing: Option<Field>, x: int, y: int)
    requires star.Some? && Contains(CloseRect, x, y)
    ensures Contains(ComputeLayout(star, hover, editing).panel, x, y) && !Contains(SaveRect, x, y)
  {
    LayoutGeometry(star, hover, editing);
  }

  /** A left press inside the drawn panel goes to the press handler. */
  lemma PressInside(s: Sys, g: Globals, x: int, y: int, shift: bool, ctrl: bool, objectMode: bool, now: real)
    requires s.ed.layout.Some? && Contains(s.ed.layout.value.panel, x, y)
    ensures Modal(s, g, LeftMouse(x, y, Press, shift, ctrl), objectMode, now) == OnPress(s, g, x, y, shift, ctrl, now)
  {
  }

  /** A press inside the drawn panel, on no footer button and no arrow, on a
      value area of field `f`, starts a press on `f`. */
  lemma PressOnFreeValue(s: Sys, g: Globals, f: Field, x: int, y: int, shift: bool, ctrl: bool, objectMode: bool, now: real)
    requires s.ed.layout.Some? && Contains(s.ed.layout.value.panel, x, y)
    requires !Contains(SaveRect, x, y) && !Contains(CloseRect, x, y)
    requires s.ed.layout.value.save.Some? ==> s.ed.layout.value.save.value == SaveRect
    requires s.ed.layout.value.close.Some? ==> s.ed.layout.value.close.value == CloseRect
    requires forall j :: 0 <= j < |s.ed.layout.value.rows| ==>
      !OnLeft(s.ed.layout.value.rows[j], x, y) && !OnRight(s.ed.layout.value.rows[j], x, y)
    requires HoverIn(s.ed.layout.value.rows, x, y) == Some(f)
    ensures Modal(s, g, LeftMouse(x, y, Press, shift, ctrl), objectMode, now) == Continue(StartValueDrag(s, f, x), g, RunningModal)
  {
    PressInside(s, g, x, y, shift, ctrl, objectMode, now);
  }

  lemma NoArrowAtAll(star: Option<Params>, hover: Option<Field>, editing: Option<Field>, i: int, x: int, y: int)
    requires star.Some?
    requires var rows := ComputeLayout(star, hover, editing).rows;
      0 <= i < |rows| && Contains(rows[i].value, x, y) && !OnLeft(rows[i], x, y) && !OnRight(rows[i], x, y)
    ensures var rows := ComputeLayout(star, hover, editing).rows;
      forall j :: 0 <= j < |rows| ==> !OnLeft(rows[j], x, y) && !OnRight(rows[j], x, y)
  {
    NoArrowElsewhere(star, hover, editing, i, x, y);
  }

  // ---------------------------------------------------------------------------
  // Invariants of the running editor

  /** A pending rebuild or an open edit always has a timer to serve it. */
  predicate TimerCovers(s: Sys) {
    (s.ed.pulse.dirty || s.ed.edit.Editing?) ==> s.ed.timer
  }

  /** Every event that leaves the editor running keeps the timer covering
      the pending rebuild and the open edit, so neither is stranded. */
  lemma ModalKeepsTimer(s: Sys, g: Globals, ev: Event, objectMode: bool, now: real)
    requires TimerCovers(s)
    ensures var r := Modal(s, g, ev, objectMode, now);
      r.ret != Cancelled ==> TimerCovers(r.sys)
  {
    var r := Modal(s, g, ev, objectMode, now);
    if s.ed.edit.Editing? && ev.KeyIn? && HandleKey(s, ev.k, now).1 {
      KeyKeepsTimer(s, ev.k, now);
    } else if ev.Timer? {
    } else if Outside(s, ev) {
      CommitKeepsTimer(s, now);
    } else if ev.MouseMove? {
      DragKeepsTimer(s.(ed := s.ed.(hover := Hover(s.ed.layout, ev.x, ev.y))), ev.x, ev.shift, ev.ctrl, now);
    } else if ev.LeftMouse? && ev.value == Press {
      CommitKeepsTimer(s, now);
      StepKeepsTimer(CommitEditing(s, now), ev.x, ev.y, Rows(s.ed.layout), ev.shift, ev.ctrl, now);
    } else if ev.LeftMouse? && ev.value == Release && s.ed.drag.Drag? {
      ReleaseKeepsTimer(s, now);
    }
  }

  lemma CommitKeepsTimer(s: Sys, now: real)
    requires TimerCovers(s)
    ensures TimerCovers(CommitEditing(s, now))
  {
  }

  lemma CancelKeepsTimer(s: Sys, now: real)
    requires TimerCovers(s)
    ensures TimerCovers(CancelEditing(s, now))
  {
  }

  lemma KeyKeepsTimer(s: Sys, k: KeyEvent, now: real)
    requires TimerCovers(s) && s.ed.edit.Editing?
    ensures TimerCovers(HandleKey(s, k, now).0)
  {
    CommitKeepsTimer(s, now);
    CancelKeepsTimer(s, now);
  }

  lemma DragKeepsTimer(s: Sys, mx: int, shift: bool, ctrl: bool, now: real)
    requires TimerCovers(s)
    ensures TimerCovers(UpdateValueDrag(s, mx, shift, ctrl, now))
  {
    if s.ed.drag.Drag? {
      CommitKeepsTimer(s.(ed := s.ed.(drag := s.ed.drag.(dragging := true))), now);
    }
  }

  lemma StepKeepsTimer(c: Sys, x: int, y: int, rows: seq<Row>, shift: bool, ctrl: bool, now: real)
    requires TimerCovers(c)
    ensures FindStepper(rows, x, y).Some? ==>
      TimerCovers(ApplyStep(c, FindStepper(rows, x, y).value.0, FindStepper(rows, x, y).value.1, shift, ctrl, now))
  {
  }

  lemma ReleaseKeepsTimer(s: Sys, now: real)
    requires TimerCovers(s) && s.ed.drag.Drag?
    ensures TimerCovers(EndValueDrag(s, now))
  {
    var s0 := s.(ed := s.ed.(drag := NoDrag));
    CommitKeepsTimer(s0, now);
  }

  /** A star whose fields all sit at or above their floors. */
  predicate StarFloored(s: Sys) {
    s.star.Some? ==> Floored(s.star.value)
  }

  /** No event takes a field below its floor: every write goes through the
      field's write rule. */
  lemma ModalKeepsFloored(s: Sys, g: Globals, ev: Event, objectMode: bool, now: real)
    requires StarFloored(s)
    ensures StarFloored(Modal(s, g, ev, objectMode, now).sys)
  {
    var r := Modal(s, g, ev, objectMode, now);
    if s.ed.edit.Editing? && ev.KeyIn? && HandleKey(s, ev.k, now).1 {
      assert r.sys == HandleKey(s, ev.k, now).0;
      KeyFloored(s, ev.k, now);
    } else if ev.Timer? {
      assert r == OnTimer(s, g, objectMode, now);
    } else if Outside(s, ev) {
      assert r == OnOutside(s, g, ev, now);
      CommitFloored(s, now);
    } else if ev.MouseMove? {
      assert r == OnMove(s, g, ev.x, ev.y, ev.shift, ev.ctrl, now);
      DragFloored(s.(ed := s.ed.(hover := Hover(s.ed.layout, ev.x, ev.y))), ev.x, ev.shift, ev.ctrl, now);
    } else if ev.LeftMouse? && ev.value == Press {
      assert r == OnPress(s, g, ev.x, ev.y, ev.shift, ev.ctrl, now);
      PressFloored(s, g, ev.x, ev.y, ev.shift, ev.ctrl, now);
    } else if ev.LeftMouse? && ev.value == Release && s.ed.drag.Drag? {
      assert r == OnRelease(s, g, now);
      CommitFloored(s.(ed := s.ed.(drag := NoDrag)), now);
    } else {
      assert r.sys == s;
    }
  }

  lemma KeyFloored(s: Sys, k: KeyEvent, now: real)
    requires StarFloored(s) && s.ed.edit.Editing?
    ensures StarFloored(HandleKey(s, k, now).0)
  {
    CommitFloored(s, now);
    CancelFloored(s, now);
  }

  lemma PressFloored(s: Sys, g: Globals, x: int, y: int, shift: bool, ctrl: bool, now: real)
    requires StarFloored(s)
    ensures StarFloored(OnPress(s, g, x, y, shift, ctrl, now).sys)
  {
    CommitFloored(s, now);
    var l := s.ed.layout;
    if !InSave(l, x, y) && !InClose(l, x, y) {
      var st := FindStepper(Rows(l), x, y);
      if st.Some? {
        StepFloored(CommitEditing(s, now), st.value.0, st.value.1, shift, ctrl, now);
      }
    }
  }

  lemma StepFloored(c: Sys, f: Field, dir: int, shift: bool, ctrl: bool, now: real)
    requires StarFloored(c)
    ensures StarFloored(ApplyStep(c, f, dir, shift, ctrl, now))
  {
    if c.star.Some? {
      WriteKeepsFloored(c.star.value, f, GetField(c.star.value, f) + dir as real * FieldStep(f) * StepMultiplier(shift, ctrl));
    }
  }

  lemma CommitFloored(s: Sys, now: real)
    requires StarFloored(s)
    ensures StarFloored(CommitEditing(s, now))
  {
    if s.ed.edit.Editing? && s.star.Some? {
      var e := s.ed.edit;
      var w := SetField(s.star.value, e.field, CommitValue(e.field, e.text));
      WriteKeepsFloored(s.star.value, e.field, CommitValue(e.field, e.text));
      WriteKeepsFloored(w, e.field, e.original);
    }
  }

  lemma CancelFloored(s: Sys, now: real)
    requires StarFloored(s)
    ensures StarFloored(CancelEditing(s, now))
  {
    if s.ed.edit.Editing? && s.star.Some? {
      WriteKeepsFloored(s.star.value, s.ed.edit.field, s.ed.edit.original);
    }
  }

  lemma DragFloored(s: Sys, mx: int, shift: bool, ctrl: bool, now: real)
    requires StarFloored(s)
    ensures StarFloored(UpdateValueDrag(s, mx, shift, ctrl, now))
  {
    if s.ed.drag.Drag? {
      var d := s.ed.drag;
      var dx := mx - d.startX;
      if d.dragging || !(-DragThreshold < dx < DragThreshold) {
        var crossed := s.(ed := s.ed.(drag := d.(dragging := true)));
        var s1 := if d.dragging then crossed else CommitEditing(crossed, now);
        if !d.dragging {
          CommitFloored(crossed, now);
        }
        var v := DragValue(d.field, d.startValue, dx, shift, ctrl);
        DragWriteFloored(s1, d.field, v, now);
        assert UpdateValueDrag(s, mx, shift, ctrl, now)
          == if s1.star.None? then s1 else SetDirty(s1.(star := Some(SetField(s1.star.value, d.field, v))), now);
      }
    }
  }

  /** The write a drag step makes keeps the store floored. */
  lemma DragWriteFloored(s1: Sys, f: Field, v: real, now: real)
    requires StarFloored(s1)
    ensures StarFloored(if s1.star.None? then s1 else SetDirty(s1.(star := Some(SetField(s1.star.value, f, v))), now))
  {
    if s1.star.Some? {
      WriteKeepsFloored(s1.star.value, f, v);
    }
  }

  // ---------------------------------------------------------------------------
  // A press before the first draw

  /** What `modal` returns, or that it raised. */
  datatype Outcome = Returned(step: Step) | Raised

  /** `modal` as written: the footer tests are skipped while nothing has been
      drawn, but the stepper scan reads the recorded left-arrow table without
      the empty fallback the value-area scan has, so a left press before the
      first draw raises. Every other event behaves as `Modal`. */
  function ModalAsWritten(s: Sys, g: Globals, ev: Event, objectMode: bool, now: real): (r: Outcome)
    ensures r.Raised? <==> ev.LeftMouse? && ev.value == Press && s.ed.layout.None?
    ensures r.Returned? ==> r.step == Modal(s, g, ev, objectMode, now)
  {
    if ev.LeftMouse? && ev.value == Press && s.ed.layout.None? then Raised
    else Returned(Modal(s, g, ev, objectMode, now))
  }

  /** As written: a left press that reaches a freshly opened editor before
      its first draw raises, so `_finish` never runs and the running flag
      stays up; from then on every attempt to open the editor is refused. */
  lemma PressBeforeFirstDrawLocksEditor(star: Option<Params>, x: int, y: int, shift: bool, ctrl: bool,
                                        objectMode: bool, now: real, later: Option<Params>)
    ensures var first := Invoke(star, NotRunning);
      && first.ret == RunningModal
      && ModalAsWritten(first.sys, first.globals, LeftMouse(x, y, Press, shift, ctrl), objectMode, now) == Raised
      && Invoke(later, first.globals).ret == Cancelled
  {
  }

  /** Corrected: with the missing arrow table read as empty (what `Modal`
      does), the same press passes through untouched, and once a star has
      been drawn its Close button ends the editor so that it can be opened
      again. */
  lemma PressBeforeFirstDrawPassesThrough(star: Option<Params>, x: int, y: int, shift: bool, ctrl: bool,
                                          objectMode: bool, now: real, cx: int, cy: int)
    requires star.Some? && Contains(CloseRect, cx, cy)
    ensures var first := Invoke(star, NotRunning);
      var r := Modal(first.sys, first.globals, LeftMouse(x, y, Press, shift, ctrl), objectMode, now);
      && r == Continue(first.sys, first.globals, PassThrough)
      && var closed := Modal(Draw(r.sys), r.globals, LeftMouse(cx, cy, Press, shift, ctrl), objectMode, now);
         && closed.ret == Cancelled
         && Invoke(star, closed.globals).ret == RunningModal
  {
    var first := Invoke(star, NotRunning);
    FreshPressPassesThrough(first.sys, first.globals, x, y, shift, ctrl, objectMode, now);
    PressOnCloseFinishes(Draw(first.sys), first.globals, cx, cy, shift, ctrl, objectMode, now);
  }

  lemma FreshPressPassesThrough(s: Sys, g: Globals, x: int, y: int, shift: bool, ctrl: bool, objectMode: bool, now: real)
    requires s.ed == Fresh
    ensures Modal(s, g, LeftMouse(x, y, Press, shift, ctrl), objectMode, now) == Continue(s, g, PassThrough)
  {
  }
}
