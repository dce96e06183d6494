/** The pinned editor's runtime state: hover, the inline edit, the pending or
    active value drag, the debounce pulse, whether the timer exists, and the
    rectangles recorded by the most recent draw. A `Sys` pairs it with the
    active star's parameters (`None` when no star object is active). */
module EditorState {
  import opened Wrappers
  import opened Params
  import opened Debounce
  import opened Layout

  /** The inline edit: the field, its text buffer, the value it had when the
      edit started, and whether the whole text is selected. */
  datatype Edit = NoEdit | Editing(field: Field, text: string, original: real, selectAll: bool)

  /** A press on a value area: `dragging` once the pointer has moved past the
      threshold, a pending click before that. */
  datatype DragState = NoDrag | Drag(field: Field, startX: int, startValue: real, dragging: bool)

  /** How an event's key or button changed: Blender's event `value`. */
  datatype Value = Press | Release | DoubleClick | OtherValue

  /** The keys the inline editor distinguishes; `NumpadKey(c)` is the numpad
      key printed with `c`, and `OtherKey` is every other non-mouse event. */
  datatype Key = Enter | NumpadEnter | Esc | BackSpace | Del | NumpadKey(sym: char) | OtherKey

  /** A keyboard event with the character it produced, if any. */
  datatype KeyEvent = KeyEvent(key: Key, value: Value, ascii: Option<char>)

  datatype Ed = Ed(
    hover: Option<Field>,
    edit: Edit,
    drag: DragState,
    pulse: Pulse,
    timer: bool,
    layout: Option<Layout>)

  datatype Sys = Sys(ed: Ed, star: Option<Params>)

  /** A fresh operator instance: nothing hovered, edited or dragged, no timer,
      nothing drawn yet. */
  const Fresh: Ed := Ed(None, NoEdit, NoDrag, Idle, false, None)

  function EditField(e: Edit): Option<Field> {
    if e.Editing? then Some(e.field) else None
  }

  predicate IsDragging(d: DragState) {
    d.Drag? && d.dragging
  }

  /** `_set_dirty`: the pulse restarts at `now` and the timer is ensured;
      nothing else changes. */
  function SetDirty(s: Sys, now: real): (r: Sys)
    ensures r.ed.pulse.dirty && r.ed.pulse.since == now && r.ed.timer
    ensures r == s.(ed := s.ed.(pulse := r.ed.pulse, timer := true))
  {
    s.(ed := s.ed.(pulse := MarkDirty(s.ed.pulse, now), timer := true))
  }

  /** The draw callback: records the rectangles for the current state. */
  function Draw(s: Sys): (r: Sys)
    ensures r.ed.layout.Some? && r == s.(ed := s.ed.(layout := r.ed.layout))
    ensures r.ed.layout.value.rows == [] <==> s.star.None?
  {
    s.(ed := s.ed.(layout := Some(ComputeLayout(s.star, s.ed.hover, EditField(s.ed.edit)))))
  }
}
