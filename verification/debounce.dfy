/** The debounced rebuild shared by both editors: a dirty flag with the time
    it was last raised, a window that must pass before a timer tick rebuilds,
    the reentrancy guard, and the rule for dropping the timer when idle. The
    clock is an input; `rebuilt` says that `rebuild_star_mesh` was called with
    the star's current parameters (see `Mesh.RebuildStarMesh` for that call). */
module Debounce {
  import opened Wrappers
  import opened Params

  datatype Pulse = Pulse(dirty: bool, since: real, updating: bool)

  const Idle: Pulse := Pulse(false, 0.0, false)

  /** The pinned editor's window, in seconds. */
  const EditorWindow: real := 0.10
  /** The slider editor's window, in seconds. */
  const SliderWindow: real := 0.12

  /** `_set_dirty`: raise the flag and restart the window at `now`. */
  function MarkDirty(pl: Pulse, now: real): (r: Pulse)
    ensures r.dirty && r.since == now && r.updating == pl.updating
  {
    pl.(dirty := true, since := now)
  }

  /** What a timer tick decided. */
  datatype TickResult = TickResult(pulse: Pulse, rebuilt: bool)

  /** `_debounced_rebuild`: nothing happens until the window has passed; the
      first tick after it clears the flag whatever follows, and rebuilds only
      for an active star in object mode, outside a rebuild, whose parameters
      validate. */
  function Tick(pl: Pulse, now: real, window: real, star: Option<Params>, objectMode: bool): (r: TickResult)
    ensures !pl.dirty || now - pl.since < window ==> r == TickResult(pl, false)
    ensures pl.dirty && now - pl.since >= window ==> r.pulse == pl.(dirty := false)
    ensures r.rebuilt <==>
      && pl.dirty && now - pl.since >= window
      && star.Some? && objectMode && !pl.updating
      && IsValid(star.value)
  {
    if !pl.dirty then TickResult(pl, false)
    else if now - pl.since < window then TickResult(pl, false)
    else
      var cleared := pl.(dirty := false);
      if star.None? || !objectMode || pl.updating then TickResult(cleared, false)
      else if !IsValid(star.value) then TickResult(cleared, false)
      else TickResult(cleared, true)
  }

  /** A run of timer ticks with no edit in between; counts the rebuilds. */
  function RunTicks(pl: Pulse, times: seq<real>, window: real, star: Option<Params>, objectMode: bool): (r: (Pulse, nat))
    decreases |times|
  {
    if times == [] then (pl, 0)
    else
      var t := Tick(pl, times[0], window, star, objectMode);
      var rest := RunTicks(t.pulse, times[1..], window, star, objectMode);
      (rest.0, rest.1 + (if t.rebuilt then 1 else 0))
  }

  /** A clean pulse never rebuilds and stays clean. */
  lemma {:induction false} CleanTicksDoNothing(pl: Pulse, times: seq<real>, window: real, star: Option<Params>, objectMode: bool)
    requires !pl.dirty
    ensures RunTicks(pl, times, window, star, objectMode) == (pl, 0)
    decreases |times|
  {
    if times != [] {
      CleanTicksDoNothing(pl, times[1..], window, star, objectMode);
    }
  }

  /** Each raise of the dirty flag leads to at most one rebuild, however many
      ticks follow, and the flag is down again once one tick has come after
      the window. */
  lemma {:induction false} AtMostOneRebuildPerMark(pl: Pulse, times: seq<real>, window: real, star: Option<Params>, objectMode: bool)
    ensures RunTicks(pl, times, window, star, objectMode).1 <= 1
    ensures (exists i :: 0 <= i < |times| && times[i] - pl.since >= window)
            ==> !RunTicks(pl, times, window, star, objectMode).0.dirty
    decreases |times|
  {
    if times != [] {
      var t := Tick(pl, times[0], window, star, objectMode);
      if t.pulse.dirty {
        assert t.pulse == pl;
        AtMostOneRebuildPerMark(pl, times[1..], window, star, objectMode);
        if exists i :: 0 <= i < |times| && times[i] - pl.since >= window {
          var i :| 0 <= i < |times| && times[i] - pl.since >= window;
          assert i != 0;
          assert times[1..][i - 1] == times[i];
        }
      } else {
        CleanTicksDoNothing(t.pulse, times[1..], window, star, objectMode);
      }
    }
  }

  /** A tick rebuilds only parameters that validate, so the rebuild it
      triggers never raises. */
  lemma RebuildOnlyValid(pl: Pulse, now: real, window: real, star: Option<Params>, objectMode: bool)
    requires Tick(pl, now, window, star, objectMode).rebuilt
    ensures star.Some? && IsValid(star.value) && objectMode
    ensures !Tick(pl, now, window, star, objectMode).pulse.dirty
  {
  }

  /** `_stop_timer_if_idle` in the pinned editor: a running timer survives
      exactly while there is a pending rebuild, a drag or an open edit. */
  function KeepTimer(timer: bool, dirty: bool, dragging: bool, editing: bool): (r: bool)
    ensures r ==> timer
    ensures timer ==> (r <==> dirty || dragging || editing)
  {
    timer && (dirty || dragging || editing)
  }

  /** The slider editor keeps its timer while dirty or dragging. */
  function KeepSliderTimer(timer: bool, dirty: bool, dragging: bool): (r: bool)
    ensures r == KeepTimer(timer, dirty, dragging, false)
  {
    timer && (dirty || dragging)
  }
}
