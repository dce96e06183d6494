# Star mesh add-on: parameter editors, presets and star topology

A Dafny model of the Blender "Star Mesh Creator" add-on, as far as its
behaviour depends only on its own state, its inputs and the clock. It
covers two versions of the add-on:

- `star_mesh_creater_ver1_0_2.py` (1.0.2) holds the **pinned parameter
  editor**. This is a modal overlay with one row per star field. A row can
  be hovered, clicked to open an inline numeric text edit, dragged
  horizontally to scrub the value, or stepped with `<` and `>` buttons.
  Shift multiplies the step by ten and ctrl by a tenth. Changes are
  debounced into mesh rebuilds by a timer.
- `star_mesh_creator.py` (1.0.1) holds the older **slider editor**: one
  horizontal bar per field, written by pressing and dragging on the bar.

Both versions share the same parameter rules and preset store.

The modules follow the program's structure:

- `Wrappers`: `Option` and `Result`.
- `Text`: the Python built-ins the add-on leans on. These are `str.strip`,
  `str.replace`, `str(n)`, `f"{n:02d}"`, `f"{v:.3f}"`, `float(s)` and
  `int(s)` on plain decimal text, `int(x)` (truncation) and
  `int(round(x))` (ties to even).
- `Params`: the star parameters, `_validate`, and the field write rules.
  Those rules are the clamps plus the outer-to-inner coupling.
- `Mesh`: the vertex and face index structure of the star fan, and the
  validate-then-build order of `rebuild_star_mesh`.
- `Presets`: the JSON preset table on the scene collection, the preset
  menu, saving a preset, overlaying a preset on the scene defaults, and
  the object name pattern.
- `Debounce`: the dirty pulse, the timer tick that rebuilds, and the
  "stop timer if idle" rules of both editors.
- `Layout`: the pinned editor's rectangles, panel height, hover hit test
  and caret text.
- `EditorState`: the pinned editor's runtime state.
- `TextEdit`: inline editing: start, key handling, commit with its
  default resets and validation roll-back, and cancel.
- `Pointer`: the steppers, and the press, drag and release on a value.
- `Editor`: the pinned editor's `modal` dispatch, `invoke` and `_finish`,
  plus two invariants across all events.
- `Slider`: the 1.0.1 slider editor: its write rule, layout and `modal`.

The host is abstracted:

- The active star object is an `Option<Params>`.
- The current time and whether Blender is in object mode are parameters.
- JSON decoding is a function parameter.
- The draw handler and the timer are booleans.
- Python floats are exact reals.

The shared code (validate, make name, build, load presets, preset items,
create parameters, save preset) is the same in both files. The table cites
the 1.0.2 lines for it, except where a property is stated for 1.0.1.

## Model

| member | source | states |
|---|---|---|
| Text.Strip | star_mesh_creater_ver1_0_2.py:696 | the result is a slice of the input with only whitespace cut off on either side, and has no whitespace at either end; it is empty exactly when the input is all whitespace; text without whitespace is returned unchanged |
| Text.IntToString | star_mesh_creater_ver1_0_2.py:97 | `str(i)` ends in a digit, starts with `-` exactly for a negative `i`, has no leading zero except for `0` itself, holds only digits and minus signs, and `int()` reads it back as `i` |
| Text.ParseDecimal | star_mesh_creater_ver1_0_2.py:702-706 | `float(s)` on plain decimal text: accepted text holds a digit, and the value is negative only after a leading minus |
| Text.ParseInteger | star_mesh_creater_ver1_0_2.py:225 | `int(s)` on sign-and-digits text: whatever it accepts, `float()` reads as the same number; the value is negative only after a leading minus |
| Text.IntToStringParses | star_mesh_creater_ver1_0_2.py:667 | `str(i)` read back by `int()` or `float()` gives `i` again |
| Text.Pad2 | star_mesh_creater_ver1_0_2.py:96 | the two-digit spike text is `str(n)` widened to two characters (exactly its length when that is already two or more), holds only digits and minus signs, and reads back as the count |
| Text.RoundHalfEven | star_mesh_creater_ver1_0_2.py:599 | `int(round(x))` is within one half of `x`, and a tie goes to the even integer |
| Text.RoundHalfEvenUnique | star_mesh_creater_ver1_0_2.py:599 | those two properties determine the rounded value |
| Text.Trunc | star_mesh_creater_ver1_0_2.py:704 | `int(x)` truncates toward zero: it is at most one away from `x` on the side of zero |
| Text.FormatFixed3 | star_mesh_creater_ver1_0_2.py:436-438 | `f"{v:.3f}"` ends in a point and exactly three digits, and starts with `-` exactly when `v` is negative |
| Text.FormatFixed3RoundTrip | star_mesh_creater_ver1_0_2.py:436-438 | `float(f"{v:.3f}")` is `v` rounded to three decimals |
| Text.Replace | star_mesh_creater_ver1_0_2.py:97 | a text that does not contain the pattern's first character is left unchanged |
| Text.ReplaceFirst | star_mesh_creater_ver1_0_2.py:97 | `str.replace` copies a stretch that cannot start the pattern, replaces the first occurrence after it, and carries on just past that occurrence |
| Params.Validate | star_mesh_creater_ver1_0_2.py:83-92 | valid exactly when spikes ≥ 3, the three sizes are > 0, inner < outer and (for 3D) thickness ≥ 0; otherwise the message of the first failing rule in that order |
| Params.FlooredValidIff | star_mesh_creater_ver1_0_2.py:83-92 | on a store within the write bounds only inner < outer can fail |
| Params.FieldDefaultsAreObjectDefaults | star_mesh_creater_ver1_0_2.py:622-640 | the reset targets 5 / 1.0 / 0.5 / 1.0 / 0.2 are the object property defaults, and the steps are 1 for spikes and 0.01 otherwise |
| Params.FieldDefault | star_mesh_creater_ver1_0_2.py:622-634 | the reset target of a field is that field's object property default, and it is positive |
| Params.FieldStep | star_mesh_creater_ver1_0_2.py:636-640 | the stepper increment is positive: one whole spike, and 0.01 for every other field |
| Params.SetField | star_mesh_creater_ver1_0_2.py:596-619 | spikes are rounded then clamped to [3,256]; outer, inner and scale are floored at 0.0001 and thickness at 0; inner is capped at max(0.0001, 0.999·outer); an outer write resets an inner that is not below it to max(0.0001, outer/2); no other field changes |
| Params.WriteKeepsFloored | star_mesh_creater_ver1_0_2.py:596-619 | every write keeps the store within the write bounds |
| Params.RadiusWriteInnerBelowOuter | star_mesh_creater_ver1_0_2.py:602-611 | after a radius write, inner < outer exactly when outer is above 0.0001 |
| Params.WriteValidity | star_mesh_creater_ver1_0_2.py:596-619 | a write keeps a valid store valid except an outer write at or below 0.0001 |
| Params.WriteIdempotent | star_mesh_creater_ver1_0_2.py:596-619 | writing the same value twice is writing it once |
| Params.WriteForgetsPrevious | star_mesh_creater_ver1_0_2.py:596-619 | a write's result does not depend on the field's previous value |
| Params.RewriteCurrentValue | star_mesh_creater_ver1_0_2.py:596-619 | writing back a field's own value changes nothing, except that an inner above the cap is pulled down to it |
| Mesh.BuildStar | star_mesh_creater_ver1_0_2.py:101-121 | 2n ring vertices alternating outer and inner radius, then the centre, then 2n triangles (centre, ring i, ring i+1 mod 2n) |
| Mesh.FaceCorners | star_mesh_creater_ver1_0_2.py:115-118 | ring vertex v is on face i exactly when i is v or the index before v |
| Mesh.FanIsClosed | star_mesh_creater_ver1_0_2.py:115-118 | every face touches the centre, and each ring vertex is on exactly its two neighbouring faces |
| Mesh.RebuildStarMesh | star_mesh_creater_ver1_0_2.py:134-152 | invalid parameters raise the validation message and leave the mesh untouched; valid ones give the fan with radii times scale, extruded by thickness times scale only for 3D stars with positive scaled thickness |
| Presets.Normalize | star_mesh_creater_ver1_0_2.py:49-56 | a non-object becomes the empty table; an object keeps its keys, gains a default version, and has a missing or non-object `presets` replaced by `{}` |
| Presets.LoadPresets | star_mesh_creater_ver1_0_2.py:44-58 | never fails: an empty or undecodable blob gives the empty table, otherwise the normalised value |
| Presets.NormalizeIdempotent | star_mesh_creater_ver1_0_2.py:49-56 | normalising twice is normalising once |
| Presets.LoadSavedTable | star_mesh_creater_ver1_0_2.py:44-63 | loading a blob that decodes to a saved table gives that table back |
| Presets.Lt | star_mesh_creater_ver1_0_2.py:70 | Python's string order: a proper prefix comes first and a smaller first character comes first; a string below another has a first character no larger than the other's, and nothing is below the empty string |
| Presets.LtIrreflexive | star_mesh_creater_ver1_0_2.py:70 | no string is below itself |
| Presets.LtTotal | star_mesh_creater_ver1_0_2.py:70 | Python's string order is total on distinct strings |
| Presets.LtTransitive | star_mesh_creater_ver1_0_2.py:70 | and transitive |
| Presets.SortNames | star_mesh_creater_ver1_0_2.py:70 | `sorted(names)` lists exactly the keys, each once, in strictly increasing order |
| Presets.PresetItems | star_mesh_creater_ver1_0_2.py:66-76 | only the "(no presets)" entry when there are none; otherwise `NONE` first, then one entry per preset name in sorted order |
| Presets.SavePreset | star_mesh_creater_ver1_0_2.py:308-333 | no star or a blank name cancels with its message; otherwise the stripped name maps to the star's six fields in the loaded table, and that name becomes the selection |
| Presets.SaveKeepsOtherPresets | star_mesh_creater_ver1_0_2.py:320-330 | saving leaves every other preset and every other key unchanged |
| Presets.ToInt | star_mesh_creater_ver1_0_2.py:225 | `int(v)` fails exactly on null, arrays, objects and strings that are not integer text; a number is cut toward zero; a string it accepts reads the same through `float()` |
| Presets.ToFloat | star_mesh_creater_ver1_0_2.py:226-229 | `float(v)` fails exactly on null, arrays, objects and strings that are not decimal text; a number passes unchanged; an accepted string holds a digit |
| Presets.GetCreateParams | star_mesh_creater_ver1_0_2.py:208-230 | with the preset flag off, the selection `NONE`, or no object entry under the selected name, the scene defaults; rotation is always 0 |
| Presets.OverlayFieldwise | star_mesh_creater_ver1_0_2.py:223-229 | field by field, a present preset value wins and an absent one falls back to the scene default; a present `star_type` is passed on as whatever JSON value the preset holds |
| Presets.CreateFailsOnBadField | star_mesh_creater_ver1_0_2.py:223-229 | with a usable preset selected, creation fails exactly when some numeric field is present but cannot be converted |
| Presets.SaveThenCreate | star_mesh_creater_ver1_0_2.py:208-230 | a star saved under a name and then selected for creation yields the saved star's type and fields |
| Presets.PresetNamedNoneIsIgnored | star_mesh_creater_ver1_0_2.py:220 | a preset stored as `NONE` is never used for creation |
| Presets.MakeName | star_mesh_creater_ver1_0_2.py:95-98 | the name is the expanded pattern (`##` replaced first, then `{spikes}`, an empty pattern meaning `Star_##`, as `Presets.ExpandPattern` computes) stripped, or `Star_` and two digits when that is blank; it is never empty and never starts or ends with whitespace |
| Presets.MakeNamePlainPattern | star_mesh_creater_ver1_0_2.py:95-98 | a pattern without placeholders is used stripped |
| Presets.MakeNameBlankPattern | star_mesh_creater_ver1_0_2.py:95-98 | a blank pattern gives `Star_` and the two-digit count |
| Presets.MakeNameEmptyPattern | star_mesh_creater_ver1_0_2.py:95-98 | an empty pattern means `Star_##` and gives `Star_` and the two-digit count |
| Presets.MakeNameHashPattern | star_mesh_creater_ver1_0_2.py:95-98 | `##` between text free of `#` and `{` becomes the two-digit count, and the result is that text stripped |
| Presets.MakeNameSpikesPattern | star_mesh_creater_ver1_0_2.py:95-98 | `{spikes}` between text free of `#` and `{` becomes `str(spikes)`, and the result is that text stripped |
| Debounce.MarkDirty | star_mesh_creater_ver1_0_2.py:535-539 | raises the flag and restarts the window at the current time |
| Debounce.Tick | star_mesh_creater_ver1_0_2.py:541-578 | nothing happens inside the 0.10 s window; the first tick after it clears the flag, and rebuilds exactly when a star is active, the mode is object mode, no rebuild is running and the parameters validate |
| Debounce.CleanTicksDoNothing | star_mesh_creater_ver1_0_2.py:542-543 | a clean pulse never rebuilds |
| Debounce.AtMostOneRebuildPerMark | star_mesh_creater_ver1_0_2.py:541-578 | each raise of the flag gives at most one rebuild, and the flag is down once a tick has come after the window |
| Debounce.RebuildOnlyValid | star_mesh_creater_ver1_0_2.py:558-564 | a rebuild only happens on valid parameters in object mode |
| Debounce.KeepTimer | star_mesh_creater_ver1_0_2.py:515-525 | the timer survives exactly while dirty, dragging or editing |
| Debounce.KeepSliderTimer | star_mesh_creator.py:480-490 | the slider editor keeps it while dirty or dragging |
| Layout.PanelFields | star_mesh_creater_ver1_0_2.py:931-933 | spikes, outer, inner and scale, plus thickness exactly for a 3D star, each once |
| Layout.PanelHeight | star_mesh_creater_ver1_0_2.py:814-819 | 210 pixels, or 236 for a 3D star |
| Layout.RowAt | star_mesh_creater_ver1_0_2.py:836-850 | the 120-pixel value rectangle of a row, with steppers only when arrows are shown |
| Layout.ComputeLayout | star_mesh_creater_ver1_0_2.py:895-948 | the panel always; rows and footer buttons only with a star; arrows on exactly the hovered or edited row |
| Layout.LayoutGeometry | star_mesh_creater_ver1_0_2.py:829-850 | steppers lie inside their value rectangle, rows lie inside the panel and never overlap each other or the footer buttons |
| Layout.ContainsClosedEdges | star_mesh_creater_ver1_0_2.py:388-389 | `_UIRect.contains` holds both corners of a rectangle of non-negative size, nothing one pixel past any edge, nothing in a rectangle of negative size, and depends only on the offset from the origin |
| Layout.Hover | star_mesh_creater_ver1_0_2.py:800-809 | no hover before the first draw; a hovered field's row holds the pointer, and no row holds it when nothing is hovered |
| Layout.HoverIn | star_mesh_creater_ver1_0_2.py:800-809 | the first row whose value rectangle holds the pointer (closed edges), or none |
| Layout.HoverIsTheContainingRow | star_mesh_creater_ver1_0_2.py:800-809 | on a drawn panel the hovered field is the row that holds the pointer |
| Layout.ValueText | star_mesh_creater_ver1_0_2.py:885-887 | the text shown for a value: spikes as `str(n)`, which reads back as the count, and floats as three-decimal text that reads back as the value rounded to three decimals |
| Layout.EditText | star_mesh_creater_ver1_0_2.py:880-884 | the caret `\|` is appended only in caret mode |
| EditorState.SetDirty | star_mesh_creater_ver1_0_2.py:535-539 | marks the pulse at the current time and ensures the timer; nothing else changes |
| EditorState.Draw | star_mesh_creater_ver1_0_2.py:895-911 | a draw records rows exactly when a star is active and changes nothing else |
| TextEdit.Allowed | star_mesh_creater_ver1_0_2.py:782-784 | every field accepts the digits, `-` and `+`; `.` is accepted exactly by the float fields, which accept the whole numpad alphabet |
| TextEdit.TypedChar | star_mesh_creater_ver1_0_2.py:766-776 | the event's own character, else the numpad symbol of a numpad key, else none |
| TextEdit.SeedInAlphabet | star_mesh_creater_ver1_0_2.py:654-670 | the text an edit starts from uses only the field's accepted characters |
| TextEdit.StartEditing | star_mesh_creater_ver1_0_2.py:654-670 | with a star, snapshots the value, seeds the text as displayed and sets the mode; without one nothing happens |
| TextEdit.CancelEditing | star_mesh_creater_ver1_0_2.py:672-684 | writes the snapshot back through the write rule, marks dirty and ends the edit |
| TextEdit.PlaceholdersDoNotParse | star_mesh_creater_ver1_0_2.py:699 | the placeholder texts are all rejected by `float()` |
| TextEdit.ParseForField | star_mesh_creater_ver1_0_2.py:702-708 | `float(t)`, truncated for spikes; none exactly when `float()` fails |
| TextEdit.ZeroToDefault | star_mesh_creater_ver1_0_2.py:710-719 | a zero spike count, or a float closer to zero than 1e-12, becomes the field default |
| TextEdit.CommitValue | star_mesh_creater_ver1_0_2.py:696-719 | the value a commit writes is never zero: the default for text that does not parse, otherwise the parsed value with zero reset |
| TextEdit.CommitEditing | star_mesh_creater_ver1_0_2.py:686-733 | writes the commit value; if the store is then invalid it writes the snapshot back; marks dirty and ends the edit |
| TextEdit.HandleKey | star_mesh_creater_ver1_0_2.py:735-795 | while editing every key is consumed; Enter commits and Esc cancels; only those change the star |
| TextEdit.BufferKeys | star_mesh_creater_ver1_0_2.py:749-795 | Backspace/Delete empties in select-all mode, else drops the last character; an accepted character replaces in select-all mode, else appends; any other character changes nothing |
| TextEdit.NonPressIgnored | star_mesh_creater_ver1_0_2.py:761-763 | a key that is not a press changes nothing |
| TextEdit.KeysKeepAlphabet | star_mesh_creater_ver1_0_2.py:782-795 | the buffer never holds a character the field does not accept |
| TextEdit.CommitKeepsValid | star_mesh_creater_ver1_0_2.py:686-733 | a commit on a valid store leaves it valid and within bounds |
| TextEdit.OuterRollbackKeepsFlooredInner | star_mesh_creater_ver1_0_2.py:721-726 | rolling back a rejected outer radius restores outer but leaves inner at 0.0001 |
| TextEdit.OuterRollbackOfTypedNumber | star_mesh_creater_ver1_0_2.py:702-726 | typing, as the outer radius, a number at or below 0.0001 that is not treated as zero has that effect |
| TextEdit.SpikesSeedValue | star_mesh_creater_ver1_0_2.py:702-719 | committing the untouched spike text gives the count back |
| TextEdit.FloatSeedValue | star_mesh_creater_ver1_0_2.py:702-719 | committing untouched float text gives the value rounded to three decimals, or the default when that rounds to zero |
| TextEdit.CommitUntouchedSeed | star_mesh_creater_ver1_0_2.py:654-733 | open then confirm: spikes unchanged; a float field is rewritten rounded to three decimals, or reset to the default when that is zero |
| TextEdit.StartThenCancel | star_mesh_creater_ver1_0_2.py:654-684 | open then cancel restores the star, except an inner above its cap |
| Pointer.StepMultiplier | star_mesh_creater_ver1_0_2.py:441-448 | positive; 1 exactly when shift and ctrl agree, above 1 for shift alone, below 1 for ctrl alone |
| Pointer.ApplyStep | star_mesh_creater_ver1_0_2.py:962-971 | without a star nothing; otherwise only the stepped field changes (and inner through the outer coupling), and the editor is marked dirty |
| Pointer.StepMovesFloatField | star_mesh_creater_ver1_0_2.py:967-970 | a step moves scale or thickness by 0.01 times the multiplier while it stays above the floor |
| Pointer.StepSpikes | star_mesh_creater_ver1_0_2.py:962-971 | a spike step moves the count by one, by ten with shift, and not at all with ctrl alone, clamped to [3,256] |
| Pointer.StepBackRestores | star_mesh_creater_ver1_0_2.py:962-971 | `>` then `<` on scale or thickness gives back the star |
| Pointer.DragValue | star_mesh_creater_ver1_0_2.py:1003-1014 | no offset keeps the start value and the value never moves against the pointer; a float field moves strictly with it; spikes move by a whole number within half a step of one per ten pixels |
| Pointer.StartValueDrag | star_mesh_creater_ver1_0_2.py:973-984 | a press records the field, the x position and the value, not yet dragging, and ensures the timer |
| Pointer.PressChangesNothing | star_mesh_creater_ver1_0_2.py:973-984 | a press changes no parameter and no edit |
| Pointer.UpdateValueDrag | star_mesh_creater_ver1_0_2.py:986-1016 | within 4 pixels of a pending press nothing happens; crossing commits any edit and starts the drag; a drag writes and marks dirty |
| Pointer.SmallMovesDoNothing | star_mesh_creater_ver1_0_2.py:990-992 | any number of moves within the threshold leave the state unchanged |
| Pointer.EndValueDrag | star_mesh_creater_ver1_0_2.py:1018-1043 | the drag is cleared; after a real drag nothing else; a click on the field being edited switches it to caret mode; a click on another field opens a select-all edit of it seeded with its value |
| Pointer.ClickOpensSelectAllEdit | star_mesh_creater_ver1_0_2.py:973-1043 | press, small moves and release open a select-all edit of the clicked field, seeded with its value, without changing the star |
| Pointer.SecondClickEntersCaretMode | star_mesh_creater_ver1_0_2.py:1030-1034 | clicking the field open in select-all mode keeps its text and switches to caret mode |
| Pointer.ReleaseAfterDragOpensNothing | star_mesh_creater_ver1_0_2.py:1020-1028 | releasing after a real drag opens no edit |
| Pointer.DragIsMemoryless | star_mesh_creater_ver1_0_2.py:1003-1014 | during a drag of any field but outer, the star depends only on the latest pointer x |
| Pointer.DragSpikes | star_mesh_creater_ver1_0_2.py:1006-1009 | spikes follow the pointer one per ten pixels from the press, ignoring modifiers |
| Pointer.DragScale | star_mesh_creater_ver1_0_2.py:1011-1014 | a float field follows the pointer at 0.002 per pixel times the multiplier |
| Editor.Invoke | star_mesh_creater_ver1_0_2.py:1047-1063 | refused with no other effect while an editor runs; otherwise the flags are raised and the state starts fresh |
| Editor.Finish | star_mesh_creater_ver1_0_2.py:1200-1217 | drops the timer, clears the handle and lowers the running flag |
| Editor.FinishAllowsInvoke | star_mesh_creater_ver1_0_2.py:1200-1221 | after `_finish` the editor can be opened again |
| Editor.FindStepper | star_mesh_creater_ver1_0_2.py:1156-1177 | the first arrow under the pointer in panel order, `<` before `>`, or none when no arrow holds it |
| Editor.OnTimer | star_mesh_creater_ver1_0_2.py:1077-1085 | a tick runs the debounced rebuild, applies the idle rule to the timer and passes the event on |
| Editor.OnPress | star_mesh_creater_ver1_0_2.py:1134-1186 | Save commits and opens the dialog; Close commits and finishes; an arrow commits and steps; a value area starts a press; anything else passes on |
| Editor.Modal | star_mesh_creater_ver1_0_2.py:1065-1198 | while editing keys go to the edit; a timer event is the timer step; other buttons, and keys with no edit, pass on unchanged; CANCELLED comes with the flags lowered and every other return leaves them alone; only a timer event rebuilds and only a left press opens the dialog |
| Editor.EditingCapturesKeys | star_mesh_creater_ver1_0_2.py:1067-1075 | while editing no key reaches the viewport, and only Enter and Esc touch the star |
| Editor.OnOutside | star_mesh_creater_ver1_0_2.py:1087-1108 | a pointer event outside the panel with no press held passes on; a press commits the edit, a move clears the hover, and a release changes nothing |
| Editor.OnMove | star_mesh_creater_ver1_0_2.py:1110-1127 | a move inside the panel updates the hover; it passes on unless a press is held, in which case the drag is updated and the editor keeps the event |
| Editor.OnRelease | star_mesh_creater_ver1_0_2.py:1188-1195 | a release with a press held ends the press, applies the idle rule to the timer with no drag left, and keeps the event |
| Editor.PressOutsideCommits | star_mesh_creater_ver1_0_2.py:1091-1100 | a press outside the panel with no press held commits the edit and passes on |
| Editor.ReleaseEndsPress | star_mesh_creater_ver1_0_2.py:1188-1195 | a release while a press is held ends it and is kept |
| Editor.NoCloseWithoutStar | star_mesh_creater_ver1_0_2.py:915-923 | a draw without a star records no Close button, so no event ends the editor |
| Editor.PressOnCloseFinishes | star_mesh_creater_ver1_0_2.py:1148-1153 | a press on Close commits, finishes and returns CANCELLED |
| Editor.PressOnValueStartsDrag | star_mesh_creater_ver1_0_2.py:1179-1186 | a press on a value area with no arrows starts a pending drag of that row's field |
| Editor.PressOnLeftArrowSteps | star_mesh_creater_ver1_0_2.py:1156-1168 | a press on a row's `<` commits and steps that field down |
| Editor.ModalKeepsTimer | star_mesh_creater_ver1_0_2.py:1065-1198 | while the editor runs, a pending rebuild or an open edit always has a timer |
| Editor.ModalKeepsFloored | star_mesh_creater_ver1_0_2.py:1065-1198 | no event takes the star outside the write bounds |
| Editor.ModalAsWritten | star_mesh_creater_ver1_0_2.py:1130-1158 | `modal` as written raises exactly on a left press before the first draw |
| Editor.PressBeforeFirstDrawLocksEditor | star_mesh_creater_ver1_0_2.py:1047-1063 | as written, that press leaves the running flag up, so every later open is refused |
| Editor.PressBeforeFirstDrawPassesThrough | star_mesh_creater_ver1_0_2.py:1155-1186 | corrected, the press passes through and the editor can still be closed and reopened |
| Slider.SetSliderValue | star_mesh_creator.py:647-678 | spikes land in [3,64], outer and scale in [0.01,10], thickness in [0,5], and inner in [0.0001,9.5] and within its cap; a position at or past either end writes that end's value; an outer write keeps inner below it; no other field changes except inner through the outer coupling |
| Slider.Clamp01 | star_mesh_creator.py:399-400 | `_clamp(t, 0, 1)` lies in [0,1], leaves a value already there alone, and sends anything at or past an end to that end |
| Slider.BarFraction | star_mesh_creator.py:605-625 | the fill fraction the draw gives a stored value is the bar position whose value is the stored value |
| Slider.BarOf | star_mesh_creator.py:769-775 | the rectangle recorded for the held field, or none exactly when no recorded bar belongs to it |
| Slider.BarPosition | star_mesh_creator.py:753 | the pointer's fraction along a bar: times the width it is the offset from the left edge, it lies in [0,1] for a pointer over the bar, and it is 0 for a bar of no width |
| Slider.SliderWriteIsFieldWrite | star_mesh_creator.py:647-678 | a slider write is the pinned editor's field write of the value under the pointer |
| Slider.FillEndWritesBack | star_mesh_creator.py:647-678 | pressing at the end of a bar's fill writes back the stored value when it is on the bar |
| Slider.SliderMonotone | star_mesh_creator.py:647-678 | further right on a bar never writes less |
| Slider.SliderPanelHeight | star_mesh_creator.py:561-573 | 202 pixels, or 226 for a 3D star |
| Slider.SliderDraw | star_mesh_creator.py:575-637 | the panel always; bars and footer buttons only with a star; thickness only for 3D |
| Slider.SliderGeometry | star_mesh_creator.py:575-637 | bars lie inside the panel and never overlap each other or the footer buttons |
| Slider.BarAt | star_mesh_creator.py:746-756 | a bar that holds the pointer, or none exactly when no bar does |
| Slider.SlideTo | star_mesh_creator.py:647-678 | without a star nothing; otherwise the write and a dirty mark |
| Slider.SliderInvoke | star_mesh_creator.py:680-699 | refused with no other effect while an editor runs; otherwise the flags are raised and the state starts fresh with no timer |
| Slider.SliderFinish | star_mesh_creator.py:786-805 | drops the timer, clears the handle and lowers the running flag |
| Slider.SliderFinishAllowsInvoke | star_mesh_creator.py:786-809 | after `_finish` the editor can be opened again |
| Slider.SliderOnTimer | star_mesh_creator.py:702-710 | a tick runs the 0.12 s debounce, keeps the timer only while dirty or dragging, and passes on |
| Slider.SliderOnPress | star_mesh_creator.py:725-756 | the dialog opens exactly on a press on Save; CANCELLED lowers the flags, drops the timer and keeps the star; a pass-through changes nothing |
| Slider.SliderOnRelease | star_mesh_creator.py:759-766 | a release ends any drag and keeps the timer only while a rebuild is pending |
| Slider.SliderModal | star_mesh_creator.py:701-784 | a timer event is the timer step; keys, other buttons, pointer events outside the panel while no bar is held, and moves without a held bar pass on unchanged; CANCELLED only on a left press and with the flags lowered; only a timer event rebuilds |
| Slider.SliderReleaseEndsDrag | star_mesh_creator.py:759-766 | every release leaves no drag and the star unchanged |
| Slider.PressOnBarWrites | star_mesh_creator.py:746-756 | a press on a drawn bar drags its field and writes the value at the pointer's place on the bar |
| Slider.SliderOnDragMove | star_mesh_creator.py:768-782 | a move with a bar held is kept and leaves the held field alone; with that bar recorded and a star, the value at the pointer's place on the bar is written and a rebuild is pending; otherwise nothing changes |
| Slider.DragFollowsPointer | star_mesh_creator.py:768-782 | while a bar is held, moves write from the pointer's x wherever the pointer is |
| Slider.SliderNoCloseWithoutStar | star_mesh_creator.py:594-598 | without a star no event ends the editor or changes the star |
| Slider.SliderModalKeepsTimer | star_mesh_creator.py:701-784 | while it runs, a pending rebuild or a held bar always has a timer |
| Slider.SliderModalKeepsFloored | star_mesh_creator.py:647-678 | no slider event takes the star outside the write bounds |

## Left out

- Drawing: colours, fonts, text measurement and the redraw-request flag only affect what is painted.
- Host scene operations: object and mesh creation, linking, the create operator's roll-back, and the sidebar panel are host calls.
- Vertex coordinates: the `cos`/`sin` positions and the rotation are not modelled; only the index structure and the radius each ring vertex uses are.
- `bmesh` calls: the extrusion result and normal recalculation are library calls, so an extrusion is recorded only as its height.
- Host property clamping: the `min`/`max` metadata on the object properties is applied by Blender, not by this code.
- Timer and handler registration: `event_timer_add`/`remove` and `draw_handler_add`/`remove` are booleans. The clock is an input.
- JSON: `json.loads` is a function parameter and `json.dumps` is not modelled.
- Exceptions around `rebuild_star_mesh` inside the timer tick: the model rebuilds only on parameters that validate, so the `except` branch is unreachable there.
- Float precision: floats are exact reals, so the effect of rounding in binary (for example that `0.01 + t·9.99` may land a hair off) is not modelled.
- Text.FormatFixed3: renders `f"{v:.3f}"` of the exact real with ties to even, not of the nearest binary float.
- Pointer.DragIsMemoryless: excludes the outer radius, because an inner radius reset by an earlier drag position stays reset.
- TextEdit.OuterRollbackOfTypedNumber: stated for any number typed without surrounding whitespace rather than for one literal text.
- TextEdit.CommitUntouchedSeed: this exposes a quirk of the source. Confirming an untouched float field whose value rounds to `0.000` resets it to the default.
- Text.Replace: its contract and Text.ReplaceFirst cover text in which the pattern's first character only occurs at the start of an occurrence; a stray `#` before `##` (as in `#a##`) is not covered by a lemma.
- Presets.MakeName: expansion is stated for the empty pattern, for a pattern without placeholders, and for one `##` or one `{spikes}` between text free of `#` and `{`; a pattern with several placeholders is covered only by the general contract.
- Text.ParseDecimal: only the plain form `[+-]?(d+(.d*)?|.d+)`. Python's `float()` also accepts exponents, `_` separators, `inf`, `nan` and non-ASCII digits; those are errors here. The editor's buffer cannot hold them, but a preset can.
- Text.ParseInteger: only the plain form `[+-]?d+`. Python's `int()` also accepts `_` separators and non-ASCII digits; those are errors here.
- Presets.GetCreateParams: a preset string in one of the forms that only Python accepts (see the two lines above) gives the conversion error here, where Python would convert it.
- Slider.SetSliderValue: for the inner field the contract gives the range and the cap, not the lower bound `min(0.01, cap)`.
- The `_updating` guard: no rebuild in this single-threaded model spans two events, so the guard is modelled as a flag on the pulse that the tick honours.

## Findings

| source | as written | input that shows it | evidently intended | confidence | as-written member | corrected member |
|---|---|---|---|---|---|---|
| star_mesh_creater_ver1_0_2.py:1156 | the stepper scan calls `.keys()` on the left-arrow table, which is `None` until the first draw; the value-area scan at line 1181 guards the same case with `or {}` | a left press that reaches the editor after `invoke` and before its first draw | the press falls through to the viewport as when nothing is hit; `_finish` stays reachable, so the running flag can be lowered | low, not executed | Editor.ModalAsWritten, Editor.PressBeforeFirstDrawLocksEditor | Editor.Modal, Editor.PressBeforeFirstDrawPassesThrough |
