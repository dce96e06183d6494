/** The pinned editor's inline numeric editing: starting an edit from the
    current value, the key handling while an edit is open, committing the
    buffer (with its reset-to-default conveniences and the validation
    rollback) and cancelling back to the snapshot. */
module TextEdit {
  import opened Wrappers
  import opened Text
  import opened Params
  import opened Layout
  import opened EditorState

  // ---------------------------------------------------------------------------
  // The accepted alphabet

  /** The characters a field's buffer accepts from the keyboard. */
  function Allowed(f: Field): (a: string)
    ensures "0123456789" <= a && '-' in a && '+' in a
    ensures '.' in a <==> f != Spikes
    ensures f != Spikes ==> a == NumpadSymbols
  {
    if f == Spikes then "0123456789-+" else "0123456789.-+"
  }

  /** The characters the numpad fallback produces. */
  const NumpadSymbols: string := "0123456789.-+"

  predicate InAlphabet(f: Field, text: string) {
    forall i :: 0 <= i < |text| ==> text[i] in Allowed(f)
  }

  /** The character an event types: its own character, else the numpad map. */
  function TypedChar(k: KeyEvent): (c: Option<char>)
    ensures k.ascii.Some? ==> c == k.ascii
    ensures k.ascii.None? ==> (c.Some? <==> k.key.NumpadKey? && k.key.sym in NumpadSymbols)
    ensures k.ascii.None? && c.Some? ==> c.value == k.key.sym
  {
    if k.ascii.Some? then k.ascii
    else if k.key.NumpadKey? && k.key.sym in NumpadSymbols then Some(k.key.sym)
    else None
  }

  lemma NatToStringInAlphabet(f: Field, n: nat)
    ensures InAlphabet(f, NatToString(n))
  {
    var s := NatToString(n);
    forall i | 0 <= i < |s| ensures s[i] in Allowed(f) {
      assert IsDigit(s[i]);
    }
  }

  lemma ConcatInAlphabet(f: Field, a: string, b: string)
    requires InAlphabet(f, a) && InAlphabet(f, b)
    ensures InAlphabet(f, a + b)
  {
    forall i | 0 <= i < |a + b| ensures (a + b)[i] in Allowed(f) {
      if i < |a| { assert (a + b)[i] == a[i]; } else { assert (a + b)[i] == b[i - |a|]; }
    }
  }

  lemma SignInAlphabet(f: Field)
    ensures InAlphabet(f, "-") && InAlphabet(f, "") && InAlphabet(Outer, ".")
  {
  }

  lemma IntSeedInAlphabet(i: int)
    ensures InAlphabet(Spikes, IntToString(i))
  {
    var n: nat := if i < 0 then -i else i;
    NatToStringInAlphabet(Spikes, n);
    if i < 0 {
      SignInAlphabet(Spikes);
      ConcatInAlphabet(Spikes, "-", NatToString(n));
    }
  }

  lemma Unsigned3InAlphabet(f: Field, a: nat)
    requires f != Spikes
    ensures InAlphabet(f, Unsigned3(a))
  {
    var head := NatToString(a / 1000);
    var tail := Frac3(a % 1000);
    NatToStringInAlphabet(f, a / 1000);
    forall i | 0 <= i < |tail| ensures tail[i] in Allowed(f) {
      assert IsDigit(tail[i]);
    }
    assert InAlphabet(f, ".");
    ConcatInAlphabet(f, head, ".");
    ConcatInAlphabet(f, head + ".", tail);
  }

  lemma FloatSeedInAlphabet(f: Field, v: real)
    requires f != Spikes
    ensures InAlphabet(f, FormatFixed3(v))
  {
    var m := RoundHalfEven(v * 1000.0);
    var a: nat := if m < 0 then -m else m;
    Unsigned3InAlphabet(f, a);
    var sign := if v < 0.0 then "-" else "";
    SignInAlphabet(f);
    ConcatInAlphabet(f, sign, Unsigned3(a));
    FormatFixed3Parts(v, m, a, sign);
  }

  lemma FormatFixed3Parts(v: real, m: int, a: nat, sign: string)
    requires m == RoundHalfEven(v * 1000.0) && a == (if m < 0 then -m else m)
    requires sign == if v < 0.0 then "-" else ""
    ensures FormatFixed3(v) == sign + Unsigned3(a)
  {
  }

  /** The text an edit starts from only uses the field's accepted characters. */
  lemma SeedInAlphabet(p: Params, f: Field)
    ensures InAlphabet(f, ValueText(p, f))
  {
    if f == Spikes {
      IntSeedInAlphabet(p.spikes);
    } else {
      FloatSeedInAlphabet(f, GetField(p, f));
    }
  }

  lemma AlphabetHasNoSpace(f: Field, text: string)
    requires InAlphabet(f, text)
    ensures NoSpace(text)
  {
    forall i | 0 <= i < |text| ensures !IsSpace(text[i]) {
      assert text[i] in Allowed(f);
    }
  }

  // ---------------------------------------------------------------------------
  // Start, cancel, commit

  function WithEdit(s: Sys, e: Edit): Sys {
    s.(ed := s.ed.(edit := e))
  }

  /** `_start_editing`: with a star, snapshot the field and seed the buffer
      with the value as the panel shows it; without one nothing happens. */
  function StartEditing(s: Sys, f: Field, selectAll: bool): (r: Sys)
    ensures s.star.None? ==> r == s
    ensures s.star.Some? ==>
      && r.ed.edit == Editing(f, ValueText(s.star.value, f), GetField(s.star.value, f), selectAll)
      && r.ed.timer
      && r == s.(ed := s.ed.(edit := r.ed.edit, timer := true))
  {
    if s.star.None? then s
    else
      var p := s.star.value;
      s.(ed := s.ed.(edit := Editing(f, ValueText(p, f), GetField(p, f), selectAll), timer := true))
  }

  /** `_cancel_editing`: the snapshot is written back through the field's
      write rule (and a rebuild is scheduled) when a star is active; the edit
      closes either way. */
  function CancelEditing(s: Sys, now: real): (r: Sys)
    ensures s.ed.edit.NoEdit? ==> r == s
    ensures s.ed.edit.Editing? ==> r.ed.edit == NoEdit
    ensures s.ed.edit.Editing? && s.star.None? ==> r == WithEdit(s, NoEdit)
    ensures s.ed.edit.Editing? && s.star.Some? ==>
      && r.star == Some(SetField(s.star.value, s.ed.edit.field, s.ed.edit.original))
      && r.ed.pulse.dirty && r.ed.pulse.since == now
    ensures r.ed.hover == s.ed.hover && r.ed.drag == s.ed.drag && r.ed.layout == s.ed.layout
  {
    match s.ed.edit
    case NoEdit => s
    case Editing(f, _, original, _) =>
      if s.star.None? then WithEdit(s, NoEdit)
      else SetDirty(WithEdit(s, NoEdit).(star := Some(SetField(s.star.value, f, original))), now)
  }

  /** The texts that mean "no number": they reset the field to its default. */
  const Placeholders: set<string> := {"", "-", ".", "-.", "+", "+."}

  /** `1e-12`: a committed float closer to zero than this counts as zero. */
  const ZeroEpsilon: real := 0.000000000001

  function Abs(x: real): real { if x < 0.0 then -x else x }

  /** The placeholders are all texts the float parser rejects anyway. */
  lemma PlaceholdersDoNotParse(t: string)
    requires t in Placeholders
    ensures ParseDecimal(t).None?
  {
    assert ParseDecimal("").None?;
    assert ParseDecimal("-").None?;
    assert ParseDecimal(".").None?;
    assert ParseDecimal("-.").None?;
    assert ParseDecimal("+").None?;
    assert ParseDecimal("+.").None?;
  }

  /** The `try` block of a commit on stripped text `t`: `int(float(t))` for
      spikes, `float(t)` otherwise; `None` is the exception path. */
  function ParseForField(f: Field, t: string): (r: Option<real>)
    ensures ParseDecimal(t).None? <==> r.None?
    ensures r.Some? && f != Spikes ==> r.value == ParseDecimal(t).value
    ensures r.Some? && f == Spikes ==> r.value == Trunc(ParseDecimal(t).value) as real
    ensures r.Some? && f == Spikes ==> r.value == Trunc(r.value) as real
  {
    match ParseDecimal(t)
    case None => None
    case Some(x) => Some(FieldNumber(f, x))
  }

  /** The number a commit takes from a parsed `x`: `int(x)` for spikes. */
  function FieldNumber(f: Field, x: real): (r: real)
    ensures f == Spikes ==> r == Trunc(x) as real && r == Trunc(r) as real
    ensures f != Spikes ==> r == x
  {
    if f == Spikes then TruncOfInt(Trunc(x)); Trunc(x) as real else x
  }

  lemma TruncOfInt(n: int)
    ensures Trunc(n as real) == n
  {
  }

  /** The zero check of a commit: a zero becomes the field default. */
  function ZeroToDefault(f: Field, raw: real): (v: real)
    requires f == Spikes ==> raw == Trunc(raw) as real
    ensures v != 0.0
    ensures f == Spikes ==> v == Trunc(v) as real
    ensures f != Spikes ==> Abs(v) >= ZeroEpsilon
    ensures f == Spikes ==> v == if raw == 0.0 then FieldDefault(f) else raw
    ensures f != Spikes ==> v == if Abs(raw) < ZeroEpsilon then FieldDefault(f) else raw
  {
    if f == Spikes then
      TruncOfInt(5);
      if Trunc(raw) == 0 then FieldDefault(Spikes) else raw
    else if Abs(raw) < ZeroEpsilon then FieldDefault(f)
    else raw
  }

  /** The value a commit writes for buffer `text`, before the write rule:
      the parsed number (truncated for spikes), or the field default for a
      placeholder, an unparsable text, or a zero. */
  function CommitValue(f: Field, text: string): (v: real)
    ensures v != 0.0
    ensures f == Spikes ==> v == Trunc(v) as real
    ensures f != Spikes ==> Abs(v) >= ZeroEpsilon
    ensures ParseForField(f, Strip(text)).None? ==> v == FieldDefault(f)
    ensures ParseForField(f, Strip(text)).Some? ==>
      v == ZeroToDefault(f, ParseForField(f, Strip(text)).value)
  {
    CommitStripped(f, Strip(text))
  }

  /** A commit once the buffer has been stripped to `t`. */
  function CommitStripped(f: Field, t: string): (v: real)
    ensures ParseForField(f, t).None? ==> v == FieldDefault(f)
    ensures ParseForField(f, t).Some? ==> v == ZeroToDefault(f, ParseForField(f, t).value)
    ensures v != 0.0
    ensures f == Spikes ==> v == Trunc(v) as real
    ensures f != Spikes ==> Abs(v) >= ZeroEpsilon
  {
    var parsed: Option<real> :=
      if t in Placeholders then PlaceholdersDoNotParse(t); None
      else ParseForField(f, t);
    TruncOfInt(5);
    ZeroToDefault(f, if parsed.None? then FieldDefault(f) else parsed.value)
  }

  /** `_commit_editing`: the commit value goes through the field's write
      rule; if the whole parameter set then fails validation the snapshot is
      written back instead, as a cancel would. Either way the edit closes and
      a rebuild is scheduled. Without a star the edit just closes. */
  function CommitEditing(s: Sys, now: real): (r: Sys)
    ensures s.ed.edit.NoEdit? ==> r == s
    ensures s.ed.edit.Editing? ==> r.ed.edit == NoEdit
    ensures s.ed.edit.Editing? && s.star.None? ==> r == WithEdit(s, NoEdit)
    ensures s.ed.edit.Editing? && s.star.Some? ==>
      var e := s.ed.edit;
      var w := SetField(s.star.value, e.field, CommitValue(e.field, e.text));
      && r.ed.pulse.dirty && r.ed.pulse.since == now
      && (IsValid(w) ==> r.star == Some(w))
      && (!IsValid(w) ==> r.star == Some(SetField(w, e.field, e.original)))
    ensures r.ed.hover == s.ed.hover && r.ed.drag == s.ed.drag && r.ed.layout == s.ed.layout
  {
    match s.ed.edit
    case NoEdit => s
    case Editing(f, text, _, _) =>
      if s.star.None? then WithEdit(s, NoEdit)
      else
        var w := SetField(s.star.value, f, CommitValue(f, text));
        if !IsValid(w) then CancelEditing(s.(star := Some(w)), now)
        else SetDirty(WithEdit(s, NoEdit).(star := Some(w)), now)
  }

  // ---------------------------------------------------------------------------
  // Keys

  /** `_handle_text_input`: returns the new state and whether the event was
      consumed, which is always the case while an edit is open. */
  function HandleKey(s: Sys, k: KeyEvent, now: real): (r: (Sys, bool))
    ensures s.ed.edit.NoEdit? ==> r == (s, false)
    ensures s.ed.edit.Editing? ==> r.1
    ensures (k.key == Enter || k.key == NumpadEnter) && k.value == Press ==> r.0 == CommitEditing(s, now)
    ensures s.ed.edit.Editing? && k.key == Esc && k.value == Press ==> r.0 == CancelEditing(s, now)
    ensures r.0.star == s.star || (k.value == Press && k.key in {Enter, NumpadEnter, Esc})
  {
    match s.ed.edit
    case NoEdit => (s, false)
    case Editing(f, text, _, selectAll) =>
      var e := s.ed.edit;
      if (k.key == Enter || k.key == NumpadEnter) && k.value == Press then (CommitEditing(s, now), true)
      else if k.key == Esc && k.value == Press then (CancelEditing(s, now), true)
      else if (k.key == BackSpace || k.key == Del) && k.value == Press then
        if selectAll then (WithEdit(s, e.(text := "", selectAll := false)), true)
        else if text == [] then (s, true)
        else (WithEdit(s, e.(text := text[..|text| - 1])), true)
      else if k.value != Press then (s, true)
      else
        match TypedChar(k)
        case None => (s, true)
        case Some(c) =>
          if c !in Allowed(f) then (s, true)
          else if selectAll then (WithEdit(s, e.(text := [c], selectAll := false)), true)
          else (WithEdit(s, e.(text := text + [c])), true)
  }

  /** Editing keys act on the buffer alone: a deletion empties it in
      select-all mode and drops its last character otherwise, an accepted
      character replaces it in select-all mode and is appended otherwise,
      and everything else leaves the state as it was. */
  lemma BufferKeys(s: Sys, k: KeyEvent, now: real)
    requires s.ed.edit.Editing?
    requires k.value == Press && k.key !in {Enter, NumpadEnter, Esc}
    ensures var e := s.ed.edit;
      var r := HandleKey(s, k, now).0;
      && (k.key in {BackSpace, Del} ==>
            r == WithEdit(s, if e.selectAll then e.(text := "", selectAll := false)
                             else e.(text := if e.text == [] then [] else e.text[..|e.text| - 1])))
      && (k.key !in {BackSpace, Del} && TypedChar(k).Some? && TypedChar(k).value in Allowed(e.field) ==>
            r == WithEdit(s, if e.selectAll then e.(text := [TypedChar(k).value], selectAll := false)
                             else e.(text := e.text + [TypedChar(k).value])))
      && (k.key !in {BackSpace, Del} && (TypedChar(k).None? || TypedChar(k).value !in Allowed(e.field)) ==>
            r == s)
  {
  }

  /** A key that is not a press, other than a commit or cancel, changes nothing. */
  lemma NonPressIgnored(s: Sys, k: KeyEvent, now: real)
    requires s.ed.edit.Editing? && k.value != Press
    ensures HandleKey(s, k, now) == (s, true)
  {
  }

  /** The buffer never holds a character the field does not accept: seeds
      are in the alphabet, and no key that keeps the edit open breaks it. */
  lemma KeysKeepAlphabet(s: Sys, k: KeyEvent, now: real)
    requires s.ed.edit.Editing? && InAlphabet(s.ed.edit.field, s.ed.edit.text)
    ensures var r := HandleKey(s, k, now).0;
      r.ed.edit.Editing? ==>
        && r.ed.edit.field == s.ed.edit.field
        && r.ed.edit.original == s.ed.edit.original
        && InAlphabet(r.ed.edit.field, r.ed.edit.text)
  {
  }

  // ---------------------------------------------------------------------------
  // Properties of whole edits

  /** Committing on a valid floored star whose snapshot is current leaves a
      valid floored star: a value the rules reject is rolled back. */
  lemma CommitKeepsValid(s: Sys, now: real)
    requires s.ed.edit.Editing? && s.star.Some?
    requires Floored(s.star.value) && IsValid(s.star.value)
    requires s.ed.edit.original == GetField(s.star.value, s.ed.edit.field)
    ensures var r := CommitEditing(s, now);
      r.star.Some? && Floored(r.star.value) && IsValid(r.star.value) && r.ed.edit == NoEdit
  {
    var p := s.star.value;
    var e := s.ed.edit;
    var v := CommitValue(e.field, e.text);
    var w := SetField(p, e.field, v);
    WriteValidity(p, e.field, v);
    WriteKeepsFloored(p, e.field, v);
    if !IsValid(w) {
      // only an outer radius at or below the floor is rejected
      assert e.field == Outer;
      WriteKeepsFloored(w, Outer, e.original);
    }
  }

  /** The rollback of a rejected outer radius restores outer but not an inner
      radius the coupling had already reset: it ends at the 0.0001 floor. */
  lemma OuterRollbackKeepsFlooredInner(s: Sys, now: real)
    requires s.ed.edit.Editing? && s.ed.edit.field == Outer && s.star.Some?
    requires Floored(s.star.value) && IsValid(s.star.value)
    requires s.ed.edit.original == s.star.value.outer
    requires CommitValue(Outer, s.ed.edit.text) <= MinPositive
    ensures CommitEditing(s, now).star == Some(s.star.value.(inner := MinPositive))
  {
  }

  /** Typing a number at or below the floor, such as `-1`, as the outer
      radius: the commit is rejected, outer returns to its snapshot, and inner
      is left at 0.0001 instead of its earlier value. */
  lemma OuterRollbackOfTypedNumber(s: Sys, now: real, x: real)
    requires s.ed.edit.Editing? && s.ed.edit.field == Outer && s.star.Some?
    requires Floored(s.star.value) && IsValid(s.star.value)
    requires s.ed.edit.original == s.star.value.outer
    requires NoSpace(s.ed.edit.text) && ParseDecimal(s.ed.edit.text) == Some(x)
    requires x <= MinPositive && Abs(x) >= ZeroEpsilon
    ensures CommitEditing(s, now).star == Some(s.star.value.(inner := MinPositive))
  {
    CommitOfCleanText(Outer, s.ed.edit.text, x);
    OuterRollbackKeepsFlooredInner(s, now);
  }

  /** Reading back the seed of a spikes edit gives the count; the seed of a
      float edit gives the value to three decimals, or the default when that
      shows as zero. */
  lemma SpikesSeedValue(p: Params)
    requires p.spikes != 0
    ensures CommitValue(Spikes, ValueText(p, Spikes)) == p.spikes as real
  {
    var seed := IntToString(p.spikes);
    IntSeedInAlphabet(p.spikes);
    AlphabetHasNoSpace(Spikes, seed);
    IntToStringParses(p.spikes);
    TruncOfInt(p.spikes);
    CommitOfCleanText(Spikes, seed, p.spikes as real);
  }

  lemma FloatSeedValue(p: Params, f: Field)
    requires f != Spikes
    ensures var y := Round3(GetField(p, f));
      CommitValue(f, ValueText(p, f)) == if y == 0.0 then FieldDefault(f) else y
    ensures Round3(GetField(p, f)) != 0.0 ==> Abs(Round3(GetField(p, f))) >= 0.001
  {
    var x := GetField(p, f);
    assert ValueText(p, f) == FormatFixed3(x);
    FloatSeedCommit(f, x);
    Round3AwayFromZero(x);
  }

  lemma FloatSeedCommit(f: Field, x: real)
    requires f != Spikes
    ensures CommitValue(f, FormatFixed3(x)) == ZeroToDefault(f, Round3(x))
  {
    var seed := FormatFixed3(x);
    FloatSeedInAlphabet(f, x);
    AlphabetHasNoSpace(f, seed);
    FormatFixed3RoundTrip(x);
    CommitOfCleanText(f, seed, Round3(x));
  }

  /** A value rounded to thousandths is zero or at least 0.001 away from it. */
  lemma Round3AwayFromZero(x: real)
    ensures Round3(x) != 0.0 ==> Abs(Round3(x)) >= 0.001
  {
    var m := RoundHalfEven(x * 1000.0);
    assert Round3(x) == m as real / 1000.0;
    if m > 0 {
      assert m as real >= 1.0;
    } else if m < 0 {
      assert m as real <= -1.0;
    }
  }

  /** Committing a text with no surrounding whitespace that parses to `x`. */
  lemma CommitOfCleanText(f: Field, t: string, x: real)
    requires NoSpace(t) && ParseDecimal(t) == Some(x)
    ensures CommitValue(f, t) == ZeroToDefault(f, FieldNumber(f, x))
  {
    StripClean(t);
    ParsedCommit(f, t, x);
  }

  lemma StripClean(t: string)
    requires NoSpace(t)
    ensures Strip(t) == t
  {
  }

  lemma ParsedCommit(f: Field, t: string, x: real)
    requires ParseDecimal(t) == Some(x)
    ensures CommitStripped(f, t) == ZeroToDefault(f, FieldNumber(f, x))
  {
    assert ParseForField(f, t) == Some(FieldNumber(f, x));
  }

  /** Opening an edit and confirming the untouched text: spikes keep their
      value; a float takes the value as shown to three decimals, except that
      one shown as zero is reset to its default. */
  lemma CommitUntouchedSeed(s: Sys, f: Field, selectAll: bool, now: real)
    requires s.star.Some? && Floored(s.star.value) && IsValid(s.star.value)
    ensures var p := s.star.value;
      var x := GetField(p, f);
      var r := CommitEditing(StartEditing(s, f, selectAll), now);
      && r.ed.edit == NoEdit
      && (f == Spikes ==> r.star == Some(p))
      && (f != Spikes && Round3(x) != 0.0 ==> r.star == Some(SetField(p, f, Round3(x))))
      && (f != Spikes && Round3(x) == 0.0 ==> r.star == Some(SetField(p, f, FieldDefault(f))))
  {
    var p := s.star.value;
    if f == Spikes {
      SpikesSeedValue(p);
      RewriteCurrentValue(p, Spikes);
    } else {
      FloatSeedValue(p, f);
      WriteValidity(p, f, CommitValue(f, ValueText(p, f)));
    }
  }

  /** Opening an edit and cancelling it writes the snapshot back, which on a
      valid floored star changes nothing except pulling an inner radius above
      0.999 of outer down to that cap. */
  lemma StartThenCancel(s: Sys, f: Field, selectAll: bool, now: real)
    requires s.star.Some? && Floored(s.star.value) && IsValid(s.star.value)
    ensures var r := CancelEditing(StartEditing(s, f, selectAll), now);
      && r.ed.edit == NoEdit
      && (f != Inner ==> r.star == s.star)
      && (f == Inner ==> (r.star == s.star <==> s.star.value.inner <= InnerCap(s.star.value.outer)))
  {
    RewriteCurrentValue(s.star.value, f);
  }
}
