/** The preset table kept as a JSON blob on the scene's root collection, the
    preset menu, saving the selected star as a preset, resolving the
    parameters for a new star, and the object-name pattern. JSON decoding is a
    parameter: `decode(raw)` is what `json.loads` returns, `None` when it raises. */
module Presets {
  import opened Wrappers
  import opened Text
  import opened Params

  // ---------------------------------------------------------------------------
  // Abstract JSON and the table shape

  datatype Json =
    | JNull
    | JBool(b: bool)
    | JNum(n: real)
    | JStr(s: string)
    | JArr(items: seq<Json>)
    | JObj(fields: map<string, Json>)

  const SchemaVersion: real := 1.0
  const VersionKey: string := "version"
  const PresetsKey: string := "presets"

  /** The table an empty or unusable blob decodes to. */
  const EmptyTable: Json := JObj(map[VersionKey := JNum(SchemaVersion), PresetsKey := JObj(map[])])

  /** A decoded table in the shape the rest of the add-on relies on. */
  predicate IsTable(t: Json) {
    && t.JObj?
    && VersionKey in t.fields
    && PresetsKey in t.fields
    && t.fields[PresetsKey].JObj?
  }

  function PresetsOf(t: Json): map<string, Json>
    requires IsTable(t)
  {
    t.fields[PresetsKey].fields
  }

  /** The repair `_load_presets` applies to a successfully decoded value. */
  function Normalize(d: Json): (t: Json)
    ensures IsTable(t)
    ensures !d.JObj? ==> t == EmptyTable
    ensures d.JObj? ==> t.fields.Keys == d.fields.Keys + {VersionKey, PresetsKey}
    // every other key survives, and so do a present version and a well-formed presets entry
    ensures d.JObj? ==> forall k :: k in d.fields && k != PresetsKey ==> t.fields[k] == d.fields[k]
    ensures d.JObj? && VersionKey !in d.fields ==> t.fields[VersionKey] == JNum(SchemaVersion)
    ensures d.JObj? && PresetsKey in d.fields && d.fields[PresetsKey].JObj?
            ==> t.fields[PresetsKey] == d.fields[PresetsKey]
    ensures d.JObj? && (PresetsKey !in d.fields || !d.fields[PresetsKey].JObj?)
            ==> PresetsOf(t) == map[]
  {
    match d
    case JObj(m) =>
      var withVersion := if VersionKey in m then m else m[VersionKey := JNum(SchemaVersion)];
      if PresetsKey in withVersion && withVersion[PresetsKey].JObj? then JObj(withVersion)
      else JObj(withVersion[PresetsKey := JObj(map[])])
    case _ => EmptyTable
  }

  /** `_load_presets`: never fails; an empty blob, a decoding error or a
      non-object yields the empty table. */
  function LoadPresets(raw: string, decode: string -> Option<Json>): (t: Json)
    ensures IsTable(t)
    ensures raw == [] || decode(raw).None? ==> t == EmptyTable
    ensures raw != [] && decode(raw).Some? ==> t == Normalize(decode(raw).value)
  {
    if raw == [] then EmptyTable
    else match decode(raw)
      case None => EmptyTable
      case Some(d) => Normalize(d)
  }

  /** Normalising a table that already has the right shape changes nothing, so
      loading is idempotent: a saved table is read back as it was written. */
  lemma NormalizeFixesTables(t: Json)
    requires IsTable(t)
    ensures Normalize(t) == t
  {
  }

  lemma NormalizeIdempotent(d: Json)
    ensures Normalize(Normalize(d)) == Normalize(d)
  {
    NormalizeFixesTables(Normalize(d));
  }

  lemma LoadSavedTable(t: Json, raw: string, decode: string -> Option<Json>)
    requires IsTable(t) && raw != [] && decode(raw) == Some(t)
    ensures LoadPresets(raw, decode) == t
  {
    NormalizeFixesTables(t);
  }

  // ---------------------------------------------------------------------------
  // The preset menu

  /** Python's string order: lexicographic on code points. A proper prefix
      comes first, and otherwise the first differing character decides. */
  predicate Lt(a: string, b: string): (r: bool)
    ensures a < b ==> r
    ensures r ==> b != [] && (a == [] || a[0] <= b[0])
    ensures a != [] && b != [] && a[0] < b[0] ==> r
    decreases |a|
  {
    if a == [] then b != []
    else b != [] && (a[0] < b[0] || (a[0] == b[0] && Lt(a[1..], b[1..])))
  }

  lemma {:induction false} LtIrreflexive(a: string)
    ensures !Lt(a, a)
    decreases |a|
  {
    if a != [] { LtIrreflexive(a[1..]); }
  }

  lemma {:induction false} LtTotal(a: string, b: string)
    requires a != b
    ensures Lt(a, b) || Lt(b, a)
    decreases |a|
  {
    if a != [] && b != [] && a[0] == b[0] {
      assert a == [a[0]] + a[1..] && b == [b[0]] + b[1..];
      LtTotal(a[1..], b[1..]);
    }
  }

  lemma {:induction false} LtTransitive(a: string, b: string, c: string)
    requires Lt(a, b) && Lt(b, c)
    ensures Lt(a, c)
    decreases |a|
  {
    if a != [] && a[0] == b[0] && b[0] == c[0] {
      LtTransitive(a[1..], b[1..], c[1..]);
    }
  }

  predicate StrictlySorted(s: seq<string>) {
    forall i, j :: 0 <= i < j < |s| ==> Lt(s[i], s[j])
  }

  /** Inserts a new name at its place in a sorted list of names. */
  function Insert(x: string, s: seq<string>): (r: seq<string>)
    requires StrictlySorted(s) && x !in s
    ensures StrictlySorted(r) && |r| == |s| + 1
    ensures forall y :: y in r <==> y == x || y in s
    decreases |s|
  {
    if s == [] then [x]
    else if Lt(x, s[0]) then
      forall j | 0 <= j < |s| ensures Lt(x, s[j]) {
        if j > 0 { LtTransitive(x, s[0], s[j]); }
      }
      [x] + s
    else
      LtTotal(x, s[0]);
      var rest := Insert(x, s[1..]);
      forall j | 0 <= j < |rest| ensures Lt(s[0], rest[j]) {
        assert rest[j] in rest;
        if rest[j] != x {
          var k :| 1 <= k < |s| && s[k] == rest[j];
        }
      }
      [s[0]] + rest
  }

  /** `sorted(names)` on a set of distinct names. */
  method SortNames(keys: set<string>) returns (names: seq<string>)
    ensures StrictlySorted(names)
    ensures forall n :: n in names <==> n in keys
    ensures |names| == |keys|
  {
    names := [];
    var rest := keys;
    while rest != {}
      invariant rest <= keys
      invariant StrictlySorted(names)
      invariant forall n :: n in names <==> n in keys && n !in rest
      invariant |names| + |rest| == |keys|
      decreases |rest|
    {
      var x :| x in rest;
      names := Insert(x, names);
      rest := rest - {x};
    }
  }

  /** A menu entry: identifier, caption, description. */
  datatype Item = Item(id: string, caption: string, description: string)

  const NoneId: string := "NONE"
  const NoPresetsItem: Item := Item(NoneId, "(no presets)", "No presets available")
  const NoneItem: Item := Item(NoneId, "(none)", "No preset")

  function PresetItem(n: string): Item {
    Item(n, n, "Preset: " + n)
  }

  /** `_preset_items`: the `NONE` entry first, then one entry per preset in
      name order; only the "(no presets)" entry when the table is empty. */
  method PresetItems(raw: string, decode: string -> Option<Json>) returns (items: seq<Item>)
    ensures var ps := PresetsOf(LoadPresets(raw, decode));
      && (ps == map[] ==> items == [NoPresetsItem])
      && (ps != map[] ==>
            && |items| == |ps| + 1
            && items[0] == NoneItem
            && (forall i :: 1 <= i < |items| ==> items[i] == PresetItem(items[i].id))
            && (forall i, j :: 1 <= i < j < |items| ==> Lt(items[i].id, items[j].id))
            && (forall n :: n in ps <==> exists i :: 1 <= i < |items| && items[i].id == n))
  {
    var ps := PresetsOf(LoadPresets(raw, decode));
    var names := SortNames(ps.Keys);
    if names == [] {
      items := [NoPresetsItem];
      assert forall n :: n !in ps;
      return;
    }
    items := [NoneItem] + seq(|names|, i requires 0 <= i < |names| => PresetItem(names[i]));
    ItemsOfNames(names, items);
    forall n | n in ps ensures exists i :: 1 <= i < |items| && items[i].id == n {
      var k :| 0 <= k < |names| && names[k] == n;
      assert items[k + 1].id == n;
    }
  }

  lemma ItemsOfNames(names: seq<string>, items: seq<Item>)
    requires StrictlySorted(names)
    requires items == [NoneItem] + seq(|names|, i requires 0 <= i < |names| => PresetItem(names[i]))
    ensures |items| == |names| + 1 && items[0] == NoneItem
    ensures forall i :: 1 <= i < |items| ==> items[i] == PresetItem(items[i].id) && items[i].id == names[i - 1]
    ensures forall i, j :: 1 <= i < j < |items| ==> Lt(items[i].id, items[j].id)
  {
    assert forall i :: 1 <= i < |items| ==> items[i] == PresetItem(names[i - 1]);
    forall i, j | 1 <= i < j < |items|
      ensures Lt(items[i].id, items[j].id)
    {
      assert items[i].id == names[i - 1] && items[j].id == names[j - 1];
    }
  }

  // ---------------------------------------------------------------------------
  // Saving a preset

  const StarTypeKey: string := "star_type"
  const SpikesKey: string := "spikes"
  const OuterKey: string := "outer_radius"
  const InnerKey: string := "inner_radius"
  const ScaleKey: string := "global_scale"
  const ThicknessKey: string := "thickness"

  /** The six fields a preset stores. */
  function Entry(p: Params): Json {
    JObj(map[
      StarTypeKey := JStr(TypeId(p.starType)),
      SpikesKey := JNum(p.spikes as real),
      OuterKey := JNum(p.outer),
      InnerKey := JNum(p.inner),
      ScaleKey := JNum(p.scale),
      ThicknessKey := JNum(p.thickness)])
  }

  const MsgNoStar: string := "Select a Star object to save as preset."
  const MsgEmptyName: string := "Preset name is empty."

  datatype SaveOutcome = Saved(table: Json, selected: string) | Cancelled(msg: string)

  /** The preset dialog's `execute`: needs a selected star and a name that is
      not blank after stripping; then the stripped name's entry is
      overwritten with the star's fields and becomes the selected preset. */
  function SavePreset(raw: string, decode: string -> Option<Json>, star: Option<Params>, name: string): (o: SaveOutcome)
    ensures star.None? ==> o == Cancelled(MsgNoStar)
    ensures star.Some? && AllSpace(name) ==> o == Cancelled(MsgEmptyName)
    ensures star.Some? && !AllSpace(name) ==>
      var t := LoadPresets(raw, decode);
      && o.Saved?
      && o.selected == Strip(name)
      && IsTable(o.table)
      && PresetsOf(o.table) == PresetsOf(t)[Strip(name) := Entry(star.value)]
      && (forall k :: k in t.fields && k != PresetsKey ==> k in o.table.fields && o.table.fields[k] == t.fields[k])
      && o.table.fields.Keys == t.fields.Keys
  {
    if star.None? then Cancelled(MsgNoStar)
    else
      var n := Strip(name);
      if n == [] then Cancelled(MsgEmptyName)
      else
        Saved(StoreEntry(LoadPresets(raw, decode), n, Entry(star.value)), n)
  }

  /** The table with preset `n` set to `e` and nothing else changed. */
  function StoreEntry(t: Json, n: string, e: Json): (o: Json)
    requires IsTable(t)
    ensures IsTable(o)
    ensures PresetsOf(o) == PresetsOf(t)[n := e]
    ensures o.fields.Keys == t.fields.Keys
    ensures forall k :: k in t.fields && k != PresetsKey ==> k in o.fields && o.fields[k] == t.fields[k]
  {
    JObj(t.fields[PresetsKey := JObj(PresetsOf(t)[n := e])])
  }

  /** Saving leaves every other preset as it was. */
  lemma SaveKeepsOtherPresets(raw: string, decode: string -> Option<Json>, p: Params, name: string, other: string)
    requires !AllSpace(name) && other != Strip(name)
    ensures var o := SavePreset(raw, decode, Some(p), name);
      var before := PresetsOf(LoadPresets(raw, decode));
      && (other in PresetsOf(o.table) <==> other in before)
      && (other in before ==> PresetsOf(o.table)[other] == before[other])
  {
    var o := SavePreset(raw, decode, Some(p), name);
    var before := PresetsOf(LoadPresets(raw, decode));
    var after := PresetsOf(o.table);
    assert after == before[Strip(name) := Entry(p)];
  }

  // ---------------------------------------------------------------------------
  // Parameters for a new star

  /** The scene-level creation settings. */
  datatype SceneDefaults = SceneDefaults(
    starType: StarType,
    spikes: int,
    outer: real,
    inner: real,
    scale: real,
    thickness: real,
    usePreset: bool,
    presetSelect: string,
    namePattern: string)

  /** The parameters handed to the create operator; the type is kept as the
      JSON value the preset holds, because a preset may carry any value there
      and it is passed on unconverted. */
  datatype CreateParams = CreateParams(
    starType: Json,
    spikes: int,
    outer: real,
    inner: real,
    scale: real,
    thickness: real,
    rotation: real)

  /** Python `int(v)` on a decoded JSON value, with strings restricted to the
      plain `[+-]?d+` form; `None` is the raised error. Numbers are cut toward
      zero, and a string it accepts reads as the same value through `ToFloat`. */
  function ToInt(j: Json): (r: Option<int>)
    ensures r.Some? <==> j.JNum? || j.JBool? || (j.JStr? && ParseInteger(Strip(j.s)).Some?)
    ensures j.JNum? && j.n >= 0.0 ==> 0 <= r.value && r.value as real <= j.n < r.value as real + 1.0
    ensures j.JNum? && j.n < 0.0 ==> r.value <= 0 && r.value as real - 1.0 < j.n <= r.value as real
    ensures j.JStr? && r.Some? ==> ToFloat(j) == Some(r.value as real)
  {
    match j
    case JNum(n) => Some(Trunc(n))
    case JBool(b) => Some(if b then 1 else 0)
    case JStr(s) => ParseInteger(Strip(s))
    case _ => None
  }

  /** Python `float(v)` on a decoded JSON value, with strings restricted to
      the plain decimal form; `None` is the raised error. Numbers pass through
      unchanged, booleans count as one and zero. */
  function ToFloat(j: Json): (r: Option<real>)
    ensures r.Some? <==> j.JNum? || j.JBool? || (j.JStr? && ParseDecimal(Strip(j.s)).Some?)
    ensures j.JNum? ==> r == Some(j.n)
    ensures j.JStr? && r.Some? ==> HasDigit(j.s)
  {
    match j
    case JNum(n) => Some(n)
    case JBool(b) => Some(if b then 1.0 else 0.0)
    case JStr(s) => ParseDecimal(Strip(s))
    case _ => None
  }

  function DefaultCreateParams(sd: SceneDefaults): CreateParams {
    CreateParams(JStr(TypeId(sd.starType)), sd.spikes, sd.outer, sd.inner, sd.scale, sd.thickness, 0.0)
  }

  /** Whether the scene asks for a preset at all. */
  predicate WantsPreset(sd: SceneDefaults) {
    sd.usePreset && sd.presetSelect != [] && sd.presetSelect != NoneId
  }

  function IntOr(m: map<string, Json>, k: string, d: int): Option<int> {
    if k in m then ToInt(m[k]) else Some(d)
  }

  function FloatOr(m: map<string, Json>, k: string, d: real): Option<real> {
    if k in m then ToFloat(m[k]) else Some(d)
  }

  const MsgBadPreset: string := "preset value cannot be converted"

  /** `_get_create_params`: each preset field that is present wins over the
      scene default; without a usable preset the defaults come back verbatim. */
  function GetCreateParams(sd: SceneDefaults, raw: string, decode: string -> Option<Json>): (r: Result<CreateParams>)
    ensures !WantsPreset(sd) ==> r == Ok(DefaultCreateParams(sd))
    ensures WantsPreset(sd) ==>
      var ps := PresetsOf(LoadPresets(raw, decode));
      (sd.presetSelect !in ps || !ps[sd.presetSelect].JObj?) ==> r == Ok(DefaultCreateParams(sd))
    ensures r.Ok? ==> r.value.rotation == 0.0
  {
    var base := DefaultCreateParams(sd);
    if !WantsPreset(sd) then Ok(base)
    else
      var ps := PresetsOf(LoadPresets(raw, decode));
      if sd.presetSelect !in ps || !ps[sd.presetSelect].JObj? then Ok(base)
      else
        var m := ps[sd.presetSelect].fields;
        var t := if StarTypeKey in m then m[StarTypeKey] else base.starType;
        match (IntOr(m, SpikesKey, base.spikes),
               FloatOr(m, OuterKey, base.outer), FloatOr(m, InnerKey, base.inner),
               FloatOr(m, ScaleKey, base.scale), FloatOr(m, ThicknessKey, base.thickness))
        case (Some(n), Some(o), Some(i), Some(s), Some(th)) =>
          Ok(CreateParams(t, n, o, i, s, th, 0.0))
        case _ => Err(MsgBadPreset)
  }

  /** Overlay: a present numeric preset field wins, an absent one falls back
      to the scene default, field by field. */
  lemma OverlayFieldwise(sd: SceneDefaults, raw: string, decode: string -> Option<Json>)
    requires WantsPreset(sd)
    requires var ps := PresetsOf(LoadPresets(raw, decode));
      sd.presetSelect in ps && ps[sd.presetSelect].JObj?
    requires GetCreateParams(sd, raw, decode).Ok?
    ensures var m := PresetsOf(LoadPresets(raw, decode))[sd.presetSelect].fields;
      var r := GetCreateParams(sd, raw, decode).value;
      && (OuterKey in m ==> ToFloat(m[OuterKey]) == Some(r.outer))
      && (OuterKey !in m ==> r.outer == sd.outer)
      && (InnerKey in m ==> ToFloat(m[InnerKey]) == Some(r.inner))
      && (InnerKey !in m ==> r.inner == sd.inner)
      && (ScaleKey in m ==> ToFloat(m[ScaleKey]) == Some(r.scale))
      && (ScaleKey !in m ==> r.scale == sd.scale)
      && (ThicknessKey in m ==> ToFloat(m[ThicknessKey]) == Some(r.thickness))
      && (ThicknessKey !in m ==> r.thickness == sd.thickness)
      && (SpikesKey in m ==> ToInt(m[SpikesKey]) == Some(r.spikes))
      && (SpikesKey !in m ==> r.spikes == sd.spikes)
      && (StarTypeKey in m ==> r.starType == m[StarTypeKey])
      && (StarTypeKey !in m ==> r.starType == JStr(TypeId(sd.starType)))
  {
  }

  /** Round trip: a star saved under a name, once the stored blob decodes back
      to the saved table, is recreated with exactly its own fields when that
      preset is selected. */
  lemma SaveThenCreate(raw: string, decode: string -> Option<Json>, p: Params, name: string,
                       sd: SceneDefaults, raw': string, decode': string -> Option<Json>)
    requires !AllSpace(name)
    requires var o := SavePreset(raw, decode, Some(p), name);
      raw' != [] && decode'(raw') == Some(o.table)
    requires sd.usePreset && sd.presetSelect == Strip(name) && Strip(name) != NoneId
    ensures GetCreateParams(sd, raw', decode')
      == Ok(CreateParams(JStr(TypeId(p.starType)), p.spikes, p.outer, p.inner, p.scale, p.thickness, 0.0))
  {
    var o := SavePreset(raw, decode, Some(p), name);
    LoadSavedTable(o.table, raw', decode');
    CreateFromEntry(sd, raw', decode', p);
  }

  /** A selected preset holding a saved star's entry yields that star. */
  lemma CreateFromEntry(sd: SceneDefaults, raw: string, decode: string -> Option<Json>, p: Params)
    requires WantsPreset(sd)
    requires var ps := PresetsOf(LoadPresets(raw, decode));
      sd.presetSelect in ps && ps[sd.presetSelect] == Entry(p)
    ensures GetCreateParams(sd, raw, decode)
      == Ok(CreateParams(JStr(TypeId(p.starType)), p.spikes, p.outer, p.inner, p.scale, p.thickness, 0.0))
  {
    var m := Entry(p).fields;
    var base := DefaultCreateParams(sd);
    assert Trunc(p.spikes as real) == p.spikes;
    assert IntOr(m, SpikesKey, base.spikes) == Some(p.spikes);
    assert FloatOr(m, OuterKey, base.outer) == Some(p.outer);
    assert FloatOr(m, InnerKey, base.inner) == Some(p.inner);
    assert FloatOr(m, ScaleKey, base.scale) == Some(p.scale);
    assert FloatOr(m, ThicknessKey, base.thickness) == Some(p.thickness);
  }

  /** The error path: with a usable preset selected, creation is refused
      exactly when some numeric field is present but cannot be converted. */
  lemma CreateFailsOnBadField(sd: SceneDefaults, raw: string, decode: string -> Option<Json>)
    requires WantsPreset(sd)
    requires var ps := PresetsOf(LoadPresets(raw, decode));
      sd.presetSelect in ps && ps[sd.presetSelect].JObj?
    ensures var m := PresetsOf(LoadPresets(raw, decode))[sd.presetSelect].fields;
      GetCreateParams(sd, raw, decode) == Err(MsgBadPreset) <==>
        || (SpikesKey in m && ToInt(m[SpikesKey]).None?)
        || (OuterKey in m && ToFloat(m[OuterKey]).None?)
        || (InnerKey in m && ToFloat(m[InnerKey]).None?)
        || (ScaleKey in m && ToFloat(m[ScaleKey]).None?)
        || (ThicknessKey in m && ToFloat(m[ThicknessKey]).None?)
  {
  }

  /** A preset saved under the name `NONE` is stored but can never be
      selected for creation: the name coincides with the menu's no-preset id. */
  lemma PresetNamedNoneIsIgnored(sd: SceneDefaults, raw: string, decode: string -> Option<Json>)
    requires sd.presetSelect == NoneId
    ensures GetCreateParams(sd, raw, decode) == Ok(DefaultCreateParams(sd))
  {
  }

  // ---------------------------------------------------------------------------
  // Object names

  const DefaultPattern: string := "Star_##"

  /** `_make_name`: `##` becomes the two-digit spike count, then `{spikes}`
      the plain count; an empty pattern means `Star_##`; the result is
      stripped and a blank result falls back to `Star_<two digits>`. */
  function MakeName(pattern: string, spikes: int): (name: string)
    ensures name != []
    ensures !IsSpace(name[0]) && !IsSpace(name[|name| - 1])
    ensures !AllSpace(ExpandPattern(pattern, spikes)) ==> name == Strip(ExpandPattern(pattern, spikes))
    ensures AllSpace(ExpandPattern(pattern, spikes)) ==> name == FallbackName(spikes)
  {
    var stripped := Strip(ExpandPattern(pattern, spikes));
    if stripped == [] then FallbackName(spikes) else stripped
  }

  /** The pattern with its placeholders filled in, before stripping. */
  function ExpandPattern(pattern: string, spikes: int): string {
    var base := if pattern == [] then DefaultPattern else pattern;
    Replace(Replace(base, "##", Pad2(spikes)), "{spikes}", IntToString(spikes))
  }

  /** `Star_` and the two-digit count: never blank at either end. */
  function FallbackName(spikes: int): (name: string)
    ensures name != [] && !IsSpace(name[0]) && !IsSpace(name[|name| - 1])
  {
    var s2 := Pad2(spikes);
    StarPrefixEnds(s2);
    "Star_" + s2
  }

  lemma StarPrefixEnds(d: string)
    requires |d| > 0 && IsDigit(d[|d| - 1])
    ensures var n := "Star_" + d; n != [] && !IsSpace(n[0]) && !IsSpace(n[|n| - 1])
  {
    var n := "Star_" + d;
    assert n[0] == 'S' && n[|n| - 1] == d[|d| - 1];
  }

  /** A pattern without `#` and `{` is used as it stands, once stripped. */
  lemma MakeNamePlainPattern(pattern: string, spikes: int)
    requires pattern != [] && !AllSpace(pattern)
    requires forall i :: 0 <= i < |pattern| ==> pattern[i] != '#' && pattern[i] != '{'
    ensures MakeName(pattern, spikes) == Strip(pattern)
  {
  }

  /** A blank pattern falls back to `Star_` and the two-digit count. */
  lemma MakeNameBlankPattern(pattern: string, spikes: int)
    requires pattern != [] && AllSpace(pattern)
    ensures MakeName(pattern, spikes) == "Star_" + Pad2(spikes)
  {
    assert forall i :: 0 <= i < |pattern| ==> pattern[i] != '#' && pattern[i] != '{';
  }

  /** No character that could start either placeholder. */
  predicate NoPlaceholder(s: string) {
    Avoids(s, '#') && Avoids(s, '{')
  }

  lemma SignedDigitsNoPlaceholder(d: string)
    requires SignedDigits(d)
    ensures NoPlaceholder(d) && NoSpace(d)
  {
  }

  lemma JoinAvoids(a: string, d: string, b: string, c: char)
    requires Avoids(a, c) && Avoids(d, c) && Avoids(b, c)
    ensures Avoids(a + d + b, c)
  {
    var e := a + d + b;
    forall i | 0 <= i < |e|
      ensures e[i] != c
    {
      if i < |a| { assert e[i] == a[i]; }
      else if i < |a| + |d| { assert e[i] == d[i - |a|]; }
      else { assert e[i] == b[i - |a| - |d|]; }
    }
  }

  /** Once stripped, a text holding a digit is never blank. */
  lemma DigitNotBlank(a: string, d: string, b: string)
    requires |d| > 0 && IsDigit(d[|d| - 1])
    ensures !AllSpace(a + d + b)
  {
    assert (a + d + b)[|a| + |d| - 1] == d[|d| - 1];
  }

  /** `##` between two plain stretches becomes the two-digit count. */
  lemma MakeNameHashPattern(a: string, b: string, spikes: int)
    requires NoPlaceholder(a) && NoPlaceholder(b)
    ensures MakeName(a + "##" + b, spikes) == Strip(a + Pad2(spikes) + b)
  {
    var d := Pad2(spikes);
    var e := a + d + b;
    ReplaceFirst(a, b, "##", d);
    assert Replace(a + "##" + b, "##", d) == e;
    SignedDigitsNoPlaceholder(d);
    JoinAvoids(a, d, b, '#');
    JoinAvoids(a, d, b, '{');
    assert Replace(e, "{spikes}", IntToString(spikes)) == e;
    assert ExpandPattern(a + "##" + b, spikes) == e;
    DigitNotBlank(a, d, b);
  }

  /** The empty pattern names the object `Star_` and the two-digit count. */
  lemma MakeNameEmptyPattern(spikes: int)
    ensures MakeName("", spikes) == "Star_" + Pad2(spikes)
  {
    var d := Pad2(spikes);
    assert ExpandPattern("", spikes) == ExpandPattern(DefaultPattern, spikes);
    assert MakeName("", spikes) == MakeName(DefaultPattern, spikes);
    DefaultPatternParts();
    MakeNameHashPattern("Star_", "", spikes);
    SignedDigitsNoPlaceholder(d);
    StripStarPrefix(d);
  }

  lemma StripStarPrefix(d: string)
    requires NoSpace(d)
    ensures Strip("Star_" + d + "") == "Star_" + d
  {
    assert "Star_" + d + "" == "Star_" + d;
    StarPrefixNoSpace(d);
  }

  lemma DefaultPatternParts()
    ensures DefaultPattern == "Star_" + "##" + ""
    ensures NoPlaceholder("Star_") && NoPlaceholder("")
  {
  }

  lemma StarPrefixNoSpace(d: string)
    requires NoSpace(d)
    ensures NoSpace("Star_" + d)
  {
    var e := "Star_" + d;
    forall i | 0 <= i < |e|
      ensures !IsSpace(e[i])
    {
      if i >= 5 { assert e[i] == d[i - 5]; }
    }
  }

  /** `{spikes}` between two plain stretches becomes the count as written
      by `str`, without padding. */
  lemma MakeNameSpikesPattern(a: string, b: string, spikes: int)
    requires NoPlaceholder(a) && NoPlaceholder(b)
    ensures MakeName(a + "{spikes}" + b, spikes) == Strip(a + IntToString(spikes) + b)
  {
    var d := IntToString(spikes);
    var p := a + "{spikes}" + b;
    JoinAvoids(a, "{spikes}", b, '#');
    assert Replace(p, "##", Pad2(spikes)) == p;
    ReplaceFirst(a, b, "{spikes}", d);
    assert ExpandPattern(p, spikes) == a + d + b;
    DigitNotBlank(a, d, b);
  }
}
