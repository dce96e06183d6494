/** The per-star parameter record, its validity predicate, and the field write
    rules (clamps plus the outer-to-inner coupling) that every editing path of
    the pinned editor goes through. */
module Params {
  import opened Text

  datatype StarType = Star2D | Star3D

  /** The five editable fields, in panel order. */
  datatype Field = Spikes | Outer | Inner | Scale | Thick

  /** The parameters stored on a generated star object. */
  datatype Params = Params(
    starType: StarType,
    spikes: int,
    outer: real,
    inner: real,
    scale: real,
    thickness: real,
    rotation: real)

  /** The lower bound the write rules put on radii and scale. */
  const MinPositive: real := 0.0001
  const MinSpikes: int := 3
  const MaxSpikes: int := 256

  const MsgSpikes: string := "Spikes must be >= 3"
  const MsgPositive: string := "Outer/Inner/Scale must be > 0"
  const MsgInner: string := "Inner Radius must be smaller than Outer Radius"
  const MsgThickness: string := "Thickness must be >= 0"

  /** The enumeration identifiers the host property and the preset blob use. */
  function TypeId(t: StarType): string {
    match t
    case Star2D => "STAR_2D"
    case Star3D => "STAR_3D"
  }

  // ---------------------------------------------------------------------------
  // Validation

  datatype Verdict = Valid | Invalid(msg: string)

  /** The rules a parameter set must satisfy before a build; on failure the
      message names the first rule broken, in the order listed. */
  function Validate(is3D: bool, spikes: int, outer: real, inner: real, scale: real, thickness: real): (v: Verdict)
    ensures v == Valid <==>
      && spikes >= MinSpikes
      && outer > 0.0 && inner > 0.0 && scale > 0.0
      && inner < outer
      && (is3D ==> thickness >= 0.0)
    ensures spikes < MinSpikes ==> v == Invalid(MsgSpikes)
    ensures spikes >= MinSpikes && (outer <= 0.0 || inner <= 0.0 || scale <= 0.0)
            ==> v == Invalid(MsgPositive)
    ensures spikes >= MinSpikes && outer > 0.0 && inner > 0.0 && scale > 0.0 && inner >= outer
            ==> v == Invalid(MsgInner)
    ensures spikes >= MinSpikes && 0.0 < inner < outer && scale > 0.0 && is3D && thickness < 0.0
            ==> v == Invalid(MsgThickness)
  {
    if spikes < MinSpikes then Invalid(MsgSpikes)
    else if outer <= 0.0 || inner <= 0.0 || scale <= 0.0 then Invalid(MsgPositive)
    else if inner >= outer then Invalid(MsgInner)
    else if is3D && thickness < 0.0 then Invalid(MsgThickness)
    else Valid
  }

  function ValidateParams(p: Params): Verdict {
    Validate(p.starType == Star3D, p.spikes, p.outer, p.inner, p.scale, p.thickness)
  }

  predicate IsValid(p: Params) {
    ValidateParams(p) == Valid
  }

  /** The bounds every field write establishes: spikes in [3,256], radii and
      scale at least 0.0001, thickness non-negative, inner never above outer. */
  predicate Floored(p: Params) {
    && MinSpikes <= p.spikes <= MaxSpikes
    && p.outer >= MinPositive
    && MinPositive <= p.inner <= p.outer
    && p.scale >= MinPositive
    && p.thickness >= 0.0
  }

  /** On a floored store the only rule that can fail is inner < outer. */
  lemma FlooredValidIff(p: Params)
    requires Floored(p)
    ensures IsValid(p) <==> p.inner < p.outer
  {
  }

  // ---------------------------------------------------------------------------
  // Field registry

  function GetField(p: Params, f: Field): real {
    match f
    case Spikes => p.spikes as real
    case Outer => p.outer
    case Inner => p.inner
    case Scale => p.scale
    case Thick => p.thickness
  }

  /** The value a commit resets a field to. */
  function FieldDefault(f: Field): (d: real)
    ensures d == GetField(ObjectDefaults, f) && d > 0.0
  {
    match f
    case Spikes => 5.0
    case Outer => 1.0
    case Inner => 0.5
    case Scale => 1.0
    case Thick => 0.2
  }

  /** The stepper increment before the modifier multiplier. */
  function FieldStep(f: Field): (d: real)
    ensures d > 0.0
    ensures d == 1.0 <==> f == Spikes
    ensures f != Spikes ==> d == 0.01
  {
    if f == Spikes then 1.0 else 0.01
  }

  /** The property defaults of a freshly created star object. */
  const ObjectDefaults: Params := Params(Star2D, 5, 1.0, 0.5, 1.0, 0.2, 0.0)

  /** The reset targets are exactly the object property defaults, and the
      set they form is valid and within the write bounds. */
  lemma FieldDefaultsAreObjectDefaults()
    ensures forall f: Field :: FieldDefault(f) == GetField(ObjectDefaults, f)
    ensures FieldStep(Spikes) == 1.0
    ensures forall f: Field :: f != Spikes ==> FieldStep(f) == 0.01
    ensures IsValid(ObjectDefaults) && Floored(ObjectDefaults)
  {
  }

  // ---------------------------------------------------------------------------
  // Write rules

  function Max(a: real, b: real): real { if a >= b then a else b }
  function Min(a: real, b: real): real { if a <= b then a else b }

  /** The largest inner radius a write of the inner field may leave. */
  function InnerCap(outer: real): real {
    Max(MinPositive, outer * 0.999)
  }

  /** The inner radius the outer write falls back to when inner is not below
      the new outer radius. */
  function InnerReset(outer: real): real {
    Max(MinPositive, outer * 0.5)
  }

  /** `p` and `q` agree on everything except possibly field `f`. */
  predicate SameExcept(p: Params, q: Params, f: Field) {
    && p.starType == q.starType && p.rotation == q.rotation
    && (f != Spikes ==> p.spikes == q.spikes)
    && (f != Outer ==> p.outer == q.outer)
    && (f != Inner ==> p.inner == q.inner)
    && (f != Scale ==> p.scale == q.scale)
    && (f != Thick ==> p.thickness == q.thickness)
  }

  /** Writes `v` into field `f` through the field's clamp and coupling rule. */
  function SetField(p: Params, f: Field, v: real): (r: Params)
    // the written field lands inside its bounds, and an in-bounds value is kept
    ensures f == Spikes ==>
      && MinSpikes <= r.spikes <= MaxSpikes
      && (MinSpikes <= RoundHalfEven(v) <= MaxSpikes ==> r.spikes == RoundHalfEven(v))
      && (RoundHalfEven(v) < MinSpikes ==> r.spikes == MinSpikes)
      && (RoundHalfEven(v) > MaxSpikes ==> r.spikes == MaxSpikes)
    ensures f == Outer ==> r.outer == (if v >= MinPositive then v else MinPositive)
    ensures f == Scale ==> r.scale == (if v >= MinPositive then v else MinPositive)
    ensures f == Thick ==> r.thickness == (if v >= 0.0 then v else 0.0)
    ensures f == Inner ==>
      && MinPositive <= r.inner
      && r.inner <= InnerCap(p.outer)
      && (MinPositive <= v <= InnerCap(p.outer) ==> r.inner == v)
      && (v > InnerCap(p.outer) ==> r.inner == InnerCap(p.outer))
      && (v < MinPositive ==> r.inner == MinPositive)
    // the coupling: an outer write keeps inner unless inner is no longer below it
    ensures f == Outer ==>
      && (p.inner < r.outer ==> r.inner == p.inner)
      && (p.inner >= r.outer ==> r.inner == InnerReset(r.outer) && r.inner <= r.outer)
    // nothing else changes
    ensures SameExcept(p, r, f) || (f == Outer && SameExcept(p, r.(inner := p.inner), f))
  {
    match f
    case Spikes =>
      p.(spikes := if RoundHalfEven(v) < MinSpikes then MinSpikes
                   else if RoundHalfEven(v) > MaxSpikes then MaxSpikes
                   else RoundHalfEven(v))
    case Outer =>
      var o := Max(MinPositive, v);
      if p.inner >= o then p.(outer := o, inner := InnerReset(o)) else p.(outer := o)
    case Inner =>
      p.(inner := Min(Max(MinPositive, v), InnerCap(p.outer)))
    case Scale =>
      p.(scale := Max(MinPositive, v))
    case Thick =>
      p.(thickness := Max(0.0, v))
  }

  /** Every write keeps a floored store floored. */
  lemma WriteKeepsFloored(p: Params, f: Field, v: real)
    requires Floored(p)
    ensures Floored(SetField(p, f, v))
  {
  }

  /** After a write of either radius, inner is strictly below outer exactly when
      outer is above the 0.0001 floor; at the floor the coupling makes them
      equal, which validation rejects. */
  lemma RadiusWriteInnerBelowOuter(p: Params, f: Field, v: real)
    requires f == Outer || f == Inner
    requires p.inner >= MinPositive && p.outer >= MinPositive
    ensures var r := SetField(p, f, v);
      r.inner < r.outer <==> r.outer > MinPositive
  {
  }

  /** On a valid floored store a single write leaves it valid, except when an
      outer radius at or below the floor is written. */
  lemma WriteValidity(p: Params, f: Field, v: real)
    requires Floored(p) && IsValid(p)
    ensures IsValid(SetField(p, f, v)) <==> !(f == Outer && v <= MinPositive)
  {
    var r := SetField(p, f, v);
    WriteKeepsFloored(p, f, v);
    FlooredValidIff(r);
    if f == Outer || f == Inner {
      RadiusWriteInnerBelowOuter(p, f, v);
    }
  }

  /** Writing the same value twice is the same as writing it once. */
  lemma WriteIdempotent(p: Params, f: Field, v: real)
    ensures SetField(SetField(p, f, v), f, v) == SetField(p, f, v)
  {
  }

  /** The result of a write does not depend on the field's previous value. */
  lemma WriteForgetsPrevious(p: Params, q: Params, f: Field, v: real)
    requires SameExcept(p, q, f)
    ensures SetField(p, f, v) == SetField(q, f, v)
  {
  }

  /** Writing back a field's own value leaves a valid floored store unchanged,
      except that an inner radius above 0.999 of outer is pulled down to that cap. */
  lemma RewriteCurrentValue(p: Params, f: Field)
    requires Floored(p) && IsValid(p)
    ensures f != Inner ==> SetField(p, f, GetField(p, f)) == p
    ensures f == Inner ==> (SetField(p, f, GetField(p, f)) == p <==> p.inner <= InnerCap(p.outer))
  {
    if f == Spikes {
      RoundHalfEvenUnique(p.spikes as real, p.spikes);
    }
  }
}
