/** String and number helpers with the semantics of the Python built-ins the
    add-on relies on: `str.strip`, `str.replace`, `str(int)`, `int(round(x))`,
    `int(float(s))`, `float(s)`, and the `:.3f` / `:02d` format specs. */
module Text {
  import opened Wrappers

  // ---------------------------------------------------------------------------
  // Whitespace and stripping

  /** The characters Python's `str.strip()` removes (Unicode White_Space). */
  predicate IsSpace(c: char) {
    || c == ' ' || ('\t' <= c <= '\r') || ('\U{1c}' <= c <= '\U{1f}')
    || c == '\U{85}' || c == '\U{a0}' || c == '\U{1680}'
    || ('\U{2000}' <= c <= '\U{200a}') || c == '\U{2028}' || c == '\U{2029}'
    || c == '\U{202f}' || c == '\U{205f}' || c == '\U{3000}'
  }

  predicate AllSpace(s: string) {
    forall i :: 0 <= i < |s| ==> IsSpace(s[i])
  }

  predicate NoSpace(s: string) {
    forall i :: 0 <= i < |s| ==> !IsSpace(s[i])
  }

  /** Drops leading whitespace: the result is a suffix of `s` and everything
      dropped was whitespace. */
  function TrimLeft(s: string): (r: string)
    ensures |r| <= |s| && r == s[|s| - |r|..]
    ensures r == [] || !IsSpace(r[0])
    ensures AllSpace(s[..|s| - |r|])
    decreases |s|
  {
    if |s| > 0 && IsSpace(s[0]) then
      var r := TrimLeft(s[1..]);
      assert s[..|s| - |r|] == [s[0]] + s[1..][..|s| - 1 - |r|];
      r
    else s
  }

  /** Drops trailing whitespace: the result is a prefix of `s` and everything
      dropped was whitespace. */
  function TrimRight(s: string): (r: string)
    ensures |r| <= |s| && r == s[..|r|]
    ensures r == [] || !IsSpace(r[|r| - 1])
    ensures AllSpace(s[|r|..])
    decreases |s|
  {
    if |s| > 0 && IsSpace(s[|s| - 1]) then
      var r := TrimRight(s[..|s| - 1]);
      assert s[|r|..] == s[..|s| - 1][|r|..] + [s[|s| - 1]];
      r
    else s
  }

  /** Python `s.strip()`: the input with its leading and trailing whitespace
      removed, so a slice of `s` with only whitespace on either side. */
  function Strip(s: string): (r: string)
    ensures EdgeTrimmed(s, r)
    ensures r == [] || (!IsSpace(r[0]) && !IsSpace(r[|r| - 1]))
    ensures r == [] <==> AllSpace(s)
    ensures NoSpace(s) ==> r == s
  {
    var l := TrimLeft(s);
    var r := TrimRight(l);
    StripFacts(s, l, r);
    StripIsSlice(s, l, r);
    r
  }

  /** `r` is `s` less some whitespace at either end. */
  predicate EdgeTrimmed(s: string, r: string) {
    exists i, j :: 0 <= i <= j <= |s| && r == s[i..j] && AllSpace(s[..i]) && AllSpace(s[j..])
  }

  lemma StripIsSlice(s: string, l: string, r: string)
    requires l == TrimLeft(s) && r == TrimRight(l)
    ensures EdgeTrimmed(s, r)
  {
    StripSlice(s, l, r);
  }

  /** A suffix of `s` after whitespace, cut before whitespace, is a slice of
      `s` with only whitespace on either side. */
  lemma StripSlice(s: string, l: string, r: string)
    requires |l| <= |s| && l == s[|s| - |l|..] && AllSpace(s[..|s| - |l|])
    requires |r| <= |l| && r == l[..|r|] && AllSpace(l[|r|..])
    ensures EdgeTrimmed(s, r)
  {
    var i := |s| - |l|;
    var j := i + |r|;
    assert r == s[i..j];
    assert s[j..] == l[|r|..];
  }

  lemma StripFacts(s: string, l: string, r: string)
    requires l == TrimLeft(s) && r == TrimRight(l)
    ensures r == [] || (!IsSpace(r[0]) && !IsSpace(r[|r| - 1]))
    ensures r == [] <==> AllSpace(s)
    ensures NoSpace(s) ==> r == s
  {
    if r != [] {
      assert r[0] == l[0];
    }
    StripBlank(s, l, r);
    if NoSpace(s) {
      StripNoSpace(s, l, r);
    }
  }

  lemma StripBlank(s: string, l: string, r: string)
    requires l == TrimLeft(s) && r == TrimRight(l)
    ensures r == [] <==> AllSpace(s)
  {
    var d := |s| - |l|;
    if r == [] {
      assert l[|r|..] == l;
      assert l == [];
      assert s[..d] == s;
    } else {
      assert l[0] == s[d];
    }
  }

  lemma StripNoSpace(s: string, l: string, r: string)
    requires l == TrimLeft(s) && r == TrimRight(l)
    requires NoSpace(s)
    ensures r == s
  {
  }

  // ---------------------------------------------------------------------------
  // Digits and integer rendering

  predicate IsDigit(c: char) { '0' <= c <= '9' }

  predicate AllDigits(s: string) {
    forall i :: 0 <= i < |s| ==> IsDigit(s[i])
  }

  function DigitVal(c: char): (d: nat)
    requires IsDigit(c)
    ensures d < 10
  {
    c as int - '0' as int
  }

  function DigitChar(d: nat): (c: char)
    requires d < 10
    ensures IsDigit(c) && DigitVal(c) == d
  {
    ('0' as int + d) as char
  }

  function Pow10(k: nat): (p: nat)
    ensures p > 0
  {
    if k == 0 then 1 else 10 * Pow10(k - 1)
  }

  /** Value of a run of decimal digits, most significant first ("" is 0). */
  function DigitsValue(s: string): nat
    requires AllDigits(s)
    decreases |s|
  {
    if s == [] then 0 else DigitsValue(s[..|s| - 1]) * 10 + DigitVal(s[|s| - 1])
  }

  /** Python `str(n)` for a natural number. */
  function NatToString(n: nat): (s: string)
    ensures |s| > 0 && AllDigits(s)
    ensures n >= 10 ==> |s| >= 2
    decreases n
  {
    if n < 10 then [DigitChar(n)] else NatToString(n / 10) + [DigitChar(n % 10)]
  }

  /** Python `str(i)` for any integer: no leading zeros. */
  function IntToString(i: int): (s: string)
    ensures |s| > 0 && IsDigit(s[|s| - 1])
    ensures s[0] == '-' <==> i < 0
    ensures (s[0] == '0' ==> s == "0") && (s[0] == '-' ==> |s| >= 2 && s[1] != '0')
    ensures SignedDigits(s)
    ensures ParseInteger(s) == Some(i)
  {
    var n: nat := if i < 0 then -i else i;
    var t := NatToString(n);
    NatToStringValue(n);
    NatToStringLead(n);
    if i < 0 then
      var s := "-" + t;
      assert s[1..] == t;
      s
    else t
  }

  /** Only digits and minus signs: nothing a name pattern treats specially. */
  predicate SignedDigits(s: string) {
    forall i :: 0 <= i < |s| ==> IsDigit(s[i]) || s[i] == '-'
  }

  /** Python `f"{n:02d}"`: zero-padded to width two, sign included in the width. */
  function Pad2(n: int): (s: string)
    ensures |s| >= 2 && IsDigit(s[|s| - 1])
    ensures |s| == if |IntToString(n)| < 2 then 2 else |IntToString(n)|
    ensures SignedDigits(s)
    ensures ParseInteger(s) == Some(n)
  {
    if 0 <= n < 10 then
      var s := ['0', DigitChar(n)];
      assert s[..1] == ['0'];
      assert DigitsValue(['0']) == 0;
      assert DigitsValue(s) == n;
      s
    else
      IntToString(n)
  }

  /** Only zero itself is written with a leading `0`. */
  lemma {:induction false} NatToStringLead(n: nat)
    ensures NatToString(n)[0] == '0' ==> n == 0
    ensures NatToString(n)[0] == '0' ==> NatToString(n) == "0"
    decreases n
  {
    if n < 10 {
      assert DigitVal(NatToString(n)[0]) == n;
    } else {
      NatToStringLead(n / 10);
      assert NatToString(n)[0] == NatToString(n / 10)[0];
    }
  }

  lemma {:induction false} NatToStringValue(n: nat)
    ensures DigitsValue(NatToString(n)) == n
    decreases n
  {
    if n >= 10 {
      var s := NatToString(n);
      assert s[..|s| - 1] == NatToString(n / 10);
      NatToStringValue(n / 10);
    }
  }

  // ---------------------------------------------------------------------------
  // Parsing

  /** Index of the first `c` in `s`, or `|s|` when there is none. */
  function IndexOf(s: string, c: char): (k: nat)
    ensures k <= |s|
    ensures k < |s| ==> s[k] == c
    ensures forall i :: 0 <= i < k ==> s[i] != c
    decreases |s|
  {
    if s == [] then 0 else if s[0] == c then 0 else 1 + IndexOf(s[1..], c)
  }

  /** Some character of `s` is a digit. */
  predicate HasDigit(s: string) {
    exists i :: 0 <= i < |s| && IsDigit(s[i])
  }

  /** Unsigned decimal `d+(.d*)?|.d+`. */
  function ParseUnsigned(s: string): (r: Option<real>)
    ensures r.Some? ==> HasDigit(s) && r.value >= 0.0
  {
    var k := IndexOf(s, '.');
    if k == |s| then
      if |s| > 0 && AllDigits(s) then
        assert IsDigit(s[0]);
        Some(DigitsValue(s) as real)
      else None
    else
      var ip := s[..k];
      var fp := s[k + 1..];
      if AllDigits(ip) && AllDigits(fp) && (|ip| > 0 || |fp| > 0) then
        assert if |ip| > 0 then IsDigit(s[0]) else IsDigit(s[k + 1]);
        Some(DigitsValue(ip) as real + DigitsValue(fp) as real / Pow10(|fp|) as real)
      else None
  }

  /** Python `float(s)` restricted to the plain decimal grammar
      `[+-]?(d+(.d*)?|.d+)`; `None` stands for the raised `ValueError`.
      A number needs a digit, and only a leading minus makes it negative. */
  function ParseDecimal(s: string): (r: Option<real>)
    ensures r.Some? ==> HasDigit(s)
    ensures r.Some? && s[0] == '-' ==> r.value <= 0.0
    ensures r.Some? && s[0] != '-' ==> r.value >= 0.0
  {
    if |s| > 0 && (s[0] == '+' || s[0] == '-') then
      match ParseUnsigned(s[1..])
      case None => None
      case Some(v) =>
        var i :| 0 <= i < |s[1..]| && IsDigit(s[1..][i]);
        assert IsDigit(s[i + 1]);
        Some(if s[0] == '-' then -v else v)
    else ParseUnsigned(s)
  }

  /** Python `int(s)` restricted to the sign-and-digits grammar `[+-]?d+`.
      Every text it accepts reads as the same number through `ParseDecimal`. */
  function ParseInteger(s: string): (r: Option<int>)
    ensures r.Some? ==> ParseDecimal(s) == Some(r.value as real)
    ensures r.Some? && r.value < 0 ==> s[0] == '-'
  {
    if |s| > 0 && (s[0] == '+' || s[0] == '-') then
      var t := s[1..];
      if |t| > 0 && AllDigits(t) then
        NoDotInDigits(t);
        Some(if s[0] == '-' then -(DigitsValue(t) as int) else DigitsValue(t) as int)
      else None
    else if |s| > 0 && AllDigits(s) then
      NoDotInDigits(s);
      Some(DigitsValue(s) as int)
    else None
  }

  lemma NoDotInDigits(t: string)
    requires AllDigits(t)
    ensures IndexOf(t, '.') == |t|
  {
  }

  lemma IntToStringParses(i: int)
    ensures ParseInteger(IntToString(i)) == Some(i)
    ensures ParseDecimal(IntToString(i)) == Some(i as real)
  {
  }

  // ---------------------------------------------------------------------------
  // Rounding

  /** Python `int(round(x))`: nearest integer, ties to the even one. */
  function RoundHalfEven(x: real): (r: int)
    ensures -0.5 <= x - r as real <= 0.5
    ensures (x - r as real == 0.5 || x - r as real == -0.5) ==> r % 2 == 0
  {
    var f := x.Floor;
    var d := x - f as real;
    if d < 0.5 then f
    else if d > 0.5 then f + 1
    else if f % 2 == 0 then f
    else f + 1
  }

  /** The two properties above pin the rounded value down uniquely. */
  lemma RoundHalfEvenUnique(x: real, r: int)
    requires -0.5 <= x - r as real <= 0.5
    requires (x - r as real == 0.5 || x - r as real == -0.5) ==> r % 2 == 0
    ensures r == RoundHalfEven(x)
  {
  }

  /** Rounding never reverses the order of its inputs. */
  lemma RoundHalfEvenMonotone(x: real, y: real)
    requires x <= y
    ensures RoundHalfEven(x) <= RoundHalfEven(y)
  {
  }

  /** Rounding keeps the sign: nothing below zero rounds above it. */
  lemma RoundHalfEvenSign(x: real)
    ensures x >= 0.0 ==> RoundHalfEven(x) >= 0
    ensures x <= 0.0 ==> RoundHalfEven(x) <= 0
  {
    if x >= 0.0 {
      RoundHalfEvenMonotone(0.0, x);
    } else {
      RoundHalfEvenMonotone(x, 0.0);
    }
  }

  /** Python `int(x)` on a float: truncation toward zero. */
  function Trunc(x: real): (r: int)
    ensures 0.0 <= x ==> 0 <= r && r as real <= x < r as real + 1.0
    ensures x < 0.0 ==> r <= 0 && r as real - 1.0 < x <= r as real
  {
    if x >= 0.0 then x.Floor else -((-x).Floor)
  }

  // ---------------------------------------------------------------------------
  // Fixed-point rendering

  function Frac3(r: nat): (s: string)
    requires r < 1000
    ensures |s| == 3 && AllDigits(s)
  {
    [DigitChar(r / 100), DigitChar((r / 10) % 10), DigitChar(r % 10)]
  }

  /** Python `f"{v:.3f}"` on an exact value: round half to even at three
      decimals, minus sign kept for negative inputs. */
  function FormatFixed3(v: real): (s: string)
    ensures |s| >= 5 && ThreeDecimals(s)
    ensures s[0] == '-' <==> v < 0.0
  {
    Thousandths(v < 0.0, RoundHalfEven(v * 1000.0))
  }

  /** Renders `m` thousandths as `[-]d+.ddd`, the sign given separately. */
  function Thousandths(neg: bool, m: int): (s: string)
    ensures |s| >= 5 && ThreeDecimals(s)
    ensures s[0] == '-' <==> neg
  {
    var a: nat := if m < 0 then -m else m;
    var u := Unsigned3(a);
    var s := (if neg then "-" else "") + u;
    assert s[|s| - 4..] == u[|u| - 4..];
    s
  }

  /** Ends in a point and exactly three digits. */
  predicate ThreeDecimals(s: string) {
    |s| >= 4 && s[|s| - 4] == '.' && AllDigits(s[|s| - 3..])
  }

  /** The value `FormatFixed3(v)` renders: `v` rounded to three decimals. */
  function Round3(v: real): real {
    RoundHalfEven(v * 1000.0) as real / 1000.0
  }

  lemma Frac3Value(r: nat)
    requires r < 1000
    ensures DigitsValue(Frac3(r)) == r
  {
    ThreeDigitsValue(Frac3(r));
    assert r == (r / 100) * 100 + ((r / 10) % 10) * 10 + r % 10;
  }

  lemma ThreeDigitsValue(s: string)
    requires |s| == 3 && AllDigits(s)
    ensures DigitsValue(s) == DigitVal(s[0]) * 100 + DigitVal(s[1]) * 10 + DigitVal(s[2])
  {
    assert s[..2][..1] == s[..1];
    assert DigitsValue(s) == DigitsValue(s[..2]) * 10 + DigitVal(s[2]);
    assert DigitsValue(s[..2]) == DigitsValue(s[..1]) * 10 + DigitVal(s[1]);
    assert DigitsValue(s[..1]) == DigitVal(s[0]);
  }

  lemma IndexOfAfterDigits(ip: string, rest: string)
    requires AllDigits(ip) && |rest| > 0 && rest[0] == '.'
    ensures IndexOf(ip + rest, '.') == |ip|
  {
    var s := ip + rest;
    var k := IndexOf(s, '.');
    assert s[|ip|] == '.';
  }

  /** `ParseUnsigned` on a text whose first point is at `k`. */
  lemma ParseUnsignedAtPoint(s: string, k: nat, scale: real)
    requires 0 < k < |s| && IndexOf(s, '.') == k
    requires AllDigits(s[..k]) && AllDigits(s[k + 1..])
    requires scale == Pow10(|s| - k - 1) as real
    ensures ParseUnsigned(s) == Some(DigitsValue(s[..k]) as real + DigitsValue(s[k + 1..]) as real / scale)
  {
  }

  lemma Pow10Three()
    ensures Pow10(3) == 1000
  {
    assert Pow10(1) == 10;
    assert Pow10(2) == 100;
  }

  /** `ParseUnsigned` on digits, a point, and three more digits. */
  lemma ParseDigitsDotFrac(s: string, k: nat)
    requires 0 < k && |s| == k + 4 && s[k] == '.'
    requires AllDigits(s[..k]) && AllDigits(s[k + 1..])
    ensures ParseUnsigned(s) == Some(DigitsValue(s[..k]) as real + DigitsValue(s[k + 1..]) as real / 1000.0)
  {
    assert s == s[..k] + s[k..];
    IndexOfAfterDigits(s[..k], s[k..]);
    Pow10Three();
    ParseUnsignedAtPoint(s, k, 1000.0);
  }

  lemma ThousandthsSplit(a: nat)
    ensures (a / 1000) as real + (a % 1000) as real / 1000.0 == a as real / 1000.0
  {
    var q := a / 1000;
    var r := a % 1000;
    assert a == 1000 * q + r;
    assert a as real == 1000.0 * q as real + r as real;
  }

  function Unsigned3(a: nat): (s: string)
    ensures |s| >= 5 && ThreeDecimals(s) && IsDigit(s[0])
  {
    var ip := NatToString(a / 1000);
    var fp := Frac3(a % 1000);
    var s := ip + "." + fp;
    assert s[|s| - 3..] == fp && s[0] == ip[0];
    s
  }

  lemma Unsigned3Parse(a: nat)
    ensures ParseUnsigned(Unsigned3(a)) == Some(a as real / 1000.0)
    ensures IsDigit(Unsigned3(a)[0])
  {
    var ip := NatToString(a / 1000);
    var fp := Frac3(a % 1000);
    NatToStringValue(a / 1000);
    Frac3Value(a % 1000);
    var s := Unsigned3(a);
    var k := |ip|;
    assert s[..k] == ip && s[k] == '.' && s[k + 1..] == fp;
    ParseDigitsDotFrac(s, k);
    ThousandthsSplit(a);
  }

  lemma ParseNegated(body: string, v: real)
    requires ParseUnsigned(body) == Some(v)
    ensures ParseDecimal("-" + body) == Some(-v)
  {
    assert ("-" + body)[1..] == body;
  }

  lemma ParseUnsignedStart(body: string)
    requires |body| > 0 && IsDigit(body[0])
    ensures ParseDecimal(body) == ParseUnsigned(body)
  {
  }

  lemma ThousandthsParse(neg: bool, m: int)
    requires neg ==> m <= 0
    requires !neg ==> m >= 0
    ensures ParseDecimal(Thousandths(neg, m)) == Some(m as real / 1000.0)
  {
    var a: nat := if m < 0 then -m else m;
    var body := Unsigned3(a);
    Unsigned3Parse(a);
    if neg {
      NegativeThousandths(m, body);
    } else {
      PositiveThousandths(m, body);
    }
  }

  lemma NegativeThousandths(m: int, body: string)
    requires m <= 0 && body == Unsigned3(-m)
    requires ParseUnsigned(body) == Some((-m) as real / 1000.0)
    ensures ParseDecimal(Thousandths(true, m)) == Some(m as real / 1000.0)
  {
    ParseNegated(body, (-m) as real / 1000.0);
  }

  lemma PositiveThousandths(m: int, body: string)
    requires m >= 0 && body == Unsigned3(m)
    requires ParseUnsigned(body) == Some(m as real / 1000.0) && IsDigit(body[0])
    ensures ParseDecimal(Thousandths(false, m)) == Some(m as real / 1000.0)
  {
    ParseUnsignedStart(body);
    assert "" + body == body;
  }

  /** Reading back a rendered value gives the value rounded to three decimals. */
  lemma FormatFixed3RoundTrip(v: real)
    ensures ParseDecimal(FormatFixed3(v)) == Some(Round3(v))
  {
    var m := RoundHalfEven(v * 1000.0);
    assert v < 0.0 <==> v * 1000.0 < 0.0;
    RoundHalfEvenSign(v * 1000.0);
    ThousandthsParse(v < 0.0, m);
    assert FormatFixed3(v) == Thousandths(v < 0.0, m);
  }

  // ---------------------------------------------------------------------------
  // Replacement

  /** Python `s.replace(pat, rep)`: left to right, non-overlapping. */
  function Replace(s: string, pat: string, rep: string): (r: string)
    requires |pat| > 0
    ensures (forall i :: 0 <= i < |s| ==> s[i] != pat[0]) ==> r == s
    decreases |s|
  {
    if |s| < |pat| then s
    else if s[..|pat|] == pat then
      assert s[0] == pat[0];
      rep + Replace(s[|pat|..], pat, rep)
    else [s[0]] + Replace(s[1..], pat, rep)
  }

  /** A text that never holds the first character of the pattern. */
  predicate Avoids(s: string, c: char) {
    forall i :: 0 <= i < |s| ==> s[i] != c
  }

  /** Text before the first possible match is copied as it stands. */
  lemma {:induction false} ReplaceKeepsPrefix(a: string, rest: string, pat: string, rep: string)
    requires |pat| > 0 && Avoids(a, pat[0])
    ensures Replace(a + rest, pat, rep) == a + Replace(rest, pat, rep)
    decreases |a|
  {
    var s := a + rest;
    if a == [] {
      assert s == rest;
    } else {
      assert s[0] == a[0];
      ReplaceSkipsChar(s, pat, rep);
      assert s[1..] == a[1..] + rest;
      ReplaceKeepsPrefix(a[1..], rest, pat, rep);
      assert a == [a[0]] + a[1..];
    }
  }

  /** A first character that cannot start the pattern is copied. */
  lemma ReplaceSkipsChar(s: string, pat: string, rep: string)
    requires |pat| > 0 && |s| > 0 && s[0] != pat[0]
    ensures Replace(s, pat, rep) == [s[0]] + Replace(s[1..], pat, rep)
  {
    if |s| < |pat| {
      assert Replace(s[1..], pat, rep) == s[1..];
      assert s == [s[0]] + s[1..];
    } else {
      assert s[..|pat|][0] == s[0];
    }
  }

  /** The first occurrence, after a stretch that cannot start one, becomes
      the replacement; scanning resumes just past it. */
  lemma ReplaceFirst(a: string, b: string, pat: string, rep: string)
    requires |pat| > 0 && Avoids(a, pat[0])
    ensures Replace(a + pat + b, pat, rep) == a + rep + Replace(b, pat, rep)
  {
    var t := pat + b;
    assert a + pat + b == a + t;
    ReplaceKeepsPrefix(a, t, pat, rep);
    assert t[..|pat|] == pat && t[|pat|..] == b;
  }
}
