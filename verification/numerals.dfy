/** Decimal text and numbers: the two JavaScript built-ins the calculator leans on,
    `parseFloat` (modelled by `Parse`) and `String(number)` (modelled by `Show`).
    Numbers are exact reals; `Show` keeps at most `FractionDigits` digits after the point,
    cutting toward zero, and `Parse(Show(r))` is proved to give back `r` cut the same way. */
module Numerals {

  /** Fractional digits `Show` keeps. */
  const FractionDigits: nat := 6

  predicate IsDigit(c: char) {
    '0' <= c <= '9'
  }

  predicate AllDigits(s: string) {
    forall i :: 0 <= i < |s| ==> IsDigit(s[i])
  }

  function DigitValue(c: char): (v: nat)
    requires IsDigit(c)
    ensures v < 10
  {
    c as int - '0' as int
  }

  function DigitChar(v: nat): (c: char)
    requires v < 10
    ensures IsDigit(c) && DigitValue(c) == v
  {
    ('0' as int + v) as char
  }

  function Pow10(k: nat): (p: nat)
    ensures p > 0
  {
    if k == 0 then 1 else 10 * Pow10(k - 1)
  }

  lemma {:induction false} Pow10Add(a: nat, b: nat)
    ensures Pow10(a + b) == Pow10(a) * Pow10(b)
    decreases b
  {
    if b > 0 {
      Pow10Add(a, b - 1);
      calc {
        Pow10(a + b);
        10 * Pow10(a + b - 1);
        10 * (Pow10(a) * Pow10(b - 1));
        Pow10(a) * (10 * Pow10(b - 1));
      }
    }
  }

  /** Number of times `c` occurs in `s`. */
  function Occurrences(s: string, c: char): nat {
    if s == [] then 0 else (if s[0] == c then 1 else 0) + Occurrences(s[1..], c)
  }

  lemma {:induction false} OccurrencesAbsent(s: string, c: char)
    requires c !in s
    ensures Occurrences(s, c) == 0
  {
    if s != [] {
      assert forall i :: 0 <= i < |s[1..]| ==> s[1..][i] == s[i + 1];
      OccurrencesAbsent(s[1..], c);
    }
  }

  lemma {:induction false} OccurrencesAppend(s: string, c: char, x: char)
    ensures Occurrences(s + [x], c) == Occurrences(s, c) + (if x == c then 1 else 0)
  {
    if s == [] {
      assert [x][1..] == [];
    } else {
      assert (s + [x])[1..] == s[1..] + [x];
      OccurrencesAppend(s[1..], c, x);
    }
  }

  // ---------------------------------------------------------------------------
  // Digit strings

  /** The natural number a string of decimal digits denotes (most significant first). */
  function DigitsValue(s: string): nat
    requires AllDigits(s)
  {
    if s == [] then 0 else DigitsValue(s[..|s| - 1]) * 10 + DigitValue(s[|s| - 1])
  }

  /** The canonical decimal digits of `n`: no leading zero except for `n == 0` itself. */
  function Digits(n: nat): (s: string)
    ensures |s| > 0 && AllDigits(s)
    ensures s[0] == '0' <==> n == 0
    ensures n == 0 ==> s == "0"
  {
    if n < 10 then [DigitChar(n)] else Digits(n / 10) + [DigitChar(n % 10)]
  }

  lemma {:induction false} DigitsValueOfDigits(n: nat)
    ensures DigitsValue(Digits(n)) == n
  {
    var s := Digits(n);
    if n < 10 {
      assert s[..|s| - 1] == [];
    } else {
      assert s[..|s| - 1] == Digits(n / 10);
      DigitsValueOfDigits(n / 10);
    }
  }

  lemma {:induction false} DigitsValueConcat(a: string, b: string)
    requires AllDigits(a) && AllDigits(b)
    ensures AllDigits(a + b)
    ensures DigitsValue(a + b) == DigitsValue(a) * Pow10(|b|) + DigitsValue(b)
    decreases |b|
  {
    if b == [] {
      assert a + b == a;
    } else {
      var b' := b[..|b| - 1];
      var d := DigitValue(b[|b| - 1]);
      assert (a + b)[..|a + b| - 1] == a + b';
      DigitsValueConcat(a, b');
      ShiftDigit(DigitsValue(a), Pow10(|b'|), DigitsValue(b'), d);
    }
  }

  lemma ShiftDigit(x: nat, p: nat, y: nat, d: nat)
    ensures (x * p + y) * 10 + d == x * (10 * p) + (y * 10 + d)
  {
  }

  /** `k` zero digits. */
  function Zeros(k: nat): (z: string)
    ensures |z| == k && AllDigits(z)
  {
    if k == 0 then [] else Zeros(k - 1) + ['0']
  }

  lemma {:induction false} ZerosValue(k: nat)
    ensures DigitsValue(Zeros(k)) == 0
  {
    if k > 0 {
      assert Zeros(k)[..k - 1] == Zeros(k - 1);
      ZerosValue(k - 1);
    }
  }

  /** `s` widened to at least `width` characters with leading zeros. */
  function PadZeros(s: string, width: nat): (p: string)
    requires AllDigits(s)
    ensures |p| >= width && AllDigits(p)
  {
    if |s| >= width then s else Zeros(width - |s|) + s
  }

  /** Padding with leading zeros keeps the value. */
  lemma PadZerosValue(s: string, width: nat)
    requires AllDigits(s)
    ensures DigitsValue(PadZeros(s, width)) == DigitsValue(s)
  {
    if |s| < width {
      var z := Zeros(width - |s|);
      ZerosValue(width - |s|);
      DigitsValueConcat(z, s);
      ZeroProduct(DigitsValue(z), Pow10(|s|));
    }
  }

  lemma ZeroProduct(x: nat, y: nat)
    requires x == 0
    ensures x * y == 0
  {
  }

  // ---------------------------------------------------------------------------
  // Reading: parseFloat

  /** Length of the run of digits `s` starts with. */
  function DigitRun(s: string): (n: nat)
    ensures n <= |s|
    ensures forall i :: 0 <= i < n ==> IsDigit(s[i])
    ensures n < |s| ==> !IsDigit(s[n])
  {
    if s == [] || !IsDigit(s[0]) then 0 else 1 + DigitRun(s[1..])
  }

  /** The value of the digits `s` starts with. */
  function LeadingValue(s: string): nat {
    var n := DigitRun(s);
    assert AllDigits(s[..n]);
    DigitsValue(s[..n])
  }

  /** The value of the longest prefix of `u` of the form `digits[.digits]`. */
  function UnsignedValue(u: string): real {
    var i := DigitRun(u);
    if i < |u| && u[i] == '.' then
      var f := u[i + 1..];
      LeadingValue(u) as real + LeadingValue(f) as real / Pow10(DigitRun(f)) as real
    else
      LeadingValue(u) as real
  }

  /** parseFloat on the strings the calculator displays: an optional minus sign, then as
      much of `digits[.digits]` as is present. */
  function Parse(s: string): real {
    if |s| > 0 && s[0] == '-' then -UnsignedValue(s[1..]) else UnsignedValue(s)
  }

  /** `digits`, `digits.` or `digits.digits`: at least one digit first, at most one point,
      and only digits after it. */
  predicate IsUnsignedLiteral(u: string) {
    && |u| > 0
    && IsDigit(u[0])
    && (forall i :: 0 <= i < |u| ==> IsDigit(u[i]) || u[i] == '.')
    && (forall i, j :: 0 <= i < j < |u| && u[i] == '.' ==> IsDigit(u[j]))
  }

  /** A numeric literal as the display holds it: an unsigned literal, perhaps after a `-`. */
  predicate IsLiteral(s: string) {
    if |s| > 0 && s[0] == '-' then IsUnsignedLiteral(s[1..]) else IsUnsignedLiteral(s)
  }

  /** A literal has at most one decimal point. */
  lemma LiteralPoints(s: string)
    requires IsLiteral(s)
    ensures Occurrences(s, '.') <= 1
  {
    if s[0] == '-' {
      UnsignedLiteralPoints(s[1..]);
    } else {
      UnsignedLiteralPoints(s);
    }
  }

  lemma {:induction false} UnsignedLiteralPoints(u: string)
    requires IsUnsignedLiteral(u)
    ensures Occurrences(u, '.') <= 1
    decreases |u|
  {
    var t := u[1..];
    assert forall i :: 0 <= i < |t| ==> t[i] == u[i + 1];
    if t == [] {
    } else if t[0] == '.' {
      var f := t[1..];
      assert forall i :: 0 <= i < |f| ==> f[i] == u[i + 2] && IsDigit(f[i]);
      OccurrencesAbsent(f, '.');
    } else {
      UnsignedLiteralPoints(t);
    }
  }

  lemma DigitRunIs(s: string, n: nat)
    requires n <= |s|
    requires forall i :: 0 <= i < n ==> IsDigit(s[i])
    requires n < |s| ==> !IsDigit(s[n])
    ensures DigitRun(s) == n
  {
  }

  lemma LeadingValueOf(a: string, rest: string)
    requires AllDigits(a)
    requires rest == [] || !IsDigit(rest[0])
    ensures DigitRun(a + rest) == |a|
    ensures LeadingValue(a + rest) == DigitsValue(a)
  {
    DigitRunIs(a + rest, |a|);
    assert (a + rest)[..|a|] == a;
  }

  lemma UnsignedValueOfDigits(u: string)
    requires AllDigits(u)
    ensures UnsignedValue(u) == DigitsValue(u) as real
  {
    LeadingValueOf(u, []);
    assert u + [] == u;
  }

  lemma LiteralOfFixed(a: string, b: string)
    requires |a| > 0 && AllDigits(a) && AllDigits(b)
    ensures IsUnsignedLiteral(a + "." + b)
  {
    var u := a + "." + b;
    forall i | 0 <= i < |u|
      ensures IsDigit(u[i]) || u[i] == '.'
    {
      if i < |a| {
        assert u[i] == a[i];
      } else if i > |a| {
        assert u[i] == b[i - |a| - 1];
      }
    }
    forall i, j | 0 <= i < j < |u| && u[i] == '.'
      ensures IsDigit(u[j])
    {
      assert u[j] == b[j - |a| - 1];
    }
  }

  lemma FixedParts(a: string, b: string)
    requires |a| > 0 && AllDigits(a) && AllDigits(b)
    ensures var u := a + "." + b;
      && DigitRun(u) == |a| && |a| < |u| && u[|a|] == '.' && u[|a| + 1..] == b
      && LeadingValue(u) == DigitsValue(a)
  {
    var u := a + "." + b;
    assert u == a + ("." + b);
    LeadingValueOf(a, "." + b);
  }

  lemma UnsignedValueOfFixed(a: string, b: string)
    requires |a| > 0 && AllDigits(a) && AllDigits(b)
    ensures UnsignedValue(a + "." + b)
         == DigitsValue(a) as real + DigitsValue(b) as real / Pow10(|b|) as real
  {
    FixedParts(a, b);
    LeadingValueOf(b, []);
    assert b + [] == b;
  }

  /** Appending a digit to a literal keeps it a literal. */
  lemma LiteralAppendDigit(s: string, d: char)
    requires IsLiteral(s) && IsDigit(d)
    ensures IsLiteral(s + [d])
  {
    if s[0] == '-' {
      assert (s + [d])[1..] == s[1..] + [d];
    }
  }

  /** Appending a point to a literal without one keeps it a literal. */
  lemma LiteralAppendPoint(s: string)
    requires IsLiteral(s) && '.' !in s
    ensures IsLiteral(s + ".")
  {
    if s[0] == '-' {
      assert (s + ".")[1..] == s[1..] + ".";
      assert forall i :: 0 <= i < |s[1..]| ==> s[1..][i] == s[i + 1];
    }
  }

  /** A point appended to a literal that had none does not change the number read. */
  lemma ParseAppendPoint(s: string)
    requires IsLiteral(s) && '.' !in s
    ensures Parse(s + ".") == Parse(s)
  {
    if s[0] == '-' {
      var u := s[1..];
      PointlessDigits(u);
      UnsignedAppendPoint(u);
      assert (s + ".")[1..] == u + ".";
    } else {
      PointlessDigits(s);
      UnsignedAppendPoint(s);
    }
  }

  lemma PointlessDigits(u: string)
    requires IsUnsignedLiteral(u) && '.' !in u
    ensures AllDigits(u)
  {
    forall i | 0 <= i < |u| ensures IsDigit(u[i]) {
      assert u[i] in u;
    }
  }

  lemma UnsignedAppendPoint(u: string)
    requires |u| > 0 && AllDigits(u)
    ensures UnsignedValue(u + ".") == UnsignedValue(u)
  {
    UnsignedValueOfDigits(u);
    UnsignedValueOfFixed(u, "");
    assert u + "." + "" == u + ".";
  }

  // ---------------------------------------------------------------------------
  // Writing: String(number)

  function Abs(r: real): (a: real)
    ensures a >= 0.0 && (a == r || a == -r)
  {
    if r < 0.0 then -r else r
  }

  /** |r| cut toward zero to `FractionDigits` fractional digits, as a count of units of
      10^-FractionDigits. */
  function Scaled(r: real): nat {
    var x := Abs(r) * Pow10(FractionDigits) as real;
    assert x >= 0.0;
    x.Floor
  }

  /** `r` cut toward zero to `FractionDigits` fractional digits: the number `Show` prints. */
  function Truncate(r: real): real {
    var m := Scaled(r) as real / Pow10(FractionDigits) as real;
    if r < 0.0 then -m else m
  }

  /** The numbers `Show` prints exactly. */
  predicate IsRepresentable(r: real) {
    Truncate(r) == r
  }

  /** A fixed-point number `units / 10^scale`. */
  datatype Fixed = Fixed(units: nat, scale: nat)

  function FixedValue(f: Fixed): real {
    f.units as real / Pow10(f.scale) as real
  }

  /** Drops trailing fractional zeros from `m / 10^k`. */
  function Normalize(m: nat, k: nat): Fixed {
    if k > 0 && m % 10 == 0 then Normalize(m / 10, k - 1) else Fixed(m, k)
  }

  /** `Normalize` keeps the value and leaves no zero as the last fractional digit. */
  lemma {:induction false} NormalizeValue(m: nat, k: nat)
    ensures var f := Normalize(m, k);
      && f.scale <= k
      && m == f.units * Pow10(k - f.scale)
      && (f.scale == 0 || f.units % 10 != 0)
    decreases k
  {
    if k > 0 && m % 10 == 0 {
      var f := Normalize(m / 10, k - 1);
      NormalizeValue(m / 10, k - 1);
      assert Normalize(m, k) == f;
      assert Pow10(k - f.scale) == 10 * Pow10(k - 1 - f.scale);
      ShiftUnits(m, f.units, Pow10(k - 1 - f.scale));
    }
  }

  lemma ShiftUnits(m: nat, u: nat, p: nat)
    requires m % 10 == 0 && m / 10 == u * p
    ensures m == u * (10 * p)
  {
  }

  /** `f` written as `digits` (scale 0) or `digits.digits` with `scale` fractional digits. */
  function Render(f: Fixed): string {
    if f.scale == 0 then Digits(f.units) else
      var ds := PadZeros(Digits(f.units), f.scale + 1);
      ds[..|ds| - f.scale] + "." + ds[|ds| - f.scale..]
  }

  /** String(r): the sign, then |r| cut to `FractionDigits` fractional digits with trailing
      fractional zeros (and the point, if nothing follows it) left out. */
  function Show(r: real): string {
    var f := Normalize(Scaled(r), FractionDigits);
    (if r < 0.0 && f.units > 0 then "-" else "") + Render(f)
  }

  lemma WholeAndFraction(x: nat, y: nat, p: nat, n: nat)
    requires p > 0 && x * p + y == n
    ensures x as real + y as real / p as real == n as real / p as real
  {
    assert (x * p + y) as real == x as real * p as real + y as real;
  }

  /** `u / 10^s` is `(u * 10^k) / 10^(s + k)`. */
  lemma SameFraction(u: nat, s: nat, k: nat, m: nat)
    requires m == u * Pow10(k)
    ensures u as real / Pow10(s) as real == m as real / Pow10(s + k) as real
  {
    Pow10Add(s, k);
    ProductAsReal(u, Pow10(k), m);
    ProductAsReal(Pow10(s), Pow10(k), Pow10(s + k));
    Cancel(u as real, Pow10(s) as real, Pow10(k) as real, m as real, Pow10(s + k) as real);
  }

  lemma ProductAsReal(x: nat, y: nat, z: nat)
    requires x * y == z
    ensures x as real * y as real == z as real
  {
  }

  lemma Cancel(x: real, a: real, b: real, xb: real, ab: real)
    requires a > 0.0 && b > 0.0 && xb == x * b && ab == a * b
    ensures x / a == xb / ab
  {
  }

  /** Splitting digits whose value is `n` into whole and fractional parts of `k` digits
      reads back `n / 10^k`. */
  lemma SplitValue(ds: string, k: nat, n: nat, u: string)
    requires AllDigits(ds) && |ds| > k && DigitsValue(ds) == n
    requires u == ds[..|ds| - k] + "." + ds[|ds| - k..]
    ensures IsUnsignedLiteral(u)
    ensures UnsignedValue(u) == n as real / Pow10(k) as real
  {
    var a, b := ds[..|ds| - k], ds[|ds| - k..];
    assert AllDigits(a) && AllDigits(b) && |b| == k;
    LiteralOfFixed(a, b);
    assert DigitsValue(a) * Pow10(k) + DigitsValue(b) == n by {
      assert a + b == ds;
      DigitsValueConcat(a, b);
    }
    assert UnsignedValue(u) == n as real / Pow10(k) as real by {
      UnsignedValueOfFixed(a, b);
      WholeAndFraction(DigitsValue(a), DigitsValue(b), Pow10(k), n);
    }
  }

  lemma RenderValue(f: Fixed)
    ensures IsUnsignedLiteral(Render(f))
    ensures UnsignedValue(Render(f)) == FixedValue(f)
  {
    if f.scale == 0 {
      RenderWhole(f.units);
    } else {
      RenderFraction(f.units, f.scale);
    }
  }

  lemma RenderFraction(n: nat, k: nat)
    requires k > 0
    ensures IsUnsignedLiteral(Render(Fixed(n, k)))
    ensures UnsignedValue(Render(Fixed(n, k))) == n as real / Pow10(k) as real
  {
    var ds := PadZeros(Digits(n), k + 1);
    assert DigitsValue(ds) == n by {
      DigitsValueOfDigits(n);
      PadZerosValue(Digits(n), k + 1);
    }
    SplitValue(ds, k, n, Render(Fixed(n, k)));
  }

  lemma RenderWhole(n: nat)
    ensures IsUnsignedLiteral(Digits(n))
    ensures UnsignedValue(Digits(n)) == n as real
  {
    DigitsValueOfDigits(n);
    UnsignedValueOfDigits(Digits(n));
  }

  /** String(r) is a literal, and parseFloat reads back `r` cut to `FractionDigits`
      fractional digits. */
  lemma ParseShow(r: real)
    ensures IsLiteral(Show(r))
    ensures Parse(Show(r)) == Truncate(r)
  {
    var f := Normalize(Scaled(r), FractionDigits);
    TruncateFixed(r);
    ShowFixedParts(r);
    if r < 0.0 && f.units == 0 {
      ZeroFixed(f);
    }
  }

  /** `Truncate(r)` is the value of the fixed-point number `Show` spells, with `r`'s sign. */
  lemma TruncateFixed(r: real)
    ensures var v := FixedValue(Normalize(Scaled(r), FractionDigits));
      Truncate(r) == if r < 0.0 then -v else v
  {
    var m := Scaled(r);
    var f := Normalize(m, FractionDigits);
    NormalizeValue(m, FractionDigits);
    SameFraction(f.units, f.scale, FractionDigits - f.scale, m);
  }

  /** `Show(r)` is a literal reading as its fixed-point number, negated when a `-` leads. */
  lemma ShowFixedParts(r: real)
    ensures var f := Normalize(Scaled(r), FractionDigits);
      && IsLiteral(Show(r))
      && Parse(Show(r)) == if r < 0.0 && f.units > 0 then -FixedValue(f) else FixedValue(f)
  {
    var f := Normalize(Scaled(r), FractionDigits);
    var neg := r < 0.0 && f.units > 0;
    var body := Render(f);
    assert Show(r) == (if neg then "-" else "") + body;
    RenderValue(f);
    SignedLiteral(neg, body);
  }

  /** A literal with or without a leading `-` reads as the unsigned value, negated or not. */
  lemma SignedLiteral(neg: bool, u: string)
    requires IsUnsignedLiteral(u)
    ensures IsLiteral((if neg then "-" else "") + u)
    ensures Parse((if neg then "-" else "") + u) == if neg then -UnsignedValue(u) else UnsignedValue(u)
  {
    if neg {
      assert ("-" + u)[1..] == u;
    } else {
      assert "" + u == u;
    }
  }

  lemma ZeroFixed(f: Fixed)
    requires f.units == 0
    ensures FixedValue(f) == 0.0
  {
  }

  /** The numbers `Show` prints exactly are read back exactly. */
  lemma ParseShowExact(r: real)
    requires IsRepresentable(r)
    ensures Parse(Show(r)) == r
  {
    ParseShow(r);
  }

  lemma TruncateNegate(r: real)
    ensures Truncate(-r) == -Truncate(r)
  {
    assert Abs(-r) == Abs(r);
    assert Scaled(-r) == Scaled(r);
  }

  /** String(w), for `w` the negation of `v`, is a literal reading back as `v` cut and
      negated. */
  lemma ParseShowNegated(v: real, w: real)
    requires w == -v
    ensures IsLiteral(Show(w))
    ensures Parse(Show(w)) == -Truncate(v)
  {
    ParseShow(w);
    TruncateNegate(v);
  }

  /** Cutting a second time changes nothing: `Show`'s output is read back exactly. */
  lemma TruncateIdempotent(r: real)
    ensures IsRepresentable(Truncate(r))
  {
    var p := Pow10(FractionDigits) as real;
    var m := Scaled(r);
    var t := Truncate(r);
    assert Abs(t) == m as real / p;
    assert Abs(t) * p == m as real;
    assert Scaled(t) == m;
  }

  lemma NormalizeShift(n: nat, j: nat, k: nat)
    ensures Normalize(n * Pow10(j), k + j) == Normalize(n, k)
    decreases j
  {
    if j > 0 {
      var m := n * Pow10(j);
      assert m == 10 * (n * Pow10(j - 1));
      assert m % 10 == 0 && m / 10 == n * Pow10(j - 1);
      NormalizeShift(n, j - 1, k);
    }
  }

  /** `Show` of `n / 10^k` whose last fractional digit is not zero is the fixed-point
      rendering of `(n, k)`. */
  lemma ShowFixed(n: nat, k: nat)
    requires k <= FractionDigits
    requires k == 0 || n % 10 != 0
    ensures Show(n as real / Pow10(k) as real) == Render(Fixed(n, k))
  {
    var r := n as real / Pow10(k) as real;
    var m := ScaledUnits(n, k);
    assert Scaled(r) == m by {
      ScaledOfFraction(m, r);
    }
    assert Normalize(m, FractionDigits) == Fixed(n, k) by {
      NormalizeShift(n, FractionDigits - k, k);
    }
    assert r >= 0.0 by {
      NonNegativeQuotient(n as real, Pow10(k) as real);
    }
    ShowNonNegative(r, Fixed(n, k));
  }

  lemma ShowNonNegative(r: real, f: Fixed)
    requires r >= 0.0 && Normalize(Scaled(r), FractionDigits) == f
    ensures Show(r) == Render(f)
  {
    assert "" + Render(f) == Render(f);
  }

  /** `n / 10^k` counted in units of 10^-FractionDigits. */
  function ScaledUnits(n: nat, k: nat): (m: nat)
    requires k <= FractionDigits
    ensures m == n * Pow10(FractionDigits - k)
    ensures m as real / Pow10(FractionDigits) as real == n as real / Pow10(k) as real
  {
    var m := n * Pow10(FractionDigits - k);
    SameFraction(n, k, FractionDigits - k, m);
    m
  }

  lemma NonNegativeQuotient(x: real, p: real)
    requires x >= 0.0 && p > 0.0
    ensures x / p >= 0.0
  {
  }

  lemma ScaledOfFraction(m: nat, r: real)
    requires r == m as real / Pow10(FractionDigits) as real
    ensures Scaled(r) == m
  {
    var p := Pow10(FractionDigits) as real;
    assert Abs(r) == r;
    assert r * p == m as real;
  }

  /** String(n) for a natural number is its digits. */
  lemma ShowNat(n: nat)
    ensures Show(n as real) == Digits(n)
  {
    var r := n as real / Pow10(0) as real;
    assert r == n as real;
    ShowFixed(n, 0);
  }

  /** parseFloat reads a string of digits as the natural number it denotes. */
  lemma ParseDigits(s: string)
    requires AllDigits(s) && |s| > 0
    ensures Parse(s) == DigitsValue(s) as real
  {
    UnsignedValueOfDigits(s);
  }

  lemma ParseNat(n: nat)
    ensures Parse(Digits(n)) == n as real
  {
    ParseDigits(Digits(n));
    DigitsValueOfDigits(n);
  }

  lemma TruncateInt(n: int)
    ensures IsRepresentable(n as real)
  {
    var p := Pow10(FractionDigits);
    assert Abs(n as real) * p as real == ((if n < 0 then -n else n) * p) as real;
  }
}
