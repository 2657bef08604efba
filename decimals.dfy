/**
  The numbers the calculator computes with. A JavaScript number that the engine
  can produce is either NaN or a finite decimal; a finite decimal is kept exactly
  as `mantissa / 10^scale`. Parsing follows `parseFloat` (longest numeric prefix,
  NaN when there is none), rendering follows `Number.prototype.toString` in plain
  decimal notation, and `toFixed(8)` is rounding half away from zero to eight
  decimal places.
*/
module Decimals {
  import opened Wrappers

  /** The exact value `mantissa / 10^scale`. */
  datatype Decimal = Decimal(mantissa: int, scale: nat)

  /** A JavaScript number as the engine sees it. */
  datatype Number = NaN | Finite(value: Decimal)

  /** Number of decimal places that `toFixed` keeps in the engine. */
  const Places: nat := 8

  function Pow10(k: nat): (r: nat)
    ensures r >= 1
  {
    if k == 0 then 1 else 10 * Pow10(k - 1)
  }

  lemma {:induction false} Pow10Add(j: nat, k: nat)
    ensures Pow10(j + k) == Pow10(j) * Pow10(k)
  {
    if k > 0 {
      Pow10Add(j, k - 1);
      assert Pow10(j + k) == 10 * Pow10(j + k - 1);
    }
  }

  function Abs(x: int): nat {
    if x < 0 then -x else x
  }

  ghost function Value(d: Decimal): real {
    d.mantissa as real / Pow10(d.scale) as real
  }

  lemma ZeroValue(d: Decimal)
    ensures Value(d) == 0.0 <==> d.mantissa == 0
  {
  }

  /** `x` is within half a unit of the eighth decimal place of `exact`. */
  ghost predicate NearestAt8(x: Decimal, exact: real) {
    && x.scale == Places
    && -1.0 <= 2.0 * (Value(x) - exact) * Pow10(Places) as real <= 1.0
  }

  // ---------------------------------------------------------------- digits

  predicate IsDigit(c: char) {
    '0' <= c <= '9'
  }

  predicate AllDigits(s: string) {
    forall i :: 0 <= i < |s| ==> IsDigit(s[i])
  }

  function DigitChar(n: nat): (c: char)
    requires n < 10
    ensures IsDigit(c) && (c as int) - ('0' as int) == n
  {
    ('0' as int + n) as char
  }

  /** Number of occurrences of `c` in `s`. */
  function Occurrences(s: string, c: char): (n: nat)
    ensures n <= |s|
    ensures n == 0 <==> c !in s
  {
    if s == [] then 0
    else Occurrences(s[..|s| - 1], c) + (if s[|s| - 1] == c then 1 else 0)
  }

  lemma {:induction false} OccurrencesAppend(a: string, b: string, c: char)
    ensures Occurrences(a + b, c) == Occurrences(a, c) + Occurrences(b, c)
  {
    if b != [] {
      assert (a + b)[..|a + b| - 1] == a + b[..|b| - 1];
      OccurrencesAppend(a, b[..|b| - 1], c);
    } else {
      assert a + b == a;
    }
  }

  /** The value of a string of decimal digits, most significant first. */
  function DigitsValue(ds: string): (n: nat)
    requires AllDigits(ds)
    ensures n < Pow10(|ds|)
  {
    if ds == [] then 0
    else
      var last := (ds[|ds| - 1] as int) - ('0' as int);
      DigitsValue(ds[..|ds| - 1]) * 10 + last
  }

  lemma {:induction false} DigitsValueAppend(a: string, b: string)
    requires AllDigits(a) && AllDigits(b)
    ensures AllDigits(a + b)
    ensures DigitsValue(a + b) == DigitsValue(a) * Pow10(|b|) + DigitsValue(b)
  {
    if b != [] {
      var b' := b[..|b| - 1];
      assert (a + b)[..|a + b| - 1] == a + b';
      DigitsValueAppend(a, b');
      var x, y, p := DigitsValue(a), DigitsValue(b'), Pow10(|b'|);
      var last := (b[|b| - 1] as int) - ('0' as int);
      assert DigitsValue(a + b) == DigitsValue(a + b') * 10 + last;
      assert DigitsValue(b) == y * 10 + last;
      assert Pow10(|b|) == p * 10;
      ShiftDigit(x, p, y, last);
    } else {
      assert a + b == a;
    }
  }

  lemma ShiftDigit(x: int, p: int, y: int, d: int)
    ensures (x * p + y) * 10 + d == x * (p * 10) + (y * 10 + d)
  {
    assert (x * p) * 10 == x * (p * 10);
  }

  /** The longest prefix of `s` made of digits. */
  function DigitPrefix(s: string): (r: string)
    ensures r <= s && AllDigits(r)
    ensures |r| < |s| ==> !IsDigit(s[|r|])
  {
    if s != [] && IsDigit(s[0]) then [s[0]] + DigitPrefix(s[1..]) else []
  }

  lemma {:induction false} DigitPrefixOf(a: string, b: string)
    requires AllDigits(a)
    requires b == [] || !IsDigit(b[0])
    ensures DigitPrefix(a + b) == a
  {
    if a != [] {
      assert (a + b)[1..] == a[1..] + b;
      DigitPrefixOf(a[1..], b);
    }
  }

  /** Shortest decimal digits of `n` (no leading zero unless `n` is zero). */
  function NatToString(n: nat): (r: string)
    ensures r != [] && AllDigits(r) && DigitsValue(r) == n
    ensures r[0] == '0' ==> r == "0"
  {
    if n < 10 then [DigitChar(n)]
    else
      var r := NatToString(n / 10) + [DigitChar(n % 10)];
      assert r[..|r| - 1] == NatToString(n / 10);
      r
  }

  /** Exactly `k` digits of `n`, padded with leading zeros. */
  function PadDigits(n: nat, k: nat): (r: string)
    requires n < Pow10(k)
    ensures |r| == k && AllDigits(r) && DigitsValue(r) == n
  {
    if k == 0 then []
    else
      var r := PadDigits(n / 10, k - 1) + [DigitChar(n % 10)];
      assert r[..|r| - 1] == PadDigits(n / 10, k - 1);
      r
  }

  // ---------------------------------------------------------------- parseFloat

  /**
    parseFloat restricted to the characters the engine's operands can hold:
    an optional sign, digits, at most one '.' followed by digits; the longest
    such prefix is read and the rest ignored. No digit at all gives NaN (None).
  */
  function Parse(s: string): (r: Option<Decimal>)
    ensures s == "" || s == "." || s == "-" || s == "NaN" ==> r.None?
    ensures s != [] && AllDigits(s) ==> r == Some(Decimal(DigitsValue(s), 0))
  {
    var body := Unsigned(s);
    var whole := DigitPrefix(body);
    var r := FromParts(s != [] && s[0] == '-', whole, FractionDigits(body[|whole|..]));
    assert s != [] && AllDigits(s) ==> r == Some(Decimal(DigitsValue(s), 0)) by {
      if s != [] && AllDigits(s) {
        DigitPrefixOf(s, []);
        assert s + [] == s;
        assert body[|whole|..] == [];
      }
    }
    r
  }

  /** The digits after a leading '.', if `rest` starts with one. */
  function FractionDigits(rest: string): (r: string)
    ensures AllDigits(r)
  {
    if rest != [] && rest[0] == '.' then DigitPrefix(rest[1..]) else []
  }

  /** The number with the given sign and digits; NaN when there is no digit at all. */
  function FromParts(negative: bool, whole: string, fraction: string): (r: Option<Decimal>)
    requires AllDigits(whole) && AllDigits(fraction)
    ensures r.None? <==> whole == [] && fraction == []
    ensures AllDigits(whole + fraction)
    ensures r.Some? ==> r.value == Decimal(Signed(negative, DigitsValue(whole + fraction)), |fraction|)
  {
    DigitsValueAppend(whole, fraction);
    if whole + fraction == [] then None
    else
      Some(Decimal(Signed(negative, DigitsValue(whole + fraction)), |fraction|))
  }

  function Signed(negative: bool, magnitude: nat): int {
    if negative then -(magnitude as int) else magnitude
  }

  /** `s` without its leading sign, if it has one. */
  function Unsigned(s: string): string
  {
    if s != [] && (s[0] == '-' || s[0] == '+') then s[1..] else s
  }

  /** An operand with a point: digits before it, digits after it, at least one digit in all. */
  lemma ParsePointed(whole: string, fraction: string)
    requires AllDigits(whole) && AllDigits(fraction) && whole + fraction != []
    ensures AllDigits(whole + fraction)
    ensures Parse(whole + "." + fraction) == Some(Decimal(DigitsValue(whole + fraction), |fraction|))
  {
    var s := whole + "." + fraction;
    assert s[0] != '-' && s[0] != '+' by {
      if whole != [] { assert s[0] == whole[0]; } else { assert s[0] == '.'; }
    }
    assert Unsigned(s) == s;
    assert s == whole + ("." + fraction);
    DigitPrefixOf(whole, "." + fraction);
    assert s[|whole|..] == "." + fraction;
    assert ("." + fraction)[1..] == fraction;
    DigitPrefixOf(fraction, []);
    assert fraction + [] == fraction;
    DigitsValueAppend(whole, fraction);
  }

  // ---------------------------------------------------------------- toString

  /**
    The operand text has no superfluous leading zero: a leading '0' is the
    whole operand or is followed by the decimal point.
  */
  predicate NoLeadingZero(s: string) {
    s != [] && s[0] == '0' ==> s == "0" || (|s| >= 2 && s[1] == '.')
  }

  /** `d` with the trailing zeros of its fraction dropped; the value is unchanged. */
  function Normalize(d: Decimal): (r: Decimal)
    ensures Value(r) == Value(d)
    ensures r.scale <= d.scale
    ensures r.scale > 0 ==> r.mantissa % 10 != 0
    decreases d.scale
  {
    if d.scale > 0 && d.mantissa % 10 == 0 then
      var shorter := Decimal(d.mantissa / 10, d.scale - 1);
      ScaleValue(shorter.mantissa, 1, shorter.scale);
      assert shorter.mantissa * Pow10(1) == d.mantissa;
      Normalize(shorter)
    else d
  }

  /** Trailing zeros added to a decimal are dropped again by `Normalize`. */
  lemma {:induction false} NormalizeScaled(n: int, j: nat, k: nat)
    ensures Normalize(Decimal(n * Pow10(k), j + k)) == Normalize(Decimal(n, j))
  {
    if k > 0 {
      var m := n * Pow10(k - 1);
      assert n * Pow10(k) == 10 * m;
      assert (10 * m) / 10 == m && (10 * m) % 10 == 0;
      NormalizeScaled(n, j, k - 1);
    }
  }

  /** Multiplying the mantissa by `10^j` and raising the scale by `j` keeps the value. */
  lemma ScaleValue(m: int, j: nat, k: nat)
    ensures Value(Decimal(m * Pow10(j), k + j)) == Value(Decimal(m, k))
  {
    var a, b := Pow10(k), Pow10(j);
    Pow10Add(k, j);
    CastMul(m, b);
    CastMul(a, b);
    Cancel(m as real, a as real, b as real);
  }

  /**
    Number-to-string in plain decimal notation: an optional '-', the integer
    part without leading zeros, and, when the value is not whole, '.' and the
    fraction without trailing zeros. Negative zero does not arise.
  */
  function Render(d: Decimal): (r: string)
    ensures r != []
  {
    var n := Normalize(d);
    var magnitude := Abs(n.mantissa);
    DivMod(magnitude, Pow10(n.scale));
    var whole := NatToString(magnitude / Pow10(n.scale));
    var digits := if n.scale == 0 then whole
                  else whole + "." + PadDigits(magnitude % Pow10(n.scale), n.scale);
    if n.mantissa < 0 then "-" + digits else digits
  }

  /** `String(x)` for the numbers the engine holds; NaN is spelt "NaN". */
  function RenderNumber(x: Number): (r: string)
    ensures x.NaN? ==> r == "NaN"
    ensures x.Finite? ==> r == Render(x.value)
    ensures r != [] && Occurrences(r, '.') <= 1
    ensures NoLeadingZero(r)
  {
    match x
    case NaN => "NaN"
    case Finite(d) => RenderShape(d); RenderLeadingZero(d); Render(d)
  }

  /** `toString` writes a zero integer part only as "0", alone or before the point. */
  lemma RenderLeadingZero(d: Decimal)
    ensures NoLeadingZero(Render(d))
  {
    var n := Normalize(d);
    var magnitude := Abs(n.mantissa);
    DivMod(magnitude, Pow10(n.scale));
    var whole := NatToString(magnitude / Pow10(n.scale));
    if n.mantissa < 0 {
      assert Render(d)[0] == '-';
    } else if n.scale == 0 {
      assert Render(d) == whole;
    } else {
      var fraction := PadDigits(magnitude % Pow10(n.scale), n.scale);
      assert Render(d) == whole + "." + fraction;
      assert Render(d)[0] == whole[0];
      if whole[0] == '0' {
        assert Render(d)[1] == '.';
      }
    }
  }

  lemma RenderShape(d: Decimal)
    ensures Occurrences(Render(d), '.') <= 1
    ensures Render(d)[0] == '-' <==> Normalize(d).mantissa < 0
  {
    var n := Normalize(d);
    var magnitude := Abs(n.mantissa);
    DivMod(magnitude, Pow10(n.scale));
    var whole := NatToString(magnitude / Pow10(n.scale));
    var sign := if n.mantissa < 0 then "-" else "";
    if n.scale == 0 {
      assert Render(d) == sign + whole;
      OccurrencesAppend(sign, whole, '.');
    } else {
      var fraction := PadDigits(magnitude % Pow10(n.scale), n.scale);
      assert Render(d) == sign + whole + "." + fraction;
      OccurrencesAppend(sign + whole + ".", fraction, '.');
      OccurrencesAppend(sign + whole, ".", '.');
      OccurrencesAppend(sign, whole, '.');
    }
  }

  /** The text of an optionally signed decimal, written without an exponent. */
  function DecimalText(negative: bool, whole: string, fraction: string): string {
    (if negative then "-" else "") + whole + (if fraction == [] then "" else "." + fraction)
  }

  /** parseFloat reads a whole signed decimal text back. */
  lemma ParseDecimalText(negative: bool, whole: string, fraction: string)
    requires whole != [] && AllDigits(whole) && AllDigits(fraction)
    ensures AllDigits(whole + fraction)
    ensures Parse(DecimalText(negative, whole, fraction))
         == Some(Decimal(Signed(negative, DigitsValue(whole + fraction)), |fraction|))
  {
    SplitDecimalText(negative, whole, fraction);
    DigitsValueAppend(whole, fraction);
    assert whole + fraction != [];
  }

  lemma SplitDecimalText(negative: bool, whole: string, fraction: string)
    requires whole != [] && AllDigits(whole) && AllDigits(fraction)
    ensures Parse(DecimalText(negative, whole, fraction)) == FromParts(negative, whole, fraction)
  {
    var s := DecimalText(negative, whole, fraction);
    var tail := if fraction == [] then "" else "." + fraction;
    var digits := whole + tail;
    assert s == (if negative then "-" + digits else digits);
    assert Unsigned(s) == digits;
    DigitPrefixOf(whole, tail);
    assert digits[|whole|..] == tail;
    if fraction != [] {
      assert tail[1..] == fraction;
      DigitPrefixOf(fraction, []);
      assert fraction + [] == fraction;
    }
    assert (s != [] && s[0] == '-') == negative by {
      if !negative { assert s[0] == whole[0]; }
    }
    assert FractionDigits(Unsigned(s)[|whole|..]) == fraction;
  }

  /** Reading back what was rendered gives the same number (in its shortest form). */
  lemma ParseRender(d: Decimal)
    ensures Parse(Render(d)) == Some(Normalize(d))
    ensures Value(Parse(Render(d)).value) == Value(d)
  {
    var n := Normalize(d);
    var magnitude := Abs(n.mantissa);
    var p := Pow10(n.scale);
    DivMod(magnitude, p);
    var w, f := magnitude / p, magnitude % p;
    var whole := NatToString(w);
    var fraction := if n.scale == 0 then [] else PadDigits(f, n.scale);
    assert Render(d) == DecimalText(n.mantissa < 0, whole, fraction);
    ParseDecimalText(n.mantissa < 0, whole, fraction);
    DigitsValueAppend(whole, fraction);
    assert DigitsValue(whole + fraction) == magnitude;
  }

  // ---------------------------------------------------------------- arithmetic

  /** Exact sum. */
  function Add(a: Decimal, b: Decimal): (r: Decimal)
    ensures Value(r) == Value(a) + Value(b)
  {
    var scale := if a.scale < b.scale then b.scale else a.scale;
    var x, y := a.mantissa * Pow10(scale - a.scale), b.mantissa * Pow10(scale - b.scale);
    ScaleValue(a.mantissa, scale - a.scale, a.scale);
    ScaleValue(b.mantissa, scale - b.scale, b.scale);
    SumOfFractions(x, y, Pow10(scale));
    Decimal(x + y, scale)
  }

  /** Exact difference. */
  function Sub(a: Decimal, b: Decimal): (r: Decimal)
    ensures Value(r) == Value(a) - Value(b)
  {
    Add(a, Decimal(-b.mantissa, b.scale))
  }

  /** Exact product. */
  function Mul(a: Decimal, b: Decimal): (r: Decimal)
    ensures Value(r) == Value(a) * Value(b)
  {
    Pow10Add(a.scale, b.scale);
    ProductOfFractions(a.mantissa, b.mantissa, Pow10(a.scale), Pow10(b.scale));
    Decimal(a.mantissa * b.mantissa, a.scale + b.scale)
  }

  lemma SumOfFractions(x: int, y: int, p: nat)
    requires p > 0
    ensures (x + y) as real / p as real == x as real / p as real + y as real / p as real
  {
  }

  lemma ProductOfFractions(x: int, y: int, p: nat, q: nat)
    requires p > 0 && q > 0
    ensures (x * y) as real / (p * q) as real == (x as real / p as real) * (y as real / q as real)
  {
    assert (x * y) as real == x as real * y as real;
    assert (p * q) as real == p as real * q as real;
  }

  /** `n / d` rounded to the nearest integer, halves away from zero. */
  function RoundDiv(n: int, d: int): (q: int)
    requires d != 0
    ensures 2 * Abs(n - q * d) <= Abs(d)
    ensures 2 * Abs(n - q * d) == Abs(d) ==> Abs(q * d) > Abs(n)
  {
    var m := (2 * Abs(n) + Abs(d)) / (2 * Abs(d));
    RoundDivNat(Abs(n), Abs(d));
    var q := if (n < 0) == (d < 0) then m else -m;
    SignedProduct(n, d, m, q);
    q
  }

  lemma RoundDivNat(n: nat, d: nat)
    requires d > 0
    ensures var m := (2 * n + d) / (2 * d); m >= 0 && -(d as int) <= 2 * (n - m * d) < d
  {
    var m := (2 * n + d) / (2 * d);
    var rem := (2 * n + d) % (2 * d);
    DivMod(2 * n + d, 2 * d);
    assert 2 * n + d == m * (2 * d) + rem;
    assert 0 <= rem < 2 * d;
  }

  lemma SignedProduct(n: int, d: int, m: nat, q: int)
    requires d != 0 && q == (if (n < 0) == (d < 0) then m as int else -(m as int))
    ensures n - q * d == (if n < 0 then m * Abs(d) - Abs(n) else Abs(n) - m * Abs(d))
    ensures Abs(q * d) == m * Abs(d)
  {
    if d < 0 {
      assert q * d == -q * Abs(d);
    } else {
      assert q * d == q * Abs(d);
    }
  }

  /** `parseFloat(x.toFixed(8))` for a finite `x`. */
  function Round8(d: Decimal): (r: Decimal)
    ensures NearestAt8(r, Value(d))
  {
    var q := RoundDiv(d.mantissa * Pow10(Places), Pow10(d.scale));
    NearestFromRounding(d.mantissa * Pow10(Places), Pow10(d.scale), q);
    ScaleValue(d.mantissa, Places, d.scale);
    Pow10Add(d.scale, Places);
    assert (Pow10(d.scale) * Pow10(Places)) as real == Pow10(d.scale) as real * Pow10(Places) as real;
    Decimal(q, Places)
  }

  /** `parseFloat((a / b).toFixed(8))` for a non-zero divisor. */
  function Quotient8(a: Decimal, b: Decimal): (r: Decimal)
    requires b.mantissa != 0
    ensures NearestAt8(r, Value(a) / Value(b))
  {
    var num := a.mantissa * Pow10(b.scale) * Pow10(Places);
    var den := b.mantissa * Pow10(a.scale);
    var q := RoundDiv(num, den);
    NearestFromRounding(num, den, q);
    QuotientOfFractions(a.mantissa, b.mantissa, Pow10(a.scale), Pow10(b.scale), Pow10(Places));
    Decimal(q, Places)
  }

  lemma QuotientOfFractions(x: int, y: int, p: nat, q: nat, u: nat)
    requires y != 0 && p > 0 && q > 0 && u > 0
    ensures (x as real / p as real) / (y as real / q as real)
         == (x * q * u) as real / ((y * p) as real * u as real)
  {
    var X, Y, P, Q, U := x as real, y as real, p as real, q as real, u as real;
    assert (x * q * u) as real == X * Q * U;
    assert (y * p) as real == Y * P;
    assert (X / P) / (Y / Q) == (X * Q) / (Y * P);
    assert (X * Q * U) / (Y * P * U) == (X * Q) / (Y * P);
  }

  lemma NearestFromRounding(num: int, den: int, q: int)
    requires den != 0 && 2 * Abs(num - q * den) <= Abs(den)
    ensures NearestAt8(Decimal(q, Places), num as real / (den as real * Pow10(Places) as real))
  {
    var u := Pow10(Places) as real;
    var n, d, e := num as real, den as real, (q * den - num) as real;
    CastMul(q, den);
    assert e == q as real * d - n;
    assert Value(Decimal(q, Places)) == q as real / u;
    FractionDiff(q as real, n, d, u);
    var diff := q as real / u - n / (d * u);
    assert diff == e / (d * u);
    Unscale(e, d, u);
    assert 2.0 * diff * u == 2.0 * e / d;
    if den > 0 {
      assert -den <= 2 * (q * den - num) <= den;
    } else {
      assert den <= 2 * (q * den - num) <= -den;
    }
    RatioBound(e, d);
  }

  // ---------------------------------------------------------------- arithmetic facts

  lemma DivMod(a: nat, b: nat)
    requires b > 0
    ensures a / b >= 0 && 0 <= a % b < b && a == (a / b) * b + a % b
  {
  }

  lemma CastMul(m: int, p: int)
    ensures (m * p) as real == m as real * p as real
  {
  }

  lemma Cancel(x: real, a: real, b: real)
    requires a != 0.0 && b != 0.0
    ensures (x * b) / (a * b) == x / a
  {
  }

  lemma FractionDiff(a: real, n: real, d: real, u: real)
    requires d != 0.0 && u != 0.0
    ensures a / u - n / (d * u) == (a * d - n) / (d * u)
  {
  }

  lemma Unscale(e: real, d: real, u: real)
    requires d != 0.0 && u != 0.0
    ensures 2.0 * (e / (d * u)) * u == 2.0 * e / d
  {
  }

  lemma RatioBound(e: real, d: real)
    requires (d > 0.0 && -d <= 2.0 * e <= d) || (d < 0.0 && d <= 2.0 * e <= -d)
    ensures -1.0 <= 2.0 * e / d <= 1.0
  {
  }
}
