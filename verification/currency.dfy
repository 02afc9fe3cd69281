/**
 * `clean_currency` from the loader: delete every character outside the class `[\d.]`, then read
 * what is left as a decimal number, giving no value when the cell is missing or the reading fails.
 * The number is kept exact, as a digit string's value and a count of fractional digits.
 */
module Currency {

  import opened Wrappers
  import opened Sequences

  predicate IsDigit(c: char) {
    '0' <= c <= '9'
  }

  predicate IsDot(c: char) {
    c == '.'
  }

  /** The characters the cleaner keeps: ASCII digits and the decimal point. */
  predicate IsNumeric(c: char) {
    IsDigit(c) || IsDot(c)
  }

  function DigitOf(c: char): (d: nat)
    requires IsDigit(c)
    ensures d < 10
  {
    c as int - '0' as int
  }

  /** An exact non-negative decimal: `mantissa / 10^scale`. */
  datatype Decimal = Decimal(mantissa: nat, scale: nat)

  function Pow10(n: nat): (p: nat)
    ensures p >= 1
  {
    if n == 0 then 1 else 10 * Pow10(n - 1)
  }

  function Value(d: Decimal): (v: real)
    ensures v >= 0.0
  {
    d.mantissa as real / Pow10(d.scale) as real
  }

  /** The number a string of decimal digits denotes, read left to right. */
  function DigitValue(s: string): nat
    requires forall c :: c in s ==> IsDigit(c)
  {
    if s == [] then 0
    else DigitValue(s[..|s| - 1]) * 10 + DigitOf(s[|s| - 1])
  }

  lemma {:induction false} DigitValueAppend(a: string, b: string)
    requires forall c :: c in a ==> IsDigit(c)
    requires forall c :: c in b ==> IsDigit(c)
    ensures DigitValue(a + b) == DigitValue(a) * Pow10(|b|) + DigitValue(b)
  {
    if b == [] {
      assert a + b == a;
    } else {
      var w := b[..|b| - 1];
      assert (a + b)[..|a + b| - 1] == a + w;
      DigitValueAppend(a, w);
      assert DigitValue(b) == DigitValue(w) * 10 + DigitOf(b[|b| - 1]);
      assert Pow10(|b|) == 10 * Pow10(|w|);
      ShiftDigit(DigitValue(a), Pow10(|w|), DigitValue(w), DigitOf(b[|b| - 1]));
    }
  }

  lemma ShiftDigit(x: int, p: int, w: int, d: int)
    ensures (x * p + w) * 10 + d == x * (10 * p) + (w * 10 + d)
  {
  }

  /** The digits of `s`, in order. */
  function Digits(s: string): (r: string)
    ensures forall c :: c in r ==> IsDigit(c)
  {
    KeepMembers(s, IsDigit);
    Keep(s, IsDigit)
  }

  /** `re.sub(r'[^\d.]', '', s)`. */
  function Clean(s: string): (r: string)
    ensures forall i :: 0 <= i < |r| ==> IsNumeric(r[i])
  {
    KeepMembers(s, IsNumeric);
    Keep(s, IsNumeric)
  }

  /** The cleaned text keeps every digit and point of the input, as often as it occurs there, in order. */
  lemma CleanSelectsNumeric(s: string)
    ensures IsSubsequence(Clean(s), s)
    ensures forall c :: multiset(Clean(s))[c] == if IsNumeric(c) then multiset(s)[c] else 0
  {
    KeepIsSubsequence(s, IsNumeric);
    KeepCounts(s, IsNumeric);
  }

  lemma CleanIdempotent(s: string)
    ensures Clean(Clean(s)) == Clean(s)
  {
    KeepIdempotent(s, IsNumeric);
  }

  /** The state of a left-to-right reading of digits and points. */
  datatype Scan = Scan(mantissa: nat, digits: nat, dots: nat, fraction: nat)

  function Step(st: Scan, c: char): Scan {
    if IsDigit(c) then
      Scan(st.mantissa * 10 + DigitOf(c), st.digits + 1, st.dots,
           if st.dots > 0 then st.fraction + 1 else st.fraction)
    else if IsDot(c) then st.(dots := st.dots + 1)
    else st
  }

  function ScanText(t: string): Scan {
    if t == [] then Scan(0, 0, 0, 0) else Step(ScanText(t[..|t| - 1]), t[|t| - 1])
  }

  /**
   * Python's `float` on text that holds only digits and points: it succeeds exactly when there
   * is a digit and at most one point, and reads all the digits as one number.
   */
  function ParseDecimal(t: string): (r: Option<Decimal>)
    requires forall c :: c in t ==> IsNumeric(c)
    ensures r.Some? <==> |Digits(t)| >= 1 && |Keep(t, IsDot)| <= 1
    ensures r.Some? ==> r.value.mantissa == DigitValue(Digits(t))
  {
    var st := ScanText(t);
    ScanCounts(t);
    if st.digits >= 1 && st.dots <= 1 then Some(Decimal(st.mantissa, st.fraction)) else None
  }

  lemma {:induction false} ScanCounts(t: string)
    ensures ScanText(t).digits == |Digits(t)|
    ensures ScanText(t).dots == |Keep(t, IsDot)|
    ensures ScanText(t).mantissa == DigitValue(Digits(t))
  {
    if t != [] {
      var u, c := t[..|t| - 1], t[|t| - 1];
      assert t == u + [c];
      ScanCounts(u);
      KeepAppend(u, [c], IsDigit);
      KeepAppend(u, [c], IsDot);
      var ds := Digits(u);
      if IsDigit(c) {
        assert Digits(t) == ds + [c];
        assert (ds + [c])[..|ds + [c]| - 1] == ds;
      } else {
        assert Digits(t) == ds;
      }
    }
  }

  /** Digits count towards the fraction only once a point has been read. */
  lemma {:induction false} NoPointNoFraction(t: string)
    ensures ScanText(t).dots == 0 ==> ScanText(t).fraction == 0
  {
    if t != [] {
      NoPointNoFraction(t[..|t| - 1]);
    }
  }

  lemma {:induction false} ScanFraction(u: string, v: string)
    requires ScanText(u).dots > 0
    ensures ScanText(u + v).dots >= ScanText(u).dots
    ensures ScanText(u + v).fraction == ScanText(u).fraction + |Digits(v)|
  {
    if v == [] {
      assert u + v == u;
    } else {
      var w, c := v[..|v| - 1], v[|v| - 1];
      assert v == w + [c];
      assert u + v == (u + w) + [c];
      assert (u + v)[..|u + v| - 1] == u + w;
      ScanFraction(u, w);
      KeepAppend(w, [c], IsDigit);
    }
  }

  lemma {:induction false} KeepNone(s: string, p: char -> bool)
    requires forall c :: c in s ==> !p(c)
    ensures Keep(s, p) == []
  {
    if s != [] {
      KeepNone(s[1..], p);
    }
  }

  lemma ScanWhole(a: string)
    requires forall c :: c in a ==> IsDigit(c)
    ensures ScanText(a) == Scan(DigitValue(a), |a|, 0, 0)
  {
    assert ScanText(a).digits == |a| && ScanText(a).mantissa == DigitValue(a) by {
      KeepAll(a, IsDigit);
      ScanCounts(a);
    }
    assert ScanText(a).dots == 0 by {
      KeepNone(a, IsDot);
      ScanCounts(a);
    }
    NoPointNoFraction(a);
  }

  lemma WholeValue(x: nat)
    ensures Value(Decimal(x, 0)) == x as real
  {
    assert Pow10(0) == 1;
  }

  /** A digit string without a point reads as the whole number it denotes. */
  lemma ParseWhole(a: string)
    requires |a| >= 1
    requires forall c :: c in a ==> IsDigit(c)
    ensures ParseDecimal(a) == Some(Decimal(DigitValue(a), 0))
    ensures Value(ParseDecimal(a).value) == DigitValue(a) as real
  {
    ScanWhole(a);
    WholeValue(DigitValue(a));
  }

  /** Reading `a.b` (digits around one point) ends with every digit read and `|b|` of them fractional. */
  lemma ScanPointed(a: string, b: string)
    requires forall c :: c in a ==> IsDigit(c)
    requires forall c :: c in b ==> IsDigit(c)
    ensures Digits(a + "." + b) == a + b
    ensures |Keep(a + "." + b, IsDot)| == 1
    ensures ScanText(a + "." + b).fraction == |b|
  {
    var head := a + ".";
    assert a + "." + b == head + b;
    assert Digits(head) == a && Keep(head, IsDot) == "." by {
      KeepAppend(a, ".", IsDigit);
      KeepAppend(a, ".", IsDot);
      KeepAll(a, IsDigit);
      KeepNone(a, IsDot);
    }
    assert Digits(head + b) == a + b by {
      KeepAppend(head, b, IsDigit);
      KeepAll(b, IsDigit);
    }
    assert |Keep(head + b, IsDot)| == 1 by {
      KeepAppend(head, b, IsDot);
      KeepNone(b, IsDot);
    }
    assert ScanText(head).fraction == 0 && ScanText(head).dots == 1 by {
      assert head[..|head| - 1] == a;
      ScanCounts(a);
      KeepNone(a, IsDot);
      NoPointNoFraction(a);
    }
    ScanFraction(head, b);
    KeepAll(b, IsDigit);
  }

  lemma Shift(x: nat, y: nat, n: nat)
    ensures Value(Decimal(x * Pow10(n) + y, n)) == x as real + y as real / Pow10(n) as real
  {
    var q := Pow10(n);
    var m := x * q + y;
    CastProduct(x, q);
    assert m as real == x as real * q as real + y as real;
    Divide(x as real, y as real, q as real);
    assert Value(Decimal(m, n)) == m as real / q as real;
  }

  lemma {:induction false} CastProduct(x: nat, q: nat)
    ensures (x * q) as real == x as real * q as real
  {
    if q > 0 {
      CastProduct(x, q - 1);
      assert x * q == x * (q - 1) + x;
    }
  }

  lemma Divide(x: real, y: real, p: real)
    requires p > 0.0
    ensures (x * p + y) / p == x + y / p
  {
    assert (x + y / p) * p == x * p + y;
  }

  /**
   * `a.b` reads as the digits of `a` and `b` together, scaled by the number of digits of `b`;
   * that is, the whole part `a` plus the fraction `b / 10^|b|`.
   */
  lemma ParseFractional(a: string, b: string)
    requires |a| + |b| >= 1
    requires forall c :: c in a ==> IsDigit(c)
    requires forall c :: c in b ==> IsDigit(c)
    ensures ParseDecimal(a + "." + b) == Some(Decimal(DigitValue(a + b), |b|))
    ensures Value(ParseDecimal(a + "." + b).value)
         == DigitValue(a) as real + DigitValue(b) as real / Pow10(|b|) as real
  {
    ParsePointed(a, b);
    FractionValue(a, b);
  }

  lemma FractionValue(a: string, b: string)
    requires forall c :: c in a ==> IsDigit(c)
    requires forall c :: c in b ==> IsDigit(c)
    ensures Value(Decimal(DigitValue(a + b), |b|))
         == DigitValue(a) as real + DigitValue(b) as real / Pow10(|b|) as real
  {
    DigitValueAppend(a, b);
    Shift(DigitValue(a), DigitValue(b), |b|);
  }

  lemma ParsePointed(a: string, b: string)
    requires |a| + |b| >= 1
    requires forall c :: c in a ==> IsDigit(c)
    requires forall c :: c in b ==> IsDigit(c)
    ensures ParseDecimal(a + "." + b) == Some(Decimal(DigitValue(a + b), |b|))
  {
    var t := a + "." + b;
    ScanPointed(a, b);
    ScanCounts(t);
  }

  /**
   * `clean_currency`: a missing cell gives no value; otherwise the cell's digits, wherever they
   * stand, make up the number, and it is defined exactly when the cell has a digit and at most
   * one point.
   */
  function CleanCurrency(v: Option<string>): (r: Option<Decimal>)
    ensures v.None? ==> r.None?
    ensures v.Some? ==> (r.Some? <==> |Digits(v.value)| >= 1 && |Keep(v.value, IsDot)| <= 1)
    ensures r.Some? ==> r.value.mantissa == DigitValue(Digits(v.value))
  {
    match v
    case None => None
    case Some(s) =>
      KeepKeep(s, IsNumeric, IsDigit, IsDigit);
      KeepKeep(s, IsNumeric, IsDot, IsDot);
      KeepMembers(s, IsNumeric);
      ParseDecimal(Clean(s))
  }

  /** A cell without any digit never yields a value. */
  lemma NoDigitsNoValue(s: string)
    requires forall c :: c in s ==> !IsDigit(c)
    ensures CleanCurrency(Some(s)) == None
  {
    KeepNone(s, IsDigit);
  }

  lemma CleanDollarAmount()
    ensures Clean("$1,234,567") == "1234567"
  {
  }

  lemma DigitsOfDollarAmount()
    ensures DigitValue("1234567") == 1234567
  {
    assert DigitValue("1") == 1;
    assert "12"[..1] == "1";
    assert DigitValue("12") == 12;
    assert "123"[..2] == "12";
    assert DigitValue("123") == 123;
    assert "1234"[..3] == "123";
    assert DigitValue("1234") == 1234;
    assert "12345"[..4] == "1234";
    assert DigitValue("12345") == 12345;
    assert "123456"[..5] == "12345";
    assert DigitValue("123456") == 123456;
    assert "1234567"[..6] == "123456";
    assert DigitValue("1234567") == 1234567;
  }

  lemma DollarAmount()
    ensures CleanCurrency(Some("$1,234,567")) == Some(Decimal(1234567, 0))
    ensures Value(CleanCurrency(Some("$1,234,567")).value) == 1234567.0
  {
    DollarAmountParses();
    DigitsOfDollarAmount();
    WholeValue(1234567);
  }

  lemma DollarAmountParses()
    ensures CleanCurrency(Some("$1,234,567")) == Some(Decimal(DigitValue("1234567"), 0))
  {
    CleanDollarAmount();
    ParseWhole("1234567");
  }
}
