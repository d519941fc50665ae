/**
 * The exact decimal type of github.com/shopspring/decimal as the service
 * uses it: a value is an integer coefficient times a power of ten
 * (coef × 10^exp). Covers NewFromString, IsNegative, IsZero, Mul,
 * Round and String, and Equal (comparison by value).
 */
module Decimal {
  import opened Wrappers
  import opened Text

  datatype Decimal = Decimal(coef: int, exp: int)

  function Abs(x: int): nat { if x < 0 then -x else x }

  function Min(a: int, b: int): int { if a <= b then a else b }

  /** The value of d counted in units of 10^e, for any e not above d's exponent. */
  function Scaled(d: Decimal, e: int): int
    requires e <= d.exp
  {
    d.coef * Pow10(d.exp - e)
  }

  /** Decimal.Equal: the two denote the same number; at one exponent, exactly when the coefficients agree. */
  predicate Equal(a: Decimal, b: Decimal)
    ensures a.exp == b.exp ==> (Equal(a, b) <==> a.coef == b.coef)
  {
    var e := Min(a.exp, b.exp);
    Scaled(a, e) == Scaled(b, e)
  }

  lemma MulAssoc(a: int, b: int, c: int)
    ensures a * (b * c) == (a * b) * c
  {
  }

  // ------------------------------------------------------------- predicates

  /** Decimal.IsNegative: a negative number is never zero. */
  predicate IsNegative(d: Decimal)
    ensures IsNegative(d) ==> !IsZero(d)
  {
    d.coef < 0
  }

  /** Decimal.IsZero: exactly the decimals Equal to 0, whatever their exponent. */
  predicate IsZero(d: Decimal)
    ensures IsZero(d) <==> Equal(d, Decimal(0, 0))
  {
    ProductSign(d.coef, Pow10(d.exp - Min(d.exp, 0)));
    d.coef == 0
  }

  /** The sign of a product follows from the signs of its factors. */
  lemma ProductSign(x: int, y: int)
    ensures x * y == 0 <==> x == 0 || y == 0
    ensures x * y < 0 <==> (x < 0 && y > 0) || (x > 0 && y < 0)
  {
    if x > 0 && y > 0 {
      PositiveProduct(x, y);
    } else if x < 0 && y < 0 {
      PositiveProduct(-x, -y);
      assert (-x) * (-y) == x * y;
    } else if x > 0 && y < 0 {
      PositiveProduct(x, -y);
      assert x * (-y) == -(x * y);
    } else if x < 0 && y > 0 {
      PositiveProduct(-x, y);
      assert (-x) * y == -(x * y);
    }
  }

  lemma {:induction false} PositiveProduct(x: nat, y: nat)
    requires x > 0 && y > 0
    ensures x * y >= y
  {
    if x > 1 {
      PositiveProduct(x - 1, y);
      assert x * y == (x - 1) * y + y;
    }
  }

  /** Sign tests agree with the value at every scale, so they respect Equal. */
  lemma SignRespectsEqual(a: Decimal, b: Decimal)
    requires Equal(a, b)
    ensures IsNegative(a) <==> IsNegative(b)
    ensures IsZero(a) <==> IsZero(b)
  {
    var e := Min(a.exp, b.exp);
    var pa, pb := Pow10(a.exp - e), Pow10(b.exp - e);
    assert a.coef * pa == b.coef * pb;
    if a.coef < 0 { assert a.coef * pa < 0; }
    if a.coef > 0 { assert a.coef * pa > 0; }
    if b.coef < 0 { assert b.coef * pb < 0; }
    if b.coef > 0 { assert b.coef * pb > 0; }
  }

  // ------------------------------------------------------------ NewFromString

  function CountChar(s: string, c: char): nat
  {
    if s == [] then 0 else (if s[0] == c then 1 else 0) + CountChar(s[1..], c)
  }

  lemma {:induction false} CountCharZero(s: string, c: char)
    ensures CountChar(s, c) == 0 <==> c !in s
  {
    if s != [] {
      CountCharZero(s[1..], c);
      assert s == [s[0]] + s[1..];
    }
  }

  lemma {:induction false} CountCharConcat(a: string, b: string, c: char)
    ensures CountChar(a + b, c) == CountChar(a, c) + CountChar(b, c)
  {
    if a != [] {
      CountCharConcat(a[1..], b, c);
      assert (a + b)[1..] == a[1..] + b;
    } else {
      assert a + b == b;
    }
  }

  /** strconv.ParseInt(s, 10, 64) and big.Int.SetString(s, 10): an optional sign and at least one digit. */
  function ParseInteger(s: string): (r: Option<int>)
  {
    if |s| > 0 && (s[0] == '+' || s[0] == '-') then
      var digits := s[1..];
      if |digits| > 0 && AllDigits(digits) then
        var v: int := DigitsValue(digits);
        Some(if s[0] == '-' then -v else v)
      else None
    else if |s| > 0 && AllDigits(s) then Some(DigitsValue(s))
    else None
  }

  /**
   * decimal.NewFromString without exponent notation: at most one '.', which
   * is removed; what remains must be an integer literal (the coefficient);
   * the exponent is minus the number of characters after the '.'.
   */
  function Parse(s: string): (r: Result<Decimal, string>)
    ensures r.Ok? ==> CountChar(s, '.') <= 1 && -r.value.exp <= |s|
    ensures r.Ok? ==> r.value.exp == (if '.' in s then -(|s| - IndexOf(s, '.') - 1) else 0)
  {
    var dots := CountChar(s, '.');
    CountCharZero(s, '.');
    if dots > 1 then Err("can't convert " + s + " to decimal: too many .s")
    else
      var intString := if dots == 0 then s else s[..IndexOf(s, '.')] + s[IndexOf(s, '.') + 1..];
      var fracLen := if dots == 0 then 0 else |s| - IndexOf(s, '.') - 1;
      match ParseInteger(intString)
      case None => Err("can't convert " + s + " to decimal")
      case Some(v) => Ok(Decimal(v, -fracLen))
  }

  /** The text String produces: integer digits, then '.' and fraction digits when there are any. */
  function JoinFraction(intPart: string, frac: string): string
  {
    if |frac| > 0 then intPart + "." + frac else intPart
  }

  function Signed(negative: bool, v: int): int { if negative then -v else v }

  /** A '-' when negative, then the digits joined as String joins them. */
  function Render(negative: bool, intPart: string, frac: string): string
  {
    (if negative then "-" else "") + JoinFraction(intPart, frac)
  }

  /** Rendered text starts with '-' exactly for a negative number. */
  lemma RenderSign(negative: bool, intPart: string, frac: string)
    requires |intPart| > 0 && AllDigits(intPart)
    ensures var s := Render(negative, intPart, frac);
            |s| > 0 && (s[0] == '-' <==> negative)
  {
    var s := Render(negative, intPart, frac);
    if !negative {
      assert s[0] == intPart[0] by {
        assert JoinFraction(intPart, frac)[0] == intPart[0];
      }
      assert IsDigit(intPart[0]);
    }
  }

  lemma SplitTextSign(negative: bool, digits: string, k: nat)
    requires |digits| > 0 && AllDigits(digits)
    ensures var s := SplitText(negative, digits, k);
            |s| > 0 && (s[0] == '-' <==> negative)
  {
    if k > 0 {
      SplitDigitsShape(digits, k);
    }
    RenderSign(negative, IntPart(digits, k), TrimTrailingZeros(FracPart(digits, k)));
  }

  lemma DigitsAreNotPunctuation(s: string)
    requires AllDigits(s)
    ensures '.' !in s && '-' !in s && '+' !in s
  {
    forall i | 0 <= i < |s| ensures s[i] != '.' && s[i] != '-' && s[i] != '+' {
      assert IsDigit(s[i]);
    }
  }

  lemma ParseNoDot(s: string, v: int)
    requires '.' !in s && ParseInteger(s) == Some(v)
    ensures Parse(s) == Ok(Decimal(v, 0))
  {
    CountCharZero(s, '.');
  }

  /** Without a '.', a text that is not an integer literal is rejected. */
  lemma ParseNoDotRejected(s: string)
    requires '.' !in s && ParseInteger(s).None?
    ensures Parse(s) == Err("can't convert " + s + " to decimal")
  {
    CountCharZero(s, '.');
  }

  /** A text with one '.' between two dot-free parts: Parse removes exactly that '.'. */
  lemma OneDot(head: string, tail: string)
    requires '.' !in head && '.' !in tail
    ensures var s := head + "." + tail;
            CountChar(s, '.') == 1 && '.' in s && IndexOf(s, '.') == |head|
            && s[..|head|] + s[|head| + 1..] == head + tail && |s| - |head| - 1 == |tail|
  {
    var s := head + "." + tail;
    CountCharZero(head, '.');
    CountCharZero(tail, '.');
    CountCharConcat(head, "." + tail, '.');
    CountCharConcat(".", tail, '.');
    assert s == head + ("." + tail);
    assert CountChar(".", '.') == 1;
    IndexOfAfter(head, '.', tail);
    assert s == head + ['.'] + tail;
    assert s[..|head|] == head && s[|head| + 1..] == tail;
  }

  lemma ParseOneDot(head: string, tail: string, v: int)
    requires '.' !in head && '.' !in tail && ParseInteger(head + tail) == Some(v)
    ensures Parse(head + "." + tail) == Ok(Decimal(v, -|tail|))
  {
    OneDot(head, tail);
  }

  /** With one '.', a text whose remaining characters are not an integer literal is rejected. */
  lemma ParseOneDotRejected(head: string, tail: string)
    requires '.' !in head && '.' !in tail && ParseInteger(head + tail).None?
    ensures Parse(head + "." + tail) == Err("can't convert " + (head + "." + tail) + " to decimal")
  {
    OneDot(head, tail);
  }

  lemma ParseIntegerDigits(digits: string)
    requires |digits| > 0 && AllDigits(digits)
    ensures ParseInteger(digits) == Some(DigitsValue(digits))
  {
    assert IsDigit(digits[0]);
  }

  lemma ParseIntegerMinus(digits: string)
    requires |digits| > 0 && AllDigits(digits)
    ensures ParseInteger("-" + digits) == Some(-(DigitsValue(digits) as int))
  {
    var s := "-" + digits;
    assert s[0] == '-' && s[1..] == digits;
  }

  lemma ParseIntegerSigned(negative: bool, digits: string)
    requires |digits| > 0 && AllDigits(digits)
    ensures ParseInteger((if negative then "-" else "") + digits) == Some(Signed(negative, DigitsValue(digits)))
  {
    var sign := if negative then "-" else "";
    if negative {
      assert sign + digits == "-" + digits;
      ParseIntegerMinus(digits);
    } else {
      assert sign + digits == digits;
      ParseIntegerDigits(digits);
    }
  }

  /** An optional '-', digits, and an optional '.' with more digits parse to the digits as coefficient. */
  lemma {:induction false} ParseNumber(negative: bool, intPart: string, frac: string)
    requires |intPart| > 0 && AllDigits(intPart) && AllDigits(frac)
    ensures AllDigits(intPart + frac)
    ensures Parse(Render(negative, intPart, frac))
         == Ok(Decimal(Signed(negative, DigitsValue(intPart + frac)), -|frac|))
  {
    AllDigitsConcat(intPart, frac);
    var sign := if negative then "-" else "";
    DigitsAreNotPunctuation(intPart);
    DigitsAreNotPunctuation(frac);
    ParseIntegerSigned(negative, intPart + frac);
    var v := Signed(negative, DigitsValue(intPart + frac));
    if |frac| > 0 {
      assert (sign + intPart) + frac == sign + (intPart + frac);
      assert '.' !in sign + intPart;
      ParseOneDot(sign + intPart, frac, v);
      assert sign + JoinFraction(intPart, frac) == (sign + intPart) + "." + frac;
    } else {
      assert intPart + frac == intPart;
      assert '.' !in sign + intPart;
      ParseNoDot(sign + intPart, v);
    }
  }

  // ---------------------------------------------------------------- Mul, Neg

  /** Decimal.Mul: the exact product; coefficients multiply and exponents add. */
  function Mul(a: Decimal, b: Decimal): (r: Decimal)
    ensures IsZero(r) <==> IsZero(a) || IsZero(b)
    ensures IsNegative(r) <==> (IsNegative(a) && b.coef > 0) || (a.coef > 0 && IsNegative(b))
  {
    ProductSign(a.coef, b.coef);
    Decimal(a.coef * b.coef, a.exp + b.exp)
  }

  /** Multiplication is exact: measured at any pair of scales the product's value is the product of the values. */
  lemma MulExact(a: Decimal, b: Decimal, ea: int, eb: int)
    requires ea <= a.exp && eb <= b.exp
    ensures Scaled(Mul(a, b), ea + eb) == Scaled(a, ea) * Scaled(b, eb)
  {
    var c := Mul(a, b);
    var pa, pb := Pow10(a.exp - ea), Pow10(b.exp - eb);
    Pow10Add(a.exp - ea, b.exp - eb);
    assert Scaled(c, ea + eb) == c.coef * (pa * pb) by {
      assert c.exp - (ea + eb) == (a.exp - ea) + (b.exp - eb);
    }
    MulRearrange(a.coef, b.coef, pa, pb);
  }

  lemma MulRearrange(x: int, y: int, p: int, q: int)
    ensures (x * y) * (p * q) == (x * p) * (y * q)
  {
  }

  function Neg(d: Decimal): Decimal { Decimal(-d.coef, d.exp) }

  // ------------------------------------------------------------------- Round

  /** big.Int.Quo: division truncated toward zero. */
  function Quo(a: int, b: int): int
    requires b > 0
  {
    if a >= 0 then a / b else -((-a) / b)
  }

  /** Decimal.rescale: the same coefficient at another exponent, truncating when the exponent grows. */
  function Rescale(d: Decimal, exp: int): (r: Decimal)
    ensures r.exp == exp
  {
    if d.exp == exp then d
    else if exp > d.exp then Decimal(Quo(d.coef, Pow10(exp - d.exp)), exp)
    else Decimal(d.coef * Pow10(d.exp - exp), exp)
  }

  /**
   * The last step of Decimal.Round: add 5 away from zero and drop the last
   * digit. big.Int.DivMod is Euclidean, so a negative quotient with a
   * non-zero remainder is moved one up, toward zero.
   */
  function DropDigitHalfAway(t: int): int
  {
    var u := if t < 0 then t - 5 else t + 5;
    var q := u / 10;
    if u < 0 && u % 10 != 0 then q + 1 else q
  }

  /**
   * Decimal.Round(places): a value already at exponent -places is returned
   * unchanged; otherwise it is truncated to places + 1 fraction digits and
   * the last of those is dropped, rounding half away from zero.
   */
  function Round(d: Decimal, places: int): (r: Decimal)
    ensures r.exp == -places
  {
    if d.exp == -places then d
    else Decimal(DropDigitHalfAway(Rescale(d, -places - 1).coef), -places)
  }

  lemma DropDigitNeg(t: int)
    ensures DropDigitHalfAway(-t) == -DropDigitHalfAway(t)
  {
    if t > 0 {
      var u := t + 5;
      assert u == 10 * (u / 10) + u % 10;
      if u % 10 == 0 {
        assert -u == 10 * (-(u / 10));
      } else {
        assert -u == 10 * (-(u / 10) - 1) + (10 - u % 10);
      }
    } else if t < 0 {
      var u := -t + 5;
      assert u == 10 * (u / 10) + u % 10;
      if u % 10 == 0 {
        assert -u == 10 * (-(u / 10));
      } else {
        assert -u == 10 * (-(u / 10) - 1) + (10 - u % 10);
      }
    }
  }

  /** A value that already ends in a zero digit loses only that zero. */
  lemma DropDigitExact(w: int)
    ensures DropDigitHalfAway(10 * w) == w
  {
    if w < 0 {
      assert 10 * w - 5 == 10 * (w - 1) + 5;
    } else {
      assert 10 * w + 5 == 10 * w + 5;
    }
  }

  lemma MulNeg(a: int, b: int)
    ensures (-a) * b == -(a * b)
  {
  }

  lemma QuoNeg(a: int, b: int)
    requires b > 0
    ensures Quo(-a, b) == -Quo(a, b)
  {
    if a == 0 {
      assert 0 / b == 0;
    }
  }

  lemma RescaleNeg(d: Decimal, exp: int)
    ensures Rescale(Neg(d), exp).coef == -Rescale(d, exp).coef
  {
    if exp < d.exp {
      MulNeg(d.coef, Pow10(d.exp - exp));
    } else if exp > d.exp {
      QuoNeg(d.coef, Pow10(exp - d.exp));
    }
  }

  /** Rounding commutes with negation: the rule is symmetric about zero. */
  lemma RoundNeg(d: Decimal, places: int)
    ensures Round(Neg(d), places) == Neg(Round(d, places))
  {
    if d.exp != -places {
      RescaleNeg(d, -places - 1);
      DropDigitNeg(Rescale(d, -places - 1).coef);
    }
  }

  /** The inequalities of round-half-away-from-zero, measured in units of 10^e. */
  predicate RoundedWithin(r: int, v: int, unit: nat)
  {
    && 2 * Abs(r - v) <= unit
    && (2 * Abs(r - v) == unit ==> Abs(r) > Abs(v))
  }

  lemma MulSub(a: int, b: int, k: int)
    ensures a * k - b * k == (a - b) * k
  {
  }

  lemma MulMono(a: int, b: int, k: nat)
    requires a <= b
    ensures a * k <= b * k
  {
  }

  lemma DivModSplit(a: nat, k: nat)
    requires k > 0
    ensures a == (a / k) * k + a % k && 0 <= a % k < k
  {
  }

  /** The arithmetic core of rounding: c = t·big + s, and q = (t + 5) / 10 counts tens of big. */
  lemma HalfAwayArithmetic(c: nat, big: nat, t: nat, s: nat, q: int)
    requires big > 0 && c == t * big + s && s < big && q == (t + 5) / 10
    ensures RoundedWithin(q * (10 * big), c, 10 * big)
  {
    var j := 10 * q - t;
    assert -4 <= j <= 5;
    assert q * (10 * big) - c == j * big - s by {
      MulAssoc(q, 10, big);
      MulSub(10 * q, t, big);
    }
    if j <= 0 {
      MulMono(-4, j, big);
      MulMono(j, 0, big);
    } else {
      MulMono(1, j, big);
      MulMono(j, 5, big);
    }
  }

  lemma RoundCoefNonNegative(d: Decimal, places: int)
    requires d.coef >= 0 && d.exp < -places
    ensures Round(d, places).coef == (d.coef / Pow10(-places - 1 - d.exp) + 5) / 10
  {
    var k: nat := -places - 1 - d.exp;
    if k == 0 {
      assert d.coef / 1 == d.coef;
    }
  }

  lemma ScaledBelow(r: Decimal, e: int)
    requires e < r.exp
    ensures Scaled(r, e) == r.coef * (10 * Pow10(r.exp - 1 - e))
  {
  }

  /** The case that does the work: a non-negative value with more digits than the target. */
  lemma RoundNonNegative(d: Decimal, places: int)
    requires d.coef >= 0 && d.exp < -places
    ensures RoundedWithin(Scaled(Round(d, places), d.exp), d.coef, Pow10(-places - d.exp))
  {
    var big := Pow10(-places - 1 - d.exp);
    var r := Round(d, places);
    RoundCoefNonNegative(d, places);
    assert r.exp == -places;
    ScaledBelow(r, d.exp);
    assert Pow10(-places - d.exp) == 10 * big;
    RoundedCoef(d.coef, big, r.coef);
  }

  /** Rounding a count of units of 10^-1·big to whole tens of big, half away from zero. */
  lemma RoundedCoef(c: nat, big: nat, q: int)
    requires big > 0 && q == (c / big + 5) / 10
    ensures RoundedWithin(q * (10 * big), c, 10 * big)
  {
    DivModSplit(c, big);
    HalfAwayArithmetic(c, big, c / big, c % big, q);
  }

  /** A value with fewer fraction digits than the target is not changed in value. */
  lemma RoundCoarse(d: Decimal, places: int)
    requires d.exp > -places
    ensures Scaled(Round(d, places), -places) == Scaled(d, -places)
  {
    var m: nat := d.exp + places;
    var w := d.coef * Pow10(m);
    assert Rescale(d, -places - 1).coef == 10 * w by {
      assert Pow10(d.exp - (-places - 1)) == 10 * Pow10(m);
      MulAssoc(d.coef, 10, Pow10(m));
    }
    DropDigitExact(w);
  }

  lemma RoundNegative(d: Decimal, places: int)
    requires d.coef < 0 && d.exp < -places
    ensures RoundedWithin(Scaled(Round(d, places), d.exp), d.coef, Pow10(-places - d.exp))
  {
    var r := Round(d, places);
    RoundNonNegative(Neg(d), places);
    RoundNeg(Neg(d), places);
    assert Neg(Neg(d)) == d;
    MulNeg(r.coef, Pow10(-places - d.exp));
  }

  /**
   * Round(places) is round-half-away-from-zero to a multiple of 10^-places:
   * the result has exponent -places, lies within half a unit of the last
   * place of the input, and an exact half moves away from zero.
   */
  lemma RoundNearest(d: Decimal, places: int)
    ensures Round(d, places).exp == -places
    ensures var e := Min(d.exp, -places);
            RoundedWithin(Scaled(Round(d, places), e), Scaled(d, e), Pow10(-places - e))
  {
    if d.exp > -places {
      RoundCoarse(d, places);
    } else if d.exp < -places && d.coef >= 0 {
      RoundNonNegative(d, places);
    } else if d.exp < -places {
      RoundNegative(d, places);
    }
  }

  /** Rounding an already rounded value changes nothing. */
  lemma RoundIdempotent(d: Decimal, places: int)
    ensures Round(Round(d, places), places) == Round(d, places)
  {
  }

  // ------------------------------------------------------------------ String

  function TrimTrailingZeros(s: string): (r: string)
    ensures |r| <= |s| && r == s[..|r|] && AllZeros(s[|r|..])
    ensures r == [] || r[|r| - 1] != '0'
  {
    if s != [] && s[|s| - 1] == '0' then
      var r := TrimTrailingZeros(s[..|s| - 1]);
      assert s[..|s| - 1][|r|..] + "0" == s[|r|..];
      r
    else s
  }

  /** The integer digits String prints for a coefficient's digits and k fraction places. */
  function IntPart(digits: string, k: nat): string
  {
    if |digits| > k then digits[..|digits| - k] else "0"
  }

  /** The k fraction digits String prints, before trailing zeros are dropped. */
  function FracPart(digits: string, k: nat): string
  {
    if |digits| > k then digits[|digits| - k..] else Zeros(k - |digits|) + digits
  }

  /**
   * Decimal.String: a non-negative exponent prints the integer value; a
   * negative one splits the coefficient's digits (padded with leading zeros)
   * into integer and fraction parts and drops the fraction's trailing zeros,
   * with the '.' only when a fraction is left.
   */
  function String(d: Decimal): (s: string)
    ensures |s| > 0 && (s[0] == '-' <==> IsNegative(d))
  {
    if d.exp >= 0 then IntegerText(d.coef, d.exp)
    else FractionText(d.coef, -d.exp)
  }

  /** String for a negative exponent -k. */
  function FractionText(coef: int, k: nat): (s: string)
    ensures |s| > 0 && (s[0] == '-' <==> coef < 0)
  {
    SplitTextSign(coef < 0, NatToDigits(Abs(coef)), k);
    SplitText(coef < 0, NatToDigits(Abs(coef)), k)
  }

  /** String for a non-negative exponent e: the integer value in decimal, as big.Int.String prints it. */
  function IntegerText(coef: int, e: nat): (s: string)
    ensures |s| > 0 && (s[0] == '-' <==> coef < 0)
  {
    var n := coef * Pow10(e);
    ProductSign(coef, Pow10(e));
    RenderSign(n < 0, NatToDigits(Abs(n)), "");
    Render(n < 0, NatToDigits(Abs(n)), "")
  }

  /** The text for exponent -k, given the coefficient's sign and the digits of its magnitude. */
  function SplitText(negative: bool, digits: string, k: nat): string
  {
    Render(negative, IntPart(digits, k), TrimTrailingZeros(FracPart(digits, k)))
  }

  lemma NoDot(s: string)
    requires AllDigits(s)
    ensures '.' !in s
  {
    DigitsAreNotPunctuation(s);
  }

  lemma AllDigitsSlices(digits: string, i: nat)
    requires AllDigits(digits) && i <= |digits|
    ensures AllDigits(digits[..i]) && AllDigits(digits[i..]) && digits[..i] + digits[i..] == digits
  {
    assert forall j | 0 <= j < i :: digits[..i][j] == digits[j];
    assert forall j | 0 <= j < |digits| - i :: digits[i..][j] == digits[i + j];
  }

  /** The integer and fraction parts String splits a digit string into are digit strings. */
  lemma SplitDigitsShape(digits: string, k: nat)
    requires k > 0 && AllDigits(digits)
    ensures |IntPart(digits, k)| > 0 && AllDigits(IntPart(digits, k))
    ensures AllDigits(FracPart(digits, k)) && |FracPart(digits, k)| == k
  {
    if |digits| > k {
      AllDigitsSlices(digits, |digits| - k);
    } else {
      AllDigitsConcat(Zeros(k - |digits|), digits);
      assert IsDigit("0"[0]);
    }
  }

  /** Together the two parts denote the digit string's value, the fraction counted in units of 10^-k. */
  lemma SplitDigits(digits: string, k: nat)
    requires k > 0 && AllDigits(digits)
    ensures |IntPart(digits, k)| > 0 && AllDigits(IntPart(digits, k))
    ensures AllDigits(FracPart(digits, k)) && |FracPart(digits, k)| == k
    ensures DigitsValue(IntPart(digits, k)) * Pow10(k) + DigitsValue(FracPart(digits, k)) == DigitsValue(digits)
  {
    SplitDigitsShape(digits, k);
    if |digits| > k {
      var n := |digits| - k;
      AllDigitsSlices(digits, n);
      DigitsValueAppend(digits[..n], digits[n..]);
    } else {
      LeadingZeros(Zeros(k - |digits|), digits);
      assert DigitsValue("0") == 0;
    }
  }

  lemma RenderEnding(negative: bool, intPart: string, frac: string)
    requires '.' !in intPart
    requires frac != [] ==> frac[|frac| - 1] !in ".0"
    ensures var s := Render(negative, intPart, frac);
            '.' in s ==> s[|s| - 1] !in ".0"
  {
    var sign := if negative then "-" else "";
    if frac == [] {
      assert Render(negative, intPart, frac) == sign + intPart;
    } else {
      var s := Render(negative, intPart, frac);
      assert s == (sign + intPart + ".") + frac;
      assert s[|s| - 1] == frac[|frac| - 1];
    }
  }

  lemma SplitTextEnding(negative: bool, digits: string, k: nat)
    requires k > 0 && AllDigits(digits)
    ensures var s := SplitText(negative, digits, k);
            '.' in s ==> s[|s| - 1] !in ".0"
  {
    SplitDigitsShape(digits, k);
    var frac := FracPart(digits, k);
    var kept := TrimTrailingZeros(frac);
    NoDot(IntPart(digits, k));
    if |kept| > 0 {
      assert kept[|kept| - 1] == frac[|kept| - 1];
      assert IsDigit(frac[|kept| - 1]);
    }
    RenderEnding(negative, IntPart(digits, k), kept);
  }

  /** String never ends with a '.' or with a trailing zero after the '.'. */
  lemma StringNoTrailingZeros(d: Decimal)
    ensures '.' in String(d) ==> String(d)[|String(d)| - 1] !in ".0"
  {
    if d.exp >= 0 {
      var n := d.coef * Pow10(d.exp);
      NoDot(NatToDigits(Abs(n)));
      RenderEnding(n < 0, NatToDigits(Abs(n)), "");
    } else {
      SplitTextEnding(d.coef < 0, NatToDigits(Abs(d.coef)), -d.exp);
    }
  }

  /** Dropping trailing zeros from a fraction divides its digit value by the matching power of ten. */
  lemma TrimmedValue(frac: string)
    requires AllDigits(frac)
    ensures AllDigits(TrimTrailingZeros(frac))
    ensures DigitsValue(frac)
         == DigitsValue(TrimTrailingZeros(frac)) * Pow10(|frac| - |TrimTrailingZeros(frac)|)
  {
    var kept := TrimTrailingZeros(frac);
    var tail := frac[|kept|..];
    assert kept + tail == frac;
    ZerosValue(tail);
    DigitsValueAppend(kept, tail);
  }

  lemma Reassemble(x: int, i: int, kv: int, fv: int, pk: int, pg: int, pkg: int, a: int)
    requires x == i * pk + kv && pkg == pk * pg && fv == kv * pg && i * pkg + fv == a
    ensures x * pg == a
  {
    calc {
      x * pg;
      (i * pk + kv) * pg;
      i * (pk * pg) + kv * pg;
    }
  }

  lemma SignedScale(negative: bool, v: int, p: int)
    ensures Signed(negative, v) * p == Signed(negative, v * p)
  {
  }

  lemma ParseStringInteger(d: Decimal)
    requires d.exp >= 0
    ensures Parse(String(d)).Ok? && Equal(Parse(String(d)).value, d)
  {
    var n := d.coef * Pow10(d.exp);
    var digits := NatToDigits(Abs(n));
    ParseNumber(n < 0, digits, "");
    assert digits + "" == digits;
    assert Parse(String(d)) == Ok(Decimal(n, 0));
  }

  /**
   * Gluing integer digits to a fraction from which `fracLen - |kept|`
   * trailing zeros were dropped loses exactly those zeros' scale.
   */
  lemma GlueValue(intPart: string, kept: string, fracValue: nat, fracLen: nat, a: nat)
    requires AllDigits(intPart) && AllDigits(kept) && |kept| <= fracLen
    requires fracValue == DigitsValue(kept) * Pow10(fracLen - |kept|)
    requires DigitsValue(intPart) * Pow10(fracLen) + fracValue == a
    ensures AllDigits(intPart + kept)
    ensures DigitsValue(intPart + kept) * Pow10(fracLen - |kept|) == a
  {
    var gap: nat := fracLen - |kept|;
    var i, kv := DigitsValue(intPart), DigitsValue(kept);
    var pk, pg, pf := Pow10(|kept|), Pow10(gap), Pow10(fracLen);
    assert pf == pk * pg by { Pow10Add(|kept|, gap); }
    DigitsValueAppend(intPart, kept);
    Reassemble(DigitsValue(intPart + kept), i, kv, fracValue, pk, pg, pf, a);
  }

  /** The integer digits followed by the kept fraction digits, scaled back by the dropped zeros, are the digits' value. */
  lemma FractionValue(digits: string, k: nat)
    requires k > 0 && AllDigits(digits)
    ensures var kept := TrimTrailingZeros(FracPart(digits, k));
            && |kept| <= k && AllDigits(kept) && AllDigits(IntPart(digits, k) + kept)
            && DigitsValue(IntPart(digits, k) + kept) * Pow10(k - |kept|) == DigitsValue(digits)
  {
    SplitDigits(digits, k);
    var frac := FracPart(digits, k);
    TrimmedValue(frac);
    GlueValue(IntPart(digits, k), TrimTrailingZeros(frac), DigitsValue(frac), |frac|, DigitsValue(digits));
  }

  /** Parsing the text of a fraction gives back the digits' value at exponent -k. */
  lemma ParseSplitText(negative: bool, digits: string, k: nat)
    requires k > 0 && AllDigits(digits)
    ensures Parse(SplitText(negative, digits, k)).Ok?
    ensures Equal(Parse(SplitText(negative, digits, k)).value,
                  Decimal(Signed(negative, DigitsValue(digits)), -(k as int)))
  {
    SplitDigitsShape(digits, k);
    FractionValue(digits, k);
    var intPart, kept := IntPart(digits, k), TrimTrailingZeros(FracPart(digits, k));
    ParseNumber(negative, intPart, kept);
    var v := DigitsValue(intPart + kept);
    FractionEqual(negative, DigitsValue(digits), v, |kept|, k, Signed(negative, DigitsValue(digits)));
  }

  lemma FractionEqual(negative: bool, a: nat, v: int, kept: int, k: int, coef: int)
    requires 0 <= kept <= k && v * Pow10(k - kept) == a && coef == Signed(negative, a)
    ensures Equal(Decimal(Signed(negative, v), -kept), Decimal(coef, -k))
  {
    SignedScale(negative, v, Pow10(k - kept));
    assert Scaled(Decimal(coef, -k), -k) == coef * 1;
  }

  lemma ParseStringFraction(d: Decimal)
    requires d.exp < 0
    ensures Parse(String(d)).Ok? && Equal(Parse(String(d)).value, d)
  {
    var k: nat := -d.exp;
    var t := FractionText(d.coef, k);
    assert String(d) == t;
    ParseFractionText(d.coef, k);
    assert Decimal(d.coef, -(k as int)) == d;
    assert Parse(t).Ok? && Equal(Parse(t).value, d);
  }

  lemma ParseFractionText(coef: int, k: nat)
    requires k > 0
    ensures Parse(FractionText(coef, k)).Ok?
    ensures Equal(Parse(FractionText(coef, k)).value, Decimal(coef, -(k as int)))
  {
    var negative := coef < 0;
    var digits := NatToDigits(Abs(coef));
    ParseSplitText(negative, digits, k);
    assert Signed(negative, DigitsValue(digits)) == coef;
  }

  /**
   * Parsing what String prints gives back the same number (the coefficient
   * and exponent may differ, since trailing zeros are dropped).
   */
  lemma ParseString(d: Decimal)
    ensures Parse(String(d)).Ok?
    ensures Equal(Parse(String(d)).value, d)
  {
    if d.exp >= 0 {
      ParseStringInteger(d);
    } else {
      ParseStringFraction(d);
    }
  }
}
