/** The slice of JavaScript number semantics the statistic counter touches:
    `parseFloat`, arithmetic that propagates NaN, `Math.floor` followed by
    string conversion, `toFixed(1)` and the en-US `toLocaleString` of a
    whole number. Numbers are exact reals; IEEE-754 rounding is not modelled. */
module JsNumbers {
  import opened JsStrings

  /** A JavaScript number as the counter sees it: a finite value or NaN. */
  datatype Num = Finite(v: real) | NaN

  /** `a + b`: NaN exactly when an operand is NaN. */
  function Add(a: Num, b: Num): Num
  {
    if a.Finite? && b.Finite? then Finite(a.v + b.v) else NaN
  }

  /** `a * k` for a finite factor `k`: NaN exactly when `a` is NaN. */
  function Mul(a: Num, k: real): Num
  {
    if a.Finite? then Finite(a.v * k) else NaN
  }

  /** `a / k` for a finite non-zero divisor `k`: NaN exactly when `a` is NaN. */
  function Div(a: Num, k: real): Num
    requires k != 0.0
  {
    if a.Finite? then Finite(a.v / k) else NaN
  }

  /** Arithmetic gives NaN exactly when an operand is NaN. */
  lemma NaNPropagates(a: Num, b: Num, k: real)
    requires k != 0.0
    ensures Add(a, b).Finite? <==> a.Finite? && b.Finite?
    ensures Mul(a, k).Finite? <==> a.Finite?
    ensures Div(a, k).Finite? <==> a.Finite?
    ensures a.Finite? && b.Finite? ==> Add(a, b).v == a.v + b.v && Mul(a, k).v == a.v * k && Div(a, k).v == a.v / k
  {
  }

  predicate IsDigit(c: char) { '0' <= c <= '9' }

  predicate AllDigits(s: string) { forall k :: 0 <= k < |s| ==> IsDigit(s[k]) }

  function DigitValue(c: char): nat
    requires IsDigit(c)
  {
    c as int - '0' as int
  }

  function DigitChar(d: nat): (c: char)
    requires d < 10
    ensures IsDigit(c) && DigitValue(c) == d
  {
    ('0' as int + d) as char
  }

  function Pow10(k: nat): (p: nat)
    ensures p >= 1
  {
    if k == 0 then 1 else 10 * Pow10(k - 1)
  }

  /** The longest prefix of `s` made of decimal digits. */
  function LeadingDigits(s: string): (r: string)
    ensures r <= s && AllDigits(r)
    ensures |r| < |s| ==> !IsDigit(s[|r|])
  {
    if |s| > 0 && IsDigit(s[0]) then [s[0]] + LeadingDigits(s[1..]) else []
  }

  /** The whole number a digit string denotes, most significant digit first. */
  function DigitsValue(ds: string): (n: nat)
    requires AllDigits(ds)
    ensures n < Pow10(|ds|)
  {
    if |ds| == 0 then 0
    else
      var m := DigitsValue(ds[..|ds| - 1]);
      assert 10 * m + 9 < 10 * Pow10(|ds| - 1) by { assert m + 1 <= Pow10(|ds| - 1); }
      10 * m + DigitValue(ds[|ds| - 1])
  }

  /** The value of the digits after a decimal point: `ds` denotes 0.ds. */
  function FracValue(ds: string): (r: real)
    requires AllDigits(ds)
    ensures 0.0 <= r < 1.0
  {
    if |ds| == 0 then 0.0
    else (DigitValue(ds[0]) as real + FracValue(ds[1..])) / 10.0
  }

  /** `s` with one leading sign character removed. */
  function Unsigned(s: string): string
  {
    if |s| > 0 && (s[0] == '-' || s[0] == '+') then s[1..] else s
  }

  /** `s` starts with a decimal literal: after an optional sign, a digit, or
      a point followed by a digit. */
  predicate StartsNumeric(s: string)
  {
    var u := Unsigned(s);
    (|u| > 0 && IsDigit(u[0])) || (|u| > 1 && u[0] == '.' && IsDigit(u[1]))
  }

  /** `parseFloat(s)`: the longest prefix of the form [sign] digits [. digits]
      or [sign] . digits; NaN when there is none. */
  function ParseFloat(s: string): (r: Num)
    ensures r.Finite? <==> StartsNumeric(s)
    ensures r.Finite? && (|s| == 0 || s[0] != '-') ==> r.v >= 0.0
  {
    var negative := |s| > 0 && s[0] == '-';
    var u := Unsigned(s);
    var whole := LeadingDigits(u);
    var rest := u[|whole|..];
    var frac := if |rest| > 0 && rest[0] == '.' then LeadingDigits(rest[1..]) else "";
    if |whole| + |frac| == 0 then NaN
    else
      var m := DigitsValue(whole) as real + FracValue(frac);
      Finite(if negative then -m else m)
  }

  /** The decimal text of a whole number, as `String(n)` gives it. */
  function NatToString(n: nat): (s: string)
    ensures |s| > 0 && AllDigits(s)
    ensures s[0] == '0' ==> n == 0
  {
    if n < 10 then [DigitChar(n)] else NatToString(n / 10) + [DigitChar(n % 10)]
  }

  /** `String(Math.floor(x))` for a finite `x`: a whole number with its sign. */
  function IntToString(i: int): string
  {
    if i < 0 then "-" + NatToString(-i) else NatToString(i)
  }

  /** The number of tenths nearest to `ax`, the larger one on a tie. */
  function RoundToTenths(ax: real): (n: nat)
    requires ax >= 0.0
    ensures ax * 10.0 - 0.5 < n as real <= ax * 10.0 + 0.5
  {
    (ax * 10.0 + 0.5).Floor
  }

  /** `x.toFixed(1)`: the sign, then |x| rounded to tenths, ties away from
      zero, as section 21.1.3.3 of ECMA-262 prescribes (n / 10 - |x| as close
      to zero as possible, the larger n on a tie). */
  function ToFixed1(x: real): string
  {
    var n := RoundToTenths(if x < 0.0 then -x else x);
    if x < 0.0 then "-" + Tenths(n) else Tenths(n)
  }

  /** `n` tenths written with one digit after the point. */
  function Tenths(n: nat): string
  {
    NatToString(n / 10) + "." + [DigitChar(n % 10)]
  }

  /** Three digits with leading zeros: one group after a thousands separator. */
  function Pad3(k: nat): string
    requires k < 1000
  {
    [DigitChar(k / 100), DigitChar(k / 10 % 10), DigitChar(k % 10)]
  }

  /** `n.toLocaleString()` for a whole number in the en-US locale: groups of
      three digits separated by commas. */
  function GroupThousands(n: nat): (s: string)
    ensures |s| > 0 && IsDigit(s[0])
    ensures forall k :: 0 <= k < |s| ==> IsDigit(s[k]) || s[k] == ','
    ensures ',' in s <==> n >= 1000
  {
    if n < 1000 then
      assert ',' !in NatToString(n) by { assert AllDigits(NatToString(n)); }
      NatToString(n)
    else
      var g, p := GroupThousands(n / 1000), Pad3(n % 1000);
      assert (g + "," + p)[|g|] == ',';
      g + "," + p
  }

  // ---------------------------------------------------------------------------
  // Reading back what the number-to-text functions print.

  /** A digit string followed by something that does not start with a digit
      contributes exactly itself as the leading digits. */
  lemma LeadingDigitsOfDigits(a: string, b: string)
    requires AllDigits(a)
    requires |b| == 0 || !IsDigit(b[0])
    ensures LeadingDigits(a + b) == a
  {
    var r := LeadingDigits(a + b);
    assert forall k :: 0 <= k < |a| ==> (a + b)[k] == a[k];
    assert |b| > 0 ==> (a + b)[|a|] == b[0];
    assert |r| == |a|;
    assert r == (a + b)[..|a|];
  }

  /** `NatToString` and `DigitsValue` are inverse. */
  lemma {:induction false} DigitsValueOfNatToString(n: nat)
    ensures DigitsValue(NatToString(n)) == n
  {
    var s := NatToString(n);
    if n >= 10 {
      DigitsValueOfNatToString(n / 10);
      assert s[..|s| - 1] == NatToString(n / 10);
    }
  }

  /** `parseFloat(String(n)) === n` for every whole number. */
  lemma ParseFloatNat(n: nat)
    ensures ParseFloat(NatToString(n)) == Finite(n as real)
  {
    var s := NatToString(n);
    assert Unsigned(s) == s by { assert IsDigit(s[0]); }
    assert LeadingDigits(s) == s by { LeadingDigitsOfDigits(s, ""); assert s + "" == s; }
    DigitsValueOfNatToString(n);
  }

  /** `parseFloat(String(i)) === i` for every integer, negative ones included. */
  lemma ParseFloatInt(i: int)
    ensures ParseFloat(IntToString(i)) == Finite(i as real)
  {
    if i < 0 {
      var s := NatToString(-i);
      var t := IntToString(i);
      assert t[0] == '-' && Unsigned(t) == s;
      assert LeadingDigits(s) == s by { LeadingDigitsOfDigits(s, ""); assert s + "" == s; }
      DigitsValueOfNatToString(-i);
    } else {
      ParseFloatNat(i);
    }
  }

  /** A leading minus sign negates what follows it. */
  lemma ParseFloatNegated(u: string)
    requires |u| > 0 && u[0] != '-' && u[0] != '+'
    ensures ParseFloat("-" + u) == if ParseFloat(u).Finite? then Finite(-ParseFloat(u).v) else NaN
  {
    var s := "-" + u;
    assert s[1..] == u;
    assert Unsigned(s) == u && Unsigned(u) == u;
    assert s[0] == '-' && (|u| == 0 || u[0] != '-');
  }

  /** Reading back whole digits, a point and one digit. */
  lemma ParseFloatTenths(q: nat, d: nat)
    requires d < 10
    ensures ParseFloat(NatToString(q) + "." + [DigitChar(d)]) == Finite(q as real + d as real / 10.0)
  {
    var whole, c := NatToString(q), DigitChar(d);
    var body := whole + "." + [c];
    assert Unsigned(body) == body by { assert body[0] == whole[0]; }
    assert LeadingDigits(body) == whole by {
      assert body == whole + ("." + [c]);
      LeadingDigitsOfDigits(whole, "." + [c]);
    }
    assert body[|whole|..] == "." + [c];
    assert ("." + [c])[1..] == [c];
    assert LeadingDigits([c]) == [c] by { LeadingDigitsOfDigits([c], ""); assert [c] + "" == [c]; }
    assert FracValue([c]) == d as real / 10.0 by { assert [c][1..] == ""; }
    DigitsValueOfNatToString(q);
  }

  /** `n` tenths in writing read back as `n / 10`. */
  lemma TenthsReadsBack(n: nat)
    ensures ParseFloat(Tenths(n)) == Finite(n as real / 10.0)
  {
    ParseFloatTenths(n / 10, n % 10);
    assert n == 10 * (n / 10) + n % 10;
  }

  /** `toFixed(1)` reads back as exactly the signed number of tenths it rounded to. */
  lemma ToFixed1ReadsBack(x: real)
    ensures var t := RoundToTenths(if x < 0.0 then -x else x) as real / 10.0;
      ParseFloat(ToFixed1(x)) == Finite(if x < 0.0 then -t else t)
  {
    var n := RoundToTenths(if x < 0.0 then -x else x);
    TenthsReadsBack(n);
    if x < 0.0 {
      assert Tenths(n)[0] == NatToString(n / 10)[0];
      ParseFloatNegated(Tenths(n));
    }
  }

  /** What `toFixed(1)` prints reads back as a number within half a tenth of `x`. */
  lemma ToFixed1Accurate(x: real)
    ensures ParseFloat(ToFixed1(x)).Finite?
    ensures x - 0.05 <= ParseFloat(ToFixed1(x)).v <= x + 0.05
  {
    ToFixed1ReadsBack(x);
  }

  /** A whole number prints with `toFixed(1)` as its digits and ".0". */
  lemma ToFixed1Whole(n: nat)
    ensures ToFixed1(n as real) == NatToString(n) + ".0"
  {
    var k := RoundToTenths(n as real);
    assert k == 10 * n;
    assert k / 10 == n && k % 10 == 0;
    assert "." + [DigitChar(0)] == ".0";
    assert NatToString(n) + "." + [DigitChar(0)] == NatToString(n) + ("." + [DigitChar(0)]);
  }

  /** Writing `a` followed by three padded digits gives the text of `1000 * a + b`. */
  lemma NatToStringThousands(a: nat, b: nat)
    requires 0 < a && b < 1000
    ensures NatToString(1000 * a + b) == NatToString(a) + Pad3(b)
  {
    var n, n1, n2 := 1000 * a + b, 100 * a + b / 10, 10 * a + b / 100;
    assert n / 10 == n1 && n % 10 == b % 10;
    assert n1 / 10 == n2 && n1 % 10 == b / 10 % 10;
    assert n2 / 10 == a && n2 % 10 == b / 100;
    calc {
      NatToString(n);
      NatToString(n1) + [DigitChar(b % 10)];
      NatToString(n2) + [DigitChar(b / 10 % 10)] + [DigitChar(b % 10)];
      NatToString(a) + [DigitChar(b / 100)] + [DigitChar(b / 10 % 10)] + [DigitChar(b % 10)];
      NatToString(a) + Pad3(b);
    }
  }

  /** Dropping the separators from `toLocaleString` gives the plain digits back. */
  lemma {:induction false} GroupThousandsDigits(n: nat)
    ensures RemoveAll(GroupThousands(n), ',') == NatToString(n)
  {
    if n < 1000 {
      RemoveAllAbsent(NatToString(n), ',');
    } else {
      var g, p := GroupThousands(n / 1000), Pad3(n % 1000);
      calc {
        RemoveAll(GroupThousands(n), ',');
        RemoveAll(g + "," + p, ',');
        { RemoveAllConcat(g + ",", p, ','); }
        RemoveAll(g + ",", ',') + RemoveAll(p, ',');
        { RemoveAllConcat(g, ",", ','); assert RemoveAll(",", ',') == ""; }
        RemoveAll(g, ',') + RemoveAll(p, ',');
        { GroupThousandsDigits(n / 1000); assert ',' !in p; RemoveAllAbsent(p, ','); }
        NatToString(n / 1000) + p;
        { NatToStringThousands(n / 1000, n % 1000); }
        NatToString(n);
      }
    }
  }
}
