/** The statistic strings the About page passes to SlotNumber, and the
    general shapes they belong to: for each shape, what `parseValue` makes
    of it and the text the counter freezes at after its 60th firing. */
module Statistics {
  import opened JsStrings
  import opened JsNumbers
  import opened SlotParse
  import opened CountUp

  // ---------------------------------------------------------------------------
  // Facts about the texts of each shape.

  /** None of the rule markers occurs in a string of digits. */
  lemma NoMarkers(t: string)
    requires AllDigits(t)
    ensures '$' !in t && 'M' !in t && ',' !in t && '%' !in t && '+' !in t
  {
    assert forall k :: 0 <= k < |t| ==> IsDigit(t[k]);
  }

  /** Removing the first `c` of `t + [c]` leaves `t` when `t` has no `c`. */
  lemma ReplaceFirstLast(t: string, c: char)
    requires c !in t
    ensures ReplaceFirst(t + [c], c) == t
  {
    ReplaceFirstAfter(t, [c], c);
    assert ReplaceFirst([c], c) == [];
    assert t + [] == t;
  }

  /** A thousands-separated count with a `+` has a `,` and no `$`, and
      dropping its `,`s and then its `+` leaves the plain digits. */
  lemma CommaCountText(n: nat)
    requires n >= 1000
    ensures var s := GroupThousands(n) + "+";
      && '$' !in s && ',' in s
      && ReplaceFirst(RemoveAll(s, ','), '+') == NatToString(n)
  {
    var g, t := GroupThousands(n), NatToString(n);
    var s := g + "+";
    assert forall k :: 0 <= k < |g| ==> s[k] == g[k];
    assert '$' !in s by {
      assert forall k :: 0 <= k < |s| ==> IsDigit(s[k]) || s[k] == ',' || s[k] == '+';
    }
    assert ',' in s by { var k :| 0 <= k < |g| && g[k] == ','; assert s[k] == ','; }
    assert RemoveAll(s, ',') == t + "+" by {
      RemoveAllConcat(g, "+", ',');
      GroupThousandsDigits(n);
      assert RemoveAll("+", ',') == "+";
    }
    NoMarkers(t);
    ReplaceFirstLast(t, '+');
  }

  /** "$" + `body` + "M+" has both markers of the millions rule. */
  lemma MillionMarkers(body: string)
    ensures '$' in "$" + body + "M+" && 'M' in "$" + body + "M+"
  {
    var s := "$" + body + "M+";
    assert s[0] == '$' && s[1 + |body|] == 'M';
  }

  /** The group of "$" + `body` + "M+" is `body` when `body` is one run of
      `[\d.]` characters. */
  lemma MillionCapture(body: string)
    requires |body| > 0 && forall k :: 0 <= k < |body| ==> IsNumChar(body[k])
    ensures MatchMillion("$" + body + "M+", 0) == Some(body)
  {
    var s := "$" + body + "M+";
    MillionGroup(body);
    assert s[1..1 + |body|] == body;
  }

  /** In "$" + `body` + "M+" the group starts right after the `$` and is
      `|body|` long. */
  lemma MillionGroup(body: string)
    requires |body| > 0 && forall k :: 0 <= k < |body| ==> IsNumChar(body[k])
    ensures var s := "$" + body + "M+";
      s[0] == '$' && RunLength(s, 1) == |body| && GroupAt(s, 1)
  {
    var s := "$" + body + "M+";
    assert forall k :: 1 <= k < 1 + |body| ==> s[k] == body[k - 1];
    assert s[1 + |body|] == 'M';
    RunLengthIs(s, 1, |body|);
  }

  /** Scaling a finite number by 1,000,000. */
  lemma MulMillion(x: real)
    ensures Mul(Finite(x), 1000000.0) == Finite(x * 1000000.0)
    ensures Div(Finite(x * 1000000.0), 1000000.0) == Finite(x)
  {
  }

  // ---------------------------------------------------------------------------
  // What each shape is read as, first for any text of the shape.

  lemma CommaCountOf(s: string, t: string, x: real)
    requires '$' !in s && ',' in s && ReplaceFirst(RemoveAll(s, ','), '+') == t
    requires ParseFloat(t) == Finite(x)
    ensures ParseValue(s) == Parsed(Finite(x), "", "+", Number)
  {
    CommaRule(s);
  }

  lemma PercentOf(t: string, x: real)
    requires AllDigits(t) && ParseFloat(t) == Finite(x)
    ensures ParseValue(t + "%") == Parsed(Finite(x), "", "%", Percent)
  {
    NoMarkers(t);
    assert '$' !in t + "%" && ',' !in t + "%" && '%' in t + "%";
    PercentRule(t + "%");
    ReplaceFirstLast(t, '%');
  }

  lemma PlusCountOf(t: string, x: real)
    requires AllDigits(t) && ParseFloat(t) == Finite(x)
    ensures ParseValue(t + "+") == Parsed(Finite(x), "", "+", Number)
  {
    NoMarkers(t);
    assert '$' !in t + "+" && ',' !in t + "+" && '%' !in t + "+" && '+' in t + "+";
    PlusRule(t + "+");
    ReplaceFirstLast(t, '+');
  }

  lemma PlainNumberOf(t: string, x: real)
    requires AllDigits(t) && ParseFloat(t) == Finite(x)
    ensures ParseValue(t) == Parsed(Finite(x), "", "", Number)
  {
    NoMarkers(t);
    PlainRule(t);
  }

  lemma MillionsOf(body: string, x: real)
    requires |body| > 0 && forall k :: 0 <= k < |body| ==> IsNumChar(body[k])
    requires ParseFloat(body) == Finite(x)
    ensures ParseValue("$" + body + "M+") == Parsed(Finite(x * 1000000.0), "$", "M+", Million)
  {
    MillionMarkers(body);
    MillionCapture(body);
    MillionRule("$" + body + "M+", body);
    MulMillion(x);
  }

  lemma MillionsShownOf(body: string, x: real, shown: string)
    requires |body| > 0 && forall k :: 0 <= k < |body| ==> IsNumChar(body[k])
    requires ParseFloat(body) == Finite(x)
    requires FinalDisplay(Parsed(Finite(x * 1000000.0), "$", "M+", Million)) == shown
    ensures FinalDisplay(ParseValue("$" + body + "M+")) == shown
  {
    MillionsOf(body, x);
  }

  // ---------------------------------------------------------------------------
  // What each shape is shown as once the animation is over.

  lemma CommaCountShown(n: nat)
    requires n >= 1000
    ensures FinalDisplay(Parsed(Finite(n as real), "", "+", Number)) == GroupThousands(n) + "+"
  {
    assert (n as real).Floor == n;
    assert "" + GroupThousands(n) + "+" == GroupThousands(n) + "+";
  }

  lemma PercentShown(n: nat)
    ensures FinalDisplay(Parsed(Finite(n as real), "", "%", Percent)) == NatToString(n) + "%"
  {
    assert (n as real).Floor == n;
  }

  lemma PlusCountShown(n: nat)
    ensures FinalDisplay(Parsed(Finite(n as real), "", "+", Number))
      == (if n < 1000 then NatToString(n) else GroupThousands(n)) + "+"
  {
    assert (n as real).Floor == n;
    assert "" + NatToString(n) == NatToString(n);
    assert "" + GroupThousands(n) == GroupThousands(n);
  }

  lemma PlainNumberShown(n: nat)
    ensures FinalDisplay(Parsed(Finite(n as real), "", "", Number))
      == if n < 1000 then NatToString(n) else GroupThousands(n)
  {
    assert (n as real).Floor == n;
    if n < 1000 {
      assert "" + NatToString(n) + "" == NatToString(n);
    } else {
      assert "" + GroupThousands(n) + "" == GroupThousands(n);
    }
  }

  lemma WholeMillionsShown(n: nat)
    ensures FinalDisplay(Parsed(Finite(n as real * 1000000.0), "$", "M+", Million)) == "$" + NatToString(n) + ".0M+"
  {
    var t := NatToString(n);
    MulMillion(n as real);
    ToFixed1Whole(n);
    assert "$" + (t + ".0") + "M+" == "$" + t + ".0M+";
  }

  lemma TenthsMillionsShown(x: real, n: nat)
    requires x == n as real / 10.0
    ensures FinalDisplay(Parsed(Finite(x * 1000000.0), "$", "M+", Million)) == "$" + Tenths(n) + "M+"
  {
    MulMillion(x);
    assert RoundToTenths(x) == n;
  }

  // ---------------------------------------------------------------------------
  // Each shape, read and then shown at the end of the animation.

  /** The form "5,000+": a thousands-separated count with a `+` is read as
      its number and ends displayed exactly as written. */
  lemma CommaCountRoundTrip(n: nat)
    requires n >= 1000
    ensures ParseValue(GroupThousands(n) + "+") == Parsed(Finite(n as real), "", "+", Number)
    ensures FinalDisplay(ParseValue(GroupThousands(n) + "+")) == GroupThousands(n) + "+"
  {
    CommaCountText(n);
    ParseFloatNat(n);
    CommaCountOf(GroupThousands(n) + "+", NatToString(n), n as real);
    CommaCountShown(n);
  }

  /** The form "95%": a whole percentage is read as its number and ends
      displayed exactly as written. */
  lemma PercentRoundTrip(n: nat)
    ensures ParseValue(NatToString(n) + "%") == Parsed(Finite(n as real), "", "%", Percent)
    ensures FinalDisplay(ParseValue(NatToString(n) + "%")) == NatToString(n) + "%"
  {
    ParseFloatNat(n);
    PercentOf(NatToString(n), n as real);
    PercentShown(n);
  }

  /** The form "25+": a count with a `+` is read as its number; it ends
      displayed as written below 1000 and with separators from 1000 on. */
  lemma PlusCountRoundTrip(n: nat)
    ensures ParseValue(NatToString(n) + "+") == Parsed(Finite(n as real), "", "+", Number)
    ensures FinalDisplay(ParseValue(NatToString(n) + "+"))
      == (if n < 1000 then NatToString(n) else GroupThousands(n)) + "+"
  {
    ParseFloatNat(n);
    PlusCountOf(NatToString(n), n as real);
    PlusCountShown(n);
  }

  /** A bare whole number is read as itself and ends displayed as written
      below 1000 and with separators from 1000 on. */
  lemma PlainNumberRoundTrip(n: nat)
    ensures ParseValue(NatToString(n)) == Parsed(Finite(n as real), "", "", Number)
    ensures FinalDisplay(ParseValue(NatToString(n))) == if n < 1000 then NatToString(n) else GroupThousands(n)
  {
    ParseFloatNat(n);
    PlainNumberOf(NatToString(n), n as real);
    PlainNumberShown(n);
  }

  /** The form "$67M+": a run of `[\d.]` that `parseFloat` reads as the
      whole number `v` gives `v` millions, and the counter ends on `v` with
      one decimal, "$67.0M+". */
  lemma WholeMillionsRoundTrip(body: string, v: nat)
    requires |body| > 0 && forall k :: 0 <= k < |body| ==> IsNumChar(body[k])
    requires ParseFloat(body) == Finite(v as real)
    ensures ParseValue("$" + body + "M+") == Parsed(Finite(v as real * 1000000.0), "$", "M+", Million)
    ensures FinalDisplay(ParseValue("$" + body + "M+")) == "$" + NatToString(v) + ".0M+"
  {
    MillionsOf(body, v as real);
    WholeMillionsShown(v);
  }

  /** The form "$5.0M+": a run of `[\d.]` that `parseFloat` reads as `n`
      tenths gives that many millions, and the counter ends on `n` tenths
      written with one decimal. */
  lemma TenthsMillionsRoundTrip(body: string, x: real, n: nat)
    requires |body| > 0 && forall k :: 0 <= k < |body| ==> IsNumChar(body[k])
    requires ParseFloat(body) == Finite(x) && x == n as real / 10.0
    ensures ParseValue("$" + body + "M+") == Parsed(Finite(x * 1000000.0), "$", "M+", Million)
    ensures FinalDisplay(ParseValue("$" + body + "M+")) == "$" + Tenths(n) + "M+"
  {
    MillionsOf(body, x);
    TenthsMillionsShownOf(body, x, n);
  }

  /** The final text of "$" + `body` + "M+" when the body reads as `n` tenths. */
  lemma TenthsMillionsShownOf(body: string, x: real, n: nat)
    requires |body| > 0 && forall k :: 0 <= k < |body| ==> IsNumChar(body[k])
    requires ParseFloat(body) == Finite(x) && x == n as real / 10.0
    ensures FinalDisplay(ParseValue("$" + body + "M+")) == "$" + Tenths(n) + "M+"
  {
    TenthsMillionsShown(x, n);
    MillionsShownOf(body, x, "$" + Tenths(n) + "M+");
  }

  // ---------------------------------------------------------------------------
  // The statistics of the About page.

  /** "$67M+" is 67 million and ends shown as "$67.0M+". */
  lemma RecoveredStatistic()
    ensures ParseValue("$67M+") == Parsed(Finite(67000000.0), "$", "M+", Million)
    ensures FinalDisplay(ParseValue("$67M+")) == "$67.0M+"
  {
    var w := "67";
    assert NatToString(67) == w;
    ParseFloatNat(67);
    assert "$67M+" == "$" + w + "M+";
    assert "$67.0M+" == "$" + w + ".0M+";
    WholeMillionsRoundTrip(w, 67);
  }

  /** "5,000+" is 5000 and ends shown as written. */
  lemma CasesStatistic()
    ensures ParseValue("5,000+") == Parsed(Finite(5000.0), "", "+", Number)
    ensures FinalDisplay(ParseValue("5,000+")) == "5,000+"
  {
    var g := GroupThousands(5000);
    assert g == "5,000";
    assert "5,000+" == g + "+";
    CommaCountRoundTrip(5000);
  }

  /** "95%" is 95 and ends shown as written. */
  lemma SuccessRateStatistic()
    ensures ParseValue("95%") == Parsed(Finite(95.0), "", "%", Percent)
    ensures FinalDisplay(ParseValue("95%")) == "95%"
  {
    var t := NatToString(95);
    assert t == "95";
    assert "95%" == t + "%";
    PercentRoundTrip(95);
  }

  /** "25+" is 25 and ends shown as written. */
  lemma YearsStatistic()
    ensures ParseValue("25+") == Parsed(Finite(25.0), "", "+", Number)
    ensures FinalDisplay(ParseValue("25+")) == "25+"
  {
    var t := NatToString(25);
    assert t == "25";
    assert "25+" == t + "+";
    PlusCountRoundTrip(25);
  }

  /** "$5,000+" has a `$`, no `M` and a `,`. */
  lemma DollarCountMarkers()
    ensures '$' in "$5,000+" && 'M' !in "$5,000+" && ',' in "$5,000+"
  {
    var s := "$5,000+";
    assert s[0] == '$' && s[2] == ',';
  }

  /** The comma rule sends "$5000" to `parseFloat`. */
  lemma DollarCountText()
    ensures ReplaceFirst(RemoveAll("$5,000+", ','), '+') == "$5000"
  {
    DollarCountCommas();
    assert "$5000+" == "$5000" + "+";
    ReplaceFirstLast("$5000", '+');
  }

  /** Dropping the `,` of "$5,000+" leaves "$5000+". */
  lemma DollarCountCommas()
    ensures RemoveAll("$5,000+", ',') == "$5000+"
  {
    assert RemoveAll("000+", ',') == "000+";
    assert RemoveAll(",000+", ',') == "000+";
  }

  /** "$5,000+" goes to the comma rule with its `$` kept. */
  lemma DollarCountParse()
    ensures ParseValue("$5,000+") == Parsed(ParseFloat("$5000"), "", "+", Number)
  {
    DollarCountMarkers();
    DollarCountText();
    CommaRule("$5,000+");
  }

  /** A `$` without an `M` is not a millions statistic: "$5,000+" falls to
      the comma rule, which keeps the `$`, so `parseFloat` sees "$5000"
      and the counter shows "NaN+" throughout. */
  lemma DollarCountIsNaN()
    ensures ParseValue("$5,000+") == Parsed(NaN, "", "+", Number)
    ensures FinalDisplay(ParseValue("$5,000+")) == "NaN+"
  {
    DollarCountParse();
    DollarIsNotNumeric();
    NaNCountShown();
  }

  /** `parseFloat` gives NaN on a text that starts with a `$`. */
  lemma DollarIsNotNumeric()
    ensures ParseFloat("$5000") == NaN
  {
    assert !StartsNumeric("$5000");
  }

  /** A NaN count is shown as "NaN" followed by its `+`. */
  lemma NaNCountShown()
    ensures FinalDisplay(Parsed(NaN, "", "+", Number)) == "NaN+"
  {
  }

  /** "$5.0M+" is 5 million and ends shown as written. */
  lemma FiveMillionStatistic()
    ensures ParseValue("$5.0M+") == Parsed(Finite(5000000.0), "$", "M+", Million)
    ensures FinalDisplay(ParseValue("$5.0M+")) == "$5.0M+"
  {
    FiveTenthsText();
    assert "$5.0M+" == "$" + "5.0" + "M+";
    TenthsMillionsRoundTrip("5.0", 5.0, 50);
  }

  lemma FiveTenthsText()
    ensures forall k :: 0 <= k < |"5.0"| ==> IsNumChar("5.0"[k])
    ensures ParseFloat("5.0") == Finite(5.0) && 5.0 == 50 as real / 10.0
    ensures Tenths(50) == "5.0"
  {
    assert Tenths(50) == "5.0";
    TenthsReadsBack(50);
  }

  /** The counter of a "$5.0M+" statistic: it starts on the first
      visibility event, fires exactly 60 times, freezes on "$5.0M+", and a
      later visibility event leaves it as it is. */
  method MillionsCounterScenario()
  {
    var value := "$5.0M+";
    FiveMillionStatistic();
    var c := new Counter(value);
    assert FinalDisplay(Parsed(c.target, c.prefix, c.suffix, c.format)) == value;
    assert c.display == "0";
    c.OnVisible([false, true]);
    assert c.animating && c.step == 0;
    var fired := c.RunInterval();
    assert fired == 60 && c.display == value && !c.animating;
    c.OnVisible([true]);
    assert c.display == value && c.step == 60 && !c.animating;
  }
}
