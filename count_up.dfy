/** The count-up animation of the SlotNumber component. When the element
    first becomes visible a one-shot latch is set and an interval timer
    starts; each of its 60 firings adds a sixtieth of the target to a running
    total and shows the total in the statistic's format, and the 60th firing
    snaps the total to the target exactly and clears the timer. */
module CountUp {
  import opened JsNumbers
  import opened SlotParse

  /** The number of interval firings of one animation. */
  const Steps: nat := 60

  // ---------------------------------------------------------------------------
  // The values the animation goes through.

  /** The running total after `k` firings none of which was the last: `k`
      additions of `target / 60`, starting from 0. */
  function Partial(target: Num, k: nat): Num
  {
    if k == 0 then Finite(0.0) else Add(Partial(target, k - 1), Div(target, Steps as real))
  }

  /** `current` after `k` firings: the 60th snaps it to the target. */
  function ValueAt(target: Num, k: nat): Num
  {
    if k >= Steps then target else Partial(target, k)
  }

  /** Before the last firing the running total is `k * (target / 60)`. */
  lemma {:induction false} PartialClosedForm(v: real, k: nat)
    ensures Partial(Finite(v), k) == Finite(k as real * (v / Steps as real))
  {
    if k > 0 {
      PartialClosedForm(v, k - 1);
      assert (k - 1) as real * (v / 60.0) + v / 60.0 == k as real * (v / 60.0);
    }
  }

  /** A NaN target makes every total after the first firing NaN. */
  lemma {:induction false} PartialNaN(k: nat)
    requires k > 0
    ensures Partial(NaN, k) == NaN
  {
    if k > 1 { PartialNaN(k - 1); }
  }

  /** In exact arithmetic 60 additions of `target / 60` already give the
      target: the snap on the last firing only corrects floating-point drift. */
  lemma SnapIsExact(v: real)
    ensures Partial(Finite(v), Steps) == Finite(v)
  {
    PartialClosedForm(v, Steps);
  }

  /** Scaling by a non-negative factor keeps the sign. */
  lemma ScaleSign(a: real, b: real)
    requires 0.0 <= a
    ensures 0.0 <= b ==> 0.0 <= a * b
    ensures b <= 0.0 ==> a * b <= 0.0
  {
  }

  /** Every value shown lies between 0 and the target. */
  lemma ValueAtBounds(v: real, k: nat)
    requires k <= Steps
    ensures ValueAt(Finite(v), k).Finite?
    ensures 0.0 <= v ==> 0.0 <= ValueAt(Finite(v), k).v <= v
    ensures v <= 0.0 ==> v <= ValueAt(Finite(v), k).v <= 0.0
  {
    if k < Steps {
      PartialClosedForm(v, k);
      var r := k as real / 60.0;
      assert k as real * (v / 60.0) == r * v;
      assert v - r * v == (1.0 - r) * v;
      assert 0.0 <= r <= 1.0;
      ScaleSign(1.0 - r, v);
      ScaleSign(r, v);
    }
  }

  /** A finite target gives a finite running total. */
  lemma {:induction false} PartialFinite(v: real, k: nat)
    ensures Partial(Finite(v), k).Finite?
  {
    if k > 0 { PartialFinite(v, k - 1); }
  }

  /** Each firing adds the same sixtieth, so the running total moves
      steadily towards the target's side of 0. */
  lemma {:induction false} PartialMonotone(v: real, j: nat, k: nat)
    requires j <= k
    ensures Partial(Finite(v), j).Finite? && Partial(Finite(v), k).Finite?
    ensures 0.0 <= v ==> Partial(Finite(v), j).v <= Partial(Finite(v), k).v
    ensures v <= 0.0 ==> Partial(Finite(v), k).v <= Partial(Finite(v), j).v
  {
    if j < k {
      PartialMonotone(v, j, k - 1);
      assert Partial(Finite(v), k) == Add(Partial(Finite(v), k - 1), Finite(v / Steps as real));
    } else {
      PartialFinite(v, k);
    }
  }

  /** The values never move away from the target: they rise towards a
      non-negative target and fall towards a non-positive one. */
  lemma ValueAtMonotone(v: real, j: nat, k: nat)
    requires j <= k <= Steps
    ensures ValueAt(Finite(v), j).Finite? && ValueAt(Finite(v), k).Finite?
    ensures 0.0 <= v ==> ValueAt(Finite(v), j).v <= ValueAt(Finite(v), k).v
    ensures v <= 0.0 ==> ValueAt(Finite(v), k).v <= ValueAt(Finite(v), j).v
  {
    if k == Steps {
      ValueAtBounds(v, j);
    } else {
      PartialMonotone(v, j, k);
    }
  }

  // ---------------------------------------------------------------------------
  // What a firing shows.

  /** `String(Math.floor(x))`; NaN prints as "NaN". */
  function FloorText(x: Num): string
  {
    if x.Finite? then IntToString(x.v.Floor) else "NaN"
  }

  /** `x.toFixed(1)`; NaN prints as "NaN". */
  function FixedText(x: Num): string
  {
    if x.Finite? then ToFixed1(x.v) else "NaN"
  }

  /** What `String(Math.floor(x))` prints reads back as the floor of `x`,
      and "NaN" reads back as NaN. */
  lemma FloorTextReadsBack(x: Num)
    ensures ParseFloat(FloorText(x)) == if x.Finite? then Finite(x.v.Floor as real) else NaN
  {
    if x.Finite? {
      ParseFloatInt(x.v.Floor);
    } else {
      assert !StartsNumeric("NaN");
    }
  }

  /** What `toFixed(1)` prints reads back within half a tenth of `x`, and
      "NaN" reads back as NaN. */
  lemma FixedTextAccurate(x: Num)
    ensures ParseFloat(FixedText(x)).Finite? <==> x.Finite?
    ensures x.Finite? ==> x.v - 0.05 <= ParseFloat(FixedText(x)).v <= x.v + 0.05
  {
    if x.Finite? {
      ToFixed1Accurate(x.v);
    } else {
      assert !StartsNumeric("NaN");
    }
  }

  /** The text a firing shows for `current`: millions with one decimal
      between the prefix and the suffix; a percentage as the whole part and
      the suffix; any other value of at least 1000 with thousands separators;
      anything else as its whole part between prefix and suffix. */
  function Render(current: Num, prefix: string, suffix: string, format: Format): string
  {
    match format
    case Million => prefix + FixedText(Div(current, 1000000.0)) + suffix
    case Percent => FloorText(current) + suffix
    case Number =>
      if current.Finite? && current.v >= 1000.0 then prefix + GroupThousands(current.v.Floor) + suffix
      else prefix + FloorText(current) + suffix
  }

  /** Every text shown ends with the suffix, and every format but the
      percentage starts with the prefix. */
  lemma RenderAffixes(current: Num, prefix: string, suffix: string, format: Format)
    ensures var r := Render(current, prefix, suffix, format);
      |suffix| <= |r| && r[|r| - |suffix|..] == suffix && (format != Percent ==> prefix <= r)
  {
  }

  /** The text the statistic freezes at once the animation is over. */
  function FinalDisplay(p: Parsed): string
  {
    Render(p.number, p.prefix, p.suffix, p.format)
  }

  /** The texts the first `n` firings show, in order. */
  function History(p: Parsed, n: nat): (h: seq<string>)
    ensures |h| == n
    ensures forall k :: 0 <= k < n ==> h[k] == Render(ValueAt(p.number, k + 1), p.prefix, p.suffix, p.format)
    ensures n >= Steps ==> h[Steps - 1] == FinalDisplay(p)
  {
    if n == 0 then [] else History(p, n - 1) + [Render(ValueAt(p.number, n), p.prefix, p.suffix, p.format)]
  }

  // ---------------------------------------------------------------------------
  // The component's animation state.

  /** One SlotNumber instance: what `parseValue` made of its `value`, the
      `hasAnimated` latch, the `isAnimating` flag (true exactly while the
      interval timer runs), the timer's `step` and `current`, and the shown
      `displayValue`. `shown` records every text the timer has shown. */
  class Counter {
    const target: Num
    const prefix: string
    const suffix: string
    const format: Format
    var hasAnimated: bool
    var animating: bool
    var step: nat
    var current: Num
    var display: string
    ghost var shown: seq<string>

    ghost predicate Valid()
      reads this
    {
      step <= Steps &&
      (animating ==> hasAnimated && step < Steps) &&
      (!hasAnimated ==> step == 0) &&
      (hasAnimated && !animating ==> step == Steps) &&
      current == ValueAt(target, step) &&
      shown == History(Parsed(target, prefix, suffix, format), step) &&
      display == if step == 0 then "0" else shown[step - 1]
    }

    /** Mounting the component: `value` is parsed and "0" is shown. */
    constructor (value: string)
      ensures Valid()
      ensures Parsed(target, prefix, suffix, format) == ParseValue(value)
      ensures !hasAnimated && !animating && display == "0"
    {
      var p := ParseValue(value);
      target, prefix, suffix, format := p.number, p.prefix, p.suffix, p.format;
      hasAnimated, animating := false, false;
      step, current := 0, Finite(0.0);
      display := "0";
      shown := [];
    }

    /** One entry handed to the visibility callback: an intersecting entry
        starts the animation unless the latch is already set. */
    method HandleEntry(isIntersecting: bool)
      requires Valid()
      modifies this
      ensures Valid()
      ensures hasAnimated == (old(hasAnimated) || isIntersecting)
      ensures isIntersecting && !old(hasAnimated) ==> animating && step == 0 && display == "0"
      ensures !isIntersecting || old(hasAnimated) ==> unchanged(this)
    {
      if isIntersecting && !hasAnimated {
        hasAnimated := true;
        animating := true;
        step, current := 0, Finite(0.0);
      }
    }

    /** The visibility callback: its entries are handled in order. At most
        one animation is ever started, and none once the latch is set. */
    method OnVisible(entries: seq<bool>)
      requires Valid()
      modifies this
      ensures Valid()
      ensures hasAnimated == (old(hasAnimated) || true in entries)
      ensures true in entries && !old(hasAnimated) ==> animating && step == 0 && display == "0"
      ensures true !in entries || old(hasAnimated) ==> unchanged(this)
    {
      var i := 0;
      while i < |entries|
        invariant 0 <= i <= |entries| && Valid()
        invariant hasAnimated == (old(hasAnimated) || true in entries[..i])
        invariant hasAnimated && !old(hasAnimated) ==> animating && step == 0 && display == "0"
        invariant !hasAnimated || old(hasAnimated) ==> unchanged(this)
      {
        assert entries[..i + 1] == entries[..i] + [entries[i]];
        HandleEntry(entries[i]);
        i := i + 1;
      }
      assert entries[..i] == entries;
    }

    /** One firing of the interval timer, which runs only while animating. */
    method Tick()
      requires Valid() && animating
      modifies this
      ensures Valid()
      ensures hasAnimated && step == old(step) + 1
      ensures animating <==> step < Steps
      ensures current == if step == Steps then target else Add(old(current), Div(target, Steps as real))
      ensures display == Render(current, prefix, suffix, format)
      ensures shown == old(shown) + [display]
    {
      step := step + 1;
      current := Add(current, Div(target, Steps as real));
      if step >= Steps {
        current := target;
        animating := false;
      }
      display := Render(current, prefix, suffix, format);
      shown := shown + [display];
      assert current == ValueAt(target, step);
    }

    /** Lets the interval timer fire until it is cleared. A started
        animation fires exactly 60 times in all and freezes on the target. */
    method RunInterval() returns (fired: nat)
      requires Valid()
      modifies this
      ensures Valid() && !animating
      ensures fired == if old(animating) then Steps - old(step) else 0
      ensures old(hasAnimated) ==> step == Steps && current == target
      ensures old(hasAnimated) ==> shown == History(Parsed(target, prefix, suffix, format), Steps)
      ensures old(hasAnimated) ==> display == Render(target, prefix, suffix, format)
      ensures !old(animating) ==> unchanged(this)
    {
      fired := 0;
      while animating
        invariant Valid() && hasAnimated == old(hasAnimated)
        invariant old(animating) ==> fired == step - old(step)
        invariant !old(animating) ==> fired == 0 && unchanged(this)
        decreases Steps - step
      {
        Tick();
        fired := fired + 1;
      }
    }
  }
}
