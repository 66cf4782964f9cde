/** `parseValue` of the SlotNumber component: a display string such as
    "$67M+", "5,000+", "95%" or "25+" becomes the counter's target number,
    the text around it and the way it is formatted. Five rules are tried in
    a fixed order and the first that applies decides. */
module SlotParse {
  import opened JsStrings
  import opened JsNumbers

  datatype Option<T> = None | Some(value: T)

  /** The component's `format` tag. */
  datatype Format = Million | Number | Percent

  /** What `parseValue` returns: `{number, prefix, suffix, format}`. */
  datatype Parsed = Parsed(number: Num, prefix: string, suffix: string, format: Format)

  /** A character of the regular-expression class `[\d.]` (`\d` is ASCII only). */
  predicate IsNumChar(c: char) { IsDigit(c) || c == '.' }

  /** Length of the longest run of `[\d.]` characters starting at `j`. */
  function RunLength(s: string, j: nat): (n: nat)
    requires j <= |s|
    ensures j + n <= |s|
    ensures forall k :: j <= k < j + n ==> IsNumChar(s[k])
    ensures j + n < |s| ==> !IsNumChar(s[j + n])
    decreases |s| - j
  {
    if j < |s| && IsNumChar(s[j]) then 1 + RunLength(s, j + 1) else 0
  }

  /** A run of `[\d.]` characters ended by the end of `s` or by another
      character is exactly what `RunLength` measures. */
  lemma RunLengthIs(s: string, j: nat, m: nat)
    requires j + m <= |s|
    requires forall k :: j <= k < j + m ==> IsNumChar(s[k])
    requires j + m == |s| || !IsNumChar(s[j + m])
    ensures RunLength(s, j) == m
  {
  }

  /** The group `([\d.]+)M` can start at `j`: the greedy run there is not
      empty and an `M` follows it. Backtracking to a shorter run cannot help,
      since an `M` is not in `[\d.]`. */
  predicate GroupAt(s: string, j: nat)
    requires j <= |s|
  {
    var n := RunLength(s, j);
    0 < n && j + n < |s| && s[j + n] == 'M'
  }

  /** Some position of `s` starts the group. */
  predicate HasGroup(s: string)
  {
    exists j :: 0 <= j < |s| && GroupAt(s, j)
  }

  /** The first group of `s` starts at `j`. */
  predicate FirstGroupAt(s: string, j: nat)
  {
    j < |s| && GroupAt(s, j) && forall k :: 0 <= k < j ==> !GroupAt(s, k)
  }

  /** `s.match(/\$?([\d.]+)M\+?/)` tried at positions `i`, `i + 1`, ...: at
      each position the optional `$` is taken first and then left out; the
      trailing `\+?` never makes a match fail. The result is capture group 1,
      which the contract proves is the run at the leftmost position where
      the group can start. */
  function MatchMillion(s: string, i: nat): (r: Option<string>)
    requires i <= |s|
    ensures r.Some? <==> exists j :: i <= j < |s| && GroupAt(s, j)
    ensures r.Some? ==>
      exists j :: i <= j < |s| && GroupAt(s, j) &&
                  (forall k :: i <= k < j ==> !GroupAt(s, k)) &&
                  r.value == s[j..j + RunLength(s, j)]
    decreases |s| - i
  {
    if i == |s| then None
    else if s[i] == '$' && GroupAt(s, i + 1) then
      assert RunLength(s, i) == 0;
      Some(s[i + 1..i + 1 + RunLength(s, i + 1)])
    else if GroupAt(s, i) then Some(s[i..i + RunLength(s, i)])
    else MatchMillion(s, i + 1)
  }

  /** `parseValue(val)`. The rules, in order: a `$` and an `M` with a
      matching pattern give millions; a `,` gives a thousands-separated count
      with a `+`; a `%` gives a percentage; a `+` gives a count with a `+`;
      anything else is a bare number, 0 when it does not parse. */
  function ParseValue(val: string): (p: Parsed)
    ensures p.format == Million <==> '$' in val && 'M' in val && HasGroup(val)
    ensures p.format == Million ==> p.prefix == "$" && p.suffix == "M+"
    ensures p.format != Million ==> p.prefix == ""
    ensures p.format == Percent <==> p.format != Million && ',' !in val && '%' in val
    ensures p.format == Percent ==> p.suffix == "%"
    ensures p.suffix == "+" <==> p.format != Million && (',' in val || ('%' !in val && '+' in val))
    ensures p.suffix == "" <==> p.format != Million && ',' !in val && '%' !in val && '+' !in val
    ensures p.suffix == "" ==> p.number.Finite?
  {
    var m := if '$' in val && 'M' in val then MatchMillion(val, 0) else None;
    if m.Some? then
      Parsed(Mul(ParseFloat(m.value), 1000000.0), "$", "M+", Million)
    else if ',' in val then
      Parsed(ParseFloat(ReplaceFirst(RemoveAll(val, ','), '+')), "", "+", Number)
    else if '%' in val then
      Parsed(ParseFloat(ReplaceFirst(val, '%')), "", "%", Percent)
    else if '+' in val then
      Parsed(ParseFloat(ReplaceFirst(val, '+')), "", "+", Number)
    else
      Parsed(OrZero(ParseFloat(val)), "", "", Number)
  }

  /** The millions rule reads the group at the leftmost position where it
      can start, and scales it by 1,000,000. */
  lemma ParseValueMillions(val: string)
    ensures ParseValue(val).format == Million ==>
              exists j: nat ::
                FirstGroupAt(val, j) &&
                ParseValue(val).number == Mul(ParseFloat(val[j..j + RunLength(val, j)]), 1000000.0)
  {
  }

  /** The number each rule other than the millions one extracts: the text
      with the rule's markers dropped, read as by `parseFloat`; only the
      last rule replaces NaN by 0. */
  lemma ParseValueNumber(val: string)
    ensures var p := ParseValue(val);
      && (p.suffix == "+" && ',' in val ==> p.number == ParseFloat(ReplaceFirst(RemoveAll(val, ','), '+')))
      && (p.suffix == "%" ==> p.number == ParseFloat(ReplaceFirst(val, '%')))
      && (p.suffix == "+" && ',' !in val ==> p.number == ParseFloat(ReplaceFirst(val, '+')))
      && (p.suffix == "" ==> p.number == if StartsNumeric(val) then ParseFloat(val) else Finite(0.0))
  {
  }

  // Each rule, stated for an input it applies to.

  /** A `$`, an `M` and a match give millions: the capture, read as by
      `parseFloat`, times 1,000,000. */
  lemma MillionRule(val: string, group: string)
    requires '$' in val && 'M' in val && MatchMillion(val, 0) == Some(group)
    ensures ParseValue(val) == Parsed(Mul(ParseFloat(group), 1000000.0), "$", "M+", Million)
  {
  }

  /** Without a millions match (a `$` and an `M` with the pattern found), a
      `,` gives a count: every `,` and then the
      first `+` dropped, and the rest read as by `parseFloat`. */
  lemma CommaRule(val: string)
    requires !('$' in val && 'M' in val && HasGroup(val)) && ',' in val
    ensures ParseValue(val) == Parsed(ParseFloat(ReplaceFirst(RemoveAll(val, ','), '+')), "", "+", Number)
  {
  }

  /** Without a millions match or a `,`, a `%` gives a percentage. */
  lemma PercentRule(val: string)
    requires !('$' in val && 'M' in val && HasGroup(val)) && ',' !in val && '%' in val
    ensures ParseValue(val) == Parsed(ParseFloat(ReplaceFirst(val, '%')), "", "%", Percent)
  {
  }

  /** Without a millions match, a `,` or a `%`, a `+` gives a count. */
  lemma PlusRule(val: string)
    requires !('$' in val && 'M' in val && HasGroup(val)) && ',' !in val && '%' !in val && '+' in val
    ensures ParseValue(val) == Parsed(ParseFloat(ReplaceFirst(val, '+')), "", "+", Number)
  {
  }

  /** Without a millions match, a `,`, a `%` or a `+` the text is read as a
      bare number, 0 when it does not parse. */
  lemma PlainRule(val: string)
    requires !('$' in val && 'M' in val && HasGroup(val)) && ',' !in val && '%' !in val && '+' !in val
    ensures ParseValue(val) == Parsed(OrZero(ParseFloat(val)), "", "", Number)
  {
  }

  /** `x || 0` on a number: NaN (and 0 itself) become 0. */
  function OrZero(x: Num): Num
  {
    if x.Finite? then x else Finite(0.0)
  }

  /** `x || 0` never gives NaN and keeps every non-zero finite number. */
  lemma OrZeroFinite(x: Num)
    ensures OrZero(x).Finite?
    ensures x.Finite? ==> OrZero(x) == x
    ensures x.NaN? ==> OrZero(x) == Finite(0.0)
  {
  }
}
