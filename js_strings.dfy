/** The two JavaScript string operations the statistic parser relies on:
    `s.replace(c, '')` with a one-character string pattern (only the first
    occurrence goes) and `s.replace(/c/g, '')` (every occurrence goes). */
module JsStrings {

  /** `s.indexOf(c)`: the position of the first `c`, or -1 when there is none. */
  function IndexOf(s: string, c: char): (i: int)
    ensures -1 <= i < |s|
    ensures 0 <= i ==> s[i] == c
    ensures forall k :: 0 <= k < |s| && (i < 0 || k < i) ==> s[k] != c
  {
    if |s| == 0 then -1
    else if s[0] == c then 0
    else
      var j := IndexOf(s[1..], c);
      assert forall k :: 1 <= k < |s| ==> s[k] == s[1..][k - 1];
      if j < 0 then -1 else j + 1
  }

  /** `s.replace(c, '')`: removes the first occurrence of `c`, if any. */
  function ReplaceFirst(s: string, c: char): string
  {
    var i := IndexOf(s, c);
    if i < 0 then s else s[..i] + s[i + 1..]
  }

  /** `s.replace(/c/g, '')`: removes every occurrence of `c`, keeping the rest. */
  function RemoveAll(s: string, c: char): (r: string)
    ensures c !in r
    ensures forall x :: x in r <==> x in s && x != c
    ensures |r| <= |s|
  {
    if |s| == 0 then s
    else
      assert s == [s[0]] + s[1..];
      if s[0] == c then RemoveAll(s[1..], c) else [s[0]] + RemoveAll(s[1..], c)
  }

  /** Removing every `c` works piecewise on a concatenation. */
  lemma {:induction false} RemoveAllConcat(a: string, b: string, c: char)
    ensures RemoveAll(a + b, c) == RemoveAll(a, c) + RemoveAll(b, c)
  {
    if |a| > 0 {
      assert (a + b)[1..] == a[1..] + b;
      RemoveAllConcat(a[1..], b, c);
    } else {
      assert a + b == b;
    }
  }

  /** A string without `c` is left as it is. */
  lemma {:induction false} RemoveAllAbsent(s: string, c: char)
    requires c !in s
    ensures RemoveAll(s, c) == s
  {
    if |s| > 0 {
      assert c !in s[1..] by { assert forall k :: 0 <= k < |s[1..]| ==> s[1..][k] == s[k + 1]; }
      RemoveAllAbsent(s[1..], c);
      assert s == [s[0]] + s[1..];
    }
  }

  /** Every `c` goes and every other character stays as often as it occurred. */
  lemma {:induction false} RemoveAllMultiset(s: string, c: char)
    ensures multiset(RemoveAll(s, c)) == multiset(s)[c := 0]
  {
    if |s| > 0 {
      RemoveAllMultiset(s[1..], c);
      assert s == [s[0]] + s[1..];
      assert multiset(s) == multiset{s[0]} + multiset(s[1..]);
    }
  }

  /** One character is removed by itself exactly when it is `c`; with
      `RemoveAllConcat` this fixes the order of what is kept. */
  lemma RemoveAllSingle(x: char, c: char)
    ensures RemoveAll([x], c) == if x == c then [] else [x]
  {
  }

  /** When `a` has no `c`, the first `c` of `a + b` is the first `c` of `b`, shifted by `|a|`. */
  lemma IndexOfAfter(a: string, b: string, c: char)
    requires c !in a
    ensures IndexOf(a + b, c) == if IndexOf(b, c) < 0 then -1 else |a| + IndexOf(b, c)
  {
    var s := a + b;
    var i, j := IndexOf(s, c), IndexOf(b, c);
    assert forall k :: 0 <= k < |a| ==> s[k] == a[k];
    assert forall k :: |a| <= k < |s| ==> s[k] == b[k - |a|];
    if j < 0 {
      assert forall k :: 0 <= k < |s| ==> s[k] != c;
    } else {
      assert s[|a| + j] == c;
      assert 0 <= i <= |a| + j;
      assert i >= |a|;
      assert b[i - |a|] == c;
    }
  }

  /** `s.replace(c, '')` leaves a text without `c` as it is, and otherwise
      cuts out one `c` with no `c` before it. */
  lemma ReplaceFirstRemovesFirst(s: string, c: char)
    ensures c !in s ==> ReplaceFirst(s, c) == s
    ensures c in s ==>
      exists i :: 0 <= i < |s| && s[i] == c && c !in s[..i] && ReplaceFirst(s, c) == s[..i] + s[i + 1..]
  {
    var i := IndexOf(s, c);
    if c in s {
      assert 0 <= i;
      assert c !in s[..i];
    }
  }

  /** `(a + b).replace(c, '')` is `a + b.replace(c, '')` when `a` has no `c`. */
  lemma ReplaceFirstAfter(a: string, b: string, c: char)
    requires c !in a
    ensures ReplaceFirst(a + b, c) == a + ReplaceFirst(b, c)
  {
    var s, j := a + b, IndexOf(b, c);
    assert IndexOf(s, c) == if j < 0 then -1 else |a| + j by { IndexOfAfter(a, b, c); }
    if 0 <= j {
      var x, y := b[..j], b[j + 1..];
      calc {
        ReplaceFirst(s, c);
        s[..|a| + j] + s[|a| + j + 1..];
        { assert s[..|a| + j] == a + x; assert s[|a| + j + 1..] == y; }
        (a + x) + y;
        a + (x + y);
        a + ReplaceFirst(b, c);
      }
    }
  }
}
