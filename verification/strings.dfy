/**
 * The handful of Python `str` operations the backend relies on, over
 * `string` (a sequence of Unicode scalar values): `in`, `find`,
 * `startswith`, `sep.join`, `split(c)`, `strip()` and `str(int)`.
 */
module Strings {

  /** `p` occurs in `s` starting at offset `i`. */
  predicate OccursAt(s: string, p: string, i: int)
  {
    0 <= i && i + |p| <= |s| && s[i..i + |p|] == p
  }

  /** Python's `p in s`. */
  predicate Contains(s: string, p: string)
  {
    exists i | 0 <= i <= |s| - |p| :: OccursAt(s, p, i)
  }

  /** Python's `s.startswith(p)`. */
  predicate StartsWith(s: string, p: string)
  {
    |p| <= |s| && s[..|p|] == p
  }

  /** Python's `s.find(p)`: the first offset at which `p` occurs, or -1. */
  function Find(s: string, p: string): (r: int)
    ensures r == -1 <==> !Contains(s, p)
    ensures r != -1 ==> OccursAt(s, p, r)
    ensures forall j :: 0 <= j < r ==> !OccursAt(s, p, j)
  {
    FindFrom(s, p, 0)
  }

  function FindFrom(s: string, p: string, i: nat): (r: int)
    requires forall j :: 0 <= j < i ==> !OccursAt(s, p, j)
    ensures r == -1 <==> !Contains(s, p)
    ensures r != -1 ==> i <= r && OccursAt(s, p, r)
    ensures forall j :: 0 <= j < r ==> !OccursAt(s, p, j)
    decreases |s| - i
  {
    if i + |p| > |s| then -1
    else if s[i..i + |p|] == p then assert OccursAt(s, p, i); i
    else FindFrom(s, p, i + 1)
  }

  /** A one-character pattern occurs exactly where that character stands. */
  lemma OccursAtChar(s: string, k: nat, c: char)
    requires k < |s|
    ensures OccursAt(s, [c], k) <==> s[k] == c
  {
    assert s[k..k + 1] == [s[k]];
  }

  /** An occurrence fixes every character it covers. */
  lemma OccursAtIndex(s: string, p: string, i: nat, t: nat)
    requires OccursAt(s, p, i) && t < |p|
    ensures s[i + t] == p[t]
  {
    assert s[i..i + |p|][t] == s[i + t];
  }

  /** An occurrence lying inside the first part of a concatenation is an occurrence in that part. */
  lemma OccursInPrefix(a: string, b: string, p: string, i: nat)
    requires OccursAt(a + b, p, i) && i + |p| <= |a|
    ensures OccursAt(a, p, i)
  {
    assert (a + b)[i..i + |p|] == a[i..i + |p|];
  }

  lemma OccursInConcat(a: string, p: string, b: string)
    ensures OccursAt(a + p + b, p, |a|)
    ensures Contains(a + p + b, p)
  {
    assert (a + p + b)[|a|..|a| + |p|] == p;
    assert OccursAt(a + p + b, p, |a|);
  }

  /** The first character of `p` does not occur again in `p`. */
  predicate HeadUnique(p: string)
  {
    |p| > 0 && forall t :: 1 <= t < |p| ==> p[t] != p[0]
  }

  /** Two occurrences of a pattern whose first character is unique never overlap. */
  lemma NoOverlap(s: string, p: string, at: nat, j: nat)
    requires HeadUnique(p) && OccursAt(s, p, at) && OccursAt(s, p, j) && j < at
    ensures j + |p| <= at
  {
    OccursAtIndex(s, p, at, 0);
    if at < j + |p| {
      OccursAtIndex(s, p, j, at - j);
      assert false;
    }
  }

  /**
   * When `pre` does not contain `p` and `p`'s first character is unique, the
   * first occurrence of `p` in `pre + p + rest` starts right after `pre`.
   */
  lemma FindAfterPrefix(pre: string, p: string, rest: string)
    requires HeadUnique(p) && !Contains(pre, p)
    ensures Find(pre + p + rest, p) == |pre|
  {
    var s := pre + p + rest;
    OccursInConcat(pre, p, rest);
    assert s == pre + (p + rest);
    var i := Find(s, p);
    if i < |pre| {
      NoOverlap(s, p, |pre|, i);
      OccursInPrefix(pre, p + rest, p, i);
      assert false;
    }
  }

  /** A string found inside `x` is still found once `x` is wrapped in more text. */
  lemma ContainsWidened(a: string, x: string, b: string, p: string)
    requires Contains(x, p)
    ensures Contains(a + x + b, p)
  {
    var i :| 0 <= i <= |x| - |p| && OccursAt(x, p, i);
    assert (a + x + b)[|a| + i..|a| + i + |p|] == x[i..i + |p|];
    assert OccursAt(a + x + b, p, |a| + i);
  }

  /** Python's `sep.join(xs)`. */
  function Join(sep: string, xs: seq<string>): string
  {
    if |xs| == 0 then ""
    else if |xs| == 1 then xs[0]
    else xs[0] + sep + Join(sep, xs[1..])
  }

  /** Joining one more piece adds exactly one separator and the piece, at the end. */
  lemma {:induction false} JoinSnoc(sep: string, xs: seq<string>, x: string)
    ensures Join(sep, xs + [x]) == if |xs| == 0 then x else Join(sep, xs) + sep + x
  {
    if |xs| == 0 {
      assert xs + [x] == [x];
    } else if |xs| == 1 {
      assert (xs + [x])[1..] == [x];
    } else {
      var head := xs[0] + sep;
      var inner := Join(sep, xs[1..]);
      calc {
        Join(sep, xs + [x]);
        { assert (xs + [x])[1..] == xs[1..] + [x]; }
        head + Join(sep, xs[1..] + [x]);
        { JoinSnoc(sep, xs[1..], x); }
        head + (inner + sep + x);
        head + inner + sep + x;
      }
    }
  }

  /** Every joined piece can be found in the result, whatever the separator. */
  lemma {:induction false} JoinContainsEach(sep: string, xs: seq<string>, k: nat)
    requires k < |xs|
    ensures Contains(Join(sep, xs), xs[k])
  {
    if |xs| == 1 {
      OccursInConcat("", xs[0], "");
      assert "" + xs[0] + "" == xs[0];
    } else if k == 0 {
      OccursInConcat("", xs[0], sep + Join(sep, xs[1..]));
      assert "" + xs[0] + (sep + Join(sep, xs[1..])) == Join(sep, xs);
    } else {
      JoinContainsEach(sep, xs[1..], k - 1);
      ContainsWidened(xs[0] + sep, Join(sep, xs[1..]), "", xs[k]);
      assert xs[0] + sep + Join(sep, xs[1..]) + "" == Join(sep, xs);
    }
  }

  /** When no piece is empty, the join is empty exactly when there are no pieces. */
  lemma {:induction false} JoinEmptyIff(sep: string, xs: seq<string>)
    requires forall k :: 0 <= k < |xs| ==> |xs[k]| > 0
    ensures Join(sep, xs) == "" <==> |xs| == 0
  {
    if |xs| > 1 {
      assert |Join(sep, xs)| >= |xs[0]|;
    }
  }

  /** Python's `s.split(c)` for a one-character separator `c`. */
  function Split(s: string, c: char): (r: seq<string>)
    ensures |r| >= 1
    ensures Join([c], r) == s
    ensures forall k :: 0 <= k < |r| ==> c !in r[k]
  {
    if |s| == 0 then [""]
    else
      var rest := Split(s[1..], c);
      if s[0] == c then
        assert ([""] + rest)[1..] == rest;
        [""] + rest
      else
        var r := [[s[0]] + rest[0]] + rest[1..];
        assert r[1..] == rest[1..];
        assert Join([c], r) == s by {
          if |rest| > 1 {
            assert Join([c], rest) == rest[0] + [c] + Join([c], rest[1..]);
          }
        }
        r
  }

  /** What the tail of a text contains, the text contains. */
  lemma ContainsInTail(s: string, x: string)
    requires |s| > 0 && Contains(s[1..], x)
    ensures Contains(s, x)
  {
    ContainsWidened([s[0]], s[1..], "", x);
    assert [s[0]] + s[1..] + "" == s;
  }

  /** Containment is transitive. */
  lemma ContainsTransitive(x: string, y: string, p: string)
    requires Contains(x, y) && Contains(y, p)
    ensures Contains(x, p)
  {
    var i :| 0 <= i <= |x| - |y| && OccursAt(x, y, i);
    var j :| 0 <= j <= |y| - |p| && OccursAt(y, p, j);
    assert forall t :: 0 <= t < |p| ==> x[i + j + t] == y[j + t] == p[t];
    assert x[i + j..i + j + |p|] == p;
    assert OccursAt(x, p, i + j);
  }

  /** The first line produced by `Split` starts the text. */
  lemma {:induction false} FirstLineIsPrefix(s: string, c: char)
    ensures |Split(s, c)[0]| <= |s| && s[..|Split(s, c)[0]|] == Split(s, c)[0]
  {
    if |s| > 0 && s[0] != c {
      FirstLineIsPrefix(s[1..], c);
      var line := Split(s, c)[0];
      var tailLine := Split(s[1..], c)[0];
      assert line == [s[0]] + tailLine;
      assert s[..|line|] == [s[0]] + s[1..][..|tailLine|];
    }
  }

  /** A line after the first is a line of the tail `s[1..]`, one further on when `s` starts with `c`. */
  lemma SplitLaterLine(s: string, c: char, k: nat)
    requires |s| > 0 && 0 < k < |Split(s, c)|
    ensures s[0] == c ==> Split(s, c)[k] == Split(s[1..], c)[k - 1]
    ensures s[0] != c ==> k < |Split(s[1..], c)| && Split(s, c)[k] == Split(s[1..], c)[k]
  {
  }

  /** The first line produced by `Split` is a piece of the original text. */
  lemma FirstLineInside(s: string, c: char)
    ensures Contains(s, Split(s, c)[0])
  {
    var line := Split(s, c)[0];
    FirstLineIsPrefix(s, c);
    OccursInConcat("", line, s[|line|..]);
    assert "" + line + s[|line|..] == s;
  }

  /** Every line produced by `Split` is a piece of the original text. */
  lemma {:induction false} SplitLineInside(s: string, c: char, k: nat)
    requires k < |Split(s, c)|
    ensures Contains(s, Split(s, c)[k])
  {
    if k == 0 {
      FirstLineInside(s, c);
    } else {
      var line := Split(s, c)[k];
      var j := if s[0] == c then k - 1 else k;
      SplitLaterLine(s, c, k);
      SplitLineInside(s[1..], c, j);
      ContainsInTail(s, line);
    }
  }

  /** A separator-free prefix of a text is a prefix of its first line. */
  lemma {:induction false} PrefixOfFirstLine(s: string, c: char, p: string)
    requires c !in p && |p| <= |s| && s[..|p|] == p
    ensures |p| <= |Split(s, c)[0]| && Split(s, c)[0][..|p|] == p
  {
    if |p| > 0 {
      assert s[0] == p[0] != c;
      assert s[1..][..|p| - 1] == p[1..];
      PrefixOfFirstLine(s[1..], c, p[1..]);
      var line := Split(s, c)[0];
      assert line == [s[0]] + Split(s[1..], c)[0];
      assert line[..|p|] == [p[0]] + p[1..];
    }
  }

  /** A pattern found in a line of the tail `s[1..]` is found in a line of `s`. */
  lemma LineOfTail(s: string, c: char, p: string, k: nat)
    requires |s| > 0 && k < |Split(s[1..], c)| && Contains(Split(s[1..], c)[k], p)
    ensures exists j :: 0 <= j < |Split(s, c)| && Contains(Split(s, c)[j], p)
  {
    var r := Split(s, c);
    var rest := Split(s[1..], c);
    if s[0] == c {
      assert r[k + 1] == rest[k];
    } else if k == 0 {
      ContainsWidened([s[0]], rest[0], "", p);
      assert [s[0]] + rest[0] + "" == r[0];
    } else {
      assert r[k] == rest[k];
    }
  }

  /** A separator-free pattern found in a text is found in one of its lines. */
  lemma {:induction false} ContainedInSomeLine(s: string, c: char, p: string)
    requires c !in p && Contains(s, p)
    ensures exists k :: 0 <= k < |Split(s, c)| && Contains(Split(s, c)[k], p)
  {
    var i :| 0 <= i <= |s| - |p| && OccursAt(s, p, i);
    if i == 0 {
      PrefixOfFirstLine(s, c, p);
      var line := Split(s, c)[0];
      OccursInConcat("", p, line[|p|..]);
      assert "" + p + line[|p|..] == line;
    } else {
      assert s[1..][i - 1..i - 1 + |p|] == p;
      assert OccursAt(s[1..], p, i - 1);
      ContainedInSomeLine(s[1..], c, p);
      var k :| 0 <= k < |Split(s[1..], c)| && Contains(Split(s[1..], c)[k], p);
      LineOfTail(s, c, p, k);
    }
  }

  /**
   * A separator-free pattern occurs in a text exactly when it occurs in one
   * of the text's lines.
   */
  lemma ContainsIffSomeLine(s: string, c: char, p: string)
    requires c !in p
    ensures Contains(s, p) <==> exists k :: 0 <= k < |Split(s, c)| && Contains(Split(s, c)[k], p)
  {
    var r := Split(s, c);
    if Contains(s, p) {
      ContainedInSomeLine(s, c, p);
    }
    if k :| 0 <= k < |r| && Contains(r[k], p) {
      SplitLineInside(s, c, k);
      ContainsTransitive(s, r[k], p);
    }
  }

  /** Python's `str.isspace()` for one character. */
  predicate IsSpace(ch: char)
  {
    var n := ch as int;
    n == 0x20 || 0x09 <= n <= 0x0D || 0x1C <= n <= 0x1F || n == 0x85 || n == 0xA0
    || n == 0x1680 || 0x2000 <= n <= 0x200A || n == 0x2028 || n == 0x2029
    || n == 0x202F || n == 0x205F || n == 0x3000
  }

  /** Python's `s.lstrip()`: the suffix left after dropping leading whitespace. */
  function TrimStart(s: string): (r: string)
    ensures |r| <= |s| && r == s[|s| - |r|..]
    ensures forall i :: 0 <= i < |s| - |r| ==> IsSpace(s[i])
    ensures |r| > 0 ==> !IsSpace(r[0])
  {
    if |s| > 0 && IsSpace(s[0]) then
      var r := TrimStart(s[1..]);
      assert forall i :: 1 <= i < |s| - |r| ==> s[i] == s[1..][i - 1];
      r
    else s
  }

  /** Python's `s.rstrip()`: the prefix left after dropping trailing whitespace. */
  function TrimEnd(s: string): (r: string)
    ensures |r| <= |s| && r == s[..|r|]
    ensures forall i :: |r| <= i < |s| ==> IsSpace(s[i])
    ensures |r| > 0 ==> !IsSpace(r[|r| - 1])
  {
    if |s| > 0 && IsSpace(s[|s| - 1]) then
      var r := TrimEnd(s[..|s| - 1]);
      assert forall i :: |r| <= i < |s| - 1 ==> s[i] == s[..|s| - 1][i];
      r
    else s
  }

  /** `r` is the piece of `s` at offset `a`, and only whitespace lies around it. */
  predicate StrippedAt(s: string, r: string, a: int)
  {
    && 0 <= a <= |s| - |r|
    && r == s[a..a + |r|]
    && (forall i :: 0 <= i < a ==> IsSpace(s[i]))
    && (forall i :: a + |r| <= i < |s| ==> IsSpace(s[i]))
  }

  /** Whitespace dropped at the start, then at the end, leaves the middle piece of `s`. */
  lemma StrippedBetween(s: string, t: string, r: string)
    requires |t| <= |s| && t == s[|s| - |t|..]
    requires forall i :: 0 <= i < |s| - |t| ==> IsSpace(s[i])
    requires |t| > 0 ==> !IsSpace(t[0])
    requires |r| <= |t| && r == t[..|r|]
    requires forall i :: |r| <= i < |t| ==> IsSpace(t[i])
    ensures StrippedAt(s, r, |s| - |t|)
    ensures |r| > 0 ==> !IsSpace(r[0])
  {
    var a := |s| - |t|;
    assert r == s[a..a + |r|];
    forall i | a + |r| <= i < |s|
      ensures IsSpace(s[i])
    {
      assert s[i] == t[i - a];
    }
  }

  /** Python's `s.strip()`: the slice of `s` between its leading and trailing whitespace. */
  function Strip(s: string): (r: string)
    ensures exists a :: StrippedAt(s, r, a)
    ensures |r| > 0 ==> !IsSpace(r[0]) && !IsSpace(r[|r| - 1])
  {
    var t := TrimStart(s);
    var r := TrimEnd(t);
    StrippedBetween(s, t, r);
    r
  }

  function DigitChar(d: nat): char
    requires d < 10
  {
    "0123456789"[d]
  }

  predicate IsDigit(ch: char)
  {
    '0' <= ch <= '9'
  }

  function DigitValue(ch: char): nat
    requires IsDigit(ch)
  {
    ch as int - '0' as int
  }

  /** The decimal numeral of `n`, as Python's `str(n)` writes it. */
  function NatToString(n: nat): (r: string)
    ensures |r| >= 1
    ensures forall k :: 0 <= k < |r| ==> IsDigit(r[k])
    ensures r[0] == '0' ==> n == 0
  {
    if n < 10 then [DigitChar(n)] else NatToString(n / 10) + [DigitChar(n % 10)]
  }

  /** Python's `str(i)` (what an f-string writes for an `int`). */
  function IntToString(i: int): (r: string)
    ensures |r| >= 1
    ensures r[0] == '-' <==> i < 0
  {
    if i < 0 then "-" + NatToString(-i) else NatToString(i)
  }

  /** The number a string of decimal digits denotes. */
  function DecimalValue(s: string): nat
    requires forall k :: 0 <= k < |s| ==> IsDigit(s[k])
  {
    if |s| == 0 then 0 else DecimalValue(s[..|s| - 1]) * 10 + DigitValue(s[|s| - 1])
  }

  /** Reading back the numeral gives the number. */
  lemma {:induction false} NatToStringRoundTrip(n: nat)
    ensures DecimalValue(NatToString(n)) == n
  {
    var r := NatToString(n);
    if n >= 10 {
      NatToStringRoundTrip(n / 10);
      assert r[..|r| - 1] == NatToString(n / 10);
    }
  }

}
