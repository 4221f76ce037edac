/**
 * Python's `str.count`, `str.replace` and `str.format` with one positional
 * argument, restricted to the `{}`, `{{` and `}}` forms of a format string.
 */
module PyFormat {
  import opened Wrappers

  /** `s.count(pat)`: non-overlapping occurrences, scanned left to right. */
  function Count(s: string, pat: string): nat
    requires |pat| > 0
    decreases |s|
  {
    if s == [] then 0
    else if |pat| <= |s| && s[..|pat|] == pat then 1 + Count(s[|pat|..], pat)
    else Count(s[1..], pat)
  }

  /** `s.replace(pat, rep)`: every occurrence `Count` sees becomes `rep`; all other characters stay. */
  function ReplaceAll(s: string, pat: string, rep: string): (r: string)
    requires |pat| > 0
    ensures Count(s, pat) == 0 ==> r == s
    decreases |s|
  {
    if s == [] then []
    else if |pat| <= |s| && s[..|pat|] == pat then rep + ReplaceAll(s[|pat|..], pat, rep)
    else
      assert s == [s[0]] + s[1..];
      [s[0]] + ReplaceAll(s[1..], pat, rep)
  }

  /** Each counted occurrence changes the length by the difference of the two lengths. */
  lemma {:induction false} ReplaceAllLength(s: string, pat: string, rep: string)
    requires |pat| > 0
    ensures |ReplaceAll(s, pat, rep)| == |s| + Count(s, pat) * (|rep| - |pat|)
    decreases |s|
  {
    if s == [] {
    } else if |pat| <= |s| && s[..|pat|] == pat {
      var rest := s[|pat|..];
      ReplaceAllLength(rest, pat, rep);
      assert ReplaceAll(s, pat, rep) == rep + ReplaceAll(rest, pat, rep);
      assert Count(s, pat) == 1 + Count(rest, pat);
      MulSucc(Count(rest, pat), |rep| - |pat|);
    } else {
      ReplaceAllLength(s[1..], pat, rep);
      assert ReplaceAll(s, pat, rep) == [s[0]] + ReplaceAll(s[1..], pat, rep);
      assert Count(s, pat) == Count(s[1..], pat);
    }
  }

  lemma MulSucc(c: int, d: int)
    ensures (1 + c) * d == d + c * d
  {
  }

  /** Replacing a pattern by itself changes nothing. */
  lemma {:induction false} ReplaceBySelf(s: string, pat: string)
    requires |pat| > 0
    ensures ReplaceAll(s, pat, pat) == s
    decreases |s|
  {
    if s == [] {
    } else if |pat| <= |s| && s[..|pat|] == pat {
      ReplaceBySelf(s[|pat|..], pat);
      assert s == pat + s[|pat|..];
    } else {
      ReplaceBySelf(s[1..], pat);
      assert s == [s[0]] + s[1..];
    }
  }

  /** `pat` stands at offset `i` of `s`. */
  predicate OccursAt(s: string, pat: string, i: nat) {
    i + |pat| <= |s| && s[i..i + |pat|] == pat
  }

  /** An occurrence anywhere in `s` is counted (perhaps as part of an earlier one). */
  lemma {:induction false} OccurrenceCounted(s: string, pat: string, i: nat)
    requires |pat| > 0 && OccursAt(s, pat, i)
    ensures Count(s, pat) >= 1
    decreases i
  {
    if !(s[..|pat|] == pat) {
      assert i > 0;
      assert s[1..][i - 1..i - 1 + |pat|] == s[i..i + |pat|];
      OccurrenceCounted(s[1..], pat, i - 1);
    }
  }

  /**
   * A positive count starts at the first occurrence, and the scan resumes
   * right after it.
   */
  lemma {:induction false} FirstOccurrence(s: string, pat: string) returns (i: nat)
    requires |pat| > 0 && Count(s, pat) >= 1
    ensures OccursAt(s, pat, i)
    ensures forall j: nat :: j < i ==> !OccursAt(s, pat, j)
    ensures Count(s, pat) == 1 + Count(s[i + |pat|..], pat)
    decreases |s|
  {
    if |pat| <= |s| && s[..|pat|] == pat {
      i := 0;
    } else {
      var i' := FirstOccurrence(s[1..], pat);
      i := i' + 1;
      assert s[i..i + |pat|] == s[1..][i'..i' + |pat|];
      assert s[i + |pat|..] == s[1..][i' + |pat|..];
      forall j: nat | j < i ensures !OccursAt(s, pat, j) {
        if j == 0 {
          assert |pat| <= |s| ==> s[j..j + |pat|] == s[..|pat|];
        } else if j + |pat| <= |s| {
          assert s[1..][j - 1..j - 1 + |pat|] == s[j..j + |pat|];
          assert !OccursAt(s[1..], pat, j - 1);
        }
      }
    }
  }

  /** `count` is zero exactly when the pattern occurs nowhere. */
  lemma CountZeroIffAbsent(s: string, pat: string)
    requires |pat| > 0
    ensures Count(s, pat) == 0 <==> forall i: nat :: !OccursAt(s, pat, i)
  {
    if Count(s, pat) >= 1 {
      var i := FirstOccurrence(s, pat);
    } else {
      forall i: nat ensures !OccursAt(s, pat, i) {
        if OccursAt(s, pat, i) {
          OccurrenceCounted(s, pat, i);
        }
      }
    }
  }

  /** Dropping a prefix never adds to the count. */
  lemma {:induction false} CountSuffix(s: string, pat: string, d: nat)
    requires |pat| > 0 && d <= |s|
    ensures Count(s[d..], pat) <= Count(s, pat)
    decreases |s|, 1
  {
    if d == 0 {
      assert s[d..] == s;
    } else if |pat| <= |s| && s[..|pat|] == pat {
      if d >= |pat| {
        assert s[d..] == s[|pat|..][d - |pat|..];
        CountSuffix(s[|pat|..], pat, d - |pat|);
      } else {
        CountOverlap(s[d..], pat, |pat| - d);
        assert s[d..][|pat| - d..] == s[|pat|..];
      }
    } else {
      assert s[d..] == s[1..][d - 1..];
      CountSuffix(s[1..], pat, d - 1);
    }
  }

  /** The first `e <= |pat|` characters hold at most one counted occurrence. */
  lemma {:induction false} CountOverlap(t: string, pat: string, e: nat)
    requires |pat| > 0 && e <= |pat| && e <= |t|
    ensures Count(t, pat) <= 1 + Count(t[e..], pat)
    decreases |t|, 0
  {
    if e == 0 {
      assert t[e..] == t;
    } else if |pat| <= |t| && t[..|pat|] == pat {
      assert t[|pat|..] == t[e..][|pat| - e..];
      CountSuffix(t[e..], pat, |pat| - e);
    } else {
      assert t[e..] == t[1..][e - 1..];
      CountOverlap(t[1..], pat, e - 1);
    }
  }

  /** An occurrence is counted, and so is everything counted after it. */
  lemma {:induction false} OccurrenceThenRest(s: string, pat: string, i: nat)
    requires |pat| > 0 && OccursAt(s, pat, i)
    ensures Count(s, pat) >= 1 + Count(s[i + |pat|..], pat)
    decreases i
  {
    if |pat| <= |s| && s[..|pat|] == pat {
      assert s[i + |pat|..] == s[|pat|..][i..];
      CountSuffix(s[|pat|..], pat, i);
    } else {
      assert s[1..][i - 1..i - 1 + |pat|] == s[i..i + |pat|];
      assert s[i + |pat|..] == s[1..][i - 1 + |pat|..];
      OccurrenceThenRest(s[1..], pat, i - 1);
    }
  }

  /** Two occurrences that do not overlap are both counted. */
  lemma TwoOccurrencesCounted(s: string, pat: string, i: nat, j: nat)
    requires |pat| > 0 && OccursAt(s, pat, i) && OccursAt(s, pat, j) && i + |pat| <= j
    ensures Count(s, pat) >= 2
  {
    OccurrenceThenRest(s, pat, i);
    var k := j - (i + |pat|);
    assert s[i + |pat|..][k..k + |pat|] == s[j..j + |pat|];
    OccurrenceCounted(s[i + |pat|..], pat, k);
  }

  /** The first character of `pat` does not recur in it, so two occurrences never overlap. */
  predicate HeadUnique(pat: string) {
    |pat| > 0 && forall i :: 0 < i < |pat| ==> pat[i] != pat[0]
  }

  /** For such a pattern, `count` is at most one exactly when it occurs at one offset at most. */
  lemma CountAtMostOnce(s: string, pat: string)
    requires HeadUnique(pat)
    ensures Count(s, pat) <= 1 <==> forall i: nat, j: nat :: OccursAt(s, pat, i) && OccursAt(s, pat, j) ==> i == j
  {
    if Count(s, pat) >= 2 {
      var i := FirstOccurrence(s, pat);
      var rest := s[i + |pat|..];
      var k := FirstOccurrence(rest, pat);
      assert s[i + |pat| + k..i + |pat| + k + |pat|] == rest[k..k + |pat|];
      assert OccursAt(s, pat, i + |pat| + k);
    } else {
      forall i: nat, j: nat | OccursAt(s, pat, i) && OccursAt(s, pat, j) ensures i == j {
        if i < j {
          NoOverlap(s, pat, i, j);
          TwoOccurrencesCounted(s, pat, i, j);
        } else if j < i {
          NoOverlap(s, pat, j, i);
          TwoOccurrencesCounted(s, pat, j, i);
        }
      }
    }
  }

  lemma NoOverlap(s: string, pat: string, i: nat, j: nat)
    requires HeadUnique(pat) && OccursAt(s, pat, i) && OccursAt(s, pat, j) && i < j
    ensures i + |pat| <= j
  {
    assert s[j] == s[j..j + |pat|][0];
    forall k | i <= k < i + |pat| ensures s[k] == pat[k - i] {
      assert s[k] == s[i..i + |pat|][k - i];
    }
  }

  /** `replace` copies a stretch holding no occurrence unchanged. */
  lemma {:induction false} ReplaceAllSkipsPrefix(a: string, b: string, pat: string, rep: string)
    requires |pat| > 0 && forall i: nat :: i < |a| ==> !OccursAt(a + b, pat, i)
    ensures ReplaceAll(a + b, pat, rep) == a + ReplaceAll(b, pat, rep)
    decreases |a|
  {
    if a != [] {
      var s := a + b;
      assert !OccursAt(s, pat, 0);
      assert s[1..] == a[1..] + b;
      forall i: nat | i < |a[1..]| ensures !OccursAt(a[1..] + b, pat, i) {
        if OccursAt(a[1..] + b, pat, i) {
          assert s[i + 1..i + 1 + |pat|] == (a[1..] + b)[i..i + |pat|];
          assert OccursAt(s, pat, i + 1);
        }
      }
      ReplaceAllSkipsPrefix(a[1..], b, pat, rep);
      assert ReplaceAll(s, pat, rep) == [s[0]] + ReplaceAll(a[1..] + b, pat, rep);
      assert [a[0]] + (a[1..] + ReplaceAll(b, pat, rep)) == a + ReplaceAll(b, pat, rep);
    } else {
      assert a + b == b;
    }
  }

  /** An occurrence at the front becomes the replacement, and the scan resumes after it. */
  lemma ReplaceAllAtPattern(b: string, pat: string, rep: string)
    requires |pat| > 0
    ensures ReplaceAll(pat + b, pat, rep) == rep + ReplaceAll(b, pat, rep)
  {
    var s := pat + b;
    assert s[..|pat|] == pat && s[|pat|..] == b;
  }

  /**
   * `replace` keeps everything before the first occurrence, puts the
   * replacement in its place, and goes on with the rest.
   */
  lemma ReplaceAtFirstOccurrence(s: string, pat: string, rep: string) returns (i: nat)
    requires |pat| > 0 && Count(s, pat) >= 1
    ensures OccursAt(s, pat, i) && forall j: nat :: j < i ==> !OccursAt(s, pat, j)
    ensures ReplaceAll(s, pat, rep) == s[..i] + rep + ReplaceAll(s[i + |pat|..], pat, rep)
  {
    i := FirstOccurrence(s, pat);
    assert s == s[..i] + s[i..];
    ReplaceAllSkipsPrefix(s[..i], s[i..], pat, rep);
    assert s[i..] == pat + s[i + |pat|..];
    ReplaceAllAtPattern(s[i + |pat|..], pat, rep);
  }

  /** With an occurrence, the result of `replace` holds the replacement. */
  lemma ReplacementInserted(s: string, pat: string, rep: string)
    requires |pat| > 0 && |rep| > 0 && Count(s, pat) >= 1
    ensures Count(ReplaceAll(s, pat, rep), rep) >= 1
  {
    var i := ReplaceAtFirstOccurrence(s, pat, rep);
    var r := ReplaceAll(s, pat, rep);
    assert r[i..i + |rep|] == rep;
    OccurrenceCounted(r, rep, i);
  }

  /**
   * When the replacement shares the pattern's first character, a result of
   * `replace` that starts with text free of that character comes from input
   * that starts with the same text.
   */
  lemma {:induction false} ReplaceKeepsHeadFreePrefix(t: string, pat: string, rep: string, w: string)
    requires |pat| > 0 && |rep| > 0 && rep[0] == pat[0]
    requires forall i :: 0 <= i < |w| ==> w[i] != pat[0]
    requires |w| <= |ReplaceAll(t, pat, rep)| && ReplaceAll(t, pat, rep)[..|w|] == w
    ensures |w| <= |t| && t[..|w|] == w
    decreases |t|
  {
    assert |pat| <= |t| && t[..|pat|] == pat ==> ReplaceAll(t, pat, rep)[0] == pat[0];
    if w != [] && t != [] {
      assert w[0] == ReplaceAll(t, pat, rep)[..|w|][0];
      if |pat| <= |t| && t[..|pat|] == pat {
        assert false;
      } else {
        var r' := ReplaceAll(t[1..], pat, rep);
        assert ReplaceAll(t, pat, rep) == [t[0]] + r';
        assert r'[..|w| - 1] == w[1..];
        ReplaceKeepsHeadFreePrefix(t[1..], pat, rep, w[1..]);
        assert t[..|w|] == [t[0]] + t[1..][..|w| - 1];
      }
    }
  }

  /**
   * A replacement that cannot start a new occurrence leaves none behind: its
   * first character is the pattern's and recurs in neither, and the two
   * differ at offset `j`.
   */
  lemma {:induction false} ReplaceLeavesNoOccurrence(s: string, pat: string, rep: string, j: nat)
    requires HeadUnique(pat) && |rep| > 0 && rep[0] == pat[0]
    requires forall i :: 0 < i < |rep| ==> rep[i] != pat[0]
    requires j < |pat| && j < |rep| && rep[j] != pat[j]
    ensures forall q: nat :: !OccursAt(ReplaceAll(s, pat, rep), pat, q)
    decreases |s|
  {
    var r := ReplaceAll(s, pat, rep);
    if s == [] {
    } else if |pat| <= |s| && s[..|pat|] == pat {
      var r' := ReplaceAll(s[|pat|..], pat, rep);
      ReplaceLeavesNoOccurrence(s[|pat|..], pat, rep, j);
      assert r == rep + r';
      forall q: nat ensures !OccursAt(r, pat, q) {
        if q + |pat| <= |r| {
          if q >= |rep| {
            assert r[q..q + |pat|] == r'[q - |rep|..q - |rep| + |pat|];
            assert !OccursAt(r', pat, q - |rep|);
          } else if q > 0 {
            assert r[q..q + |pat|][0] == rep[q];
          } else {
            assert r[q..q + |pat|][j] == rep[j];
          }
        }
      }
    } else {
      var r' := ReplaceAll(s[1..], pat, rep);
      ReplaceLeavesNoOccurrence(s[1..], pat, rep, j);
      assert r == [s[0]] + r';
      forall q: nat ensures !OccursAt(r, pat, q) {
        if q + |pat| <= |r| {
          if q > 0 {
            assert r[q..q + |pat|] == r'[q - 1..q - 1 + |pat|];
            assert !OccursAt(r', pat, q - 1);
          } else if r[1..|pat|] != pat[1..] {
            assert r[q..q + |pat|][1..] == r[1..|pat|];
          } else {
            var w := pat[1..];
            assert r'[..|w|] == r[1..|pat|];
            ReplaceKeepsHeadFreePrefix(s[1..], pat, rep, w);
            assert s[..|pat|] == [s[0]] + w;
            assert pat == [pat[0]] + w;
            assert r[q..q + |pat|][0] == s[0];
          }
        }
      }
    }
  }

  predicate BraceFree(s: string) {
    forall i :: 0 <= i < |s| ==> s[i] != '{' && s[i] != '}'
  }

  datatype FormatError =
    | IndexOutOfRange   // a second `{}` with only one argument: IndexError
    | SingleBrace       // a lone `{` at the end or a lone `}`: ValueError
    | UnsupportedField  // a field other than `{}`, such as `{0}` or `{name}`

  function Prepend(p: string, r: Result<string, FormatError>): Result<string, FormatError> {
    if r.Ok? then Ok(p + r.value) else r
  }

  /**
   * `t.format(x)` where `arg` is `str(x)`; `used` records whether the one
   * automatically numbered argument has already been consumed.
   */
  function FormatFrom(t: string, arg: string, used: bool): Result<string, FormatError>
    decreases |t|
  {
    if t == [] then Ok([])
    else if t[0] == '{' then
      if |t| == 1 then Err(SingleBrace)
      else if t[1] == '{' then Prepend("{", FormatFrom(t[2..], arg, used))
      else if t[1] == '}' then
        if used then Err(IndexOutOfRange) else Prepend(arg, FormatFrom(t[2..], arg, true))
      else Err(UnsupportedField)
    else if t[0] == '}' then
      if |t| >= 2 && t[1] == '}' then Prepend("}", FormatFrom(t[2..], arg, used))
      else Err(SingleBrace)
    else Prepend([t[0]], FormatFrom(t[1..], arg, used))
  }

  function Format(t: string, arg: string): Result<string, FormatError> {
    FormatFrom(t, arg, false)
  }

  /** Text without braces passes through `format` unchanged. */
  lemma {:induction false} FormatLiteralPrefix(a: string, b: string, arg: string, used: bool)
    requires BraceFree(a)
    ensures FormatFrom(a + b, arg, used) == Prepend(a, FormatFrom(b, arg, used))
    decreases |a|
  {
    if a == [] {
      assert a + b == b;
      var x := FormatFrom(b, arg, used);
      if x.Ok? {
        assert a + x.value == x.value;
      }
    } else {
      var t := a + b;
      assert t[1..] == a[1..] + b;
      assert t[0] == a[0] && a[0] != '{' && a[0] != '}';
      assert BraceFree(a[1..]) by {
        forall i | 0 <= i < |a[1..]| ensures a[1..][i] != '{' && a[1..][i] != '}' {
          assert a[1..][i] == a[i + 1];
        }
      }
      FormatLiteralPrefix(a[1..], b, arg, used);
      var x := FormatFrom(b, arg, used);
      if x.Ok? {
        assert [a[0]] + (a[1..] + x.value) == a + x.value;
      }
    }
  }

  lemma BraceFreeTail(u: string, k: nat)
    requires BraceFree(u) && k <= |u|
    ensures BraceFree(u[k..])
  {
    forall i | 0 <= i < |u[k..]| ensures u[k..][i] != '{' && u[k..][i] != '}' {
      assert u[k..][i] == u[k + i];
    }
  }

  /**
   * Formatting a brace-free string whose occurrences of `pat` were replaced by
   * `pre + "{}"` puts `arg` where each `{}` stands, provided at most one
   * placeholder is left to fill; a second one raises IndexError.
   */
  lemma {:induction false} FormatFilledTemplate(u: string, pat: string, pre: string, arg: string, used: bool)
    requires |pat| > 0 && BraceFree(u) && BraceFree(pre)
    ensures FormatFrom(ReplaceAll(u, pat, pre + "{}"), arg, used) ==
      if (if used then 1 else 0) + Count(u, pat) <= 1 then Ok(ReplaceAll(u, pat, pre + arg))
      else Err(IndexOutOfRange)
    decreases |u|
  {
    if u == [] {
    } else if |pat| <= |u| && u[..|pat|] == pat {
      var rest := u[|pat|..];
      BraceFreeTail(u, |pat|);
      FormatFilledTemplate(rest, pat, pre, arg, true);
      var t := ReplaceAll(rest, pat, pre + "{}");
      FormatPlaceholderStep(pre, t, arg, used);
      assert ReplaceAll(u, pat, pre + "{}") == pre + "{}" + t;
      assert ReplaceAll(u, pat, pre + arg) == pre + arg + ReplaceAll(rest, pat, pre + arg);
      assert Count(u, pat) == 1 + Count(rest, pat);
    } else {
      var t := ReplaceAll(u[1..], pat, pre + "{}");
      assert ReplaceAll(u, pat, pre + "{}") == [u[0]] + t;
      FormatLiteralPrefix([u[0]], t, arg, used);
      BraceFreeTail(u, 1);
      FormatFilledTemplate(u[1..], pat, pre, arg, used);
      var x := ReplaceAll(u[1..], pat, pre + arg);
      assert ReplaceAll(u, pat, pre + arg) == [u[0]] + x;
    }
  }

  /** One step of the above: the placeholder the first occurrence became. */
  lemma FormatPlaceholderStep(pre: string, t: string, arg: string, used: bool)
    requires BraceFree(pre)
    ensures FormatFrom(pre + "{}" + t, arg, used) ==
      if used then Err(IndexOutOfRange) else Prepend(pre + arg, FormatFrom(t, arg, true))
  {
    assert pre + "{}" + t == pre + ("{}" + t);
    FormatLiteralPrefix(pre, "{}" + t, arg, used);
    assert ("{}" + t)[2..] == t;
    var x := FormatFrom(t, arg, true);
    if !used && x.Ok? {
      assert pre + (arg + x.value) == pre + arg + x.value;
    }
  }
}
