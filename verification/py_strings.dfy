/**
 * The Python `str` operations the pagination parser relies on:
 * `strip()`, `split(sep)` with a one-character separator, `startswith`
 * and the slice `s[1:-1]`.
 */
module PyStrings {

  /** Python's `str.isspace` for one character: the characters `strip()` removes. */
  predicate IsSpace(c: char) {
    var n := c as int;
    n == 0x20 || 0x09 <= n <= 0x0d || 0x1c <= n <= 0x1f || n == 0x85 || n == 0xa0
    || n == 0x1680 || 0x2000 <= n <= 0x200a || n == 0x2028 || n == 0x2029
    || n == 0x202f || n == 0x205f || n == 0x3000
  }

  predicate AllSpace(s: string) {
    forall i :: 0 <= i < |s| ==> IsSpace(s[i])
  }

  /** The index of the first non-whitespace character at or after `i`, or `|s|`. */
  function SkipSpace(s: string, i: nat): (n: nat)
    requires i <= |s|
    ensures i <= n <= |s|
    ensures forall k :: i <= k < n ==> IsSpace(s[k])
    ensures n == |s| || !IsSpace(s[n])
    decreases |s| - i
  {
    if i == |s| || !IsSpace(s[i]) then i else SkipSpace(s, i + 1)
  }

  /** The end of `s[lo..j]` once its trailing whitespace is dropped. */
  function SkipSpaceBack(s: string, lo: nat, j: nat): (n: nat)
    requires lo <= j <= |s|
    ensures lo <= n <= j
    ensures forall k :: n <= k < j ==> IsSpace(s[k])
    ensures n == lo || !IsSpace(s[n - 1])
    decreases j
  {
    if j == lo || !IsSpace(s[j - 1]) then j else SkipSpaceBack(s, lo, j - 1)
  }

  /** `r` is `s` with all of its leading and trailing whitespace removed, and nothing else. */
  ghost predicate IsStripOf(s: string, r: string) {
    (exists k :: 0 <= k <= |s| - |r| && r == s[k..k + |r|] && AllSpace(s[..k]) && AllSpace(s[k + |r|..]))
    && (r == [] || (!IsSpace(r[0]) && !IsSpace(r[|r| - 1])))
  }

  /** `s.strip()` */
  function Strip(s: string): string {
    var a := SkipSpace(s, 0);
    s[a..SkipSpaceBack(s, a, |s|)]
  }

  /** `strip()` removes all leading and trailing whitespace and nothing else. */
  lemma StripRemovesOuterSpace(s: string)
    ensures IsStripOf(s, Strip(s))
  {
    var a := SkipSpace(s, 0);
    var b := SkipSpaceBack(s, a, |s|);
    var r := Strip(s);
    assert r == s[a..a + |r|];
    assert AllSpace(s[..a]) by {
      forall k | 0 <= k < a ensures IsSpace(s[..a][k]) { assert s[..a][k] == s[k]; }
    }
    assert AllSpace(s[b..]) by {
      forall k | 0 <= k < |s| - b ensures IsSpace(s[b..][k]) { assert s[b..][k] == s[b + k]; }
    }
    if r != [] {
      assert r[0] == s[a] && r[|r| - 1] == s[b - 1];
    }
  }

  /** Stripping a padded word gives back exactly the word. */
  lemma StripPadded(a: string, w: string, b: string)
    requires AllSpace(a) && AllSpace(b)
    requires w == [] || (!IsSpace(w[0]) && !IsSpace(w[|w| - 1]))
    ensures Strip(a + w + b) == w
  {
    var s := a + w + b;
    var i := SkipSpace(s, 0);
    if w == [] {
      assert forall k :: 0 <= k < |s| ==> IsSpace(s[k]) by {
        forall k | 0 <= k < |s| ensures IsSpace(s[k]) {
          if k < |a| { assert s[k] == a[k]; } else { assert s[k] == b[k - |a|]; }
        }
      }
      assert i == |s|;
    } else {
      assert s[|a|] == w[0];
      assert i == |a|;
      var j := SkipSpaceBack(s, i, |s|);
      assert s[|a| + |w| - 1] == w[|w| - 1];
      assert j == |a| + |w|;
      assert s[|a|..|a| + |w|] == w;
    }
  }

  /** `strip()` leaves a word whose end characters are not whitespace unchanged. */
  lemma PlainStripOf(w: string)
    requires w == [] || (!IsSpace(w[0]) && !IsSpace(w[|w| - 1]))
    ensures Strip(w) == w
  {
    StripPadded([], w, []);
    assert [] + w + [] == w;
  }

  /** `s.split(sep)`: the pieces of `s` between occurrences of `sep`, always at least one. */
  function Split(s: string, sep: char): (r: seq<string>)
    ensures |r| >= 1
  {
    if s == [] then [[]]
    else
      var rest := Split(s[1..], sep);
      if s[0] == sep then [[]] + rest
      else [[s[0]] + rest[0]] + rest[1..]
  }

  /**
   * The pieces hold no separator and joined with it give back `s`; there is
   * more than one piece exactly when `s` holds the separator.
   */
  lemma {:induction false} SplitJoin(s: string, sep: char)
    ensures var r := Split(s, sep);
      && (|r| == 1 <==> sep !in s)
      && (forall i :: 0 <= i < |r| ==> sep !in r[i])
      && Join(r, sep) == s
  {
    SplitSingle(s, sep);
    SplitPiecesFree(s, sep);
    SplitJoinBack(s, sep);
  }

  lemma {:induction false} SplitSingle(s: string, sep: char)
    ensures |Split(s, sep)| == 1 <==> sep !in s
    decreases |s|
  {
    if s != [] {
      assert s == [s[0]] + s[1..];
      SplitCons(s[0], s[1..], sep);
      SplitSingle(s[1..], sep);
    }
  }

  lemma {:induction false} SplitPiecesFree(s: string, sep: char)
    ensures forall i :: 0 <= i < |Split(s, sep)| ==> sep !in Split(s, sep)[i]
    decreases |s|
  {
    if s != [] {
      assert s == [s[0]] + s[1..];
      SplitCons(s[0], s[1..], sep);
      SplitPiecesFree(s[1..], sep);
    }
  }

  lemma {:induction false} SplitJoinBack(s: string, sep: char)
    ensures Join(Split(s, sep), sep) == s
    decreases |s|
  {
    if s != [] {
      var rest := Split(s[1..], sep);
      assert s == [s[0]] + s[1..];
      SplitCons(s[0], s[1..], sep);
      SplitJoinBack(s[1..], sep);
      if s[0] == sep {
        assert Join([[]] + rest, sep) == [] + [sep] + Join(rest, sep);
      } else {
        var r := Split(s, sep);
        assert r[1..] == rest[1..];
        if |rest| > 1 {
          assert Join(rest, sep) == rest[0] + [sep] + Join(rest[1..], sep);
          assert Join(r, sep) == ([s[0]] + rest[0]) + [sep] + Join(rest[1..], sep);
        }
      }
    }
  }

  /** `sep.join(pieces)` */
  function Join(pieces: seq<string>, sep: char): string
    requires |pieces| >= 1
  {
    if |pieces| == 1 then pieces[0] else pieces[0] + [sep] + Join(pieces[1..], sep)
  }

  /** Splitting two strings joined by the separator splits each on its own. */
  lemma {:induction false} SplitConcat(a: string, sep: char, b: string)
    ensures Split(a + [sep] + b, sep) == Split(a, sep) + Split(b, sep)
    decreases |a|
  {
    if a == [] {
      assert a + [sep] + b == [sep] + b;
      SplitCons(sep, b, sep);
    } else {
      SplitConcat(a[1..], sep, b);
      assert a + [sep] + b == [a[0]] + (a[1..] + [sep] + b);
      assert a == [a[0]] + a[1..];
      SplitConcatStep(a[0], a[1..] + [sep] + b, a[1..], Split(b, sep), sep);
    }
  }

  /** The inductive step of `SplitConcat`: a first character is treated alike on both sides. */
  lemma SplitConcatStep(c: char, x: string, y: string, rb: seq<string>, sep: char)
    requires Split(x, sep) == Split(y, sep) + rb
    ensures Split([c] + x, sep) == Split([c] + y, sep) + rb
  {
    var ra := Split(y, sep);
    SplitCons(c, x, sep);
    SplitCons(c, y, sep);
    if c == sep {
      ConcatAssoc([[]], ra, rb);
    } else {
      ExtendFirstPiece(c, ra, rb);
    }
  }

  /** A character joined to the first piece, whatever pieces follow. */
  lemma ExtendFirstPiece(c: char, ra: seq<string>, rb: seq<string>)
    requires |ra| >= 1
    ensures [[c] + (ra + rb)[0]] + (ra + rb)[1..] == ([[c] + ra[0]] + ra[1..]) + rb
  {
    assert (ra + rb)[0] == ra[0];
    assert (ra + rb)[1..] == ra[1..] + rb;
    ConcatAssoc([[c] + ra[0]], ra[1..], rb);
  }

  lemma ConcatAssoc(x: seq<string>, y: seq<string>, z: seq<string>)
    ensures (x + y) + z == x + (y + z)
  {
  }

  /** One step of `Split`: the first character either ends the first piece or joins it. */
  lemma SplitCons(c: char, t: string, sep: char)
    ensures Split([c] + t, sep) ==
      if c == sep then [[]] + Split(t, sep) else [[c] + Split(t, sep)[0]] + Split(t, sep)[1..]
  {
    assert ([c] + t)[1..] == t;
  }

  /** Piece `i` of a join stands at offset `o` of the joined string. */
  lemma {:induction false} JoinPieceAt(pieces: seq<string>, sep: char, i: nat) returns (o: nat)
    requires |pieces| >= 1 && i < |pieces|
    ensures i == 0 ==> o == 0
    ensures o + |pieces[i]| <= |Join(pieces, sep)|
    ensures Join(pieces, sep)[o..o + |pieces[i]|] == pieces[i]
    decreases i
  {
    var s := Join(pieces, sep);
    if |pieces| == 1 {
      o := 0;
    } else {
      var tail := Join(pieces[1..], sep);
      assert s == pieces[0] + [sep] + tail;
      if i == 0 {
        o := 0;
        assert s[..|pieces[0]|] == pieces[0];
      } else {
        var o' := JoinPieceAt(pieces[1..], sep, i - 1);
        o := |pieces[0]| + 1 + o';
        assert s[o..o + |pieces[i]|] == tail[o'..o' + |pieces[i]|];
      }
    }
  }

  /** Piece `k` of a split stands at offset `o` of the string split. */
  lemma PieceAt(s: string, sep: char, k: nat) returns (o: nat)
    requires k < |Split(s, sep)|
    ensures o + |Split(s, sep)[k]| <= |s| && s[o..o + |Split(s, sep)[k]|] == Split(s, sep)[k]
  {
    SplitJoin(s, sep);
    o := JoinPieceAt(Split(s, sep), sep, k);
  }

  /** A slice of a slice is a slice of the whole. */
  lemma SliceOfSlice(s: string, a: nat, b: nat, c: nat, d: nat)
    requires a <= b <= |s| && c <= d <= b - a
    ensures s[a..b][c..d] == s[a + c..a + d]
  {
    forall i | 0 <= i < d - c ensures s[a..b][c..d][i] == s[a + c..a + d][i] {
      assert s[a..b][c..d][i] == s[a..b][c + i] == s[a + c + i];
    }
  }

  /** A separator-free prefix is the first piece, and the rest is split on its own. */
  lemma {:induction false} SplitAfterFirst(a: string, sep: char, b: string)
    requires sep !in a
    ensures Split(a + [sep] + b, sep) == [a] + Split(b, sep)
  {
    var s := a + [sep] + b;
    if a == [] {
      assert s[1..] == b;
    } else {
      assert s[1..] == a[1..] + [sep] + b;
      SplitAfterFirst(a[1..], sep, b);
      assert [a[0]] + a[1..] == a;
    }
  }

  /** The first piece runs up to the first separator or the end. */
  lemma {:induction false} SplitFirstPiece(v: string, sep: char, b: string)
    requires sep !in v
    requires b == [] || b[0] == sep
    ensures Split(v + b, sep)[0] == v
  {
    if v != [] {
      assert (v + b)[1..] == v[1..] + b;
      SplitFirstPiece(v[1..], sep, b);
      assert [v[0]] + v[1..] == v;
    } else {
      assert v + b == b;
    }
  }

  predicate StartsWith(s: string, prefix: string) {
    |prefix| <= |s| && s[..|prefix|] == prefix
  }

  /** The slice `s[1:-1]`: both end characters dropped, whatever they are. */
  function DropEnds(s: string): (r: string)
    ensures |s| >= 2 ==> [s[0]] + r + [s[|s| - 1]] == s
    ensures |s| < 2 ==> r == []
  {
    if |s| < 2 then [] else s[1..|s| - 1]
  }

  /** Nothing checks that the dropped characters are angle brackets. */
  lemma DropEndsAnyDelimiters(open: char, u: string, close: char)
    ensures DropEnds([open] + u + [close]) == u
  {
    var s := [open] + u + [close];
    assert s[1..|s| - 1] == u;
  }
}
