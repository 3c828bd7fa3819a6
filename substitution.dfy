/** Python's `s.replace(pat, rep)`: scan left to right and replace every
    non-overlapping occurrence of `pat`. The program only ever replaces
    non-empty constant patterns. */
module Substitution {

  function Replace(s: string, pat: string, rep: string): string
    requires pat != []
    decreases |s|
  {
    if |s| < |pat| then s
    else if s[..|pat|] == pat then rep + Replace(s[|pat|..], pat, rep)
    else [s[0]] + Replace(s[1..], pat, rep)
  }

  /** `q` occurs in `t` starting at position `k`. */
  predicate OccursAt(t: string, q: string, k: int)
  {
    0 <= k && k + |q| <= |t| && t[k..k + |q|] == q
  }

  predicate Occurs(t: string, q: string)
  {
    exists k :: 0 <= k <= |t| - |q| && OccursAt(t, q, k)
  }

  /** No occurrence of `pat` in `a + b` starts inside `a` and ends inside `b`. */
  predicate NoStraddle(a: string, b: string, pat: string)
  {
    forall k :: 0 <= k < |a| < k + |pat| ==> !OccursAt(a + b, pat, k)
  }

  /** A cheap way to rule out a straddling occurrence: the first character of
      `b` occurs in `pat` only at its front. */
  lemma NoStraddleFront(a: string, b: string, pat: string)
    requires pat != [] && b != [] && b[0] !in pat[1..]
    ensures NoStraddle(a, b, pat)
  {
    forall k | 0 <= k < |a| < k + |pat|
      ensures !OccursAt(a + b, pat, k)
    {
      if k + |pat| <= |a + b| {
        assert (a + b)[k..k + |pat|][|a| - k] == b[0];
        assert pat[|a| - k] == pat[1..][|a| - k - 1];
      }
    }
  }

  /** The other cheap way: no character near the end of `a` (closer to the end
      than `|pat|`) is the first character of `pat`. */
  lemma NoStraddleBack(a: string, b: string, pat: string)
    requires pat != []
    requires forall k :: 0 <= k < |a| && |a| - k < |pat| ==> a[k] != pat[0]
    ensures NoStraddle(a, b, pat)
  {
    forall k | 0 <= k < |a| < k + |pat|
      ensures !OccursAt(a + b, pat, k)
    {
      if k + |pat| <= |a + b| {
        assert (a + b)[k..k + |pat|][0] == a[k];
      }
    }
  }

  /** A single-character pattern can never straddle. */
  lemma NoStraddleChar(a: string, b: string, c: char)
    ensures NoStraddle(a, b, [c])
  {
  }

  /** Dropping a front of `a` keeps the seam free of straddling occurrences. */
  lemma NoStraddleDrop(a: string, b: string, pat: string, d: nat)
    requires NoStraddle(a, b, pat) && d <= |a|
    ensures NoStraddle(a[d..], b, pat)
  {
    var a' := a[d..];
    forall k | 0 <= k < |a'| < k + |pat|
      ensures !OccursAt(a' + b, pat, k)
    {
      if k + |pat| <= |a' + b| {
        assert (a' + b)[k..k + |pat|] == (a + b)[k + d..k + d + |pat|];
        assert !OccursAt(a + b, pat, k + d);
      }
    }
  }

  /** The step of `ReplaceConcat` where the text starts with the pattern. */
  lemma ReplaceConcatMatched(a: string, b: string, pat: string, rep: string)
    requires pat != [] && |pat| <= |a| && a[..|pat|] == pat
    requires Replace(a[|pat|..] + b, pat, rep) == Replace(a[|pat|..], pat, rep) + Replace(b, pat, rep)
    ensures Replace(a + b, pat, rep) == Replace(a, pat, rep) + Replace(b, pat, rep)
  {
    assert (a + b)[..|pat|] == pat;
    assert (a + b)[|pat|..] == a[|pat|..] + b;
    var x, y := Replace(a[|pat|..], pat, rep), Replace(b, pat, rep);
    assert rep + (x + y) == (rep + x) + y;
  }

  /** The step of `ReplaceConcat` where the text does not start with the
      pattern. */
  lemma ReplaceConcatUnmatched(a: string, b: string, pat: string, rep: string)
    requires pat != [] && a != [] && |a + b| >= |pat| && (a + b)[..|pat|] != pat
    requires Replace(a[1..] + b, pat, rep) == Replace(a[1..], pat, rep) + Replace(b, pat, rep)
    ensures Replace(a + b, pat, rep) == Replace(a, pat, rep) + Replace(b, pat, rep)
  {
    assert (a + b)[0] == a[0];
    assert (a + b)[1..] == a[1..] + b;
    var x, y := Replace(a[1..], pat, rep), Replace(b, pat, rep);
    assert [a[0]] + (x + y) == ([a[0]] + x) + y;
    if |a| >= |pat| {
      assert a[..|pat|] == (a + b)[..|pat|];
    } else {
      assert a == [a[0]] + a[1..];
    }
  }

  /** Replacement distributes over a concatenation whenever no occurrence of the
      pattern crosses the seam. */
  lemma {:induction false} ReplaceConcat(a: string, b: string, pat: string, rep: string)
    requires pat != []
    requires NoStraddle(a, b, pat)
    ensures Replace(a + b, pat, rep) == Replace(a, pat, rep) + Replace(b, pat, rep)
    decreases |a|
  {
    if a == [] {
      assert a + b == b;
    } else if |a + b| < |pat| {
    } else if (a + b)[..|pat|] == pat {
      assert OccursAt(a + b, pat, 0);
      assert a[..|pat|] == pat;
      NoStraddleDrop(a, b, pat, |pat|);
      ReplaceConcat(a[|pat|..], b, pat, rep);
      ReplaceConcatMatched(a, b, pat, rep);
    } else {
      NoStraddleDrop(a, b, pat, 1);
      ReplaceConcat(a[1..], b, pat, rep);
      ReplaceConcatUnmatched(a, b, pat, rep);
    }
  }

  /** Replacement distributes over a text cut in three, when neither seam is
      straddled. */
  lemma ReplaceAround(a: string, m: string, b: string, pat: string, rep: string)
    requires pat != [] && NoStraddle(a, m + b, pat) && NoStraddle(m, b, pat)
    ensures Replace(a + m + b, pat, rep) == Replace(a, pat, rep) + Replace(m, pat, rep) + Replace(b, pat, rep)
  {
    assert a + m + b == a + (m + b);
    ReplaceConcat(a, m + b, pat, rep);
    ReplaceConcat(m, b, pat, rep);
  }

  /** A text without an occurrence of the pattern is left as it is. */
  lemma {:induction false} ReplaceAbsent(s: string, pat: string, rep: string)
    requires pat != []
    requires !Occurs(s, pat)
    ensures Replace(s, pat, rep) == s
    decreases |s|
  {
    if |s| >= |pat| {
      assert !OccursAt(s, pat, 0);
      assert !Occurs(s[1..], pat) by {
        forall k | 0 <= k <= |s[1..]| - |pat| ensures !OccursAt(s[1..], pat, k) {
          assert s[1..][k..k + |pat|] == s[k + 1..k + 1 + |pat|];
          assert !OccursAt(s, pat, k + 1);
        }
      }
      ReplaceAbsent(s[1..], pat, rep);
      assert s == [s[0]] + s[1..];
    }
  }

  /** The conditions under which replacing `pat` by `rep` leaves no `pat`
      behind: `rep` does not hold `pat`, no tail of `rep` starts `pat`, and no
      tail of `pat` agrees with the front of `rep`. */
  predicate Eliminates(pat: string, rep: string)
  {
    && !Occurs(rep, pat)
    && (forall k :: 0 <= k < |rep| && |rep| - k < |pat| ==> rep[k..] != pat[..|rep| - k])
    && (forall j :: 0 < j < |pat| ==> !(pat[j..] <= rep) && !(rep <= pat[j..]))
  }

  /** A text that neither is a prefix of `x` nor has `x` as a prefix is no
      prefix of `x` followed by anything. */
  lemma NotPrefixOfConcat(t: string, x: string, y: string)
    requires !(t <= x) && !(x <= t)
    ensures !(t <= x + y)
  {
    if |t| <= |x| {
      assert (x + y)[..|t|] == x[..|t|];
    } else if |t| <= |x + y| {
      assert (x + y)[..|t|][..|x|] == x;
    }
  }

  /** A character-level test for `Eliminates` on a pattern and a replacement of
      the same length: wherever a tail of one could line up with the front of
      the other, the first or the second character already differs. */
  predicate FrontsDiffer(pat: string, rep: string)
    requires |pat| == |rep| >= 2
  {
    && (forall k :: 0 < k < |rep| ==> rep[k] != pat[0] || (k + 1 < |rep| && rep[k + 1] != pat[1]))
    && (forall j :: 0 < j < |pat| ==> pat[j] != rep[0] || (j + 1 < |pat| && pat[j + 1] != rep[1]))
  }

  lemma EliminatesByFronts(pat: string, rep: string)
    requires |pat| == |rep| >= 2 && rep != pat
    requires FrontsDiffer(pat, rep)
    ensures Eliminates(pat, rep)
  {
    assert !Occurs(rep, pat) by {
      assert rep[0..|pat|] == rep;
    }
    forall k | 0 <= k < |rep| && |rep| - k < |pat|
      ensures rep[k..] != pat[..|rep| - k]
    {
      RepTailDiffers(pat, rep, k);
    }
    forall j | 0 < j < |pat|
      ensures !(pat[j..] <= rep) && !(rep <= pat[j..])
    {
      PatTailDiffers(pat, rep, j);
    }
  }

  /** The first half of `FrontsDiffer` at one position: the tail of `rep`
      from `k` is not the front of `pat`. */
  lemma RepTailDiffers(pat: string, rep: string, k: nat)
    requires |pat| == |rep| >= 2
    requires FrontsDiffer(pat, rep)
    requires 0 < k < |rep|
    ensures rep[k..] != pat[..|rep| - k]
  {
    var t, f := rep[k..], pat[..|rep| - k];
    if rep[k] != pat[0] {
      assert t[0] != f[0];
    } else {
      assert k + 1 < |rep| && rep[k + 1] != pat[1];
      assert t[1] != f[1];
    }
  }

  /** The second half of `FrontsDiffer` at one position: the tail of `pat`
      from `j` and `rep` are not prefixes of each other. */
  lemma PatTailDiffers(pat: string, rep: string, j: nat)
    requires |pat| == |rep| >= 2
    requires FrontsDiffer(pat, rep)
    requires 0 < j < |pat|
    ensures !(pat[j..] <= rep) && !(rep <= pat[j..])
  {
    var t := pat[j..];
    if pat[j] != rep[0] {
      assert t[0] != rep[0];
    } else {
      assert j + 1 < |pat| && pat[j + 1] != rep[1];
      assert t[1] != rep[1];
    }
  }

  /** If a tail of `pat` begins a replaced text, it already began the original. */
  lemma {:induction false} TailPreserved(u: string, pat: string, rep: string, j: nat)
    requires pat != [] && Eliminates(pat, rep)
    requires 0 < j < |pat|
    ensures pat[j..] <= Replace(u, pat, rep) ==> pat[j..] <= u
    decreases |u|
  {
    if |u| < |pat| {
    } else if u[..|pat|] == pat {
      var r' := Replace(u[|pat|..], pat, rep);
      assert Replace(u, pat, rep) == rep + r';
      NotPrefixOfConcat(pat[j..], rep, r');
    } else {
      var r' := Replace(u[1..], pat, rep);
      assert Replace(u, pat, rep) == [u[0]] + r';
      if j + 1 < |pat| {
        TailPreserved(u[1..], pat, rep, j + 1);
        assert pat[j..] == [pat[j]] + pat[j + 1..];
        assert u == [u[0]] + u[1..];
      }
    }
  }

  /** Under `Eliminates`, a replacement followed by a text free of the
      pattern is free of it. */
  lemma EliminatesAfterRep(pat: string, rep: string, rest: string)
    requires pat != [] && Eliminates(pat, rep) && !Occurs(rest, pat)
    ensures !Occurs(rep + rest, pat)
  {
    var r := rep + rest;
    forall k | 0 <= k <= |r| - |pat| ensures !OccursAt(r, pat, k) {
      if k + |pat| <= |rep| {
        assert r[k..k + |pat|] == rep[k..k + |pat|];
        assert !OccursAt(rep, pat, k);
      } else if k >= |rep| {
        assert r[k..k + |pat|] == rest[k - |rep|..k - |rep| + |pat|];
        assert !OccursAt(rest, pat, k - |rep|);
      } else {
        assert r[k..|rep|] == rep[k..];
        assert r[k..k + |pat|][..|rep| - k] == r[k..|rep|];
      }
    }
  }

  /** Under `Eliminates`, a character of a text that does not start with the
      pattern, followed by the replaced rest, leaves no occurrence. */
  lemma EliminatesAfterChar(s: string, pat: string, rep: string)
    requires pat != [] && Eliminates(pat, rep)
    requires |s| >= |pat| && s[..|pat|] != pat
    requires !Occurs(Replace(s[1..], pat, rep), pat)
    ensures !Occurs([s[0]] + Replace(s[1..], pat, rep), pat)
  {
    var rest := Replace(s[1..], pat, rep);
    var r := [s[0]] + rest;
    forall k | 0 <= k <= |r| - |pat| ensures !OccursAt(r, pat, k) {
      if k >= 1 {
        assert r[k..k + |pat|] == rest[k - 1..k - 1 + |pat|];
        assert !OccursAt(rest, pat, k - 1);
      } else if |pat| == 1 {
        assert r[..1] == s[..1];
      } else {
        TailPreserved(s[1..], pat, rep, 1);
        FrontAfterChar(s, pat, rest);
      }
    }
  }

  /** A text that does not start with `pat`, with its tail replaced by a text
      that starts with the rest of `pat` only when the tail did, does not
      start with `pat`. */
  lemma FrontAfterChar(s: string, pat: string, rest: string)
    requires 1 < |pat| <= |s| && s[..|pat|] != pat
    requires pat[1..] <= rest ==> pat[1..] <= s[1..]
    ensures !OccursAt([s[0]] + rest, pat, 0)
  {
    var r := [s[0]] + rest;
    if s[0] == pat[0] {
      assert s[..|pat|] == [s[0]] + s[1..][..|pat| - 1];
      assert pat == [pat[0]] + pat[1..];
      assert !(pat[1..] <= s[1..]);
      if |r| >= |pat| {
        assert r[..|pat|] == [s[0]] + rest[..|pat| - 1];
      }
    } else {
      assert |r| > 0 && r[0] != pat[0];
    }
  }

  /** Under `Eliminates`, no occurrence of the pattern survives replacement. */
  lemma {:induction false} ReplaceEliminates(s: string, pat: string, rep: string)
    requires pat != [] && Eliminates(pat, rep)
    ensures !Occurs(Replace(s, pat, rep), pat)
    decreases |s|
  {
    if |s| < |pat| {
    } else if s[..|pat|] == pat {
      ReplaceEliminates(s[|pat|..], pat, rep);
      EliminatesAfterRep(pat, rep, Replace(s[|pat|..], pat, rep));
    } else {
      ReplaceEliminates(s[1..], pat, rep);
      EliminatesAfterChar(s, pat, rep);
    }
  }

  /** Replacing a single character by text without it leaves none behind. */
  lemma ReplaceCharEliminates(s: string, c: char, rep: string)
    requires c !in rep
    ensures c !in Replace(s, [c], rep)
  {
    assert !Occurs(rep, [c]) by {
      forall k | 0 <= k <= |rep| - 1 ensures !OccursAt(rep, [c], k) {
        assert rep[k..k + 1] == [rep[k]];
      }
    }
    ReplaceEliminates(s, [c], rep);
    var r := Replace(s, [c], rep);
    forall i | 0 <= i < |r| ensures r[i] != c {
      assert r[i..i + 1] == [r[i]];
      assert !OccursAt(r, [c], i);
    }
  }

  /** Replacing a character that does not occur changes nothing. */
  lemma ReplaceCharAbsent(s: string, c: char, rep: string)
    requires c !in s
    ensures Replace(s, [c], rep) == s
  {
    assert !Occurs(s, [c]) by {
      forall k | 0 <= k <= |s| - 1 ensures !OccursAt(s, [c], k) {
        assert s[k..k + 1] == [s[k]];
      }
    }
    ReplaceAbsent(s, [c], rep);
  }
}
