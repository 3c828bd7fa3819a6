/** Python's string primitives as the program uses them: `str.split()` with no
    argument (runs of whitespace), `str.split(sep)` with a one-character
    separator, and `sep.join(parts)`. */
module Strings {

  /** The characters Python's `str.split()` treats as whitespace. */
  predicate IsSpace(c: char)
  {
    || ('\t' <= c <= '\r')
    || ('\U{1C}' <= c <= '\U{1F}')
    || c == ' ' || c == '\U{85}' || c == '\U{A0}' || c == '\U{1680}'
    || ('\U{2000}' <= c <= '\U{200A}')
    || c == '\U{2028}' || c == '\U{2029}' || c == '\U{202F}' || c == '\U{205F}'
    || c == '\U{3000}'
  }

  /** A token of `str.split()`: non-empty, no whitespace. */
  predicate IsWord(w: string)
  {
    w != [] && forall i :: 0 <= i < |w| ==> !IsSpace(w[i])
  }

  /** Length of the longest whitespace-free prefix of `s`. */
  function WordEnd(s: string): (n: nat)
    ensures n <= |s|
    ensures forall i :: 0 <= i < n ==> !IsSpace(s[i])
    ensures n < |s| ==> IsSpace(s[n])
    decreases |s|
  {
    if s == [] || IsSpace(s[0]) then 0 else 1 + WordEnd(s[1..])
  }

  /** `s.split()`: the maximal runs of non-whitespace characters, in order. */
  function Tokens(s: string): (r: seq<string>)
    ensures forall k :: 0 <= k < |r| ==> IsWord(r[k])
    decreases |s|
  {
    if s == [] then []
    else if IsSpace(s[0]) then Tokens(s[1..])
    else
      var n := WordEnd(s);
      [s[..n]] + Tokens(s[n..])
  }

  /** `sep.join(parts)`. */
  function Join(sep: string, parts: seq<string>): string
    decreases |parts|
  {
    if |parts| == 0 then []
    else if |parts| == 1 then parts[0]
    else parts[0] + sep + Join(sep, parts[1..])
  }

  /** Position of the first `c` in `s`, or `|s|` when there is none. */
  function IndexOf(s: string, c: char): (i: nat)
    ensures i <= |s|
    ensures forall k :: 0 <= k < i ==> s[k] != c
    ensures i < |s| ==> s[i] == c
    decreases |s|
  {
    if s == [] || s[0] == c then 0 else 1 + IndexOf(s[1..], c)
  }

  /** `s.split(c)`: cut at every `c`; joining the parts with `c` gives `s`
      back, so there is always at least one part. */
  function SplitOn(s: string, c: char): (parts: seq<string>)
    ensures |parts| >= 1
    ensures forall k :: 0 <= k < |parts| ==> c !in parts[k]
    ensures Join([c], parts) == s
    decreases |s|
  {
    var i := IndexOf(s, c);
    if i == |s| then [s]
    else
      var rest := SplitOn(s[i + 1..], c);
      assert ([s[..i]] + rest)[1..] == rest;
      assert s == s[..i] + [c] + s[i + 1..];
      [s[..i]] + rest
  }

  /** Splitting what was joined with `c` gives the parts back, provided no part
      holds `c` itself. */
  lemma {:induction false} SplitOnJoin(parts: seq<string>, c: char)
    requires |parts| >= 1
    requires forall k :: 0 <= k < |parts| ==> c !in parts[k]
    ensures SplitOn(Join([c], parts), c) == parts
    decreases |parts|
  {
    var p := parts[0];
    if |parts| == 1 {
      assert IndexOf(p, c) == |p|;
    } else {
      var rest := parts[1..];
      var s := p + [c] + Join([c], rest);
      assert Join([c], parts) == s;
      assert IndexOf(s, c) == |p| by {
        assert s[|p|] == c;
        assert forall k :: 0 <= k < |p| ==> s[k] == p[k];
      }
      assert s[..|p|] == p;
      assert s[|p| + 1..] == Join([c], rest);
      SplitOnJoin(rest, c);
      assert parts == [p] + rest;
    }
  }

  /** Whitespace at the front of a text does not change its tokens. */
  lemma TokensSkipSpace(s: string)
    requires s != [] && IsSpace(s[0])
    ensures Tokens(s) == Tokens(s[1..])
  {
  }

  /** A word followed by whitespace (or by nothing) is the first token. */
  lemma TokensOfWordThen(w: string, rest: string)
    requires IsWord(w)
    requires rest == [] || IsSpace(rest[0])
    ensures Tokens(w + rest) == [w] + Tokens(rest)
  {
    var s := w + rest;
    assert s[0] == w[0];
    var n := WordEnd(s);
    assert n == |w| by {
      assert forall i :: 0 <= i < |w| ==> s[i] == w[i];
      assert |w| < |s| ==> s[|w|] == rest[0];
    }
    assert s[..n] == w;
    assert s[n..] == rest;
  }

  /** Splitting on whitespace what was joined with single spaces gives the
      words back. */
  lemma {:induction false} TokensOfJoin(ws: seq<string>)
    requires forall k :: 0 <= k < |ws| ==> IsWord(ws[k])
    ensures Tokens(Join(" ", ws)) == ws
    decreases |ws|
  {
    if |ws| == 0 {
    } else if |ws| == 1 {
      TokensOfWordThen(ws[0], []);
      assert ws[0] + [] == ws[0];
    } else {
      var rest := Join(" ", ws[1..]);
      assert Join(" ", ws) == ws[0] + (" " + rest);
      TokensOfWordThen(ws[0], " " + rest);
      TokensSkipSpace(" " + rest);
      assert (" " + rest)[1..] == rest;
      TokensOfJoin(ws[1..]);
      assert ws == [ws[0]] + ws[1..];
    }
  }

  /** The first `c` of `u + [c] + x` is the one after `u` when `u` has none. */
  lemma IndexOfAfter(u: string, c: char, x: string)
    requires c !in u
    ensures IndexOf(u + [c] + x, c) == |u|
  {
    var s := u + [c] + x;
    assert s[|u|] == c;
    assert forall k :: 0 <= k < |u| ==> s[k] == u[k];
  }

  /** Cutting at the first `c` is unambiguous. */
  lemma CutAtFirst(u: string, v: string, c: char, x: string, y: string)
    requires c !in u && c !in v
    requires u + [c] + x == v + [c] + y
    ensures u == v && x == y
  {
    IndexOfAfter(u, c, x);
    IndexOfAfter(v, c, y);
    assert u == (u + [c] + x)[..|u|];
    assert v == (v + [c] + y)[..|v|];
    assert x == (u + [c] + x)[|u| + 1..];
    assert y == (v + [c] + y)[|v| + 1..];
  }

  lemma WordHasNoSpace(w: string)
    requires IsWord(w)
    ensures ' ' !in w
  {
    assert forall i :: 0 <= i < |w| ==> w[i] != ' ';
  }
}
