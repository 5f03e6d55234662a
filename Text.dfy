/** Character classes and the few string searches the worker's regular expressions rely on.
    A JavaScript string is a sequence of code units; here it is a `string` (`seq<char>`). */
module Text {
  import opened Wrappers

  /** The ECMAScript whitespace set (WhiteSpace and LineTerminator): exactly what `\s`
      matches and what `String.prototype.trim` removes. */
  predicate IsSpace(c: char) {
    c == '\t' || c == '\n' || c == '\U{000B}' || c == '\U{000C}' || c == '\r' || c == ' '
    || c == '\U{00A0}' || c == '\U{1680}' || ('\U{2000}' <= c <= '\U{200A}')
    || c == '\U{2028}' || c == '\U{2029}' || c == '\U{202F}' || c == '\U{205F}'
    || c == '\U{3000}' || c == '\U{FEFF}'
  }

  /** `\d` in a JavaScript regular expression: ASCII digits only. */
  predicate IsDigit(c: char) {
    '0' <= c <= '9'
  }

  /** Case folding of the `i` flag without the `u` flag, restricted to what matters here:
      a non-ASCII character never folds onto an ASCII one, so only A-Z change. */
  function Lower(c: char): (r: char)
    ensures IsUpperAscii(c) ==> r as int == c as int + 32
    ensures !IsUpperAscii(c) ==> r == c
  {
    if IsUpperAscii(c) then (c as int + 32) as char else c
  }

  predicate IsUpperAscii(c: char) {
    'A' <= c <= 'Z'
  }

  predicate CharEq(a: char, b: char, ci: bool) {
    if ci then Lower(a) == Lower(b) else a == b
  }

  /** `s` begins with `pat`, compared case-insensitively when `ci` holds. */
  predicate StartsWith(s: string, pat: string, ci: bool)
    ensures StartsWith(s, pat, ci) ==> |pat| <= |s|
    decreases |s| + |pat|
  {
    pat == [] || (s != [] && CharEq(s[0], pat[0], ci) && StartsWith(s[1..], pat[1..], ci))
  }

  /** The index of the first occurrence of `pat` in `s`: what a lazy `[\s\S]*?pat`
      stops at. */
  function Find(s: string, pat: string, ci: bool): (r: Option<nat>)
    ensures r.Some? ==> r.value + |pat| <= |s| && StartsWith(s[r.value..], pat, ci)
    ensures r.Some? ==> forall j :: 0 <= j < r.value ==> !StartsWith(s[j..], pat, ci)
    ensures r.None? ==> forall j :: 0 <= j <= |s| ==> !StartsWith(s[j..], pat, ci)
    decreases |s|
  {
    if StartsWith(s, pat, ci) then Some(0)
    else if s == [] then None
    else
      match Find(s[1..], pat, ci)
      case None =>
        NoMatchShifted(s, 1, pat, ci, |s|);
        None
      case Some(k) =>
        NoMatchShifted(s, 1, pat, ci, k);
        assert s[k + 1..] == s[1..][k..];
        Some(k + 1)
  }

  /** A search that fails in the text after its first `n` characters fails at the
      corresponding positions of the whole text. */
  lemma NoMatchShifted(s: string, n: nat, pat: string, ci: bool, hi: nat)
    requires n + hi <= |s| + 1
    requires forall j :: 0 <= j < hi ==> !StartsWith(s[n..][j..], pat, ci)
    ensures forall m :: n <= m < n + hi ==> !StartsWith(s[m..], pat, ci)
  {
    forall m | n <= m < n + hi
      ensures !StartsWith(s[m..], pat, ci)
    {
      assert s[m..] == s[n..][m - n..];
    }
  }

  /** The length of the longest prefix of `s` whose characters all satisfy `p`:
      what a greedy `[class]*` consumes. */
  function RunLength(s: string, p: char -> bool): (n: nat)
    ensures n <= |s|
    ensures forall k :: 0 <= k < n ==> p(s[k])
    ensures n < |s| ==> !p(s[n])
    decreases |s|
  {
    if s == [] || !p(s[0]) then 0 else 1 + RunLength(s[1..], p)
  }

  predicate AllSpace(s: string) {
    forall k :: 0 <= k < |s| ==> IsSpace(s[k])
  }

  /** Leading whitespace removed. */
  function TrimStart(s: string): (r: string)
    ensures |r| <= |s| && r == s[|s| - |r|..]
    ensures AllSpace(s[..|s| - |r|])
    ensures r == [] || !IsSpace(r[0])
  {
    s[RunLength(s, IsSpace)..]
  }

  /** Trailing whitespace removed. */
  function TrimEnd(s: string): (r: string)
    ensures |r| <= |s| && r == s[..|r|]
    ensures AllSpace(s[|r|..])
    ensures r == [] || !IsSpace(r[|r| - 1])
    decreases |s|
  {
    if s == [] || !IsSpace(s[|s| - 1]) then s
    else
      var r := TrimEnd(s[..|s| - 1]);
      assert s[|r|..] == s[..|s| - 1][|r|..] + [s[|s| - 1]];
      r
  }

  /** `String.prototype.trim`. */
  function Trim(s: string): (r: string)
    ensures r == [] || (!IsSpace(r[0]) && !IsSpace(r[|r| - 1]))
    ensures exists i, j :: 0 <= i <= j <= |s| && r == s[i..j] && AllSpace(s[..i]) && AllSpace(s[j..])
  {
    var t := TrimStart(s);
    var r := TrimEnd(t);
    assert r == s[|s| - |t|..|s| - |t| + |r|];
    r
  }

  // ---------------------------------------------------------------------------
  // Facts about the searches above

  lemma {:induction false} StartsWithExtend(s: string, t: string, pat: string, ci: bool)
    requires |pat| <= |s|
    ensures StartsWith(s + t, pat, ci) == StartsWith(s, pat, ci)
    decreases pat
  {
    if pat != [] {
      assert (s + t)[0] == s[0] && (s + t)[1..] == s[1..] + t;
      StartsWithExtend(s[1..], t, pat[1..], ci);
    }
  }

  lemma {:induction false} StartsWithSelf(pat: string, t: string, ci: bool)
    ensures StartsWith(pat + t, pat, ci)
    decreases pat
  {
    if pat != [] {
      assert (pat + t)[0] == pat[0] && (pat + t)[1..] == pat[1..] + t;
      StartsWithSelf(pat[1..], t, ci);
    }
  }

  /** `Find` returns the first occurrence. */
  lemma FindFirst(s: string, k: nat, pat: string, ci: bool)
    requires k <= |s| && StartsWith(s[k..], pat, ci)
    requires forall j :: 0 <= j < k ==> !StartsWith(s[j..], pat, ci)
    ensures Find(s, pat, ci) == Some(k)
  {
  }

  /** A pattern of one character occurs exactly where that character is. */
  lemma StartsWithChar(s: string, c: char)
    ensures StartsWith(s, [c], false) <==> s != [] && s[0] == c
  {
    assert [c][1..] == [];
  }

  /** Trimming the end of a text that ends in whitespace is trimming what precedes it. */
  lemma {:induction false} TrimEndSpaces(s: string, w: string)
    requires AllSpace(w)
    ensures TrimEnd(s + w) == TrimEnd(s)
    decreases |w|
  {
    if w != [] {
      assert (s + w)[..|s + w| - 1] == s + w[..|w| - 1];
      TrimEndSpaces(s, w[..|w| - 1]);
    } else {
      assert s + w == s;
    }
  }

  lemma {:induction false} TrimStartSpaces(w: string, s: string)
    requires AllSpace(w)
    ensures TrimStart(w + s) == TrimStart(s)
    decreases |w|
  {
    if w == [] {
      assert w + s == s;
    } else {
      assert (w + s)[1..] == w[1..] + s;
      TrimStartSpaces(w[1..], s);
    }
  }

  /** A run of `k` characters of the class, followed by one outside it or by the end, is
      exactly what the greedy run takes. */
  lemma {:induction false} RunLengthIs(s: string, p: char -> bool, k: nat)
    requires k <= |s| && (forall i :: 0 <= i < k ==> p(s[i])) && (k == |s| || !p(s[k]))
    ensures RunLength(s, p) == k
    decreases k
  {
    if k > 0 {
      assert forall i :: 0 <= i < k - 1 ==> s[1..][i] == s[i + 1];
      RunLengthIs(s[1..], p, k - 1);
    }
  }

  /** A text whose trailing whitespace begins at `k` trims to its first `k` characters. */
  lemma TrimEndIs(s: string, k: nat)
    requires k <= |s| && AllSpace(s[k..]) && (k == 0 || !IsSpace(s[k - 1]))
    ensures TrimEnd(s) == s[..k]
  {
    assert s == s[..k] + s[k..];
    TrimEndSpaces(s[..k], s[k..]);
  }

  /** Case-sensitive `StartsWith` is a comparison of the prefix. */
  lemma {:induction false} StartsWithExact(s: string, pat: string)
    ensures StartsWith(s, pat, false) <==> |pat| <= |s| && s[..|pat|] == pat
    decreases |pat|
  {
    if pat != [] && s != [] {
      StartsWithExact(s[1..], pat[1..]);
      if |pat| <= |s| {
        assert s[..|pat|] == [s[0]] + s[1..][..|pat| - 1];
        assert pat == [pat[0]] + pat[1..];
      }
    }
  }

  /** Each character of the text agrees with the pattern character at the same place. */
  lemma {:induction false} StartsWithAt(s: string, pat: string, ci: bool, i: nat)
    requires StartsWith(s, pat, ci) && i < |pat|
    ensures CharEq(s[i], pat[i], ci)
    decreases i
  {
    if i > 0 {
      StartsWithAt(s[1..], pat[1..], ci, i - 1);
    }
  }

  /** A text that begins with a pattern begins with every prefix of it. */
  lemma {:induction false} StartsWithShorter(s: string, pat: string, more: string, ci: bool)
    requires StartsWith(s, pat + more, ci)
    ensures StartsWith(s, pat, ci)
    decreases |pat|
  {
    if pat != [] {
      assert (pat + more)[0] == pat[0] && (pat + more)[1..] == pat[1..] + more;
      StartsWithShorter(s[1..], pat[1..], more, ci);
    }
  }

  /** A common beginning of text and pattern can be dropped. */
  lemma {:induction false} StartsWithCommon(p: string, x: string, q: string, ci: bool)
    ensures StartsWith(p + x, p + q, ci) == StartsWith(x, q, ci)
    decreases |p|
  {
    if p == [] {
      assert p + x == x && p + q == q;
    } else {
      assert (p + x)[0] == p[0] && (p + x)[1..] == p[1..] + x;
      assert (p + q)[0] == p[0] && (p + q)[1..] == p[1..] + q;
      StartsWithCommon(p[1..], x, q, ci);
    }
  }

  /** The run `RunLength` measures is whitespace throughout. */
  lemma RunIsSpace(s: string)
    ensures AllSpace(s[..RunLength(s, IsSpace)])
  {
    var n := RunLength(s, IsSpace);
    forall k | 0 <= k < n ensures IsSpace(s[..n][k]) {
      assert s[..n][k] == s[k];
    }
  }

  /** A pattern without ASCII letters matches the same text with or without the `i` flag. */
  lemma {:induction false} StartsWithCaseless(s: string, pat: string)
    requires forall i :: 0 <= i < |pat| ==> !IsUpperAscii(pat[i]) && !('a' <= pat[i] <= 'z')
    ensures StartsWith(s, pat, true) == StartsWith(s, pat, false)
    decreases |pat|
  {
    if pat != [] && s != [] {
      StartsWithCaseless(s[1..], pat[1..]);
    }
  }

  /** `RunLengthIs` for the whitespace class. */
  lemma SpaceRunIs(s: string, k: nat)
    requires k <= |s| && AllSpace(s[..k]) && (k == |s| || !IsSpace(s[k]))
    ensures RunLength(s, IsSpace) == k
  {
    forall i | 0 <= i < k ensures IsSpace(s[i]) {
      assert s[i] == s[..k][i];
    }
    RunLengthIs(s, IsSpace, k);
  }

  /** Proof helper: a prefix of a prefix is a prefix. */
  lemma PrefixOfPrefix(a: string, b: string, k: nat)
    requires |b| <= |a| && b == a[..|b|] && k <= |b|
    ensures b[..k] == a[..k]
  {
  }

  /** Proof helper: regrouping a concatenation of three texts. */
  lemma Associate3(a: string, b: string, c: string)
    ensures a + b + c == a + (b + c)
  {
  }
}
