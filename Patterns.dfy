/** The fixed regular expressions of the worker, each as a matcher at one position, and
    the global replace (`String.prototype.replace` with a `/g` expression) that drives them:
    search left to right, take the leftmost match, put the replacement in its place and go
    on searching right after it. */
module Patterns {
  import opened Wrappers
  import opened Text

  datatype Pattern =
    | Span(open: string, close: string, ci: bool)  // open[\s\S]*?close
    | Tag                                          // <[^>]+>
    | Literal(text: string)                        // a fixed, case-sensitive text
    | NumericRef                                   // &#\d+;
    | Spaces                                       // \s+
  {
    predicate Valid() {
      (Span? ==> open != []) && (Literal? ==> text != [])
    }
  }

  /** The characters a match of `p` can begin with. */
  predicate CanStart(p: Pattern, c: char)
    requires p.Valid()
  {
    match p
    case Span(open, _, ci) => CharEq(c, open[0], ci)
    case Tag => c == '<'
    case Literal(text) => c == text[0]
    case NumericRef => c == '&'
    case Spaces => IsSpace(c)
  }

  /** The length of the match of `p` that begins at the start of `s`, if any. Every pattern
      here has at most one match at a given position: the lazy `*?` of a span stops at the
      first closing text, and the greedy `+` of a tag, a reference or a whitespace run is
      forced by the character that has to follow it. */
  function MatchLength(p: Pattern, s: string): (r: Option<nat>)
    requires p.Valid()
    ensures r.Some? ==> 0 < r.value <= |s| && CanStart(p, s[0])
  {
    match p
    case Span(open, close, ci) => SpanMatch(s, open, close, ci)
    case Tag => TagMatch(s)
    case Literal(text) => if StartsWith(s, text, false) then Some(|text|) else None
    case NumericRef => NumericRefMatch(s)
    case Spaces => SpacesMatch(s)
  }

  /** `open[\s\S]*?close`: the opening text, then everything up to and including the
      first closing text after it. */
  function SpanMatch(s: string, open: string, close: string, ci: bool): (r: Option<nat>)
    requires open != []
    ensures r.Some? ==>
      && |open| + |close| <= r.value <= |s|
      && StartsWith(s, open, ci)
      && StartsWith(s[r.value - |close|..], close, ci)
      && forall m :: |open| <= m < r.value - |close| ==> !StartsWith(s[m..], close, ci)
    ensures r.None? && StartsWith(s, open, ci) ==>
      forall m :: |open| <= m <= |s| ==> !StartsWith(s[m..], close, ci)
  {
    if !StartsWith(s, open, ci) then None
    else
      var rest := s[|open|..];
      match Find(rest, close, ci)
      case None =>
        NoCloseAfterOpen(s, |open|, close, ci);
        None
      case Some(k) =>
        CloseAfterOpen(s, |open|, close, ci, k, |open| + k + |close|);
        Some(|open| + k + |close|)
  }

  /** No closing text in the rest of the text, seen from the start of the text. */
  lemma NoCloseAfterOpen(s: string, n: nat, close: string, ci: bool)
    requires n <= |s| && Find(s[n..], close, ci).None?
    ensures forall m :: n <= m <= |s| ==> !StartsWith(s[m..], close, ci)
  {
    NoMatchShifted(s, n, close, ci, |s| - n + 1);
  }

  /** The first closing text after the opening, found in the rest of the text, seen from
      the start of the text. */
  lemma CloseAfterOpen(s: string, n: nat, close: string, ci: bool, k: nat, end: nat)
    requires n <= |s| && Find(s[n..], close, ci) == Some(k) && end == n + k + |close|
    ensures end <= |s| && StartsWith(s[end - |close|..], close, ci)
    ensures forall m :: n <= m < end - |close| ==> !StartsWith(s[m..], close, ci)
  {
    NoMatchShifted(s, n, close, ci, k);
    assert s[n + k..] == s[n..][k..];
  }

  /** `<[^>]+>`: a `<`, then the first `>` after it provided that one is not adjacent. */
  function TagMatch(s: string): (r: Option<nat>)
    ensures r.Some? ==> 3 <= r.value <= |s| && s[0] == '<'
  {
    if s == [] || s[0] != '<' then None
    else
      match Find(s[1..], ">", false)
      case None => None
      case Some(k) => if k > 0 then Some(k + 2) else None
  }

  /** `&#\d+;`. */
  function NumericRefMatch(s: string): (r: Option<nat>)
    ensures r.Some? ==> 4 <= r.value <= |s| && s[0] == '&'
  {
    if !StartsWith(s, "&#", false) then None
    else
      var d := RunLength(s[2..], IsDigit);
      if 0 < d && 2 + d < |s| && s[2 + d] == ';' then Some(d + 3) else None
  }

  /** `&#\d+;` matches exactly `&#`, one or more ASCII digits, then `;`. */
  lemma NumericRefMatchIff(s: string, n: nat)
    ensures NumericRefMatch(s) == Some(n) <==>
      && 4 <= n <= |s| && s[0] == '&' && s[1] == '#' && s[n - 1] == ';'
      && forall i :: 2 <= i < n - 1 ==> IsDigit(s[i])
  {
    StartsWithExact(s, "&#");
    if 4 <= n <= |s| && s[0] == '&' && s[1] == '#' && s[n - 1] == ';'
       && forall i :: 2 <= i < n - 1 ==> IsDigit(s[i]) {
      assert s[..2] == "&#";
      assert forall i :: 0 <= i < n - 3 ==> s[2..][i] == s[i + 2];
      assert s[2..][n - 3] == ';';
      RunLengthIs(s[2..], IsDigit, n - 3);
    }
    if NumericRefMatch(s) == Some(n) {
      assert forall i :: 2 <= i < n - 1 ==> s[i] == s[2..][i - 2];
    }
  }

  /** `\s+`: the whole run of whitespace at the start. */
  function SpacesMatch(s: string): (r: Option<nat>)
    ensures r.Some? ==> 0 < r.value <= |s| && AllSpace(s[..r.value]) && (r.value == |s| || !IsSpace(s[r.value]))
    ensures r.None? ==> s == [] || !IsSpace(s[0])
  {
    var n := RunLength(s, IsSpace);
    if n > 0 then Some(n) else None
  }

  /** `s.replace(p, rep)` for a global expression `p`. */
  function Replace(s: string, p: Pattern, rep: string): string
    requires p.Valid()
    decreases |s|
  {
    if s == [] then []
    else
      match MatchLength(p, s)
      case Some(n) => rep + Replace(s[n..], p, rep)
      case None => [s[0]] + Replace(s[1..], p, rep)
  }

  /** The replace introduces no character other than those of the replacement text. */
  lemma {:induction false} ReplaceChars(s: string, p: Pattern, rep: string)
    requires p.Valid()
    ensures forall c :: c in Replace(s, p, rep) ==> c in s || c in rep
    decreases |s|
  {
    if s != [] {
      match MatchLength(p, s)
      case Some(n) =>
        ReplaceChars(s[n..], p, rep);
        assert forall c :: c in s[n..] ==> c in s;
      case None =>
        ReplaceChars(s[1..], p, rep);
        assert forall c :: c in s[1..] ==> c in s;
    }
  }

  // ---------------------------------------------------------------------------
  // The tag matcher

  /** `<[^>]+>` matches exactly a `<`, at least one character other than `>`, and the
      first `>` after them. */
  lemma TagMatchIff(s: string, n: nat)
    ensures TagMatch(s) == Some(n) <==>
      (3 <= n <= |s| && s[0] == '<' && s[n - 1] == '>' && forall i :: 1 <= i < n - 1 ==> s[i] != '>')
  {
    if s != [] && s[0] == '<' {
      var t := s[1..];
      var f := Find(t, ">", false);
      assert forall j :: 0 <= j < |t| ==> (StartsWith(t[j..], ">", false) <==> t[j] == '>');
      if 3 <= n <= |s| && s[n - 1] == '>' && forall i :: 1 <= i < n - 1 ==> s[i] != '>' {
        assert t[n - 2] == '>' && StartsWith(t[n - 2..], ">", false);
        assert f.Some? && f.value <= n - 2;
        assert t[f.value] == '>' && t[f.value] == s[f.value + 1];
      }
    }
  }

  /** After a `<` that begins no tag, either no `>` follows at all or one follows at once. */
  lemma NoTagAtLt(s: string)
    requires s != [] && s[0] == '<' && TagMatch(s).None?
    ensures '>' !in s[1..] || (|s| > 1 && s[1] == '>')
  {
    var t := s[1..];
    if '>' in t {
      var j :| 0 <= j < |t| && t[j] == '>';
      assert StartsWith(t[j..], ">", false);
      var f := Find(t, ">", false);
      assert f.Some? && t[f.value] == '>';
      assert f.value == 0;
    }
  }

  // ---------------------------------------------------------------------------
  // The global replace

  /** Text in which no match can begin is copied unchanged, and the search goes on after it. */
  lemma {:induction false} ReplaceInert(x: string, y: string, p: Pattern, rep: string)
    requires p.Valid()
    requires forall k :: 0 <= k < |x| ==> !CanStart(p, x[k])
    ensures Replace(x + y, p, rep) == x + Replace(y, p, rep)
    decreases |x|
  {
    if x == [] {
      assert x + y == y;
    } else {
      var tail := x[1..] + y;
      assert x + y == [x[0]] + tail;
      SkipInert(x[0], tail, p, rep);
      ReplaceInert(x[1..], y, p, rep);
      ConsAppend(x, Replace(y, p, rep));
    }
  }

  /** A match at the start of the text is replaced and the search goes on right after it. */
  lemma ReplaceMatch(m: string, y: string, p: Pattern, rep: string)
    requires p.Valid() && MatchLength(p, m + y) == Some(|m|)
    ensures Replace(m + y, p, rep) == rep + Replace(y, p, rep)
  {
    assert (m + y)[|m|..] == y;
  }

  /** Proof helper: splitting off the first character of a concatenation. */
  lemma ConsAppend(x: string, r: string)
    requires x != []
    ensures [x[0]] + (x[1..] + r) == x + r
  {
    assert [x[0]] + x[1..] == x;
  }

  /** A character that no match can begin with is copied. */
  lemma SkipInert(c: char, y: string, p: Pattern, rep: string)
    requires p.Valid() && !CanStart(p, c)
    ensures Replace([c] + y, p, rep) == [c] + Replace(y, p, rep)
  {
    assert ([c] + y)[0] == c;
    ReplaceSkip(c, y, p, rep);
  }

  /** One character at which no match begins is copied. */
  lemma ReplaceSkip(c: char, y: string, p: Pattern, rep: string)
    requires p.Valid() && MatchLength(p, [c] + y).None?
    ensures Replace([c] + y, p, rep) == [c] + Replace(y, p, rep)
  {
    assert ([c] + y)[1..] == y;
  }

  /** A pattern replaced by nothing only deletes: the output keeps the order of what it keeps. */
  lemma {:induction false} DeletionIsSubsequence(s: string, p: Pattern)
    requires p.Valid()
    ensures IsSubsequence(Replace(s, p, ""), s)
    decreases |s|
  {
    if s != [] {
      match MatchLength(p, s)
      case Some(n) =>
        DeletionIsSubsequence(s[n..], p);
        assert Replace(s, p, "") == "" + Replace(s[n..], p, "") == Replace(s[n..], p, "");
        assert s == s[..n] + s[n..];
        SubsequenceOfSuffix(Replace(s[n..], p, ""), s[n..], s[..n]);
      case None =>
        DeletionIsSubsequence(s[1..], p);
        var r := Replace(s, p, "");
        assert r[0] == s[0] && r[1..] == Replace(s[1..], p, "");
    }
  }

  /** Text at none of whose positions a match begins is copied unchanged, and the search
      goes on after it. */
  lemma {:induction false} ReplaceNoMatch(x: string, y: string, p: Pattern, rep: string)
    requires p.Valid()
    requires forall k :: 0 <= k < |x| ==> MatchLength(p, x[k..] + y).None?
    ensures Replace(x + y, p, rep) == x + Replace(y, p, rep)
    decreases |x|
  {
    if x == [] {
      assert x + y == y;
    } else {
      var tail := x[1..] + y;
      assert x + y == [x[0]] + tail;
      assert x[0..] == x;
      ReplaceSkip(x[0], tail, p, rep);
      forall k | 0 <= k < |x[1..]| ensures MatchLength(p, x[1..][k..] + y).None? {
        assert x[1..][k..] == x[k + 1..];
      }
      ReplaceNoMatch(x[1..], y, p, rep);
      ConsAppend(x, Replace(y, p, rep));
    }
  }

  /** A span is deleted whole, closing text included, when no opening text begins in the
      text before it (not even one running on into the span's own opening) and no closing
      text begins inside it; the text before it is kept and the search goes on after it. */
  lemma SpanRemoved(x: string, open: string, inner: string, close: string, rest: string, ci: bool)
    requires open != []
    requires forall k :: 0 <= k < |x| ==> !StartsWith(x[k..] + open, open, ci)
    requires forall m :: 0 <= m < |inner| ==> !StartsWith((inner + close)[m..], close, ci)
    ensures Replace(x + open + inner + close + rest, Span(open, close, ci), "")
         == x + Replace(rest, Span(open, close, ci), "")
  {
    var p := Span(open, close, ci);
    var after := inner + close + rest;
    var tail := open + after;
    forall k | 0 <= k < |x| ensures MatchLength(p, x[k..] + tail).None? {
      NoOpenBefore(x[k..], open, after, ci);
    }
    Associate(x, open, inner, close, rest);
    assert open + inner + close + rest == tail;
    ReplaceNoMatch(x, tail, p, "");
    SpanAtStartRemoved(open, inner, close, rest, ci);
  }

  /** An opening that does not begin in `u + open` does not begin in `u + open + after`. */
  lemma NoOpenBefore(u: string, open: string, after: string, ci: bool)
    requires !StartsWith(u + open, open, ci)
    ensures !StartsWith(u + (open + after), open, ci)
  {
    assert u + (open + after) == (u + open) + after;
    StartsWithExtend(u + open, after, open, ci);
  }

  lemma SpanAtStartRemoved(open: string, inner: string, close: string, rest: string, ci: bool)
    requires open != []
    requires forall m :: 0 <= m < |inner| ==> !StartsWith((inner + close)[m..], close, ci)
    ensures Replace(open + inner + close + rest, Span(open, close, ci), "") == Replace(rest, Span(open, close, ci), "")
  {
    var p := Span(open, close, ci);
    var body := open + inner + close;
    SpanMatchWhole(open, inner, close, rest, ci);
    assert MatchLength(p, body + rest) == Some(|body|);
    ReplaceMatch(body, rest, p, "");
    assert "" + Replace(rest, p, "") == Replace(rest, p, "");
  }

  /** Proof helper: regrouping a concatenation of five texts. */
  lemma Associate(x: string, a: string, b: string, c: string, d: string)
    ensures x + a + b + c + d == x + (a + b + c + d)
  {
    assert x + a + b == x + (a + b);
    assert x + (a + b) + c == x + (a + b + c);
    assert x + (a + b + c) + d == x + (a + b + c + d);
  }

  lemma SpanMatchWhole(open: string, inner: string, close: string, rest: string, ci: bool)
    requires open != []
    requires forall m :: 0 <= m < |inner| ==> !StartsWith((inner + close)[m..], close, ci)
    ensures SpanMatch(open + inner + close + rest, open, close, ci) == Some(|open| + |inner| + |close|)
  {
    var after := inner + close + rest;
    assert open + inner + close + rest == open + after;
    StartsWithSelf(open, after, ci);
    CloseFound(inner, close, rest, ci);
    SpanMatchFound(open + after, open, close, ci, |inner|);
  }

  /** The search for the closing text stops at the first one. */
  lemma CloseFound(inner: string, close: string, rest: string, ci: bool)
    requires forall m :: 0 <= m < |inner| ==> !StartsWith((inner + close)[m..], close, ci)
    ensures Find(inner + close + rest, close, ci) == Some(|inner|)
  {
    var after := inner + close + rest;
    assert after[|inner|..] == close + rest;
    StartsWithSelf(close, rest, ci);
    NoCloseBefore(inner, close, rest, ci);
    FindFirst(after, |inner|, close, ci);
  }

  /** A span matches when its opening text is there and the closing text is found after it. */
  lemma SpanMatchFound(s: string, open: string, close: string, ci: bool, k: nat)
    requires open != [] && StartsWith(s, open, ci)
    requires Find(s[|open|..], close, ci) == Some(k)
    ensures SpanMatch(s, open, close, ci) == Some(|open| + k + |close|)
  {
  }

  lemma NoCloseBefore(inner: string, close: string, rest: string, ci: bool)
    requires forall m :: 0 <= m < |inner| ==> !StartsWith((inner + close)[m..], close, ci)
    ensures forall m :: 0 <= m < |inner| ==> !StartsWith((inner + close + rest)[m..], close, ci)
  {
    forall m | 0 <= m < |inner|
      ensures !StartsWith((inner + close + rest)[m..], close, ci)
    {
      assert (inner + close + rest)[m..] == (inner + close)[m..] + rest;
      StartsWithExtend((inner + close)[m..], rest, close, ci);
    }
  }

  /** The closing text cannot begin inside a text that has none of its first character. */
  lemma NoCloseInside(inner: string, close: string, ci: bool)
    requires close != []
    requires forall k :: 0 <= k < |inner| ==> !CharEq(inner[k], close[0], ci)
    ensures forall m :: 0 <= m < |inner| ==> !StartsWith((inner + close)[m..], close, ci)
  {
    forall m | 0 <= m < |inner|
      ensures !StartsWith((inner + close)[m..], close, ci)
    {
      assert (inner + close)[m..][0] == inner[m];
    }
  }

  // ---------------------------------------------------------------------------
  // Subsequences

  /** `a` can be obtained from `b` by deleting characters. */
  predicate IsSubsequence(a: string, b: string)
    decreases |b|
  {
    if a == [] then true
    else if b == [] then false
    else if a[0] == b[0] then IsSubsequence(a[1..], b[1..])
    else IsSubsequence(a, b[1..])
  }

  lemma {:induction false} SubsequenceOfSuffix(a: string, b: string, c: string)
    requires IsSubsequence(a, b)
    ensures IsSubsequence(a, c + b)
    decreases |c|
  {
    if c == [] {
      assert c + b == b;
    } else {
      SubsequenceOfSuffix(a, b, c[1..]);
      assert (c + b)[1..] == c[1..] + b;
      SubsequenceCons(a, c[1..] + b, c[0]);
      assert [c[0]] + (c[1..] + b) == c + b;
    }
  }

  lemma {:induction false} SubsequenceCons(a: string, b: string, x: char)
    requires IsSubsequence(a, b)
    ensures IsSubsequence(a, [x] + b)
    decreases |a| + |b| + 1, 1
  {
    assert ([x] + b)[1..] == b;
    if a != [] && a[0] == x {
      SubsequenceTail(a, b);
    }
  }

  lemma {:induction false} SubsequenceTail(a: string, b: string)
    requires a != [] && IsSubsequence(a, b)
    ensures IsSubsequence(a[1..], b)
    decreases |a| + |b|, 0
  {
    if a[0] == b[0] {
      SubsequenceCons(a[1..], b[1..], b[0]);
      assert [b[0]] + b[1..] == b;
    } else {
      SubsequenceTail(a, b[1..]);
      SubsequenceCons(a[1..], b[1..], b[0]);
      assert [b[0]] + b[1..] == b;
    }
  }

  /** Deleting characters twice is deleting characters. */
  lemma {:induction false} SubsequenceTrans(a: string, b: string, c: string)
    requires IsSubsequence(a, b) && IsSubsequence(b, c)
    ensures IsSubsequence(a, c)
    decreases |c|
  {
    if a != [] {
      if b[0] == c[0] {
        if a[0] == b[0] {
          SubsequenceTrans(a[1..], b[1..], c[1..]);
        } else {
          SubsequenceTrans(a, b[1..], c[1..]);
          SubsequenceStep(a, c);
        }
      } else {
        SubsequenceTrans(a, b, c[1..]);
        SubsequenceStep(a, c);
      }
    }
  }

  /** A subsequence of the tail of `c` is a subsequence of `c`. */
  lemma SubsequenceStep(a: string, c: string)
    requires a != [] && c != [] && IsSubsequence(a, c[1..])
    ensures IsSubsequence(a, c)
  {
    if a[0] == c[0] {
      SubsequenceTail(a, c[1..]);
    }
  }

  lemma {:induction false} SubsequenceRefl(s: string)
    ensures IsSubsequence(s, s)
    decreases |s|
  {
    if s != [] {
      SubsequenceRefl(s[1..]);
    }
  }
}
