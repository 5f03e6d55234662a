/** The clean-up the worker applies to the model's reply before returning it: a leading
    "```html" fence and a trailing "```" fence are removed, each with the whitespace next to it.
    The two regular expressions are `^```html?\s*\n?` (flag `i`) and `\n?\s*```\s*$` (flag `i`). */
module Fences {
  import opened Wrappers
  import opened Text

  const Fence: string := "```"
  const HtmFence: string := "```htm"
  const HtmlFence: string := HtmFence + "l"

  /** Where the text after a leading fence begins, if the reply starts with one. The letters
      `htm` match in any case and an `l` after them is taken when present; the greedy `\s*`
      then consumes the whole whitespace run, so the trailing `\n?` never has anything left. */
  function LeadingFence(s: string): (r: Option<nat>)
    ensures r.None? <==> !StartsWith(s, HtmFence, true)
    ensures r.Some? ==> |HtmFence| <= r.value <= |s|
    ensures r.Some? ==> r.value == |s| || !IsSpace(s[r.value])
  {
    if !StartsWith(s, HtmFence, true) then None
    else if |s| > 6 && CharEq(s[6], 'l', true) then Some(7 + SpaceRun(s, 7))
    else Some(6 + SpaceRun(s, 6))
  }

  /** The length of the whitespace run starting at `n`, which ends at the end of the text or
      before a character that is not whitespace. */
  function SpaceRun(s: string, n: nat): (w: nat)
    requires n <= |s|
    ensures n + w <= |s| && (n + w == |s| || !IsSpace(s[n + w]))
  {
    var w := RunLength(s[n..], IsSpace);
    assert w < |s[n..]| ==> s[n..][w] == s[n + w];
    w
  }

  /** The reply without its leading fence. */
  function StripLeadingFence(s: string): (r: string)
    ensures !StartsWith(s, HtmFence, true) ==> r == s
    ensures StartsWith(s, HtmFence, true) ==> |r| <= |s| - |HtmFence| && r == s[|s| - |r|..]
    ensures StartsWith(s, HtmFence, true) ==> r == [] || !IsSpace(r[0])
  {
    match LeadingFence(s)
    case None => s
    case Some(k) => s[k..]
  }

  /** `t` matches `\s*```\s*$`: a whitespace run, three backticks, then only whitespace. (The
      optional `\n` before `\s*` adds nothing, since `\s` already covers a line feed.) */
  predicate TailAt(t: string) {
    var w := RunLength(t, IsSpace);
    StartsWith(t[w..], Fence, false) && AllSpace(t[w + |Fence|..])
  }

  /** The leftmost position at or after `p` where the trailing fence pattern matches. */
  function TailStart(s: string, p: nat): (r: Option<nat>)
    ensures r.Some? ==> p <= r.value <= |s| && TailAt(s[r.value..])
    decreases |s| + 1 - p
  {
    if p > |s| then None
    else if TailAt(s[p..]) then Some(p)
    else TailStart(s, p + 1)
  }

  /** The reply without its trailing fence: everything before the leftmost match. */
  function StripTrailingFence(s: string): (r: string)
    ensures |r| <= |s| && r == s[..|r|]
  {
    match TailStart(s, 0)
    case None => s
    case Some(p) => s[..p]
  }

  /** Both replacements, in the order the worker applies them. */
  function StripFences(reply: string): (r: string)
    ensures |r| <= |reply|
  {
    StripTrailingFence(StripLeadingFence(reply))
  }

  /** The trimmed text ends with three backticks. */
  predicate EndsWithFence(s: string) {
    var t := TrimEnd(s);
    |t| >= |Fence| && t[|t| - |Fence|..] == Fence
  }

  /** A match of the trailing pattern always ends at the last non-space character: its
      backticks are the last three characters of the trimmed text and only whitespace precedes
      them inside the match. */
  lemma TailAtForcesEnd(s: string, p: nat)
    requires p <= |s|
    ensures TailAt(s[p..]) ==> EndsWithFence(s)
                               && |TrimEnd(s)| == p + RunLength(s[p..], IsSpace) + |Fence|
  {
    if TailAt(s[p..]) {
      TailMatchEnds(s, p);
    }
  }

  /** Where a match of the trailing pattern puts the end of the trimmed text. */
  lemma TailMatchEnds(s: string, p: nat)
    requires p <= |s| && TailAt(s[p..])
    ensures EndsWithFence(s)
    ensures |TrimEnd(s)| == p + RunLength(s[p..], IsSpace) + |Fence|
  {
    var t := s[p..];
    var w := RunLength(t, IsSpace);
    StartsWithExact(t[w..], Fence);
    var k := p + w + |Fence|;
    assert s[k - |Fence|..k] == t[w..][..|Fence|];
    assert s[k - 1] == '`';
    assert s[k..] == t[w + |Fence|..];
    TrimEndIs(s, k);
  }

  /** Closed form of the trailing replacement: when the trimmed reply ends with "```", the
      result is the text before those backticks with its trailing whitespace removed;
      otherwise the reply is unchanged. */
  lemma TrailingClosedForm(s: string)
    ensures EndsWithFence(s) ==>
              StripTrailingFence(s) == TrimEnd(TrimEnd(s)[..|TrimEnd(s)| - |Fence|])
    ensures !EndsWithFence(s) ==> StripTrailingFence(s) == s
  {
    if EndsWithFence(s) {
      FencedTail(s);
    } else {
      UnfencedTail(s);
    }
  }

  lemma FencedTail(s: string)
    requires EndsWithFence(s)
    ensures StripTrailingFence(s) == TrimEnd(TrimEnd(s)[..|TrimEnd(s)| - |Fence|])
  {
    var t := TrimEnd(s);
    var n := |t| - |Fence|;
    var u := t[..n];
    var q := |TrimEnd(u)|;
    ClosedFormMatch(s, n, q);
    NoTailBeforeTrimmed(s, n, q);
    TailStartFrom(s, 0, q);
    assert StripTrailingFence(s) == s[..q];
    PrefixOfPrefix(s, t, n);
    PrefixOfPrefix(s, u, q);
  }

  lemma UnfencedTail(s: string)
    requires !EndsWithFence(s)
    ensures StripTrailingFence(s) == s
  {
    forall j | 0 <= j <= |s| ensures !TailAt(s[j..]) {
      TailAtForcesEnd(s, j);
    }
    TailStartNone(s, 0);
  }

  lemma NoTailBeforeTrimmed(s: string, n: nat, q: nat)
    requires EndsWithFence(s) && n == |TrimEnd(s)| - |Fence| && q == |TrimEnd(TrimEnd(s)[..n])|
    ensures forall j :: 0 <= j < q ==> !TailAt(s[j..])
  {
    var u := TrimEnd(s)[..n];
    assert q > 0 ==> s[q - 1] == TrimEnd(u)[q - 1];
    forall j | 0 <= j < q ensures !TailAt(s[j..]) {
      NoTailBefore(s, n, q, j);
    }
  }

  /** No match starts before the one the closed form predicts: a match ends at the trimmed
      end with only whitespace before its backticks, and the character just before the
      predicted start is not whitespace. */
  lemma NoTailBefore(s: string, n: nat, q: nat, j: nat)
    requires j < q <= n && n + |Fence| == |TrimEnd(s)| && !IsSpace(s[q - 1])
    ensures !TailAt(s[j..])
  {
    TailAtForcesEnd(s, j);
    assert s[j..][q - 1 - j] == s[q - 1];
  }

  /** The search from `p` finds nothing when no position at or after `p` matches. */
  lemma {:induction false} TailStartNone(s: string, p: nat)
    requires forall j :: p <= j <= |s| ==> !TailAt(s[j..])
    ensures TailStart(s, p) == None
    decreases |s| + 1 - p
  {
    if p <= |s| {
      TailStartNone(s, p + 1);
    }
  }

  /** The search from `p` finds `q` when `q` is the first match at or after `p`. */
  lemma {:induction false} TailStartFrom(s: string, p: nat, q: nat)
    requires p <= q <= |s| && TailAt(s[q..])
    requires forall j :: p <= j < q ==> !TailAt(s[j..])
    ensures TailStart(s, p) == Some(q)
    decreases q - p
  {
    if p < q {
      TailStartFrom(s, p + 1, q);
    }
  }

  /** The match the closed form predicts is one. */
  lemma ClosedFormMatch(s: string, n: nat, q: nat)
    requires EndsWithFence(s) && n == |TrimEnd(s)| - |Fence| && q == |TrimEnd(TrimEnd(s)[..n])|
    ensures q <= n && TailAt(s[q..])
  {
    var t := TrimEnd(s);
    var u := t[..n];
    var v := s[q..];
    assert v[..n - q] == u[q..];
    assert v[n - q] == t[n] == t[n..][0];
    SpaceRunIs(v, n - q);
    assert v[n - q..][..|Fence|] == t[n..];
    StartsWithExact(v[n - q..], Fence);
    assert v[n - q + |Fence|..] == s[|t|..];
  }

  /** "```" + whitespace + text + whitespace + "```" + whitespace loses both fences and the
      whitespace next to them, however the text between them looks. */
  lemma TrailingFenceRemoved(x: string, w1: string, w2: string)
    requires AllSpace(w1) && AllSpace(w2)
    ensures StripTrailingFence(x + w1 + Fence + w2) == TrimEnd(x)
  {
    var s := x + w1 + Fence + w2;
    var f := x + w1 + Fence;
    TrimEndSpaces(f, w2);
    TrimEndIs(f, |f|);
    assert f[..|f|] == f;
    assert TrimEnd(s) == f;
    assert f[|f| - |Fence|..] == Fence;
    TrailingClosedForm(s);
    assert f[..|f| - |Fence|] == x + w1;
    TrimEndSpaces(x, w1);
  }

  /** A reply opening with `f` (any casing of "```html"), then whitespace, then text that does
      not begin with whitespace, loses exactly the fence and the whitespace. */
  lemma LeadingHtmlFence(f: string, w: string, x: string)
    requires |f| == |HtmlFence| && StartsWith(f, HtmlFence, true)
    requires AllSpace(w) && (x == [] || !IsSpace(x[0]))
    ensures StripLeadingFence(f + w + x) == x
  {
    var s := f + w + x;
    StartsWithShorter(f, HtmFence, "l", true);
    StartsWithExtend(f, w + x, HtmFence, true);
    Associate3(f, w, x);
    StartsWithAt(f, HtmlFence, true, 6);
    assert s[6] == f[6];
    assert s[7..] == w + x;
    StripAfterTag(s, 7, w, x);
  }

  /** The same with the four-letter tag `htm` (any casing), when the text after the
      whitespace does not start with whitespace. If nothing separates the tag from text
      beginning with `l`, that `l` would be taken as part of the tag, so it is excluded. */
  lemma LeadingHtmFence(f: string, w: string, x: string)
    requires |f| == 6 && StartsWith(f, HtmFence, true)
    requires AllSpace(w) && (x == [] || !IsSpace(x[0]))
    requires w == [] && x != [] ==> !CharEq(x[0], 'l', true)
    ensures StripLeadingFence(f + w + x) == x
  {
    var s := f + w + x;
    var v := w + x;
    StartsWithExtend(f, v, HtmFence, true);
    Associate3(f, w, x);
    assert s[6..] == v;
    assert v != [] ==> s[6] == v[0];
    StripAfterTag(s, 6, w, x);
  }

  /** With the tag settled at length `n`, the whitespace `w` after it is the run that is
      removed and `x` is what stays. */
  lemma StripAfterTag(s: string, n: nat, w: string, x: string)
    requires StartsWith(s, HtmFence, true)
    requires n == if |s| > 6 && CharEq(s[6], 'l', true) then 7 else 6
    requires n <= |s| && s[n..] == w + x
    requires AllSpace(w) && (x == [] || !IsSpace(x[0]))
    ensures StripLeadingFence(s) == x
  {
    var v := w + x;
    assert v[..|w|] == w;
    assert |w| < |v| ==> v[|w|] == x[0];
    SpaceRunIs(v, |w|);
    assert s[n + |w|..] == v[|w|..];
    assert LeadingFence(s) == Some(n + |w|);
  }

  /** A bare "```" not followed by `htm` is left at the start of the reply. */
  lemma BareFenceKept(x: string)
    requires !StartsWith(x, "htm", true)
    ensures StripLeadingFence(Fence + x) == Fence + x
  {
    assert HtmFence == Fence + "htm";
    StartsWithCommon(Fence, x, "htm", true);
  }

  /** A reply containing no "```" anywhere comes back unchanged. */
  lemma FenceFreeUnchanged(s: string)
    requires forall j :: 0 <= j <= |s| ==> !StartsWith(s[j..], Fence, false)
    ensures StripFences(s) == s
  {
    assert s[0..] == s;
    StartsWithCaseless(s, Fence);
    assert HtmFence == Fence + "htm";
    if StartsWith(s, HtmFence, true) {
      StartsWithShorter(s, Fence, "htm", true);
    }
    TrailingClosedForm(s);
    var t := TrimEnd(s);
    if |t| >= |Fence| {
      var n := |t| - |Fence|;
      StartsWithExact(s[n..], Fence);
      assert s[n..][..|Fence|] == t[n..];
    }
  }

  /** A document wrapped in an html fence on lines of its own comes back bare. */
  lemma FencedDocumentUnwrapped(f: string, body: string)
    requires |f| == |HtmlFence| && StartsWith(f, HtmlFence, true)
    requires body != [] && !IsSpace(body[0]) && !IsSpace(body[|body| - 1])
    ensures StripFences(f + "\n" + body + "\n" + Fence + "\n") == body
  {
    var x := body + "\n" + Fence + "\n";
    DocumentShape(f, body);
    assert x[0] == body[0];
    LeadingHtmlFence(f, "\n", x);
    TrailingFenceRemoved(body, "\n", "\n");
    TrimEndIs(body, |body|);
    assert body[..|body|] == body;
  }

  /** Proof helper: regrouping the wrapped document as fence + line break + the rest. */
  lemma DocumentShape(f: string, body: string)
    ensures f + "\n" + body + "\n" + Fence + "\n" == f + "\n" + (body + "\n" + Fence + "\n")
  {
  }
}
