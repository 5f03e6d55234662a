/** `cleanHTML`: the page markup reduced to plain text by an ordered chain of global
    replaces, then bounded in length. */
module Clean {
  import opened Wrappers
  import opened Text
  import opened Patterns

  /** The elements deleted whole, in the order their passes run. */
  const RemovedElements: seq<string> :=
    ["script", "style", "nav", "footer", "header", "aside", "iframe", "noscript", "svg"]

  const MaxLength: nat := 20000
  const TruncationMarker: string := "\n[Content truncated]"

  /** `/<name[\s\S]*?<\/name>/gi`. */
  function ElementPattern(name: string): (p: Pattern)
    ensures p.Valid() && p.Span? && p.ci && p.open[0] == '<'
  {
    Span("<" + name, "</" + name + ">", true)
  }

  /** `/<!--[\s\S]*?-->/g`. */
  const CommentPattern: Pattern := Span("<!--", "-->", false)

  /** The deleting passes for the elements from the `i`-th on, in order. */
  function StripElements(s: string, i: nat): string
    requires i <= |RemovedElements|
    decreases |RemovedElements| - i
  {
    if i == |RemovedElements| then s
    else StripElements(Replace(s, ElementPattern(RemovedElements[i]), ""), i + 1)
  }

  function StripComments(s: string): string {
    Replace(s, CommentPattern, "")
  }

  /** Every remaining tag becomes one space. */
  function StripTags(s: string): string {
    Replace(s, Tag, " ")
  }

  /** `&nbsp;`, `&amp;`, `&lt;`, `&gt;` decoded in that order, then `&#digits;` deleted. */
  function DecodeEntities(s: string): string {
    var amp := AmpDecoded(s);
    var lt := Replace(amp, Literal("&lt;"), "<");
    var gt := Replace(lt, Literal("&gt;"), ">");
    Replace(gt, NumericRef, "")
  }

  /** The first two decoding passes, `&nbsp;` then `&amp;`: the text the `&lt;` and `&gt;`
      passes read. */
  function AmpDecoded(s: string): string {
    Replace(Replace(s, Literal("&nbsp;"), " "), Literal("&amp;"), "&")
  }

  /** Every run of whitespace becomes one space. */
  function CollapseSpaces(s: string): string {
    Replace(s, Spaces, " ")
  }

  /** The text before the length bound is applied. */
  function Normalize(html: string): string {
    Trim(CollapseSpaces(DecodeEntities(StripTags(StripComments(StripElements(html, 0))))))
  }

  /** The length bound: a longer text is cut after `MaxLength` code units and marked. */
  function Bound(s: string): (r: string)
    ensures |r| <= MaxLength + |TruncationMarker|
    ensures |s| <= MaxLength ==> r == s
    ensures |s| > MaxLength ==>
      (|r| == MaxLength + |TruncationMarker| && r[..MaxLength] == s[..MaxLength] && r[MaxLength..] == TruncationMarker)
  {
    if |s| > MaxLength then s[..MaxLength] + TruncationMarker else s
  }

  /** `cleanHTML(html)`. */
  function CleanHtml(html: string): string {
    Bound(Normalize(html))
  }

  // ---------------------------------------------------------------------------
  // The length bound

  /** Bounding a bounded text changes nothing. */
  lemma BoundIdempotent(s: string)
    ensures Bound(Bound(s)) == Bound(s)
  {
    if |s| > MaxLength {
      var r := Bound(s);
      assert r[..MaxLength] == s[..MaxLength];
    }
  }

  // ---------------------------------------------------------------------------
  // Whitespace

  predicate NoAdjacentSpaces(s: string) {
    forall i :: 0 <= i < |s| - 1 ==> !(IsSpace(s[i]) && IsSpace(s[i + 1]))
  }

  /** The text handed to the bound is trimmed and has no two whitespace characters in a row. */
  lemma NormalizeSpacing(html: string)
    ensures var r := Normalize(html);
      && (r == [] || (!IsSpace(r[0]) && !IsSpace(r[|r| - 1])))
      && NoAdjacentSpaces(r)
  {
    var d := DecodeEntities(StripTags(StripComments(StripElements(html, 0))));
    CollapseNoAdjacent(d);
    TrimSpacing(CollapseSpaces(d));
  }

  lemma TrimSpacing(c: string)
    requires NoAdjacentSpaces(c)
    ensures var r := Trim(c);
      && (r == [] || (!IsSpace(r[0]) && !IsSpace(r[|r| - 1])))
      && NoAdjacentSpaces(r)
  {
    var i, j :| 0 <= i <= j <= |c| && Trim(c) == c[i..j];
    SliceNoAdjacent(c, i, j);
  }

  /** A slice of a text without adjacent whitespace has none either. */
  lemma SliceNoAdjacent(c: string, i: nat, j: nat)
    requires NoAdjacentSpaces(c) && i <= j <= |c|
    ensures NoAdjacentSpaces(c[i..j])
  {
    var r := c[i..j];
    forall k | 0 <= k < |r| - 1
      ensures !(IsSpace(r[k]) && IsSpace(r[k + 1]))
    {
      assert r[k] == c[i + k] && r[k + 1] == c[i + k + 1];
    }
  }

  /** A collapsed text has no two whitespace characters in a row. */
  lemma {:induction false} CollapseNoAdjacent(s: string)
    ensures NoAdjacentSpaces(Replace(s, Spaces, " "))
    decreases |s|
  {
    if s != [] {
      match MatchLength(Spaces, s)
      case Some(n) =>
        var t := s[n..];
        CollapseNoAdjacent(t);
        CollapseFirst(t);
        NoAdjacentCons(' ', Replace(t, Spaces, " "));
      case None =>
        CollapseNoAdjacent(s[1..]);
        NoAdjacentCons(s[0], Replace(s[1..], Spaces, " "));
    }
  }

  /** Collapsing keeps a first character that is not whitespace. */
  lemma CollapseFirst(t: string)
    requires t == [] || !IsSpace(t[0])
    ensures var r := Replace(t, Spaces, " "); t == [] || (r != [] && r[0] == t[0])
  {
  }

  lemma NoAdjacentCons(c: char, t: string)
    requires NoAdjacentSpaces(t)
    requires !IsSpace(c) || t == [] || !IsSpace(t[0])
    ensures NoAdjacentSpaces([c] + t)
  {
    var s := [c] + t;
    forall i | 0 <= i < |s| - 1
      ensures !(IsSpace(s[i]) && IsSpace(s[i + 1]))
    {
      if i > 0 {
        assert s[i] == t[i - 1] && s[i + 1] == t[i];
      }
    }
  }

  // ---------------------------------------------------------------------------
  // Tags

  /** No tag (`<`, one or more characters other than `>`, then `>`) begins anywhere in `s`. */
  predicate NoTag(s: string)
    decreases |s|
  {
    s == [] || (TagMatch(s).None? && NoTag(s[1..]))
  }

  /** After the tag pass no tag is left. */
  lemma {:induction false} StripTagsNoTag(s: string)
    ensures NoTag(StripTags(s))
    decreases |s|
  {
    if s != [] {
      match MatchLength(Tag, s)
      case Some(n) =>
        StripTagsNoTag(s[n..]);
        NoTagAfterFree(" ", StripTags(s[n..]));
      case None =>
        StripTagsNoTag(s[1..]);
        NoTagAfterSkip(s, Tag, " ");
    }
  }

  /** Each tag becomes one space, so the words on either side of it stay apart. */
  lemma StripTagsSeparates(x: string, t: string, y: string)
    requires forall k :: 0 <= k < |x| ==> x[k] != '<'
    requires 3 <= |t| && t[0] == '<' && t[|t| - 1] == '>' && forall i :: 1 <= i < |t| - 1 ==> t[i] != '>'
    ensures StripTags(x + t + y) == x + " " + StripTags(y)
  {
    assert x + t + y == x + (t + y);
    ReplaceInert(x, t + y, Tag, " ");
    TagMatchIff(t + y, |t|);
    ReplaceMatch(t, y, Tag, " ");
  }

  /** A replace whose replacement has no `<` or `>` and whose matches cannot begin at a `>`
      leaves a text without tags without tags: of the decoding passes, only those of `&lt;`
      and `&gt;` can make a tag appear. */
  lemma {:induction false} ReplaceKeepsNoTag(s: string, p: Pattern, rep: string)
    requires p.Valid() && NoTag(s) && !CanStart(p, '>')
    requires '<' !in rep && '>' !in rep
    ensures NoTag(Replace(s, p, rep))
    decreases |s|
  {
    if s != [] {
      match MatchLength(p, s)
      case Some(n) =>
        NoTagSuffix(s, n);
        ReplaceKeepsNoTag(s[n..], p, rep);
        NoTagAfterFree(rep, Replace(s[n..], p, rep));
      case None =>
        ReplaceKeepsNoTag(s[1..], p, rep);
        NoTagAfterSkip(s, p, rep);
    }
  }

  /** The decoding passes of `&nbsp;`, `&amp;` and numeric references, and the whitespace
      pass, keep a text without tags without tags. */
  lemma DecodingKeepsNoTag(s: string)
    requires NoTag(s)
    ensures NoTag(Replace(s, Literal("&nbsp;"), " "))
    ensures NoTag(Replace(s, Literal("&amp;"), "&"))
    ensures NoTag(Replace(s, NumericRef, ""))
    ensures NoTag(CollapseSpaces(s))
  {
    ReplaceKeepsNoTag(s, Literal("&nbsp;"), " ");
    ReplaceKeepsNoTag(s, Literal("&amp;"), "&");
    ReplaceKeepsNoTag(s, NumericRef, "");
    ReplaceKeepsNoTag(s, Spaces, " ");
  }

  /** The page comes out of the cleaner with no tag in it unless the `&lt;` or `&gt;` pass
      has something to decode: those two are the only passes after the tag pass that can
      make a tag. */
  lemma NormalizeNoTag(html: string)
    requires Find(AmpDecoded(StripTags(StripComments(StripElements(html, 0)))), "&lt;", false).None?
    requires Find(AmpDecoded(StripTags(StripComments(StripElements(html, 0)))), "&gt;", false).None?
    ensures NoTag(Normalize(html))
  {
    var t := StripTags(StripComments(StripElements(html, 0)));
    var a := AmpDecoded(t);
    StripTagsNoTag(StripComments(StripElements(html, 0)));
    DecodingKeepsNoTag(t);
    DecodingKeepsNoTag(Replace(t, Literal("&nbsp;"), " "));
    ReplaceAbsent(a, "&lt;", "<");
    ReplaceAbsent(a, "&gt;", ">");
    DecodingKeepsNoTag(a);
    DecodingKeepsNoTag(Replace(a, NumericRef, ""));
    TrimKeepsNoTag(CollapseSpaces(DecodeEntities(t)));
  }

  /** A literal that occurs nowhere is replaced nowhere. */
  lemma {:induction false} ReplaceAbsent(s: string, lit: string, rep: string)
    requires lit != [] && Find(s, lit, false).None?
    ensures Replace(s, Literal(lit), rep) == s
    decreases |s|
  {
    if s != [] {
      assert s[0..] == s;
      assert Find(s[1..], lit, false).None? by {
        forall j | 0 <= j <= |s[1..]| ensures !StartsWith(s[1..][j..], lit, false) {
          assert s[1..][j..] == s[j + 1..];
        }
      }
      ReplaceAbsent(s[1..], lit, rep);
    }
  }

  lemma TrimKeepsNoTag(c: string)
    requires NoTag(c)
    ensures NoTag(Trim(c))
  {
    var t := TrimStart(c);
    NoTagSuffix(c, |c| - |t|);
    NoTagPrefix(t, |TrimEnd(t)|);
  }

  lemma {:induction false} StripElementsChars(s: string, i: nat)
    requires i <= |RemovedElements|
    ensures forall c :: c in StripElements(s, i) ==> c in s
    decreases |RemovedElements| - i
  {
    if i < |RemovedElements| {
      var r := Replace(s, ElementPattern(RemovedElements[i]), "");
      ReplaceChars(s, ElementPattern(RemovedElements[i]), "");
      StripElementsChars(r, i + 1);
    }
  }

  /** With no `&` in the text, no entity pass finds anything. */
  lemma DecodeWithoutAmp(s: string)
    requires '&' !in s
    ensures DecodeEntities(s) == s
  {
    assert s + [] == s;
    ReplaceInert(s, [], Literal("&nbsp;"), " ");
    ReplaceInert(s, [], Literal("&amp;"), "&");
    ReplaceInert(s, [], Literal("&lt;"), "<");
    ReplaceInert(s, [], Literal("&gt;"), ">");
    ReplaceInert(s, [], NumericRef, "");
  }

  /** What a tag looks like from the outside. */
  lemma TagShape(t: string)
    ensures TagMatch(t).Some? ==> 3 <= |t| && t[0] == '<' && t[1] != '>' && '>' in t[2..]
  {
    if TagMatch(t).Some? {
      var n := TagMatch(t).value;
      TagMatchIff(t, n);
      assert t[2..][n - 3] == '>';
    }
  }

  lemma NoTagAfterSkip(s: string, p: Pattern, rep: string)
    requires p.Valid() && s != [] && MatchLength(p, s).None? && !CanStart(p, '>') && '>' !in rep
    requires s[0] == '<' ==> TagMatch(s).None?
    requires NoTag(Replace(s[1..], p, rep))
    ensures NoTag([s[0]] + Replace(s[1..], p, rep))
  {
    var z := Replace(s[1..], p, rep);
    var t := [s[0]] + z;
    assert t[1..] == z;
    if s[0] == '<' {
      NoTagAtLt(s);
      if |s| > 1 && s[1] == '>' {
        assert s[1..] == [s[1]] + s[2..];
        ReplaceSkip(s[1], s[2..], p, rep);
        LtThenGt(t);
      } else {
        ReplaceChars(s[1..], p, rep);
        LtWithoutGt(t);
      }
    } else {
      TagShape(t);
    }
  }

  lemma LtThenGt(t: string)
    requires 2 <= |t| && t[1] == '>'
    ensures TagMatch(t).None?
  {
    TagShape(t);
  }

  lemma LtWithoutGt(t: string)
    requires t != [] && '>' !in t[1..]
    ensures TagMatch(t).None?
  {
    TagShape(t);
    if 2 <= |t| {
      assert t[2..] == t[1..][1..];
    }
  }

  lemma {:induction false} NoTagAfterFree(x: string, z: string)
    requires '<' !in x && NoTag(z)
    ensures NoTag(x + z)
    decreases |x|
  {
    if x == [] {
      assert x + z == z;
    } else {
      assert (x + z)[1..] == x[1..] + z;
      NoTagAfterFree(x[1..], z);
    }
  }

  lemma {:induction false} NoTagSuffix(s: string, n: nat)
    requires NoTag(s) && n <= |s|
    ensures NoTag(s[n..])
    decreases n
  {
    if n > 0 {
      NoTagSuffix(s[1..], n - 1);
      assert s[1..][n - 1..] == s[n..];
    }
  }

  lemma {:induction false} NoTagPrefix(s: string, n: nat)
    requires NoTag(s) && n <= |s|
    ensures NoTag(s[..n])
    decreases n
  {
    if n > 0 {
      var t := s[..n];
      TagPrefix(s, n);
      NoTagPrefix(s[1..], n - 1);
      assert t[1..] == s[1..][..n - 1];
    }
  }

  /** A tag within a prefix is a tag of the whole text. */
  lemma TagPrefix(s: string, n: nat)
    requires n <= |s|
    ensures TagMatch(s[..n]).Some? ==> TagMatch(s).Some?
  {
    if TagMatch(s[..n]).Some? {
      var m := TagMatch(s[..n]).value;
      TagMatchIff(s[..n], m);
      TagMatchIff(s, m);
    }
  }

  // ---------------------------------------------------------------------------
  // The deleting passes

  /** `<` has no other case. */
  lemma LtIgnoresCase(c: char)
    ensures CharEq(c, '<', true) <==> c == '<'
  {
  }

  /** A removed element disappears with its content wherever it stands: the text before it
      is kept when no opening `<name` (in any case) begins there, the content may hold any
      markup but the element's own closing tag, and the pass goes on after the element. */
  lemma ElementRemoved(name: string, x: string, inner: string, rest: string)
    requires '<' !in name
    requires forall k :: 0 <= k < |x| ==> !StartsWith(x[k..], "<" + name, true)
    requires forall m :: 0 <= m < |inner| ==> !StartsWith(inner[m..], "</" + name + ">", true)
    ensures Replace(x + "<" + name + inner + "</" + name + ">" + rest, ElementPattern(name), "")
         == x + Replace(rest, ElementPattern(name), "")
  {
    var open := "<" + name;
    var close := "</" + name + ">";
    forall i | 1 <= i < |open| ensures open[i] != '<' {
      assert open[i] == name[i - 1];
    }
    forall i | 1 <= i < |close| ensures close[i] != '<' {
      assert i == 1 || i == |close| - 1 || close[i] == name[i - 2];
    }
    forall k | 0 <= k < |x| ensures !StartsWith(x[k..] + open, open, true) {
      NoStraddle(x[k..], open);
    }
    forall m | 0 <= m < |inner| ensures !StartsWith((inner + close)[m..], close, true) {
      assert (inner + close)[m..] == inner[m..] + close;
      NoStraddle(inner[m..], close);
    }
    assert x + "<" + name + inner + "</" + name + ">" + rest == x + open + inner + close + rest;
    SpanRemoved(x, open, inner, close, rest, true);
  }

  /** A pattern whose only `<` is its first character cannot begin inside a non-empty text
      that does not begin with it and run on into a copy of itself. */
  lemma NoStraddle(u: string, pat: string)
    requires u != [] && pat != [] && pat[0] == '<'
    requires forall i :: 1 <= i < |pat| ==> pat[i] != '<'
    requires !StartsWith(u, pat, true)
    ensures !StartsWith(u + pat, pat, true)
  {
    if |pat| <= |u| {
      StartsWithExtend(u, pat, pat, true);
    } else {
      LtIgnoresCase(pat[|u|]);
      assert (u + pat)[|u|] == '<';
      if StartsWith(u + pat, pat, true) {
        StartsWithAt(u + pat, pat, true, |u|);
      }
    }
  }

  /** The `i`-th element pass deletes an element of its kind wherever it stands, as
      `ElementRemoved` puts it, and the later passes run on what is left. */
  lemma ElementPassRemoves(i: nat, x: string, inner: string, rest: string)
    requires i < |RemovedElements|
    requires forall k :: 0 <= k < |x| ==> !StartsWith(x[k..], "<" + RemovedElements[i], true)
    requires forall m :: 0 <= m < |inner| ==> !StartsWith(inner[m..], "</" + RemovedElements[i] + ">", true)
    ensures StripElements(x + "<" + RemovedElements[i] + inner + "</" + RemovedElements[i] + ">" + rest, i)
         == StripElements(x + Replace(rest, ElementPattern(RemovedElements[i]), ""), i + 1)
  {
    assert '<' !in RemovedElements[i];
    ElementRemoved(RemovedElements[i], x, inner, rest);
  }

  /** Text before the first `<` of the page comes out of the element passes unchanged. */
  lemma {:induction false} StripElementsKeepsLead(x: string, y: string, i: nat)
    requires i <= |RemovedElements| && '<' !in x
    ensures StripElements(x + y, i) == x + StripElements(y, i)
    decreases |RemovedElements| - i
  {
    if i < |RemovedElements| {
      var p := ElementPattern(RemovedElements[i]);
      forall k | 0 <= k < |x| ensures !CanStart(p, x[k]) {
        LtIgnoresCase(x[k]);
      }
      ReplaceInert(x, y, p, "");
      StripElementsKeepsLead(x, Replace(y, p, ""), i + 1);
    }
  }

  /** Text before the first `<` of the page comes out of the element and comment passes
      unchanged. */
  lemma DeletionPassesKeepLead(x: string, y: string)
    requires '<' !in x
    ensures StripComments(StripElements(x + y, 0)) == x + StripComments(StripElements(y, 0))
  {
    StripElementsKeepsLead(x, y, 0);
    ReplaceInert(x, StripElements(y, 0), CommentPattern, "");
  }

  /** The element passes from the `i`-th on only delete: what survives keeps its order. */
  lemma {:induction false} StripElementsKeepsOrder(s: string, i: nat)
    requires i <= |RemovedElements|
    ensures IsSubsequence(StripElements(s, i), s)
    decreases |RemovedElements| - i
  {
    if i == |RemovedElements| {
      SubsequenceRefl(s);
    } else {
      var p := ElementPattern(RemovedElements[i]);
      var r := Replace(s, p, "");
      DeletionIsSubsequence(s, p);
      StripElementsKeepsOrder(r, i + 1);
      SubsequenceTrans(StripElements(r, i + 1), r, s);
    }
  }

  /** The element and comment passes keep the order of the text they do not delete. */
  lemma DeletionPassesKeepOrder(html: string)
    ensures IsSubsequence(StripComments(StripElements(html, 0)), html)
  {
    var a := StripElements(html, 0);
    StripElementsKeepsOrder(html, 0);
    DeletionIsSubsequence(a, CommentPattern);
    SubsequenceTrans(StripComments(a), a, html);
  }
}
