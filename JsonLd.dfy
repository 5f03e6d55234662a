/** Structured recipe data embedded in a page: the `<script type="application/ld+json">` blocks
    of section 7 of JSON-LD 1.1, scanned in document order for the first node typed `Recipe`. */
module JsonLd {
  import opened Wrappers
  import opened Text
  import opened JsValue

  const ScriptOpen := "<script"
  const TypeAttr := "type=\"application/ld+json\">"
  const ScriptClose := "</script>"

  /** One match of `<script\s+type="application/ld+json">([\s\S]*?)<\/script>` (case-insensitive)
      found by the scan: the captured text and where, relative to the scanned text, the whole
      match ends. */
  datatype Block = Block(content: string, end: nat)

  /** The block whose match begins at the very start of `s`, if any: the opening text, a
      non-empty run of whitespace, the type attribute, then the shortest content up to the
      first closing tag. */
  function BlockAt(s: string): (r: Option<Block>)
    ensures r.Some? ==> |ScriptOpen| < r.value.end <= |s|
  {
    if !StartsWith(s, ScriptOpen, true) then None
    else match AfterOpen(s[|ScriptOpen|..])
      case None => None
      case Some(b) => Some(Block(b.content, b.end + |ScriptOpen|))
  }

  /** The rest of a block after `<script`: whitespace (at least one character), the type
      attribute, then the body. */
  function AfterOpen(t: string): (r: Option<Block>)
    ensures r.Some? ==> 0 < r.value.end <= |t|
  {
    var w := RunLength(t, IsSpace);
    if w == 0 || !StartsWith(t[w..], TypeAttr, true) then None
    else match BlockBody(t[w + |TypeAttr|..])
      case None => None
      case Some(b) => Some(Block(b.content, b.end + w + |TypeAttr|))
  }

  /** `([\s\S]*?)<\/script>`: the shortest content followed by a closing tag. */
  function BlockBody(u: string): (r: Option<Block>)
    ensures r.Some? ==> |ScriptClose| <= r.value.end <= |u|
    ensures r.Some? ==> r.value.content == u[..r.value.end - |ScriptClose|]
                        && StartsWith(u[r.value.end - |ScriptClose|..], ScriptClose, true)
                        && forall j :: 0 <= j < r.value.end - |ScriptClose| ==> !StartsWith(u[j..], ScriptClose, true)
    ensures r.None? ==> forall j :: 0 <= j <= |u| ==> !StartsWith(u[j..], ScriptClose, true)
  {
    match Find(u, ScriptClose, true)
    case None => None
    case Some(k) => Some(Block(u[..k], k + |ScriptClose|))
  }

  /** Every block a matcher reports lies within the text and is not empty. */
  ghost predicate Sound(at: string -> Option<Block>) {
    forall x :: at(x).Some? ==> 0 < at(x).value.end <= |x|
  }

  lemma BlockAtSound()
    ensures Sound(BlockAt)
  {
  }

  /** `regex.exec` with `lastIndex` at `from`: where the leftmost match of `at` at or after
      `from` begins, and the match. The scan is stated for any matcher; the worker's is
      `BlockAt`. */
  function NextBlock(s: string, from: nat, at: string -> Option<Block>): (r: Option<(nat, Block)>)
    ensures r.Some? ==> from <= r.value.0 < |s| && at(s[r.value.0..]) == Some(r.value.1)
    decreases |s| - from
  {
    if from >= |s| then None
    else match at(s[from..])
      case Some(b) => Some((from, b))
      case None => NextBlock(s, from + 1, at)
  }

  /** The match found is the leftmost one, and none is found only when there is none. */
  lemma {:induction false} NextBlockIsLeftmost(s: string, from: nat, at: string -> Option<Block>)
    ensures NextBlock(s, from, at).Some? ==> forall j :: from <= j < NextBlock(s, from, at).value.0 ==> at(s[j..]).None?
    ensures NextBlock(s, from, at).None? ==> forall j :: from <= j < |s| ==> at(s[j..]).None?
    decreases |s| - from
  {
    if from < |s| && at(s[from..]).None? {
      NextBlockIsLeftmost(s, from + 1, at);
    }
  }

  /** The captured texts of all matches from `from` on, in document order, each search
      resuming where the previous match ended. */
  function Blocks(s: string, from: nat, at: string -> Option<Block>): (r: seq<string>)
    requires Sound(at)
    decreases |s| - from
  {
    match NextBlock(s, from, at)
    case None => []
    case Some(m) => [m.1.content] + Blocks(s, m.0 + m.1.end, at)
  }

  /** `t === 'Recipe' || (Array.isArray(t) && t.includes('Recipe'))` for `t = v['@type']`. */
  predicate IsRecipeType(t: Option<Json>) {
    t == Some(Str("Recipe")) || (t.Some? && t.value.Array? && Str("Recipe") in t.value.items)
  }

  /** The `@type` test applied to one value; it throws on `null`. */
  function TypeTest(v: Json): (r: Outcome<bool>)
    ensures r.TypeError? <==> v.Null?
    ensures r == Ok(true) <==> v.Object? && IsRecipeType(Lookup(v.members, "@type"))
  {
    match Get(v, "@type")
    case TypeError => TypeError
    case Ok(t) => Ok(IsRecipeType(t))
  }

  /** `items.find(...)` with the `@type` test: the first item that passes, `undefined` when none
      does, and a `TypeError` when a `null` item is reached first. */
  function FindRecipe(items: seq<Json>): (r: Outcome<Option<Json>>)
    decreases |items|
  {
    if items == [] then Ok(None)
    else match TypeTest(items[0])
      case TypeError => TypeError
      case Ok(true) => Ok(Some(items[0]))
      case Ok(false) => FindRecipe(items[1..])
  }

  /** What one parsed block yields: the `@graph` unwrap when it is truthy, the array search,
      then the `@type` test on the value itself. `TypeError` is the throw the scan catches. */
  function Inspect(data: Json): (r: Outcome<Option<Json>>)
  {
    match Get(data, "@graph")
    case TypeError => TypeError
    case Ok(graph) =>
      var d := if Truthy(graph) then graph.value else data;
      InspectValue(d)
  }

  /** `Inspect` after the `@graph` step. */
  function InspectValue(d: Json): (r: Outcome<Option<Json>>)
  {
    var found := if d.Array? then FindRecipe(d.items) else Ok(None);
    if found.TypeError? then TypeError
    else if Truthy(found.value) then found
    else match TypeTest(d)
      case TypeError => TypeError
      case Ok(true) => Ok(Some(d))
      case Ok(false) => Ok(None)
  }

  /** The recipe one block's text yields; a parse failure and a throw both yield nothing. */
  function BlockRecipe(text: string, parse: string -> Option<Json>): (r: Option<Json>)
  {
    match parse(text)
    case None => None
    case Some(data) =>
      match Inspect(data)
      case TypeError => None
      case Ok(found) => found
  }

  /** The first block, in order, that yields a recipe; `attempt` says what one block yields. */
  function FirstRecipe(blocks: seq<string>, attempt: string -> Option<Json>): (r: Option<Json>)
    decreases |blocks|
  {
    if blocks == [] then None
    else match attempt(blocks[0])
      case Some(recipe) => Some(recipe)
      case None => FirstRecipe(blocks[1..], attempt)
  }

  /** The captured texts of the page's blocks, in document order. */
  function PageBlocks(html: string): (r: seq<string>)
  {
    BlockAtSound();
    Blocks(html, 0, BlockAt)
  }

  /** The structured recipe of a page, `None` standing for `null`. */
  function JsonLdRecipe(html: string, parse: string -> Option<Json>): (r: Option<Json>)
  {
    FirstRecipe(PageBlocks(html), t => BlockRecipe(t, parse))
  }

  /** `extractJsonLdRecipe`: the scan with the worker's pattern, each block evaluated by the
      `try` around it. */
  method ExtractJsonLdRecipe(html: string, parse: string -> Option<Json>) returns (recipe: Option<Json>)
    ensures recipe == JsonLdRecipe(html, parse)
  {
    BlockAtSound();
    recipe := Scan(html, BlockAt, t => BlockRecipe(t, parse));
  }

  /** The loop of the scan: a global regex whose `lastIndex` moves past each match; the loop
      returns the first block that yields a recipe. */
  method Scan(html: string, at: string -> Option<Block>, attempt: string -> Option<Json>) returns (recipe: Option<Json>)
    requires Sound(at)
    ensures recipe == FirstRecipe(Blocks(html, 0, at), attempt)
  {
    var lastIndex: nat := 0;
    while true
      invariant FirstRecipe(Blocks(html, lastIndex, at), attempt) == FirstRecipe(Blocks(html, 0, at), attempt)
      decreases |html| - lastIndex
    {
      var m := NextBlock(html, lastIndex, at);
      if m.None? {
        BlocksEnd(html, lastIndex, at);
        return None;
      }
      var (start, block) := m.value;
      ScanStep(html, lastIndex, at, start, block, attempt);
      lastIndex := start + block.end;
      var found := attempt(block.content);
      if found.Some? {
        return found;
      }
    }
  }

  /** The `try`/`catch` around one block: a parse failure or a throw yields nothing. */
  method TryBlock(text: string, parse: string -> Option<Json>) returns (found: Option<Json>)
    ensures found == BlockRecipe(text, parse)
  {
    var parsed := parse(text);
    if parsed.None? {
      return None;
    }
    var outcome := InspectParsed(parsed.value);
    if outcome.TypeError? {
      return None;
    }
    return outcome.value;
  }

  /** The body of the `try`: `data` is reassigned by the `@graph` step, and the method returns
      as soon as a recipe is found. `TypeError` stands for the throw the `catch` swallows. */
  method InspectParsed(parsed: Json) returns (r: Outcome<Option<Json>>)
    ensures r == Inspect(parsed)
  {
    var data := parsed;
    var graph := Get(data, "@graph");
    if graph.TypeError? {
      return TypeError;
    }
    if Truthy(graph.value) {
      data := graph.value.value;
    }
    if data.Array? {
      var found := FindRecipe(data.items);
      if found.TypeError? {
        return TypeError;
      }
      if Truthy(found.value) {
        return found;
      }
    }
    var typed := TypeTest(data);
    if typed.TypeError? {
      return TypeError;
    }
    if typed.value {
      return Ok(Some(data));
    }
    return Ok(None);
  }

  /** No further match: no further block. */
  lemma BlocksEnd(html: string, from: nat, at: string -> Option<Block>)
    requires Sound(at) && NextBlock(html, from, at).None?
    ensures Blocks(html, from, at) == []
  {
  }

  /** One round of the scan from `from`: the first block decides, or the scan resumes after
      it, strictly further on. */
  lemma ScanStep(html: string, from: nat, at: string -> Option<Block>, i: nat, b: Block, attempt: string -> Option<Json>)
    requires Sound(at) && NextBlock(html, from, at) == Some((i, b))
    ensures from < i + b.end <= |html|
    ensures FirstRecipe(Blocks(html, from, at), attempt) ==
        (if attempt(b.content).Some? then attempt(b.content) else FirstRecipe(Blocks(html, i + b.end, at), attempt))
  {
    MatchWithin(html, from, at, i, b);
    BlocksUnfold(html, from, at, i, b);
    FirstRecipeCons(b.content, Blocks(html, i + b.end, at), attempt);
  }

  lemma MatchWithin(s: string, from: nat, at: string -> Option<Block>, i: nat, b: Block)
    requires Sound(at) && NextBlock(s, from, at) == Some((i, b))
    ensures from <= i && 0 < b.end && i + b.end <= |s|
  {
    assert at(s[i..]) == Some(b);
  }

  lemma BlocksUnfold(s: string, from: nat, at: string -> Option<Block>, i: nat, b: Block)
    requires Sound(at) && NextBlock(s, from, at) == Some((i, b))
    ensures Blocks(s, from, at) == [b.content] + Blocks(s, i + b.end, at)
  {
  }

  lemma FirstRecipeCons(text: string, rest: seq<string>, attempt: string -> Option<Json>)
    ensures FirstRecipe([text] + rest, attempt) == (if attempt(text).Some? then attempt(text) else FirstRecipe(rest, attempt))
  {
    assert ([text] + rest)[0] == text && ([text] + rest)[1..] == rest;
  }

  // ---------------------------------------------------------------------------
  // `find` over the items of an array

  /** `find` returns the first item whose test passes when every item before it fails the test. */
  lemma {:induction false} FindRecipeAt(items: seq<Json>, i: nat)
    requires i < |items| && TypeTest(items[i]) == Ok(true)
    requires forall j :: 0 <= j < i ==> TypeTest(items[j]) == Ok(false)
    ensures FindRecipe(items) == Ok(Some(items[i]))
    decreases i
  {
    if i > 0 {
      FindRecipeAt(items[1..], i - 1);
    }
  }

  /** A `null` item reached before any item that passes makes `find` throw. */
  lemma {:induction false} FindRecipeThrows(items: seq<Json>, i: nat)
    requires i < |items| && items[i].Null?
    requires forall j :: 0 <= j < i ==> TypeTest(items[j]) == Ok(false)
    ensures FindRecipe(items) == TypeError
    decreases i
  {
    if i > 0 {
      FindRecipeThrows(items[1..], i - 1);
    }
  }

  /** `find` returns `undefined` exactly when every item fails the test. */
  lemma {:induction false} FindRecipeNone(items: seq<Json>)
    ensures FindRecipe(items) == Ok(None) <==> forall j :: 0 <= j < |items| ==> TypeTest(items[j]) == Ok(false)
    decreases |items|
  {
    if items != [] {
      FindRecipeNone(items[1..]);
      assert forall j :: 1 <= j < |items| ==> items[1..][j - 1] == items[j];
    }
  }

  /** What `find` returns is one of the items, and it passes the test. */
  lemma {:induction false} FindRecipeFound(items: seq<Json>)
    requires FindRecipe(items).Ok? && FindRecipe(items).value.Some?
    ensures FindRecipe(items).value.value in items && TypeTest(FindRecipe(items).value.value) == Ok(true)
    decreases |items|
  {
    if TypeTest(items[0]) == Ok(false) {
      FindRecipeFound(items[1..]);
    }
  }

  // ---------------------------------------------------------------------------
  // What one block yields

  /** Whatever one block yields passes the `@type` test: it is an object typed `Recipe`. */
  lemma InspectIsRecipe(data: Json)
    requires Inspect(data).Ok? && Inspect(data).value.Some?
    ensures TypeTest(Inspect(data).value.value) == Ok(true)
  {
    var d := if Truthy(Get(data, "@graph").value) then Get(data, "@graph").value.value else data;
    if d.Array? && FindRecipe(d.items).Ok? && FindRecipe(d.items).value.Some? {
      FindRecipeFound(d.items);
    }
  }

  lemma BlockRecipeIsRecipe(text: string, parse: string -> Option<Json>)
    requires BlockRecipe(text, parse).Some?
    ensures TypeTest(BlockRecipe(text, parse).value) == Ok(true)
  {
    InspectIsRecipe(parse(text).value);
  }

  /** A block that does not parse, or whose inspection throws, yields nothing. */
  lemma BrokenBlockYieldsNothing(text: string, parse: string -> Option<Json>)
    requires parse(text).None? || Inspect(parse(text).value).TypeError?
    ensures BlockRecipe(text, parse).None?
  {
  }

  /** A truthy `@graph` replaces the parsed value: the value around it is not inspected. */
  lemma GraphReplacesValue(data: Json, graph: Json)
    requires data.Object? && Lookup(data.members, "@graph") == Some(graph) && Truthy(Some(graph))
    ensures Inspect(data) == InspectValue(graph)
  {
  }

  /** Without a truthy `@graph`, the parsed value itself is inspected. */
  lemma NoGraphKeepsValue(data: Json)
    requires !data.Null? && !Truthy(Get(data, "@graph").value)
    ensures Inspect(data) == InspectValue(data)
  {
  }

  // ---------------------------------------------------------------------------
  // The first block that yields a recipe

  /** The first block that yields something decides, whatever the blocks after it. */
  lemma {:induction false} FirstRecipeAt(blocks: seq<string>, attempt: string -> Option<Json>, i: nat)
    requires i < |blocks| && attempt(blocks[i]).Some?
    requires forall j :: 0 <= j < i ==> attempt(blocks[j]).None?
    ensures FirstRecipe(blocks, attempt) == attempt(blocks[i])
    decreases i
  {
    if i > 0 {
      FirstRecipeAt(blocks[1..], attempt, i - 1);
    }
  }

  /** Nothing is found exactly when no block yields anything. */
  lemma {:induction false} FirstRecipeNone(blocks: seq<string>, attempt: string -> Option<Json>)
    ensures FirstRecipe(blocks, attempt).None? <==> forall j :: 0 <= j < |blocks| ==> attempt(blocks[j]).None?
    decreases |blocks|
  {
    if blocks != [] {
      FirstRecipeNone(blocks[1..], attempt);
      assert forall j :: 1 <= j < |blocks| ==> blocks[1..][j - 1] == blocks[j];
    }
  }

  /** What is found is what some block yields. */
  lemma {:induction false} FirstRecipeFound(blocks: seq<string>, attempt: string -> Option<Json>)
    requires FirstRecipe(blocks, attempt).Some?
    ensures exists i :: 0 <= i < |blocks| && attempt(blocks[i]) == FirstRecipe(blocks, attempt)
    decreases |blocks|
  {
    if attempt(blocks[0]).None? {
      FirstRecipeFound(blocks[1..], attempt);
      var i :| 0 <= i < |blocks[1..]| && attempt(blocks[1..][i]) == FirstRecipe(blocks[1..], attempt);
      assert blocks[1..][i] == blocks[i + 1];
    } else {
      assert attempt(blocks[0]) == FirstRecipe(blocks, attempt);
    }
  }

  // ---------------------------------------------------------------------------
  // The scan of a page

  /** A recipe found in a page is an object whose `@type` is `Recipe` or a list holding it. */
  lemma JsonLdRecipeIsRecipe(html: string, parse: string -> Option<Json>)
    requires JsonLdRecipe(html, parse).Some?
    ensures JsonLdRecipe(html, parse).value.Object?
    ensures IsRecipeType(Lookup(JsonLdRecipe(html, parse).value.members, "@type"))
  {
    BlockAtSound();
    var attempt := t => BlockRecipe(t, parse);
    var blocks := PageBlocks(html);
    FirstRecipeFound(blocks, attempt);
    var i :| 0 <= i < |blocks| && attempt(blocks[i]) == FirstRecipe(blocks, attempt);
    BlockRecipeIsRecipe(blocks[i], parse);
  }

  /** Blocks are examined in document order: the first block that yields a recipe is the
      result, whatever the blocks after it hold. */
  lemma JsonLdRecipeFirst(html: string, parse: string -> Option<Json>, i: nat)
    requires i < |PageBlocks(html)| && BlockRecipe(PageBlocks(html)[i], parse).Some?
    requires forall j :: 0 <= j < i ==> BlockRecipe(PageBlocks(html)[j], parse).None?
    ensures JsonLdRecipe(html, parse) == BlockRecipe(PageBlocks(html)[i], parse)
  {
    FirstRecipeAt(PageBlocks(html), t => BlockRecipe(t, parse), i);
  }

  /** The result is `null` exactly when no block yields a recipe: none that fails to parse,
      throws, or holds no recipe stops the scan. */
  lemma JsonLdRecipeNull(html: string, parse: string -> Option<Json>)
    ensures JsonLdRecipe(html, parse).None? <==>
      forall j :: 0 <= j < |PageBlocks(html)| ==> BlockRecipe(PageBlocks(html)[j], parse).None?
  {
    FirstRecipeNone(PageBlocks(html), t => BlockRecipe(t, parse));
  }

  /** A page in which no block begins anywhere yields `null`. */
  lemma NoBlockNoRecipe(html: string, parse: string -> Option<Json>)
    requires forall j :: 0 <= j < |html| ==> BlockAt(html[j..]).None?
    ensures JsonLdRecipe(html, parse).None?
  {
    NextBlockIsLeftmost(html, 0, BlockAt);
    assert NextBlock(html, 0, BlockAt).None?;
    BlockAtSound();
  }

  // ---------------------------------------------------------------------------
  // Examples

  /** A `null` item before the recipe in an array makes the whole block throw. */
  lemma NullItemAbandonsBlock()
    ensures Inspect(Array([Null, Object([("@type", Str("Recipe"))])])) == TypeError
  {
    FindRecipeThrows([Null, Object([("@type", Str("Recipe"))])], 0);
  }

  /** A truthy `@graph`, even an empty list, hides a recipe typed at the top level. */
  lemma GraphHidesTopLevelRecipe()
    ensures Inspect(Object([("@type", Str("Recipe")), ("@graph", Array([]))])) == Ok(None)
  {
  }

  /** A `@type` list that holds `Recipe` passes the test. */
  lemma RecipeInTypeList()
    ensures TypeTest(Object([("@type", Array([Str("WebPage"), Str("Recipe")]))])) == Ok(true)
  {
    assert Array([Str("WebPage"), Str("Recipe")]).items[1] == Str("Recipe");
  }
}
