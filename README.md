# Recipe formatter worker: request path, page reduction and reply clean-up

This project is a Dafny model of the request path of the recipe formatter's Cloudflare worker
(`worker/src/index.js`), with proofs about it. The endpoint `/api/format-recipe` works in four steps:

1. It reads a JSON body holding a `url` or a `text`.
2. It turns that into a recipe text. A `text` is trimmed. A `url` is fetched, and the page is
   reduced either to its JSON-LD recipe record (labelled and serialised) or to its cleaned
   visible text.
3. It sends the recipe text to the model.
4. It returns the model's HTML with any markdown code fences removed.

The modules follow the source:

| module | models |
|---|---|
| `Text` | the character classes of JavaScript regular expressions (`\s`, ASCII-only case folding under `i`), `trim`, prefix search |
| `Patterns` | every fixed regular expression of the cleaner, each as a matcher at one position, and `String.prototype.replace` with a global expression as one leftmost-first driver |
| `Clean` | `cleanHTML`: the nine element passes, the comment, tag, entity and whitespace passes, `trim`, then the 20000-unit bound |
| `JsValue` | parsed JSON values, property access (`TypeError` on `null`, last duplicate key wins) and truthiness |
| `JsonLd` | `extractJsonLdRecipe`: the scan over `<script type="application/ld+json">` blocks, the `@graph` unwrap, the array `find` and the `@type` test |
| `Fences` | the two replacements of line 510, which strip a leading "```html" fence and a trailing "```" fence |
| `Handler` | `handleFormatRecipe` with the JSON-LD-or-clean branch of `fetchAndClean` |

The JSON-LD scan keeps the source's loop. `ExtractJsonLdRecipe` runs the method `Scan`, a
`while` loop over the regular expression's `lastIndex`, proved equal to `FirstRecipe` over the
page's blocks. The loop evaluates each block with the function `BlockRecipe`, which it receives
as a parameter. The imperative `try` body is modelled separately: `TryBlock` and
`InspectParsed` are methods with the source's early returns and the reassignment of `data`,
proved equal to `BlockRecipe` and `Inspect`. The loop does not call `TryBlock`. The lemmas
state the properties of these functions. The cleaner, the fence strip and the handler are chains
of expressions in the source, and they are modelled as functions.

## Model

| member | source | states |
|---|---|---|
| `Handler.HandleFormatRecipe` | worker/src/index.js:354-382 | every answer is 200, 400 or 500; it is 200 exactly when the body is the model's HTML; a 400 carries one of the worker's two messages |
| `Handler.MissingInputRejected` | worker/src/index.js:357-361 | the missing-input 400 is given exactly when neither `url` nor `text` is truthy |
| `Handler.TextTakesPrecedence` | worker/src/index.js:365-369 | with a truthy string `text`, the answer does not depend on what fetching the `url` would give |
| `Handler.TextIsContent` | worker/src/index.js:365-366 | with a truthy string `text`, the recipe text is that string trimmed |
| `Handler.BlankTextRejected` | worker/src/index.js:359-373 | a whitespace-only `text` passes the first check but ends in the no-content 400 |
| `Handler.BlankTrimsToEmpty` | worker/src/index.js:366 | trimming whitespace leaves nothing |
| `Handler.UrlFetched` | worker/src/index.js:367-369 | without a truthy `text` the page is fetched; a failed fetch answers 500 with its message, a fetched page answers with what its recipe text leads to |
| `Handler.UnreadableBodyFails` | worker/src/index.js:356-357 | a body that is not JSON, or is `null`, ends in the 500 of the `catch` |
| `Handler.ErrorMessage` | worker/src/index.js:380 | the error text is never empty and is the exception's message whenever that message is non-empty |
| `Handler.Respond` | worker/src/index.js:371-377 | empty recipe text is answered with the no-content 400 and nothing else is; non-empty text with a reply is answered 200 with the reply's fences stripped, and every 200 is such an answer; a 500 comes exactly from a failed model call |
| `Handler.FetchAndClean` | worker/src/index.js:404-411 | the recipe text of a fetched page; `StructuredDataVerbatim` and `CleanedTextFallback` give its two cases |
| `Handler.StructuredDataVerbatim` | worker/src/index.js:404-408 | a page with a JSON-LD recipe gives the label followed by the serialisation, uncleaned and unbounded |
| `Handler.CleanedTextFallback` | worker/src/index.js:410-411 | a page without one gives its cleaned text, which is at most 20000 units plus the marker |
| `Handler.StructuredDataReachesModel` | worker/src/index.js:371-373 | a page with a JSON-LD recipe is never answered with the no-content 400 |
| `JsValue.Lookup` | worker/src/index.js:357 | the value of a key is the last member with that key; no value means no member has it |
| `JsValue.Get` | worker/src/index.js:421 | property access throws exactly on `null`, reads the members of an object, and is `undefined` on every other value |
| `JsValue.TruthyContainers` | worker/src/index.js:421 | arrays and objects are truthy even when empty; `null` and `undefined` never are |
| `JsValue.LookupLastWins` | worker/src/index.js:419 | a later duplicate key hides an earlier one |
| `JsonLd.ExtractJsonLdRecipe` | worker/src/index.js:414-439 | the imperative extraction returns the first recipe in document order (`JsonLdRecipe`) |
| `JsonLd.Scan` | worker/src/index.js:416-438 | the `exec` loop returns what the first block that yields a recipe yields, or `null` when none does |
| `JsonLd.TryBlock` | worker/src/index.js:418-436 | one `try` body with its `catch` equals what the block yields; parse failures and throws give nothing |
| `JsonLd.InspectParsed` | worker/src/index.js:419-433 | the reassigning body of the `try` equals the value inspection `Inspect` |
| `JsonLd.JsonLdRecipe` | worker/src/index.js:414-439 | the recipe of a page; `JsonLdRecipeFirst`, `JsonLdRecipeNull` and `JsonLdRecipeIsRecipe` state which block it comes from, when it is `null` and what it is |
| `JsonLd.PageBlocks` | worker/src/index.js:415-417 | the captured texts of the page's blocks in document order; `NextBlockIsLeftmost` and `ScanStep` give how they are found |
| `JsonLd.Blocks` | worker/src/index.js:417 | the captured texts from a `lastIndex` on; `BlocksEnd` and `ScanStep` state how the list ends and how it goes on |
| `JsonLd.FirstRecipe` | worker/src/index.js:417-438 | the first block that yields something; `FirstRecipeAt`, `FirstRecipeNone` and `FirstRecipeFound` state it |
| `JsonLd.BlockRecipe` | worker/src/index.js:418-436 | what one block yields; `BrokenBlockYieldsNothing` and `BlockRecipeIsRecipe` state it |
| `JsonLd.Inspect` | worker/src/index.js:421-433 | what a parsed block yields; `GraphReplacesValue`, `NoGraphKeepsValue` and `InspectIsRecipe` state it |
| `JsonLd.InspectValue` | worker/src/index.js:425-433 | the array search and then the `@type` test; `InspectIsRecipe` states what it yields |
| `JsonLd.FindRecipe` | worker/src/index.js:426-428 | `find` with the `@type` test; `FindRecipeAt`, `FindRecipeThrows`, `FindRecipeNone` and `FindRecipeFound` state it |
| `JsonLd.AfterOpen` | worker/src/index.js:415 | the rest of a block after `<script`: a match ends within the text |
| `JsonLd.BlockAt` | worker/src/index.js:415 | a block match reaches past `<script` and stays within the text |
| `JsonLd.BlockBody` | worker/src/index.js:415 | the lazy body stops at the first closing tag: the content is everything before it, no closing tag occurs earlier, and no match exists when no closing tag follows |
| `JsonLd.NextBlock` | worker/src/index.js:417 | `exec` reports a match at or after `lastIndex` that lies inside the text |
| `JsonLd.NextBlockIsLeftmost` | worker/src/index.js:417 | the match reported is the leftmost one, and none is reported only when none exists |
| `JsonLd.BlockAtSound` | worker/src/index.js:415 | every block match is non-empty and within the text, so the scan always advances |
| `JsonLd.BlocksEnd` | worker/src/index.js:417 | the loop stops when `exec` finds nothing |
| `JsonLd.ScanStep` | worker/src/index.js:417-437 | one round either returns the block's recipe or resumes strictly further on |
| `JsonLd.TypeTest` | worker/src/index.js:427 | the `@type` test throws exactly on `null` and passes exactly for an object whose `@type` is "Recipe" or a list holding it |
| `JsonLd.FindRecipeAt` | worker/src/index.js:426-428 | `find` returns the first item that passes when all items before it fail |
| `JsonLd.FindRecipeThrows` | worker/src/index.js:426-428 | a `null` item reached before any passing item makes `find` throw |
| `JsonLd.FindRecipeNone` | worker/src/index.js:426-429 | `find` gives `undefined` exactly when every item fails the test |
| `JsonLd.FindRecipeFound` | worker/src/index.js:426-429 | what `find` returns is one of the items, and it passes the test |
| `JsonLd.InspectIsRecipe` | worker/src/index.js:421-433 | whatever a parsed block yields passes the `@type` test |
| `JsonLd.BlockRecipeIsRecipe` | worker/src/index.js:418-436 | the same for a block's text |
| `JsonLd.BrokenBlockYieldsNothing` | worker/src/index.js:434-436 | a block that does not parse, or whose inspection throws, yields nothing, and the scan goes on |
| `JsonLd.GraphReplacesValue` | worker/src/index.js:421-423 | a truthy `@graph` replaces the parsed value |
| `JsonLd.NoGraphKeepsValue` | worker/src/index.js:421-423 | without a truthy `@graph` the parsed value itself is inspected |
| `JsonLd.FirstRecipeAt` | worker/src/index.js:417-437 | the first block that yields something decides, whatever follows it |
| `JsonLd.FirstRecipeNone` | worker/src/index.js:417-438 | nothing is found exactly when no block yields anything |
| `JsonLd.FirstRecipeFound` | worker/src/index.js:429-432 | what is found is what some block yields |
| `JsonLd.JsonLdRecipeIsRecipe` | worker/src/index.js:425-433 | a recipe found in a page is an object typed "Recipe", either directly or in a `@type` list |
| `JsonLd.JsonLdRecipeFirst` | worker/src/index.js:417-437 | page blocks are tried in document order; the first that yields a recipe is the result |
| `JsonLd.JsonLdRecipeNull` | worker/src/index.js:438 | the result is `null` exactly when no block of the page yields a recipe |
| `JsonLd.NoBlockNoRecipe` | worker/src/index.js:415-438 | a page in which no block begins yields `null` |
| `JsonLd.NullItemAbandonsBlock` | worker/src/index.js:426-427 | example: a `null` array item before the recipe makes the whole block throw |
| `JsonLd.GraphHidesTopLevelRecipe` | worker/src/index.js:421-433 | example: a truthy `@graph`, even an empty list, hides a recipe typed at the top level |
| `JsonLd.RecipeInTypeList` | worker/src/index.js:427 | example: a `@type` list holding "Recipe" passes |
| `Patterns.MatchLength` | worker/src/index.js:443-459 | a match of any cleaner expression is non-empty, within the text, and begins with a character the expression can begin with |
| `Patterns.SpanMatch` | worker/src/index.js:443-452 | a lazy span ends at the first closing text after its opening; none matches when no closing text follows |
| `Patterns.TagMatch` | worker/src/index.js:453 | a tag match starts at `<` and is at least three characters |
| `Patterns.TagMatchIff` | worker/src/index.js:453 | `<[^>]+>` matches exactly a `<`, one or more characters other than `>`, then `>` |
| `Patterns.NoTagAtLt` | worker/src/index.js:453 | after a `<` that starts no tag, no `>` follows, or one follows at once |
| `Patterns.NumericRefMatch` | worker/src/index.js:458 | a numeric reference match starts at `&` and is at least four characters |
| `Patterns.NumericRefMatchIff` | worker/src/index.js:458 | `&#\d+;` matches exactly `&#`, one or more ASCII digits, then `;` |
| `Patterns.SpacesMatch` | worker/src/index.js:459 | `\s+` takes the whole whitespace run and matches nothing at a non-space |
| `Patterns.Replace` | worker/src/index.js:442-459 | `replace` with a global expression; `ReplaceInert`, `ReplaceNoMatch`, `ReplaceMatch` and `ReplaceSkip` state how it copies and replaces |
| `Patterns.ReplaceNoMatch` | worker/src/index.js:442-459 | text at none of whose positions a match begins is copied, and the search goes on after it |
| `Patterns.ReplaceChars` | worker/src/index.js:442-459 | a replace introduces no character other than those of its replacement text |
| `Patterns.ReplaceInert` | worker/src/index.js:442-459 | text where no match can begin is copied, and the search goes on after it |
| `Patterns.ReplaceMatch` | worker/src/index.js:442-459 | a match at the start is replaced and the search resumes right after it |
| `Patterns.ReplaceSkip` | worker/src/index.js:442-459 | a character at which no match begins is copied |
| `Patterns.DeletionIsSubsequence` | worker/src/index.js:443-452 | a pass that replaces by nothing only deletes, so the text it keeps stays in order |
| `Patterns.SpanRemoved` | worker/src/index.js:443-452 | a span is deleted whole, closing text included, when no opening begins before it and no closing text begins inside it; what precedes it is kept |
| `Patterns.SpanMatchWhole` | worker/src/index.js:443-452 | a span's match runs exactly to the end of its first closing text |
| `Patterns.CloseFound` | worker/src/index.js:443-452 | the search for the closing text stops at the first one |
| `Patterns.SubsequenceTrans` | worker/src/index.js:443-452 | deleting twice is deleting, so order is kept across consecutive passes |
| `Clean.CleanHtml` | worker/src/index.js:441-468 | the cleaned page; `CleanedTextFallback`, `Bound`, `NormalizeSpacing` and `NormalizeNoTag` state its length, spacing and absence of tags |
| `Clean.Normalize` | worker/src/index.js:442-460 | the chain of replaces and the trim; `NormalizeSpacing` and `NormalizeNoTag` state what comes out |
| `Clean.StripElements` | worker/src/index.js:443-451 | the nine element passes in order; `ElementPassRemoves`, `StripElementsKeepsOrder`, `StripElementsKeepsLead` and `StripElementsChars` state them |
| `Clean.StripComments` | worker/src/index.js:452 | the comment pass; `DeletionPassesKeepOrder` and `DeletionPassesKeepLead` state it together with the element passes |
| `Clean.StripTags` | worker/src/index.js:453 | the tag pass; `StripTagsNoTag` and `StripTagsSeparates` state it |
| `Clean.DecodeEntities` | worker/src/index.js:454-458 | the five entity passes; `DecodingKeepsNoTag`, `DecodeWithoutAmp` and `NormalizeNoTag` state them |
| `Clean.CollapseSpaces` | worker/src/index.js:459 | the whitespace pass; `CollapseNoAdjacent` states it |
| `Text.IsSpace` | worker/src/index.js:459-460 | the whitespace set that `\s` and `trim` share |
| `Text.Trim` | worker/src/index.js:366 | the result is a slice of the text with only whitespace cut from both ends, and it neither starts nor ends with whitespace |
| `Clean.Bound` | worker/src/index.js:462-465 | the result is at most 20000 units plus the marker; a short text is unchanged; a long one is its first 20000 units followed by the marker |
| `Clean.BoundIdempotent` | worker/src/index.js:463-465 | bounding twice is bounding once |
| `Clean.NormalizeSpacing` | worker/src/index.js:459-460 | the text before the bound neither starts nor ends with whitespace and has no two whitespace characters in a row |
| `Clean.CollapseNoAdjacent` | worker/src/index.js:459 | after collapsing, no two whitespace characters are adjacent |
| `Clean.TrimSpacing` | worker/src/index.js:460 | trimming keeps that property and removes the end spaces |
| `Clean.StripTagsNoTag` | worker/src/index.js:453 | after the tag pass no tag is left anywhere |
| `Clean.StripTagsSeparates` | worker/src/index.js:453 | each tag becomes one space, so the words on either side stay apart |
| `Clean.ReplaceKeepsNoTag` | worker/src/index.js:454-459 | a later pass whose replacement has no angle brackets cannot create a tag |
| `Clean.DecodingKeepsNoTag` | worker/src/index.js:454-459 | the `&nbsp;`, `&amp;`, numeric-reference and whitespace passes create no tag |
| `Clean.NormalizeNoTag` | worker/src/index.js:442-460 | a page comes out with no tag in it whenever the `&lt;` and `&gt;` passes find nothing to decode; no other pass after the tag pass can make a tag |
| `Clean.ReplaceAbsent` | worker/src/index.js:456-457 | a literal that occurs nowhere is replaced nowhere |
| `Clean.DecodeWithoutAmp` | worker/src/index.js:454-458 | without an `&` no entity pass changes anything |
| `Clean.StripElementsChars` | worker/src/index.js:443-451 | the element passes introduce no character |
| `Clean.ElementRemoved` | worker/src/index.js:443-451 | an element is deleted with its content wherever it stands: the content may hold any markup but its own closing tag, the text before it is kept when no `<name` opens there, and the pass goes on after it |
| `Clean.ElementPassRemoves` | worker/src/index.js:443-451 | in the chain, the pass of each removed element deletes such an element, and the later passes run on what is left |
| `Clean.StripElementsKeepsOrder` | worker/src/index.js:443-451 | the element passes only delete, so the text they keep stays in order |
| `Clean.DeletionPassesKeepOrder` | worker/src/index.js:443-452 | the element and comment passes only delete: what remains is the page with characters removed, in the page's order |
| `Clean.StripElementsKeepsLead` | worker/src/index.js:443-451 | text before the page's first `<` comes out of the element passes unchanged |
| `Clean.DeletionPassesKeepLead` | worker/src/index.js:443-452 | text before the page's first `<` comes out of the element and comment passes unchanged |
| `Fences.LeadingFence` | worker/src/index.js:510 | a leading fence is found exactly when the reply starts with "```htm" in any casing; the text after it begins after the whole whitespace run |
| `Fences.StripLeadingFence` | worker/src/index.js:510 | a reply without the fence is unchanged; otherwise the result is a suffix at least six units shorter that starts with a non-space |
| `Fences.TailStart` | worker/src/index.js:510 | a reported match of `\n?\s*```\s*$` is a whitespace run, "```" and trailing whitespace |
| `Fences.StripTrailingFence` | worker/src/index.js:510 | the result is a prefix of the reply |
| `Fences.StripFences` | worker/src/index.js:510 | the clean-up never lengthens the reply |
| `Fences.TailAtForcesEnd` | worker/src/index.js:510 | a trailing-fence match always ends at the last non-space character, which closes a "```" |
| `Fences.TrailingClosedForm` | worker/src/index.js:510 | the trailing replacement removes the final "```" and all whitespace around it when the trimmed reply ends with "```", and changes nothing otherwise |
| `Fences.TailStartFrom` | worker/src/index.js:510 | the search finds the first matching position |
| `Fences.TailStartNone` | worker/src/index.js:510 | the search finds nothing when no position matches |
| `Fences.TrailingFenceRemoved` | worker/src/index.js:510 | text, whitespace, "```", whitespace loses the fence and the whitespace before it |
| `Fences.LeadingHtmlFence` | worker/src/index.js:510 | "```html" in any casing, plus the whitespace after it, is removed |
| `Fences.LeadingHtmFence` | worker/src/index.js:510 | the same for "```htm" when the next character is not an `l` |
| `Fences.BareFenceKept` | worker/src/index.js:510 | a bare "```" not followed by `htm` stays at the start |
| `Fences.FenceFreeUnchanged` | worker/src/index.js:510 | a reply with no "```" anywhere is returned unchanged |
| `Fences.FencedDocumentUnwrapped` | worker/src/index.js:510 | a document on its own lines between an html fence and a closing fence comes back bare |

## Left out

- The routing, CORS headers, `jsonResponse` and the other endpoints of the worker are not part of this model.
- `fetch` and its request headers are left out. A download is an input (`Handler.Fetch`), and the failure text for a non-2xx status (`HTTP ${status}`) is an abstract message.
- `formatWithClaude`'s request body, `SYSTEM_PROMPT`, the API key check and the response parsing are left out. The model call is an input (`Handler.ModelCall`), and its reply text is what line 507 reads. A missing key and an API error are both a `ModelFailed` message.
- `JSON.parse` and `JSON.stringify` are parameters. Parsing is `Some` value or `None` for a syntax error. The indentation of the serialisation is left out.
- The wording of the exceptions the JavaScript engine raises is not modelled (`Handler.EngineError`). These are destructuring a `null` body, `text.trim` on a non-string, and an unparsable request body.
- `async`/`await` and `console.error` are left out; they change no answer.
- JSON numbers are `real`; floating point is left out.
- Characters are Unicode scalar values, not UTF-16 code units. Lengths, the 20000 bound and `substring` count units only for text without astral characters, and lone surrogates cannot be represented.
- No worked example of `cleanHTML` on a concrete page is proved. The lemmas about single passes (`Clean.ElementRemoved`, `Clean.StripTagsSeparates`) hold for whole families of inputs, but not for every input: `Clean.ElementRemoved` needs the text before the element to open no element of the same kind, and `Clean.StripTagsSeparates` needs the text before the tag to hold no `<`.
- Fences.TailStart: its contract states only that the reported match is a match; that it is the leftmost one is stated by `Fences.TailStartFrom` and `Fences.TailStartNone`.
- JsonLd.AfterOpen: its contract states only that a match ends within the text; the whitespace and type attribute it requires are in its body.
- JsonLd.BlockAt: its contract states only the bounds of the match; the exact shape of the opening (`<script`, whitespace, the type attribute) is in its body and in `JsonLd.AfterOpen`.
- Fences.StripTrailingFence: its contract states only that the result is a prefix; what is removed is stated by `Fences.TrailingClosedForm`.
