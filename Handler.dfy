/** The request path of `/api/format-recipe`: read the JSON body, choose the recipe text
    (the pasted `text`, or the page at `url` reduced to structured data or cleaned text), send
    it to the model and return the model's HTML with its code fences stripped. The network,
    the model and the JSON library are parameters. */
module Handler {
  import opened Wrappers
  import opened Text
  import opened JsValue
  import JsonLd
  import Clean
  import Fences

  /** What fetching the recipe page gives: its body, or the error `fetchAndClean` throws
      (a failed request, or a status outside 200-299). */
  datatype Fetch = Fetched(html: string) | FetchFailed(message: string)

  /** What the model call gives: the text of its first content block, or the error it throws. */
  datatype ModelCall = Replied(text: string) | ModelFailed(message: string)

  /** A response body: the formatted HTML, an error message chosen by the worker, or an error
      message produced by the JavaScript engine (whose wording is not modelled). */
  datatype Body = Html(html: string) | Error(message: string) | EngineError

  datatype Response = Response(status: int, body: Body)

  const Label: string := "Structured recipe data (JSON-LD):\n"
  const MissingInput: string := "Provide either \"url\" or \"text\"."
  const NoContent: string := "No recipe content found."
  const InternalError: string := "Internal error"

  /** `err.message || 'Internal error'`: an empty message is replaced. */
  function ErrorMessage(message: string): (r: string)
    ensures r != []
    ensures message != [] ==> r == message
  {
    if message == [] then InternalError else message
  }

  /** The recipe text for a fetched page: the labelled serialisation of its JSON-LD recipe
      when one is found (a found record is an object, so it is truthy), otherwise the cleaned
      page text. */
  function FetchAndClean(html: string, parse: string -> Option<Json>, stringify: Json -> string): string {
    var found := JsonLd.JsonLdRecipe(html, parse);
    if Truthy(found) then Label + stringify(found.value) else Clean.CleanHtml(html)
  }

  /** The last steps of the handler once the recipe text is known: reject empty text, call the
      model, strip the fences from its reply. */
  function Respond(content: string, model: string -> ModelCall): (r: Response)
    ensures r == Response(400, Error(NoContent)) <==> content == []
    ensures r.status == 400 <==> content == []
    ensures r.status == 200 <==> r.body.Html?
    ensures r.status == 200 ==> model(content).Replied? && r.body.html == Fences.StripFences(model(content).text)
    ensures content != [] && model(content).Replied? ==> r == Response(200, Html(Fences.StripFences(model(content).text)))
    ensures r.status == 500 <==> content != [] && model(content).ModelFailed?
    ensures r.status == 500 ==> r.body == Error(ErrorMessage(model(content).message))
  {
    if content == [] then Response(400, Error(NoContent))
    else
      match model(content)
      case ModelFailed(message) => Response(500, Error(ErrorMessage(message)))
      case Replied(text) => Response(200, Html(Fences.StripFences(text)))
  }

  /** `handleFormatRecipe`. `request` is what `request.json()` gives (`None` when the body is not
      JSON); `fetch` is the page download for a URL value and `model` the model call for a
      recipe text. Every exception ends in the `catch`, which answers 500. */
  function HandleFormatRecipe(request: Option<Json>, fetch: Json -> Fetch, model: string -> ModelCall,
                              parse: string -> Option<Json>, stringify: Json -> string): (r: Response)
    ensures r.status == 200 || r.status == 400 || r.status == 500
    ensures r.status == 200 <==> r.body.Html?
    ensures r.status == 400 ==> r.body == Error(MissingInput) || r.body == Error(NoContent)
  {
    match request
    case None => Response(500, EngineError)
    case Some(body) =>
      if body.Null? then Response(500, EngineError)
      else
        var url := Member(body, "url");
        var text := Member(body, "text");
        if !Truthy(url) && !Truthy(text) then Response(400, Error(MissingInput))
        else if Truthy(text) then
          if text.value.Str? then Respond(Trim(text.value.s), model) else Response(500, EngineError)
        else
          match fetch(url.value)
          case FetchFailed(message) => Response(500, Error(ErrorMessage(message)))
          case Fetched(html) => Respond(FetchAndClean(html, parse, stringify), model)
  }

  /** `body[key]` on a body that is not `null`: the member of an object, `undefined` (`None`)
      on any other value. */
  function Member(body: Json, key: string): Option<Json>
    requires !body.Null?
  {
    Get(body, key).value
  }

  // ---------------------------------------------------------------------------
  // Properties

  /** The 400 for a missing input is answered exactly when the body has neither a truthy `url`
      nor a truthy `text`; since the response names no page and no reply, it is given before
      any fetch or model call. */
  lemma MissingInputRejected(body: Json, fetch: Json -> Fetch, model: string -> ModelCall,
                             parse: string -> Option<Json>, stringify: Json -> string)
    requires !body.Null?
    ensures HandleFormatRecipe(Some(body), fetch, model, parse, stringify) == Response(400, Error(MissingInput))
            <==> !Truthy(Member(body, "url")) && !Truthy(Member(body, "text"))
  {
  }

  /** A truthy `text` wins over any `url`: the recipe text is the trimmed `text` and the page
      is never fetched. */
  lemma TextTakesPrecedence(body: Json, s: string, fetch: Json -> Fetch, fetch': Json -> Fetch,
                            model: string -> ModelCall, parse: string -> Option<Json>, stringify: Json -> string)
    requires !body.Null? && Member(body, "text") == Some(Str(s)) && s != []
    ensures HandleFormatRecipe(Some(body), fetch, model, parse, stringify)
            == HandleFormatRecipe(Some(body), fetch', model, parse, stringify)
  {
    TextIsContent(body, s, fetch, model, parse, stringify);
    TextIsContent(body, s, fetch', model, parse, stringify);
  }

  /** With a non-empty string `text`, the recipe text is that string trimmed. */
  lemma TextIsContent(body: Json, s: string, fetch: Json -> Fetch, model: string -> ModelCall,
                      parse: string -> Option<Json>, stringify: Json -> string)
    requires !body.Null? && Member(body, "text") == Some(Str(s)) && s != []
    ensures HandleFormatRecipe(Some(body), fetch, model, parse, stringify) == Respond(Trim(s), model)
  {
  }

  /** A `text` of whitespace only passes the first check but is empty once trimmed, so it is
      answered with the 400 for missing content, without a model call. */
  lemma BlankTextRejected(body: Json, s: string, fetch: Json -> Fetch, model: string -> ModelCall,
                          parse: string -> Option<Json>, stringify: Json -> string)
    requires !body.Null? && Member(body, "text") == Some(Str(s)) && s != [] && AllSpace(s)
    ensures HandleFormatRecipe(Some(body), fetch, model, parse, stringify) == Response(400, Error(NoContent))
  {
    BlankTrimsToEmpty(s);
  }

  /** Trimming a text of whitespace only leaves nothing. */
  lemma BlankTrimsToEmpty(s: string)
    requires AllSpace(s)
    ensures Trim(s) == []
  {
  }

  /** With no truthy `text`, a truthy `url` is fetched; a failed fetch answers 500 with its
      message (or "Internal error"), a page answers with what its recipe text leads to. */
  lemma UrlFetched(body: Json, u: Json, fetch: Json -> Fetch, model: string -> ModelCall,
                   parse: string -> Option<Json>, stringify: Json -> string)
    requires !body.Null? && Member(body, "url") == Some(u) && Truthy(Some(u))
    requires !Truthy(Member(body, "text"))
    ensures fetch(u).FetchFailed? ==>
              HandleFormatRecipe(Some(body), fetch, model, parse, stringify)
              == Response(500, Error(ErrorMessage(fetch(u).message)))
    ensures fetch(u).Fetched? ==>
              HandleFormatRecipe(Some(body), fetch, model, parse, stringify)
              == Respond(FetchAndClean(fetch(u).html, parse, stringify), model)
  {
  }

  /** A body that is not JSON, or is JSON `null`, ends in the `catch`. */
  lemma UnreadableBodyFails(fetch: Json -> Fetch, model: string -> ModelCall,
                            parse: string -> Option<Json>, stringify: Json -> string)
    ensures HandleFormatRecipe(None, fetch, model, parse, stringify) == Response(500, EngineError)
    ensures HandleFormatRecipe(Some(Null), fetch, model, parse, stringify) == Response(500, EngineError)
  {
  }

  /** A page with a JSON-LD recipe gives the label and the serialisation, neither cleaned nor
      bounded: its length is whatever the serialisation's is. */
  lemma StructuredDataVerbatim(html: string, parse: string -> Option<Json>, stringify: Json -> string, recipe: Json)
    requires JsonLd.JsonLdRecipe(html, parse) == Some(recipe)
    ensures FetchAndClean(html, parse, stringify) == Label + stringify(recipe)
    ensures |FetchAndClean(html, parse, stringify)| == |Label| + |stringify(recipe)|
  {
    JsonLd.JsonLdRecipeIsRecipe(html, parse);
  }

  /** A page without one gives its cleaned text, which is bounded. */
  lemma CleanedTextFallback(html: string, parse: string -> Option<Json>, stringify: Json -> string)
    requires JsonLd.JsonLdRecipe(html, parse).None?
    ensures FetchAndClean(html, parse, stringify) == Clean.CleanHtml(html)
    ensures |FetchAndClean(html, parse, stringify)| <= Clean.MaxLength + |Clean.TruncationMarker|
  {
  }

  /** A page with a JSON-LD recipe always reaches the model: its recipe text is never empty. */
  lemma StructuredDataReachesModel(html: string, parse: string -> Option<Json>, stringify: Json -> string,
                                   model: string -> ModelCall)
    requires JsonLd.JsonLdRecipe(html, parse).Some?
    ensures Respond(FetchAndClean(html, parse, stringify), model).status != 400
  {
    StructuredDataVerbatim(html, parse, stringify, JsonLd.JsonLdRecipe(html, parse).value);
  }
}
