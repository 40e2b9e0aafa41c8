/** The HTTP layer (flask_server/app.py): procesar_consulta appends the
    article link to the answer and converts it to HTML; the /query and /chat
    routes validate the request body, call it and wrap the outcome as a
    reply. A JSON body is a map from field names to strings; None stands for
    a request without a JSON body. */
module App {
  import opened Wrappers
  import opened Corpus
  import opened Embeddings
  import opened Matching
  import opened Search
  import opened Markdown
  import opened MarkdownLinks

  type Json = map<string, string>

  /** The caption of the link procesar_consulta appends. */
  const CAPTION := "Ver artículo"
  const QUERY_FIELDS_REQUIRED := "Se requieren los campos 'query' y 'content'"
  const PREGUNTA_REQUIRED := "Se requiere el campo 'pregunta'"

  /** Why a route answered 500: `request.json` gave no dictionary, or the
      search raised. */
  datatype Cause = NotJson | SearchFailed(e: SearchError)

  /** A route's answer: 200 with the HTML under the named JSON field, 400
      with a message, or 500. */
  datatype Reply =
    | Ok(field: string, html: string)
    | BadRequest(message: string)
    | ServerError(cause: Cause)

  function Status(r: Reply): (code: nat)
    ensures code in {200, 400, 500}
    ensures code == 200 <==> r.Ok?
  {
    match r
    case Ok(_, _) => 200
    case BadRequest(_) => 400
    case ServerError(_) => 500
  }

  /** `data.get(name)`. */
  function Get(data: Json, name: string): Option<string> {
    if name in data then Some(data[name]) else None
  }

  /** Python truthiness of an optional string: `not v` holds for None and "". */
  predicate Truthy(v: Option<string>) {
    v.Some? && v.value != ""
  }

  /** The HTML procesar_consulta makes of a search result. */
  function AnswerHtml(result: SearchResult): string {
    Render(WithLink(result.response, CAPTION, result.link))
  }

  /** What procesar_consulta returns for a question, given the two files as
      they are before the call. */
  function Answer(
    articlesFile: Option<seq<Article>>, embeddingsFile: Option<seq<ArticleEmbedding>>,
    page: seq<Table>, query: string, services: Services, lines: seq<string>, pick: nat)
    : Result<string, SearchError>
    requires |lines| == 0 || pick < |lines|
  {
    match SearchAnswer(articlesFile, embeddingsFile, page, query, services, lines, pick)
    case Failure(e) => Failure(e)
    case Success(result) => Success(AnswerHtml(result))
  }

  /** The reply of a route once its question has passed validation. */
  function Wrap(field: string, answer: Result<string, SearchError>): Reply {
    match answer
    case Failure(e) => ServerError(SearchFailed(e))
    case Success(html) => Ok(field, html)
  }

  /** The reply of POST /query. */
  function QueryReply(
    articlesFile: Option<seq<Article>>, embeddingsFile: Option<seq<ArticleEmbedding>>,
    body: Option<Json>, page: seq<Table>, services: Services, lines: seq<string>, pick: nat)
    : Reply
    requires |lines| == 0 || pick < |lines|
  {
    if body.None? then ServerError(NotJson)
    else
      var query, content := Get(body.value, "query"), Get(body.value, "content");
      if !Truthy(query) || !Truthy(content) then BadRequest(QUERY_FIELDS_REQUIRED)
      else Wrap("response", Answer(articlesFile, embeddingsFile, page, query.value, services, lines, pick))
  }

  /** The reply of POST /chat. */
  function ChatReply(
    articlesFile: Option<seq<Article>>, embeddingsFile: Option<seq<ArticleEmbedding>>,
    body: Option<Json>, page: seq<Table>, services: Services, lines: seq<string>, pick: nat)
    : Reply
    requires |lines| == 0 || pick < |lines|
  {
    if body.None? then ServerError(NotJson)
    else
      var pregunta := Get(body.value, "pregunta");
      if !Truthy(pregunta) then BadRequest(PREGUNTA_REQUIRED)
      else Wrap("respuesta", Answer(articlesFile, embeddingsFile, page, pregunta.value, services, lines, pick))
  }

  /** procesar_consulta: search, append the link in Markdown, convert. */
  method ProcesarConsulta(store: Store, query: string, page: seq<Table>, services: Services, lines: seq<string>, pick: nat)
    returns (r: Result<string, SearchError>)
    requires |lines| == 0 || pick < |lines|
    modifies store
    ensures r == Answer(old(store.articlesFile), old(store.embeddingsFile), page, query, services, lines, pick)
    ensures store.articlesFile == Some(CacheAside(old(store.articlesFile), ParseTables(page)))
    ensures store.embeddingsFile
         == Some(CacheAside(old(store.embeddingsFile), EmbedAll(store.articlesFile.value, services.encode)))
    ensures store.pageFetches == old(store.pageFetches) + (if old(store.articlesFile).Some? then 0 else 1)
    ensures store.encoderRuns == old(store.encoderRuns) + (if old(store.embeddingsFile).Some? then 0 else 1)
  {
    var result := store.SearchUnusualArticle(query, page, services, lines, pick);
    match result
    case Failure(e) =>
      r := Failure(e);
    case Success(found) =>
      var response := found.response + " [" + CAPTION + "](" + found.link + ")";
      var html := MarkdownToHtml(response);
      r := Success(html);
  }

  /** POST /query: both fields must be present and non-empty; only then is
      the store touched, and it is then left holding both files, so a later
      request reuses them. */
  method ProcessQuery(store: Store, body: Option<Json>, page: seq<Table>, services: Services, lines: seq<string>, pick: nat)
    returns (reply: Reply)
    requires |lines| == 0 || pick < |lines|
    modifies store
    ensures reply == QueryReply(old(store.articlesFile), old(store.embeddingsFile), body, page, services, lines, pick)
    ensures reply.BadRequest? ==> unchanged(store)
    ensures body.None? ==> unchanged(store)
    ensures body.Some? && !reply.BadRequest? ==>
              && store.articlesFile == Some(CacheAside(old(store.articlesFile), ParseTables(page)))
              && store.embeddingsFile
                 == Some(CacheAside(old(store.embeddingsFile), EmbedAll(store.articlesFile.value, services.encode)))
              && store.pageFetches == old(store.pageFetches) + (if old(store.articlesFile).Some? then 0 else 1)
              && store.encoderRuns == old(store.encoderRuns) + (if old(store.embeddingsFile).Some? then 0 else 1)
  {
    if body.None? {
      return ServerError(NotJson);
    }
    var query := Get(body.value, "query");
    var content := Get(body.value, "content");
    if !Truthy(query) || !Truthy(content) {
      return BadRequest(QUERY_FIELDS_REQUIRED);
    }
    var response := ProcesarConsulta(store, query.value, page, services, lines, pick);
    reply := Wrap("response", response);
  }

  /** POST /chat: the same pipeline on the single field `pregunta`, with the
      same effect on the store. */
  method Chat(store: Store, body: Option<Json>, page: seq<Table>, services: Services, lines: seq<string>, pick: nat)
    returns (reply: Reply)
    requires |lines| == 0 || pick < |lines|
    modifies store
    ensures reply == ChatReply(old(store.articlesFile), old(store.embeddingsFile), body, page, services, lines, pick)
    ensures reply.BadRequest? ==> unchanged(store)
    ensures body.None? ==> unchanged(store)
    ensures body.Some? && !reply.BadRequest? ==>
              && store.articlesFile == Some(CacheAside(old(store.articlesFile), ParseTables(page)))
              && store.embeddingsFile
                 == Some(CacheAside(old(store.embeddingsFile), EmbedAll(store.articlesFile.value, services.encode)))
              && store.pageFetches == old(store.pageFetches) + (if old(store.articlesFile).Some? then 0 else 1)
              && store.encoderRuns == old(store.encoderRuns) + (if old(store.embeddingsFile).Some? then 0 else 1)
  {
    if body.None? {
      return ServerError(NotJson);
    }
    var pregunta := Get(body.value, "pregunta");
    if !Truthy(pregunta) {
      return BadRequest(PREGUNTA_REQUIRED);
    }
    var response := ProcesarConsulta(store, pregunta.value, page, services, lines, pick);
    reply := Wrap("respuesta", response);
  }

  // ---------------------------------------------------------------------
  // Properties.

  /** /query answers 400 exactly when a JSON body lacks a non-empty `query`
      or a non-empty `content`, and 500 exactly when there is no JSON body
      or the search fails. */
  lemma QueryValidation(
    articlesFile: Option<seq<Article>>, embeddingsFile: Option<seq<ArticleEmbedding>>,
    body: Option<Json>, page: seq<Table>, services: Services, lines: seq<string>, pick: nat)
    requires |lines| == 0 || pick < |lines|
    ensures var r := QueryReply(articlesFile, embeddingsFile, body, page, services, lines, pick);
            && (r.BadRequest? <==> body.Some? && !(Truthy(Get(body.value, "query")) && Truthy(Get(body.value, "content"))))
            && (r.BadRequest? ==> r.message == QUERY_FIELDS_REQUIRED)
            && (r.ServerError? <==> || body.None?
                                    || (&& Truthy(Get(body.value, "query")) && Truthy(Get(body.value, "content"))
                                        && Answer(articlesFile, embeddingsFile, page, body.value["query"], services, lines, pick).Failure?))
            && (r.Ok? ==> r.field == "response" && "query" in body.value
                          && Answer(articlesFile, embeddingsFile, page, body.value["query"], services, lines, pick) == Success(r.html))
  {
  }

  /** /chat answers 400 exactly when a JSON body lacks a non-empty
      `pregunta`. */
  lemma ChatValidation(
    articlesFile: Option<seq<Article>>, embeddingsFile: Option<seq<ArticleEmbedding>>,
    body: Option<Json>, page: seq<Table>, services: Services, lines: seq<string>, pick: nat)
    requires |lines| == 0 || pick < |lines|
    ensures var r := ChatReply(articlesFile, embeddingsFile, body, page, services, lines, pick);
            && (r.BadRequest? <==> body.Some? && !Truthy(Get(body.value, "pregunta")))
            && (r.BadRequest? ==> r.message == PREGUNTA_REQUIRED)
            && (r.ServerError? <==> || body.None?
                                    || (&& Truthy(Get(body.value, "pregunta"))
                                        && Answer(articlesFile, embeddingsFile, page, body.value["pregunta"], services, lines, pick).Failure?))
            && (r.Ok? ==> r.field == "respuesta" && "pregunta" in body.value
                          && Answer(articlesFile, embeddingsFile, page, body.value["pregunta"], services, lines, pick) == Success(r.html))
  {
  }

  /** The two routes answer the same question with the same HTML; only the
      key of the JSON field differs. `content` is checked but never used. */
  lemma RoutesAgree(
    articlesFile: Option<seq<Article>>, embeddingsFile: Option<seq<ArticleEmbedding>>,
    question: string, content: string, page: seq<Table>, services: Services, lines: seq<string>, pick: nat)
    requires |lines| == 0 || pick < |lines|
    requires question != "" && content != ""
    ensures var q := QueryReply(articlesFile, embeddingsFile, Some(map["query" := question, "content" := content]), page, services, lines, pick);
            var c := ChatReply(articlesFile, embeddingsFile, Some(map["pregunta" := question]), page, services, lines, pick);
            && Status(q) == Status(c)
            && (q.Ok? ==> q.html == c.html && q.field == "response" && c.field == "respuesta")
            && (q.ServerError? ==> q.cause == c.cause)
  {
  }

  lemma CaptionAccepted()
    ensures CaptionOk(CAPTION)
  {
    assert forall x :: 0 <= x < |CAPTION| ==> CAPTION[x] in "Ver artículo";
  }

  /** Whatever the answer text holds, when the article link is a web URL
      the HTML ends with an anchor to it; when the answer has no `[`, the
      anchor's text is the caption. */
  lemma AnswerEndsWithArticleLink(result: SearchResult) returns (prefix: string, text: string)
    requires IsWebUrl(result.link)
    ensures AnswerHtml(result) == prefix + AnchorHtml(text, result.link)
    ensures '[' !in result.response ==> text == CAPTION
  {
    CaptionAccepted();
    prefix, text := AppendedLinkRendered(result.response, CAPTION, result.link);
  }
}
