# Unusual-article search server, modelled in Dafny

The server answers a free-text question with an "unusual" encyclopedia
article. It scrapes the tables of the unusual-articles page into article
records and keeps them in a JSON cache file. It encodes every description
into a vector and keeps those in a pickle cache file. For a question, it
translates the question into English and scores every article by cosine
similarity. It takes the best-scoring article and composes a response: a joke
line below the similarity threshold, otherwise a generated remark or plain
"title: description". It detects the response's language and may translate
the response back. The Flask layer (`/query`, `/chat`) appends a
`[Ver artículo](link)` Markdown link to the response and converts the
Markdown to HTML. The converter swaps links out for `{{LINKn}}` placeholders,
applies the `**`, `*` and `_` emphasis passes, then puts the anchors back.

The model is split into these modules:

- `Corpus` (corpus.dfy): the row parser and the nested table/row loops.
- `Embeddings` (embeddings.dfy): the encoding loop.
- `Matching` (matching.dfy): the stable sort, the best match, the threshold
  and response policy, and translation in and out.
- `Search` (search.dfy): a `Store` class whose two optional fields are the
  two cache files, with the cache-aside loaders and the search entry point.
- `Markdown` and `MarkdownLinks` (markdown.dfy, markdown_links.dfy): the
  Markdown converter. Each regular expression is a left-to-right scanner.
- `MarkdownAnchors` (markdown_anchors.dfy): how every link of a message
  travels through the emphasis passes and the restore loop to its anchor,
  and a second way a placeholder written in the message goes wrong.
- `App` (app.dfy): `procesar_consulta` and the two routes.
- `Text` (text.dfy): Python's `str.strip`, `str.replace`, `str.isspace` and
  integer formatting.
- `Wrappers` (wrappers.dfy): `Option` and `Result`.

The imperative parts of the source are methods: the scraping loops, the
embedding loop, the link substitution that fills a dictionary, the restore
loop and the cache files. Each method is proved equal to a specification
function, and the properties are lemmas about those functions. The in-place
`similarities.sort` is the exception: `Matching.SortDescending` is a
recursive insertion sort on a sequence, and `Matching.FindBestMatch`
reassigns its result to the list.

In these places the model follows the code, which a reader might not
expect:

- The response is translated back whenever it is detected as English, also
  when the question was English. In that case it is translated from "en" to
  "en" (scraping_and_search.py:248-249).
- The article link is appended to the response in `procesar_consulta`,
  after the back-translation (app.py:56), not inside the response composer.
- A title may be empty. It is the stripped text of the first eligible
  anchor, whatever that text is (scraping_and_search.py:158); only the
  description gets a placeholder.
- Every leading `/wiki/File:` anchor is skipped, not only the first one
  (scraping_and_search.py:150-153).

## Model

| member | source | states |
|---|---|---|
| Corpus.FirstTitleIndex | flask_server/scraping_and_search.py:150-153 | the index is that of an eligible anchor (has an href, not a `/wiki/File:` page) and every anchor before it is ineligible, or there is no eligible anchor at all |
| Corpus.FindTitleLink | flask_server/scraping_and_search.py:149-156 | the `for … break` loop returns the first eligible anchor of the title cell, or None when no anchor is eligible |
| Corpus.ParseRow | flask_server/scraping_and_search.py:129-167 | one iteration of the row loop, with its `continue`s, yields exactly the row's article as RowArticle defines it |
| Corpus.ScrapeTables | flask_server/scraping_and_search.py:124-167 | the nested table/row loops collect exactly ParseTables(page): table order, then row order |
| Corpus.ShortRowSkipped | flask_server/scraping_and_search.py:129-144 | a row with fewer than two cells, or fewer than two once a leading flag `th` is dropped, yields no article |
| Corpus.RowArticleExactly | flask_server/scraping_and_search.py:129-156 | a row yields an article if and only if it has at least two cells once a leading flag `th` is dropped and its first remaining cell holds an eligible title anchor |
| Corpus.RowArticleFields | flask_server/scraping_and_search.py:133-166 | a parsed article's title and link come from the first eligible anchor of the first cell left after the flag cell; the link is the encyclopedia origin followed by the href; the description is the second cell's text or "Descripción no disponible" when that is empty; the flag is present exactly when the row starts with a `th` image whose src is non-empty, and it is then "https:" + src |
| Corpus.ParsedArticleWellFormed | flask_server/scraping_and_search.py:158-166 | every parsed article has a non-empty description, a link on the encyclopedia origin that is not a file page, and a flag that is an https: URL when present |
| Corpus.CanonicalRowRoundTrip | flask_server/scraping_and_search.py:133-167 | a well-formed article laid out as a flag/title/description row parses back to itself, so WellFormed describes exactly what the parser can produce |
| Corpus.ParseRowsAppend | flask_server/scraping_and_search.py:127-167 | parsing rows `a + b` yields the articles of `a` followed by those of `b` |
| Corpus.ParseTablesAppend | flask_server/scraping_and_search.py:127-167 | parsing tables `a + b` yields the articles of `a` followed by those of `b` |
| Corpus.ParseRowsAtMostOnePerRow | flask_server/scraping_and_search.py:127-167 | a table yields at most one article per row |
| Corpus.ParseTablesSound | flask_server/scraping_and_search.py:127-167 | every article on the page is the article of some row of some table |
| Embeddings.EncodeArticles | flask_server/scraping_and_search.py:186-194 | the loop gives one record per article, in order, with title, link and description copied and the vector the encoder gives the description |
| Embeddings.EmbedAllFaithful | flask_server/scraping_and_search.py:186-194 | the embedding set has one record per article in the same order with the fields unchanged; equal descriptions get equal vectors |
| Matching.FirstMaxIndex | flask_server/scraping_and_search.py:234-235 | the index of an entry whose score is at least every score and strictly greater than every score before it |
| Matching.SortDescendingCorrect | flask_server/scraping_and_search.py:234 | the sort is a permutation of its input and leaves it in descending order of score |
| Matching.SortDescendingStable | flask_server/scraping_and_search.py:234 | the entries sharing any one score keep their relative order through the sort |
| Matching.SortedHeadIsFirstMax | flask_server/scraping_and_search.py:234-235 | the head of the stably sorted list is the first entry with the maximal score |
| Matching.Similarities | flask_server/scraping_and_search.py:232-233 | one scored pair per embedding, in embedding-set order, each carrying its entry |
| Matching.StrippedLines | flask_server/scraping_and_search.py:240-241 | the stripped list has exactly as many entries as the fallback file has lines |
| Matching.FindBestMatch | flask_server/scraping_and_search.py:217-257 | the method (translation in, scoring, in-place sort, head, response choice, translation back, result) yields exactly ExpectedMatch, where the best entry is the first maximal one |
| Matching.BestMatchIsFirstMaximum | flask_server/scraping_and_search.py:233-257 | the reported title, link and raw description are those of the first embedding with the largest similarity to the normalised question, and the accuracy is that similarity, also below the threshold |
| Matching.MatchFailsExactly | flask_server/scraping_and_search.py:235-242 | the search fails exactly when the embedding set is empty (`similarities[0]`), or when the best score is below the threshold and the fallback file has no lines (`randint(0, 0)`) |
| Matching.LowScoreUsesFallback | flask_server/scraping_and_search.py:238-242 | below the threshold the response is one of the stripped fallback lines, and does not depend on the responder |
| Matching.HighScoreResponse | flask_server/scraping_and_search.py:243-245 | at or above the threshold the response is exactly "title: description" without a responder, and the generated remark followed by " → " with one |
| Matching.GeminiResponseParts | flask_server/scraping_and_search.py:199-215 | without a responder the response splits back into the title, ": " and the description; with one, into the generated remark followed by the arrow " → " |
| Matching.TranslationPolicy | flask_server/scraping_and_search.py:226-249 | the question is translated into English exactly when it is not detected as English; the response is translated from English into the question's language exactly when it is detected as English |
| Search.Store.ScrapeUnusualArticles | flask_server/scraping_and_search.py:112-170 | returns the stored corpus unchanged when the file exists and fetches nothing; otherwise parses the page, stores the complete result and returns it |
| Search.Store.GenerateEmbeddings | flask_server/scraping_and_search.py:172-197 | returns the stored embedding set unchanged when the file exists, whatever the articles, and runs no encoder; otherwise encodes every article, stores the complete result and returns it |
| Search.Store.SearchUnusualArticle | flask_server/scraping_and_search.py:259-278 | the answer is SearchAnswer of the two files as they were before the call; both files are filled afterwards; the page is fetched and the encoder is run only for a missing file |
| Search.CacheAsideIdempotent | flask_server/scraping_and_search.py:118-120 | a second load from a file the first load wrote returns the same value, whatever it would have computed |
| Search.StoredEmbeddingsDecide | flask_server/scraping_and_search.py:267-273 | once an embedding file exists, the answer depends neither on the corpus file nor on the page |
| Search.SearchAnswerShape | flask_server/scraping_and_search.py:270-278 | the answer succeeds exactly when the match does, carries its fields unchanged and adds the threshold 0.4 |
| Markdown.SchemeEnd | flask_server/app.py:36 | `https?://` matched at q ends between q + 7 and the end of the text |
| Markdown.RunEndMaximal | flask_server/app.py:36 | the greedy `[^\s]+` run holds no whitespace and is followed by whitespace or the end of the text |
| Markdown.LastParenLast | flask_server/app.py:36 | the closing `)` of a link is the last `)` of the non-whitespace run, and one is found whenever the run has one |
| Markdown.LinkTail | flask_server/app.py:36 | a match of the link tail starts with `](` and closes with a `)` at least ten characters later |
| Markdown.LinkTailUrl | flask_server/app.py:36 | the captured url holds no whitespace and starts with http:// or https:// followed by at least one character |
| Markdown.LinkCloseFirst | flask_server/app.py:36 | the text group `(.*?)` is the shortest one: no line break in it, and the link tail matches at no earlier index |
| Markdown.LinkAtShape | flask_server/app.py:36 | a link match spans exactly `[text](url)` in the message; the text holds no line break and the url is a web URL the pattern accepts |
| Markdown.CloseAtShortest | flask_server/app.py:39-41 | an emphasis pattern closes at the first delimiter after its opening, before any line break |
| Markdown.CloseAtFirst | flask_server/app.py:39-41 | a delimiter with no earlier delimiter and no line break before it is the one the pattern closes at |
| Markdown.PairClose | flask_server/app.py:39-41 | an emphasis pair opened at i closes after its opening delimiter and inside the text |
| Markdown.SubstituteLinks | flask_server/app.py:20-36 | the scan replaces each link match in order by the next placeholder and stores its anchor under that placeholder, yielding WithKeys and Entries of the message's link pieces |
| Markdown.ScanOne | flask_server/app.py:20-36 | one match attempt advances the scan and keeps the SubstituteLinks invariant, for a match and for a copied character |
| Markdown.MarkdownToHtml | flask_server/app.py:10-46 | the method (link substitution, three emphasis passes, the restore loop over the dictionary) yields exactly Render(text) |
| Markdown.EntriesNumbered | flask_server/app.py:30-31 | there are as many stored anchors as link matches, and the i-th entry is the i-th placeholder paired with the anchor of the i-th match |
| Markdown.KeysDistinct | flask_server/app.py:30 | different counts give different placeholders, so no dictionary entry overwrites another |
| Markdown.MatchSource | flask_server/app.py:36 | every matched link is the match of the pattern at some index of the message |
| Markdown.StoredAnchorsVerbatim | flask_server/app.py:27-36 | the anchor stored for the j-th link is built from a `[text](url)` written verbatim in the message, before and whatever the emphasis passes do |
| Markdown.NoLinkNoPieces | flask_server/app.py:36 | where the link pattern matches nowhere, the substitution copies the text and stores nothing |
| Markdown.SubPairsUnmatched | flask_server/app.py:39-41 | where the delimiter occurs nowhere, an emphasis pass copies the text |
| Markdown.SubPairsSpan | flask_server/app.py:39-41 | a delimited span with no delimiter character or line break inside becomes one tagged element |
| Markdown.NoDelimiters | flask_server/app.py:39-41 | text with neither `*` nor `_` passes the three emphasis passes unchanged |
| Markdown.PlainTextUnchanged | flask_server/app.py:36-46 | a message with no link match, no `*` and no `_` is returned unchanged |
| Markdown.NoBrackets | flask_server/app.py:36-46 | without `[` only the emphasis passes act |
| Markdown.StrongRendered | flask_server/app.py:39-40 | `**x**` becomes `<strong>x</strong>`: the strong pass consumes both delimiters before the `*` pass runs |
| Markdown.StarRendered | flask_server/app.py:39-40 | `*x*` becomes `<em>x</em>`; the strong pass finds no pair in it |
| Markdown.EmptyStar | flask_server/app.py:39-40 | `**` alone passes the strong pass unchanged, because no closing `**` follows the opening one, and the `*` pass turns it into `<em></em>` |
| Markdown.UnderscoreRendered | flask_server/app.py:39-41 | `_x_` becomes `<em>x</em>` |
| MarkdownLinks.EmphasisKeepsKey | flask_server/app.py:39-41 | the emphasis passes leave a trailing placeholder intact and act on the text before it as they would without it |
| MarkdownLinks.AppendedLinkRendered | flask_server/app.py:36-59 | the HTML of a response with the link appended ends with the anchor to that url, whatever the response holds; the anchor's text is the caption when the response has no `[` |
| MarkdownLinks.PlainMessageRendered | flask_server/app.py:36-59 | a response with no `[`, `*` or `_` keeps its text, and the appended link is its only anchor; every copy of `{{LINK0}}` in the response is replaced by that anchor too |
| MarkdownLinks.LiteralPlaceholderOverwritten | flask_server/app.py:43-44 | a response that reads `{{LINK0}}` comes out as two copies of the appended anchor: the restore loop cannot tell the literal text from its own placeholder |
| MarkdownAnchors.FrontLink | flask_server/app.py:36 | a `[text](url)` written at the start of a message, with a text holding no `]` or line break, a web url and whitespace or the end after it, is matched there with exactly that text and url |
| MarkdownAnchors.EmphasisKeepsInner | flask_server/app.py:39-41 | the three emphasis passes keep a placeholder as a whole, wherever it stands in the text |
| MarkdownAnchors.LinksRendered | flask_server/app.py:27-46 | for a message without `{`, the j-th link match is a `[text](url)` written at some index of the message, and the HTML holds `<a href="url" target="_blank">text</a>` for it |
| MarkdownAnchors.PlaceholderInLinkNested | flask_server/app.py:43-44 | a message `[{{LINK1}}](u1)` with a link appended comes out with the appended anchor nested inside the first one, and again in its own place: the restore loop also replaces the placeholder that the first anchor's text holds |
| App.Status | flask_server/app.py:88-98 | a reply is answered 200, 400 or 500, and 200 exactly when the question was answered |
| App.ProcesarConsulta | flask_server/app.py:48-62 | the HTML is the search answer with `[Ver artículo](link)` appended after a space and converted, and the two files are left filled as the search leaves them, with the page fetched and the encoder run only for a file that was missing |
| App.ProcessQuery | flask_server/app.py:73-98 | the reply is QueryReply of the files before the call; a rejected or non-JSON request leaves the store untouched; an accepted one leaves both files filled, the stored ones unchanged, with the page fetched and the encoder run only for a file that was missing |
| App.Chat | flask_server/app.py:100-123 | the reply is ChatReply of the files before the call; a rejected or non-JSON request leaves the store untouched; an accepted one leaves both files filled, the stored ones unchanged, with the page fetched and the encoder run only for a file that was missing |
| App.QueryValidation | flask_server/app.py:83-98 | /query answers 400 with its message exactly when `query` or `content` is missing or empty; 500 exactly when the body is not JSON or the search fails; otherwise 200 with the HTML for `query` under "response" |
| App.ChatValidation | flask_server/app.py:109-123 | /chat answers 400 with its message exactly when `pregunta` is missing or empty; 500 exactly when the body is not JSON or the search fails; otherwise 200 with the HTML under "respuesta" |
| App.RoutesAgree | flask_server/app.py:91-118 | the two routes give the same status and the same HTML for the same question; only the field name differs, and `content` is checked but not used |
| App.CaptionAccepted | flask_server/app.py:56 | the caption "Ver artículo" holds no `]` and no line break, so the link text cannot run past it |
| App.AnswerEndsWithArticleLink | flask_server/app.py:56-59 | when the article link is a web URL, the HTML of every answer ends with the anchor to it; the anchor's text is the caption when the response has no `[` |
| Text.Strip | flask_server/scraping_and_search.py:241 | `strip()` is a slice of the line with only whitespace removed at both ends, and it neither starts nor ends with whitespace |
| Text.StripIdempotent | flask_server/scraping_and_search.py:241 | stripping twice is stripping once |
| Text.NatToString | flask_server/app.py:30 | the decimal form of a count is a non-empty string of digits, one digit exactly for counts below ten |
| Text.NatToStringInjective | flask_server/app.py:30 | distinct counts have distinct decimal forms |
| Text.ReplaceAllSplit | flask_server/app.py:44 | `str.replace` on a concatenation, with no occurrence across the boundary, replaces in each part |
| Text.ReplaceAllAbsent | flask_server/app.py:44 | `str.replace` of an absent string changes nothing |

## Left out

- Fetching the page and HTML parsing with BeautifulSoup are left out, because they are network I/O and a library. A page is given as its tables of rows of cells: each cell has a tag, the src of its first image, its anchors with their href and stripped text, and its stripped text.
- An image without a `src` attribute raises KeyError in the source; a cell's image is modelled by its src only, so that error is not modelled.
- The sentence encoder and cosine similarity are left out, because they are a foreign model and floating point. They are uninterpreted function parameters, and scores are reals.
- The language detector, the translator and the generative chat session are left out, because they are network services with hidden session state. They are uninterpreted function parameters; the prompt wording and the chat history are not modelled.
- Reading and writing the JSON and pickle files, and creating the data directory, are left out, because they are file I/O. The two files are the optional fields of `Search.Store`, and a missing file is None; the loaders' "missing file gives []" branch is unreachable after the existence check and is not modelled.
- Undecodable cache files and cache entries that are not strings are left out, because they are file-format errors; the two files hold exactly what was stored.
- The fallback file `funny_responses.txt` is the parameter `lines`, read as it is. A missing fallback file raises FileNotFoundError in the source, below the threshold, and the route then answers 500; the model has no such case, because the file is taken to exist.
- A request body is a map from field names to strings. Fields whose JSON value is not a string (a number, a list, null, a boolean) are not modelled, so Python's truthiness of such values is lost: `{"query": 0, "content": "x"}` answers 400 in the source, and `{"query": "q", "content": 5}` is accepted there.
- `np.random.randint` is left out, because it is randomness. It is the parameter `pick`, required to be a valid index whenever the fallback file has lines.
- The import fallback for the configuration is left out, because it is module loading. The threshold is the constant 0.4.
- Printing, tracebacks and the text of an exception's message are left out, because they are output. A 500 reply records only its cause: a body that is not JSON, or the search error.
- The `/status` route, CORS and the Flask application object are left out, because they carry no logic.
- The browser extension (background.js, content.js, popup.js) is not part of this model; it is DOM and extension plumbing.
- Exceptions from the network services and the translator are left out; the services are total functions here.
- MarkdownAnchors.LinksRendered: proved only for messages without `{`. A message that writes a placeholder `{{LINKn}}` can have anchors overwritten or nested, as MarkdownLinks.LiteralPlaceholderOverwritten and MarkdownAnchors.PlaceholderInLinkNested show.
- The in-place update of `similarities.sort` is modelled on values by `Matching.SortDescending`; the list keeps no identity across the sort.
- MarkdownLinks.AppendedLinkRendered: states that the anchor's text is the caption only when the response has no `[`, because an unclosed `[` in the response can extend the link text back into the response.
- App.AnswerEndsWithArticleLink: the same weaker statement about the anchor's text, for the same reason.
