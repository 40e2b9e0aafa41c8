/** Matcher, Language Normalizer and Response Composer (find_best_match and
    get_gemini_response in flask_server/scraping_and_search.py). The
    encoder, the cosine similarity, the language detector, the translator
    and the generative chat are uninterpreted functions passed in as
    Services; scores are reals compared with their usual order. */
module Matching {
  import opened Wrappers
  import opened Text
  import opened Embeddings

  const SIMILARITY_THRESHOLD: real := 0.4
  const ENGLISH := "en"
  /** The separator appended to a generated remark. */
  const ARROW := " \U{2192} "

  /** The generative responder: absent, or a chat that turns the query, the
      title and the description into a remark. */
  datatype Responder = Disabled | Enabled(send: (string, string, string) -> string)

  datatype Services = Services(
    encode: string -> Vector,
    similarity: (Vector, Vector) -> real,
    detect: string -> string,
    translate: (string, string, string) -> string,
    responder: Responder)

  datatype SearchError =
    | EmptyEmbeddings    // `similarities[0]` on an empty list
    | NoFallbackLines    // `randint(0, 0)` on an empty fallback file

  /** What find_best_match returns. */
  datatype BestMatch = BestMatch(bestMatch: string, accuracy: real, link: string, response: string, rawDescription: string)

  /** A `(similarity, entry)` pair. */
  datatype Scored = Scored(score: real, entry: ArticleEmbedding)

  // ---------------------------------------------------------------------
  // Stable descending sort, as `list.sort(reverse=True, key=...)`: ties keep
  // their original order.

  /** Insert `x` before the first element whose score is not greater. */
  function Insert(x: Scored, ys: seq<Scored>): seq<Scored> {
    if ys == [] || ys[0].score <= x.score then [x] + ys else [ys[0]] + Insert(x, ys[1..])
  }

  function SortDescending(s: seq<Scored>): seq<Scored> {
    if s == [] then [] else Insert(s[0], SortDescending(s[1..]))
  }

  ghost predicate Descending(s: seq<Scored>) {
    forall i, j :: 0 <= i < j < |s| ==> s[i].score >= s[j].score
  }

  /** Index of the first entry with the largest score. */
  function FirstMaxIndex(s: seq<Scored>): (k: nat)
    requires |s| > 0
    ensures k < |s|
    ensures forall j :: 0 <= j < |s| ==> s[j].score <= s[k].score
    ensures forall j :: 0 <= j < k ==> s[j].score < s[k].score
  {
    if |s| == 1 then 0
    else
      var k := FirstMaxIndex(s[1..]);
      if s[1 + k].score <= s[0].score then 0 else 1 + k
  }

  lemma {:induction false} InsertPermutes(x: Scored, ys: seq<Scored>)
    ensures multiset(Insert(x, ys)) == multiset([x] + ys)
    decreases |ys|
  {
    if ys != [] && ys[0].score > x.score {
      InsertPermutes(x, ys[1..]);
      assert ys == [ys[0]] + ys[1..];
    }
  }

  /** Inserting keeps every score under a common bound. */
  lemma {:induction false} InsertBounded(x: Scored, ys: seq<Scored>, bound: real)
    requires x.score <= bound
    requires forall i :: 0 <= i < |ys| ==> ys[i].score <= bound
    ensures forall i :: 0 <= i < |Insert(x, ys)| ==> Insert(x, ys)[i].score <= bound
    decreases |ys|
  {
    if ys != [] && ys[0].score > x.score {
      InsertBounded(x, ys[1..], bound);
    }
  }

  lemma {:induction false} InsertKeepsDescending(x: Scored, ys: seq<Scored>)
    requires Descending(ys)
    ensures Descending(Insert(x, ys))
    ensures Insert(x, ys) != [] && Insert(x, ys)[0] == if ys == [] || ys[0].score <= x.score then x else ys[0]
    decreases |ys|
  {
    if ys != [] && ys[0].score > x.score {
      InsertKeepsDescending(x, ys[1..]);
      InsertBounded(x, ys[1..], ys[0].score);
    }
  }

  /** The sort is a permutation of its input and leaves it in descending
      order of score. */
  lemma {:induction false} SortDescendingCorrect(s: seq<Scored>)
    ensures multiset(SortDescending(s)) == multiset(s)
    ensures Descending(SortDescending(s))
    decreases |s|
  {
    if s != [] {
      SortDescendingCorrect(s[1..]);
      InsertPermutes(s[0], SortDescending(s[1..]));
      InsertKeepsDescending(s[0], SortDescending(s[1..]));
      assert s == [s[0]] + s[1..];
    }
  }

  /** Taking the head of the stably sorted list picks the first entry with the
      maximal score. */
  lemma {:induction false} SortedHeadIsFirstMax(s: seq<Scored>)
    requires |s| > 0
    ensures |SortDescending(s)| == |s|
    ensures SortDescending(s)[0] == s[FirstMaxIndex(s)]
    decreases |s|
  {
    SortDescendingCorrect(s);
    assert |multiset(SortDescending(s))| == |multiset(s)|;
    var rest := SortDescending(s[1..]);
    SortDescendingCorrect(s[1..]);
    InsertKeepsDescending(s[0], rest);
    if |s| > 1 {
      SortedHeadIsFirstMax(s[1..]);
      assert rest[0] == s[1 + FirstMaxIndex(s[1..])];
    } else {
      assert rest == [];
    }
  }

  /** The entries with score `v`, in order. */
  function WithScore(s: seq<Scored>, v: real): seq<Scored> {
    if s == [] then [] else (if s[0].score == v then [s[0]] else []) + WithScore(s[1..], v)
  }

  lemma {:induction false} InsertStable(x: Scored, ys: seq<Scored>, v: real)
    ensures WithScore(Insert(x, ys), v) == WithScore([x] + ys, v)
    decreases |ys|
  {
    assert ([x] + ys)[1..] == ys;
    if ys != [] && ys[0].score > x.score {
      InsertStable(x, ys[1..], v);
      var r := Insert(x, ys[1..]);
      assert ([ys[0]] + r)[1..] == r;
      assert ([x] + ys[1..])[1..] == ys[1..];
    }
  }

  /** Stability: the entries sharing any one score come out of the sort in
      the order they went in. */
  lemma {:induction false} SortDescendingStable(s: seq<Scored>, v: real)
    ensures WithScore(SortDescending(s), v) == WithScore(s, v)
    decreases |s|
  {
    if s != [] {
      SortDescendingStable(s[1..], v);
      InsertStable(s[0], SortDescending(s[1..]), v);
      assert ([s[0]] + SortDescending(s[1..]))[1..] == SortDescending(s[1..]);
    }
  }

  // ---------------------------------------------------------------------
  // The steps of find_best_match as functions.

  /** The query in English: translated only when its detected language is
      not English. */
  function NormalizeQuery(query: string, services: Services): string {
    var lang := services.detect(query);
    if lang != ENGLISH then services.translate(query, lang, ENGLISH) else query
  }

  /** The (similarity, entry) pairs, in embedding-set order. */
  function Similarities(query: string, embeddings: seq<ArticleEmbedding>, services: Services): (s: seq<Scored>)
    ensures |s| == |embeddings|
    ensures forall i :: 0 <= i < |s| ==> s[i].entry == embeddings[i]
  {
    var queryEmbedding := services.encode(query);
    seq(|embeddings|, i requires 0 <= i < |embeddings| =>
      Scored(services.similarity(queryEmbedding, embeddings[i].embedding), embeddings[i]))
  }

  /** get_gemini_response: the generated remark followed by the arrow, or
      "title: description" without a responder. */
  function GeminiResponse(entry: ArticleEmbedding, query: string, responder: Responder): string {
    match responder
    case Disabled => entry.title + ": " + entry.description
    case Enabled(send) => send(query, entry.title, entry.description) + ARROW
  }

  /** The two forms of the response: without a responder it splits back into
      the entry's title, ": " and its description; with one, into the
      generated remark and the arrow. */
  lemma GeminiResponseParts(entry: ArticleEmbedding, query: string, responder: Responder)
    ensures var r := GeminiResponse(entry, query, responder);
            && (responder.Disabled? ==>
                  && |r| == |entry.title| + 2 + |entry.description|
                  && r[..|entry.title|] == entry.title
                  && r[|entry.title|..|entry.title| + 2] == ": "
                  && r[|entry.title| + 2..] == entry.description)
            && (responder.Enabled? ==>
                  && |r| >= |ARROW|
                  && r[..|r| - |ARROW|] == responder.send(query, entry.title, entry.description)
                  && r[|r| - |ARROW|..] == ARROW)
  {
    var r := GeminiResponse(entry, query, responder);
    if responder.Disabled? {
      var n := |entry.title|;
      assert r[..n] == entry.title;
      assert r[n..n + 2] == ": ";
      assert r[n + 2..] == entry.description;
    } else {
      var m := responder.send(query, entry.title, entry.description);
      assert r[..|m|] == m;
      assert r[|m|..] == ARROW;
    }
  }

  function StrippedLines(lines: seq<string>): (r: seq<string>)
    ensures |r| == |lines|
  {
    seq(|lines|, i requires 0 <= i < |lines| => Strip(lines[i]))
  }

  /** The response before translation back: a stripped fallback line chosen by
      `pick` below the threshold, otherwise the responder's remark or the
      plain "title: description". */
  function ChooseResponse(best: Scored, query: string, responder: Responder, lines: seq<string>, pick: nat): Result<string, SearchError>
    requires |lines| == 0 || pick < |lines|
  {
    if best.score < SIMILARITY_THRESHOLD then
      if |lines| == 0 then Failure(NoFallbackLines) else Success(StrippedLines(lines)[pick])
    else if responder.Enabled? then Success(GeminiResponse(best.entry, query, responder))
    else Success(best.entry.title + ": " + best.entry.description)
  }

  /** Translation back: only a response detected as English is translated,
      into the query's language. */
  function BackTranslate(response: string, queryLang: string, services: Services): string {
    if services.detect(response) == ENGLISH then services.translate(response, ENGLISH, queryLang) else response
  }

  /** What find_best_match computes, stated with the first maximal entry in
      place of the sort. */
  function ExpectedMatch(query: string, embeddings: seq<ArticleEmbedding>, services: Services, lines: seq<string>, pick: nat): Result<BestMatch, SearchError>
    requires |lines| == 0 || pick < |lines|
  {
    var lang := services.detect(query);
    var normalized := NormalizeQuery(query, services);
    var scored := Similarities(normalized, embeddings, services);
    if |scored| == 0 then Failure(EmptyEmbeddings)
    else
      var best := scored[FirstMaxIndex(scored)];
      match ChooseResponse(best, normalized, services.responder, lines, pick)
      case Failure(e) => Failure(e)
      case Success(raw) =>
        Success(BestMatch(best.entry.title, best.score, best.entry.link,
                          BackTranslate(raw, lang, services), best.entry.description))
  }

  /** find_best_match: translate the query, score every entry, sort the pairs
      stably by descending score, take the head, compose the response and
      translate it back. `pick` stands for the random index. */
  method FindBestMatch(query: string, embeddings: seq<ArticleEmbedding>, services: Services, lines: seq<string>, pick: nat)
    returns (r: Result<BestMatch, SearchError>)
    requires |lines| == 0 || pick < |lines|
    ensures r == ExpectedMatch(query, embeddings, services, lines, pick)
  {
    var q := query;
    var detectedLang := services.detect(q);
    if detectedLang != ENGLISH {
      q := services.translate(q, detectedLang, ENGLISH);
    }
    var queryEmbedding := services.encode(q);
    var similarities := seq(|embeddings|, i requires 0 <= i < |embeddings| =>
      Scored(services.similarity(queryEmbedding, embeddings[i].embedding), embeddings[i]));
    assert similarities == Similarities(q, embeddings, services);
    var unsorted := similarities;
    similarities := SortDescending(similarities);
    if |embeddings| == 0 {
      return Failure(EmptyEmbeddings);
    }
    SortedHeadIsFirstMax(unsorted);
    var best := similarities[0];
    var response;
    if best.score < SIMILARITY_THRESHOLD {
      if |lines| == 0 {
        return Failure(NoFallbackLines);
      }
      var funnyResponses := StrippedLines(lines);
      response := funnyResponses[pick];
    } else {
      response := if services.responder.Enabled?
                  then GeminiResponse(best.entry, q, services.responder)
                  else best.entry.title + ": " + best.entry.description;
    }
    if services.detect(response) == ENGLISH {
      response := services.translate(response, ENGLISH, detectedLang);
    }
    r := Success(BestMatch(best.entry.title, best.score, best.entry.link, response, best.entry.description));
  }

  // ---------------------------------------------------------------------
  // Properties.

  /** The reported match is the first entry of the embedding set with the
      largest similarity to the normalised query, and the accuracy is that
      similarity — even when it is below the threshold. */
  lemma BestMatchIsFirstMaximum(query: string, embeddings: seq<ArticleEmbedding>, services: Services, lines: seq<string>, pick: nat)
    requires |lines| == 0 || pick < |lines|
    requires ExpectedMatch(query, embeddings, services, lines, pick).Success?
    ensures var m := ExpectedMatch(query, embeddings, services, lines, pick).value;
            var scored := Similarities(NormalizeQuery(query, services), embeddings, services);
            exists k :: && 0 <= k < |embeddings|
                        && m.bestMatch == embeddings[k].title
                        && m.link == embeddings[k].link
                        && m.rawDescription == embeddings[k].description
                        && m.accuracy == scored[k].score
                        && (forall j :: 0 <= j < |embeddings| ==> scored[j].score <= m.accuracy)
                        && (forall j :: 0 <= j < k ==> scored[j].score < m.accuracy)
  {
    var scored := Similarities(NormalizeQuery(query, services), embeddings, services);
    var k := FirstMaxIndex(scored);
    assert scored[k].entry == embeddings[k];
  }

  /** The two error cases: an empty embedding set, and a best score below the
      threshold with no fallback lines to choose from. */
  lemma MatchFailsExactly(query: string, embeddings: seq<ArticleEmbedding>, services: Services, lines: seq<string>, pick: nat)
    requires |lines| == 0 || pick < |lines|
    ensures var r := ExpectedMatch(query, embeddings, services, lines, pick);
            var scored := Similarities(NormalizeQuery(query, services), embeddings, services);
            && (r == Failure(EmptyEmbeddings) <==> |embeddings| == 0)
            && (r == Failure(NoFallbackLines) <==>
                  |embeddings| > 0 && |lines| == 0 && scored[FirstMaxIndex(scored)].score < SIMILARITY_THRESHOLD)
  {
  }

  /** Below the threshold the response is, before translation back, one of the
      stripped fallback lines, whatever the responder. */
  lemma LowScoreUsesFallback(best: Scored, query: string, responder: Responder, lines: seq<string>, pick: nat)
    requires |lines| == 0 || pick < |lines|
    requires best.score < SIMILARITY_THRESHOLD
    requires ChooseResponse(best, query, responder, lines, pick).Success?
    ensures ChooseResponse(best, query, responder, lines, pick).value in StrippedLines(lines)
    ensures forall other: Responder :: ChooseResponse(best, query, other, lines, pick) == ChooseResponse(best, query, responder, lines, pick)
  {
  }

  /** At or above the threshold: exactly "title: description" without a
      responder, the generated remark and the arrow with one. */
  lemma HighScoreResponse(best: Scored, query: string, responder: Responder, lines: seq<string>, pick: nat)
    requires |lines| == 0 || pick < |lines|
    requires best.score >= SIMILARITY_THRESHOLD
    ensures responder.Disabled? ==>
              ChooseResponse(best, query, responder, lines, pick) == Success(best.entry.title + ": " + best.entry.description)
    ensures responder.Enabled? ==>
              ChooseResponse(best, query, responder, lines, pick)
                == Success(responder.send(query, best.entry.title, best.entry.description) + ARROW)
  {
  }

  /** The query is translated into English exactly when it is not detected as
      English; the response is translated back exactly when it is detected as
      English — also when the query itself was English. */
  lemma TranslationPolicy(query: string, response: string, queryLang: string, services: Services)
    ensures services.detect(query) == ENGLISH ==> NormalizeQuery(query, services) == query
    ensures services.detect(query) != ENGLISH ==>
              NormalizeQuery(query, services) == services.translate(query, services.detect(query), ENGLISH)
    ensures services.detect(response) != ENGLISH ==> BackTranslate(response, queryLang, services) == response
    ensures services.detect(response) == ENGLISH ==>
              BackTranslate(response, queryLang, services) == services.translate(response, ENGLISH, queryLang)
  {
  }
}
