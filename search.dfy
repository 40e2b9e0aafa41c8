/** The search entry point with its two cache-aside loaders
    (scrape_unusual_articles, generate_embeddings and search_unusual_article
    in flask_server/scraping_and_search.py). The JSON corpus file and the
    pickled embedding file are the two optional fields of a Store: None
    stands for a file that does not exist. */
module Search {
  import opened Wrappers
  import opened Corpus
  import opened Embeddings
  import opened Matching

  /** The result dictionary once the threshold has been added. */
  datatype SearchResult = SearchResult(
    bestMatch: string, accuracy: real, link: string, response: string,
    rawDescription: string, threshold: real)

  /** Cache-aside: the stored value if there is one, else the computed one. */
  function CacheAside<T>(stored: Option<T>, computed: T): T {
    if stored.Some? then stored.value else computed
  }

  function WithThreshold(m: BestMatch): SearchResult {
    SearchResult(m.bestMatch, m.accuracy, m.link, m.response, m.rawDescription, SIMILARITY_THRESHOLD)
  }

  /** What search_unusual_article answers, given the two files as they were
      before the call and the page the scraper would fetch. */
  function SearchAnswer(
    articlesFile: Option<seq<Article>>, embeddingsFile: Option<seq<ArticleEmbedding>>,
    page: seq<Table>, query: string, services: Services, lines: seq<string>, pick: nat)
    : Result<SearchResult, SearchError>
    requires |lines| == 0 || pick < |lines|
  {
    var articles := CacheAside(articlesFile, ParseTables(page));
    var embeddings := CacheAside(embeddingsFile, EmbedAll(articles, services.encode));
    match ExpectedMatch(query, embeddings, services, lines, pick)
    case Failure(e) => Failure(e)
    case Success(m) => Success(WithThreshold(m))
  }

  class Store {
    var articlesFile: Option<seq<Article>>
    var embeddingsFile: Option<seq<ArticleEmbedding>>
    /** How often the page has been fetched and parsed, and how often the
        encoder has been run over the corpus. */
    ghost var pageFetches: nat
    ghost var encoderRuns: nat

    constructor (articlesFile: Option<seq<Article>>, embeddingsFile: Option<seq<ArticleEmbedding>>)
      ensures this.articlesFile == articlesFile && this.embeddingsFile == embeddingsFile
      ensures pageFetches == 0 && encoderRuns == 0
    {
      this.articlesFile := articlesFile;
      this.embeddingsFile := embeddingsFile;
      pageFetches, encoderRuns := 0, 0;
    }

    /** scrape_unusual_articles: return the stored corpus unchanged if there is
        one; otherwise parse the page and store the complete result. */
    method ScrapeUnusualArticles(page: seq<Table>) returns (articles: seq<Article>)
      modifies this`articlesFile, this`pageFetches
      ensures articles == CacheAside(old(articlesFile), ParseTables(page))
      ensures articlesFile == Some(articles)
      ensures pageFetches == old(pageFetches) + (if old(articlesFile).Some? then 0 else 1)
    {
      if articlesFile.Some? {
        return articlesFile.value;
      }
      pageFetches := pageFetches + 1;
      articles := ScrapeTables(page);
      articlesFile := Some(articles);
    }

    /** generate_embeddings: return the stored embedding set unchanged if there
        is one, whatever `articles` is; otherwise encode every article and
        store the complete result. */
    method GenerateEmbeddings(articles: seq<Article>, encode: string -> Vector) returns (embeddings: seq<ArticleEmbedding>)
      modifies this`embeddingsFile, this`encoderRuns
      ensures embeddings == CacheAside(old(embeddingsFile), EmbedAll(articles, encode))
      ensures embeddingsFile == Some(embeddings)
      ensures encoderRuns == old(encoderRuns) + (if old(embeddingsFile).Some? then 0 else 1)
    {
      if embeddingsFile.Some? {
        return embeddingsFile.value;
      }
      encoderRuns := encoderRuns + 1;
      embeddings := EncodeArticles(articles, encode);
      embeddingsFile := Some(embeddings);
    }

    /** search_unusual_article: load or build the corpus, load or build the
        embeddings, find the best match, add the threshold. */
    method SearchUnusualArticle(query: string, page: seq<Table>, services: Services, lines: seq<string>, pick: nat)
      returns (r: Result<SearchResult, SearchError>)
      requires |lines| == 0 || pick < |lines|
      modifies this
      ensures r == SearchAnswer(old(articlesFile), old(embeddingsFile), page, query, services, lines, pick)
      ensures articlesFile == Some(CacheAside(old(articlesFile), ParseTables(page)))
      ensures embeddingsFile == Some(CacheAside(old(embeddingsFile), EmbedAll(articlesFile.value, services.encode)))
      ensures pageFetches == old(pageFetches) + (if old(articlesFile).Some? then 0 else 1)
      ensures encoderRuns == old(encoderRuns) + (if old(embeddingsFile).Some? then 0 else 1)
    {
      var articles := ScrapeUnusualArticles(page);
      var embeddings := GenerateEmbeddings(articles, services.encode);
      var m := FindBestMatch(query, embeddings, services, lines, pick);
      match m
      case Failure(e) =>
        r := Failure(e);
      case Success(best) =>
        r := Success(WithThreshold(best));
    }
  }

  // ---------------------------------------------------------------------
  // Properties.

  /** A second load from a store the first load filled returns the same value
      and computes nothing, whatever it would have computed. */
  lemma CacheAsideIdempotent<T>(stored: Option<T>, first: T, second: T)
    ensures CacheAside(Some(CacheAside(stored, first)), second) == CacheAside(stored, first)
    ensures stored.Some? ==> CacheAside(stored, first) == stored.value
  {
  }

  /** Once an embedding file exists the answer depends neither on the corpus
      file nor on the page: a stale embedding set is used as it is. */
  lemma StoredEmbeddingsDecide(
    a1: Option<seq<Article>>, a2: Option<seq<Article>>, e: seq<ArticleEmbedding>,
    p1: seq<Table>, p2: seq<Table>, query: string, services: Services, lines: seq<string>, pick: nat)
    requires |lines| == 0 || pick < |lines|
    ensures SearchAnswer(a1, Some(e), p1, query, services, lines, pick)
         == SearchAnswer(a2, Some(e), p2, query, services, lines, pick)
  {
  }

  /** The answer carries the threshold and the match's fields unchanged. */
  lemma SearchAnswerShape(
    articlesFile: Option<seq<Article>>, embeddingsFile: Option<seq<ArticleEmbedding>>,
    page: seq<Table>, query: string, services: Services, lines: seq<string>, pick: nat)
    requires |lines| == 0 || pick < |lines|
    ensures var articles := CacheAside(articlesFile, ParseTables(page));
            var embeddings := CacheAside(embeddingsFile, EmbedAll(articles, services.encode));
            var m := ExpectedMatch(query, embeddings, services, lines, pick);
            var r := SearchAnswer(articlesFile, embeddingsFile, page, query, services, lines, pick);
            && (r.Success? <==> m.Success?)
            && (r.Success? ==> && r.value.threshold == SIMILARITY_THRESHOLD
                               && r.value.bestMatch == m.value.bestMatch
                               && r.value.accuracy == m.value.accuracy
                               && r.value.link == m.value.link
                               && r.value.response == m.value.response
                               && r.value.rawDescription == m.value.rawDescription)
  {
  }
}
