/** Embedding Cache, computing half: one record per article carrying the
    vector the sentence encoder gives its description (the loop of
    generate_embeddings in flask_server/scraping_and_search.py). The encoder
    is a parameter: nothing is assumed of it but that it is a function. */
module Embeddings {
  import opened Corpus

  type Vector = seq<real>

  datatype ArticleEmbedding = ArticleEmbedding(title: string, link: string, description: string, embedding: Vector)

  /** The record kept for one article; the flag is not carried over. */
  function EmbeddingOf(a: Article, encode: string -> Vector): ArticleEmbedding {
    ArticleEmbedding(a.title, a.link, a.description, encode(a.description))
  }

  /** The embedding set of a corpus: the record of each article, in corpus
      order. */
  function EmbedAll(articles: seq<Article>, encode: string -> Vector): seq<ArticleEmbedding> {
    seq(|articles|, i requires 0 <= i < |articles| => EmbeddingOf(articles[i], encode))
  }

  /** The `for article in articles` loop, appending one record per article. */
  method EncodeArticles(articles: seq<Article>, encode: string -> Vector) returns (embeddings: seq<ArticleEmbedding>)
    ensures |embeddings| == |articles|
    ensures forall i :: 0 <= i < |articles| ==>
              && embeddings[i].title == articles[i].title
              && embeddings[i].link == articles[i].link
              && embeddings[i].description == articles[i].description
              && embeddings[i].embedding == encode(articles[i].description)
    ensures embeddings == EmbedAll(articles, encode)
  {
    embeddings := [];
    for i := 0 to |articles|
      invariant embeddings == EmbedAll(articles[..i], encode)
    {
      var article := articles[i];
      var embedding := encode(article.description);
      embeddings := embeddings + [ArticleEmbedding(article.title, article.link, article.description, embedding)];
    }
    assert articles[..|articles|] == articles;
  }

  /** The embedding set has exactly one record per article, in the same
      order, with title, link and description copied unchanged. Two
      descriptions that are equal get equal vectors. */
  lemma EmbedAllFaithful(articles: seq<Article>, encode: string -> Vector, i: nat, j: nat)
    requires i < |articles| && j < |articles|
    requires articles[i].description == articles[j].description
    ensures |EmbedAll(articles, encode)| == |articles|
    ensures EmbedAll(articles, encode)[i].title == articles[i].title
    ensures EmbedAll(articles, encode)[i].link == articles[i].link
    ensures EmbedAll(articles, encode)[i].description == articles[i].description
    ensures EmbedAll(articles, encode)[i].embedding == EmbedAll(articles, encode)[j].embedding
  {
  }
}
