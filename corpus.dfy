/** Corpus Store, parsing half: turning the rows of the "unusual articles"
    tables into Article records (scrape_unusual_articles in
    flask_server/scraping_and_search.py). Fetching the page and HTML
    parsing are not modelled; a page is given as its tables, each table as
    its rows, each row as the `td`/`th` cells it holds. */
module Corpus {
  import opened Wrappers
  import opened Text

  datatype Tag = Td | Th

  /** An `<a>` element: its href attribute, if any, and its stripped text. */
  datatype Anchor = Anchor(href: Option<string>, text: string)

  /** A table cell: its tag, the src of the first `<img>` inside it (None when
      it holds no image), its anchors in document order, and its stripped
      text. */
  datatype Cell = Cell(tag: Tag, imgSrc: Option<string>, anchors: seq<Anchor>, text: string)

  type Row = seq<Cell>
  type Table = seq<Row>

  datatype Article = Article(title: string, link: string, description: string, flag: Option<string>)

  const WIKI_ORIGIN := "https://en.wikipedia.org"
  const FILE_PREFIX := "/wiki/File:"
  const NO_DESCRIPTION := "Descripción no disponible"

  /** An anchor is eligible as the title link when it has an href that does
      not point at a file page. */
  predicate IsTitleLink(a: Anchor) {
    a.href.Some? && !StartsWith(a.href.value, FILE_PREFIX)
  }

  /** A leading `th` holding an image is a flag cell. */
  predicate IsFlagCell(c: Cell) {
    c.tag == Th && c.imgSrc.Some?
  }

  /** Index of the first eligible title link, or |anchors| if there is none. */
  function FirstTitleIndex(anchors: seq<Anchor>): (k: nat)
    ensures k <= |anchors|
    ensures k < |anchors| ==> IsTitleLink(anchors[k])
    ensures forall j :: 0 <= j < k ==> !IsTitleLink(anchors[j])
  {
    if anchors == [] then 0
    else if IsTitleLink(anchors[0]) then 0
    else 1 + FirstTitleIndex(anchors[1..])
  }

  /** The flag URL of a row: "https:" before the image src, or None when the
      first cell is not a flag cell or its src is empty. */
  function RowFlag(first: Cell): Option<string> {
    if IsFlagCell(first) && first.imgSrc.value != "" then Some("https:" + first.imgSrc.value) else None
  }

  /** The article a row yields, if any: the parse of one iteration of the
      row loop. */
  function RowArticle(row: Row): Option<Article> {
    if |row| < 2 then None
    else
      var cells := if IsFlagCell(row[0]) then row[1..] else row;
      if |cells| < 2 then None
      else
        var anchors := cells[0].anchors;
        var k := FirstTitleIndex(anchors);
        if k == |anchors| then None
        else
          var description := cells[1].text;
          Some(Article(
            anchors[k].text,
            WIKI_ORIGIN + anchors[k].href.value,
            if description != "" then description else NO_DESCRIPTION,
            RowFlag(row[0])))
  }

  function Articles(a: Option<Article>): seq<Article> {
    if a.Some? then [a.value] else []
  }

  /** The articles of a table's rows, in row order. */
  function ParseRows(rows: seq<Row>): seq<Article> {
    if rows == [] then [] else Articles(RowArticle(rows[0])) + ParseRows(rows[1..])
  }

  /** The articles of a page's tables, in table order. */
  function ParseTables(tables: seq<Table>): seq<Article> {
    if tables == [] then [] else ParseRows(tables[0]) + ParseTables(tables[1..])
  }

  // ---------------------------------------------------------------------
  // The scraping loops.

  /** The inner `for link in title_cell` loop with its `break`. */
  method FindTitleLink(anchors: seq<Anchor>) returns (title: Option<Anchor>)
    ensures title.Some? ==> exists k :: 0 <= k < |anchors| && title.value == anchors[k]
    ensures title == (var k := FirstTitleIndex(anchors); if k < |anchors| then Some(anchors[k]) else None)
  {
    title := None;
    var i := 0;
    while i < |anchors|
      invariant 0 <= i <= |anchors|
      invariant forall j :: 0 <= j < i ==> !IsTitleLink(anchors[j])
      invariant title == None
    {
      if IsTitleLink(anchors[i]) {
        title := Some(anchors[i]);
        break;
      }
      i := i + 1;
    }
    FirstTitleIndexUnique(anchors, i);
  }

  /** The body of the row loop: None where the source `continue`s. */
  method ParseRow(row: Row) returns (article: Option<Article>)
    ensures article == RowArticle(row)
  {
    var cells := row;
    if |cells| < 2 {
      return None;
    }
    var flag: Option<string> := None;
    var firstCell := cells[0];
    if firstCell.tag == Th && firstCell.imgSrc.Some? {
      flag := firstCell.imgSrc;
      cells := cells[1..];
    }
    if |cells| < 2 {
      return None;
    }
    var titleLink := FindTitleLink(cells[0].anchors);
    if titleLink.None? {
      return None;
    }
    var description := cells[1].text;
    article := Some(Article(
      titleLink.value.text,
      WIKI_ORIGIN + titleLink.value.href.value,
      if description != "" then description else NO_DESCRIPTION,
      if flag.Some? && flag.value != "" then Some("https:" + flag.value) else None));
  }

  /** The nested table/row loops of scrape_unusual_articles, collecting the
      articles in order. */
  method ScrapeTables(tables: seq<Table>) returns (articles: seq<Article>)
    ensures articles == ParseTables(tables)
  {
    articles := [];
    for t := 0 to |tables|
      invariant articles == ParseTables(tables[..t])
    {
      var table := tables[t];
      for r := 0 to |table|
        invariant articles == ParseTables(tables[..t]) + ParseRows(table[..r])
      {
        var article := ParseRow(table[r]);
        RowStep(tables[..t], table, r);
        if article.Some? {
          articles := articles + [article.value];
        }
      }
      TableStep(tables, t);
    }
    assert tables[..|tables|] == tables;
  }

  /** One more row adds that row's article, if any. */
  lemma RowStep(done: seq<Table>, table: Table, r: nat)
    requires r < |table|
    ensures ParseTables(done) + ParseRows(table[..r + 1])
         == ParseTables(done) + ParseRows(table[..r]) + Articles(RowArticle(table[r]))
  {
    ParseRowsAppend(table[..r], [table[r]]);
    assert table[..r + 1] == table[..r] + [table[r]];
    assert ParseRows([table[r]]) == Articles(RowArticle(table[r]));
  }

  /** The rows of one more table add that table's articles. */
  lemma TableStep(tables: seq<Table>, t: nat)
    requires t < |tables|
    ensures ParseTables(tables[..t + 1]) == ParseTables(tables[..t]) + ParseRows(tables[t][..|tables[t]|])
  {
    ParseTablesAppend(tables[..t], [tables[t]]);
    assert tables[..t + 1] == tables[..t] + [tables[t]];
    assert tables[t][..|tables[t]|] == tables[t];
  }

  // ---------------------------------------------------------------------
  // Properties.

  /** The characterisation of FirstTitleIndex pins it down. */
  lemma FirstTitleIndexUnique(anchors: seq<Anchor>, k: nat)
    requires k <= |anchors|
    requires k < |anchors| ==> IsTitleLink(anchors[k])
    requires forall j :: 0 <= j < k ==> !IsTitleLink(anchors[j])
    ensures FirstTitleIndex(anchors) == k
  {
  }

  /** A row with fewer than two cells, or with fewer than two once its flag
      cell is dropped, yields no article. */
  lemma ShortRowSkipped(row: Row)
    requires |row| < 2 || (IsFlagCell(row[0]) && |row| < 3)
    ensures RowArticle(row) == None
  {
  }

  /** A row yields an article exactly when it has at least two cells once a
      leading flag cell is dropped and its first remaining cell holds an
      eligible title anchor: the two length checks and the missing title are
      the only ways to skip a row. */
  lemma RowArticleExactly(row: Row)
    ensures RowArticle(row).Some? <==>
              && |row| >= 2
              && (var cells := if IsFlagCell(row[0]) then row[1..] else row;
                  && |cells| >= 2
                  && exists k :: 0 <= k < |cells[0].anchors| && IsTitleLink(cells[0].anchors[k]))
  {
    if |row| >= 2 {
      var cells := if IsFlagCell(row[0]) then row[1..] else row;
      if |cells| >= 2 {
        var anchors := cells[0].anchors;
        var k := FirstTitleIndex(anchors);
        if k == |anchors| {
          assert forall j :: 0 <= j < |anchors| ==> !IsTitleLink(anchors[j]);
        } else {
          assert IsTitleLink(anchors[k]);
        }
      }
    }
  }

  /** What a parsed article is made of: the first eligible anchor of the
      title cell (the cell after the flag cell, if there is one), the second
      cell's text or the placeholder, and the flag cell's image. */
  lemma {:induction false} RowArticleFields(row: Row)
    requires RowArticle(row).Some?
    ensures var a := RowArticle(row).value;
            var cells := if IsFlagCell(row[0]) then row[1..] else row;
            && |cells| >= 2
            && (exists k :: && 0 <= k < |cells[0].anchors|
                            && IsTitleLink(cells[0].anchors[k])
                            && (forall j :: 0 <= j < k ==> !IsTitleLink(cells[0].anchors[j]))
                            && a.title == cells[0].anchors[k].text
                            && a.link == WIKI_ORIGIN + cells[0].anchors[k].href.value)
            && (a.description == if cells[1].text == "" then NO_DESCRIPTION else cells[1].text)
            && (a.flag.Some? <==> IsFlagCell(row[0]) && row[0].imgSrc.value != "")
            && (a.flag.Some? ==> a.flag.value == "https:" + row[0].imgSrc.value)
  {
    var cells := if IsFlagCell(row[0]) then row[1..] else row;
    var k := FirstTitleIndex(cells[0].anchors);
    assert k < |cells[0].anchors|;
  }

  /** Every parsed article is well formed: a non-empty description, a link
      on the encyclopedia's origin that is not a file page, and a flag that
      is an https: URL. */
  ghost predicate WellFormed(a: Article) {
    && a.description != ""
    && StartsWith(a.link, WIKI_ORIGIN)
    && !StartsWith(a.link[|WIKI_ORIGIN|..], FILE_PREFIX)
    && (a.flag.Some? ==> StartsWith(a.flag.value, "https:") && |a.flag.value| > |"https:"|)
  }

  lemma ParsedArticleWellFormed(row: Row)
    requires RowArticle(row).Some?
    ensures WellFormed(RowArticle(row).value)
  {
    var a := RowArticle(row).value;
    var cells := if IsFlagCell(row[0]) then row[1..] else row;
    var k := FirstTitleIndex(cells[0].anchors);
    var href := cells[0].anchors[k].href.value;
    assert a.link == WIKI_ORIGIN + href;
    assert a.link[..|WIKI_ORIGIN|] == WIKI_ORIGIN;
    assert a.link[|WIKI_ORIGIN|..] == href;
  }

  /** A table row laid out the way the page lays out an article: an
      optional flag cell, a title cell holding one link, a description
      cell. */
  function CanonicalRow(a: Article): Row
    requires WellFormed(a)
  {
    var flagCells := if a.flag.Some? then [Cell(Th, Some(a.flag.value[|"https:"|..]), [], "")] else [];
    flagCells + [
      Cell(Td, None, [Anchor(Some(a.link[|WIKI_ORIGIN|..]), a.title)], ""),
      Cell(Td, None, [], a.description)]
  }

  /** Parsing inverts the layout: every well-formed article is exactly what
      its canonical row parses to, so WellFormed describes every article
      the parser can produce. */
  lemma {:induction false} CanonicalRowRoundTrip(a: Article)
    requires WellFormed(a)
    ensures RowArticle(CanonicalRow(a)) == Some(a)
  {
    var row := CanonicalRow(a);
    var cells := if IsFlagCell(row[0]) then row[1..] else row;
    var href := a.link[|WIKI_ORIGIN|..];
    assert a.link == WIKI_ORIGIN + href by {
      assert a.link[..|WIKI_ORIGIN|] == WIKI_ORIGIN;
    }
    assert cells[0].anchors == [Anchor(Some(href), a.title)];
    assert FirstTitleIndex(cells[0].anchors) == 0;
    if a.flag.Some? {
      var src := a.flag.value[|"https:"|..];
      assert a.flag.value == "https:" + src by {
        assert a.flag.value[..|"https:"|] == "https:";
      }
      assert RowFlag(row[0]) == a.flag;
    } else {
      assert RowFlag(row[0]) == None;
    }
  }

  /** Parsing a table row by row: the rows of `a + b` yield the articles of
      `a` followed by those of `b`. With ParseRows of a single row being at
      most that row's article, this fixes the order: table order, row order,
      at most one article per row. */
  lemma {:induction false} ParseRowsAppend(a: seq<Row>, b: seq<Row>)
    ensures ParseRows(a + b) == ParseRows(a) + ParseRows(b)
    decreases |a|
  {
    if a == [] {
      assert a + b == b;
    } else {
      var head := Articles(RowArticle(a[0]));
      assert (a + b)[0] == a[0];
      assert (a + b)[1..] == a[1..] + b;
      ParseRowsAppend(a[1..], b);
      AppendAssoc(head, ParseRows(a[1..]), ParseRows(b));
    }
  }

  lemma {:induction false} ParseTablesAppend(a: seq<Table>, b: seq<Table>)
    ensures ParseTables(a + b) == ParseTables(a) + ParseTables(b)
    decreases |a|
  {
    if a == [] {
      assert a + b == b;
    } else {
      assert (a + b)[0] == a[0];
      assert (a + b)[1..] == a[1..] + b;
      ParseTablesAppend(a[1..], b);
      AppendAssoc(ParseRows(a[0]), ParseTables(a[1..]), ParseTables(b));
    }
  }

  lemma {:induction false} ParseRowsAtMostOnePerRow(rows: seq<Row>)
    ensures |ParseRows(rows)| <= |rows|
    decreases |rows|
  {
    if rows != [] {
      ParseRowsAtMostOnePerRow(rows[1..]);
    }
  }

  /** Every article on the page comes from one of its rows. */
  lemma {:induction false} ParseTablesSound(tables: seq<Table>, i: nat)
    requires i < |ParseTables(tables)|
    ensures exists t, r :: 0 <= t < |tables| && 0 <= r < |tables[t]|
                        && RowArticle(tables[t][r]) == Some(ParseTables(tables)[i])
    decreases |tables|
  {
    var first := ParseRows(tables[0]);
    if i < |first| {
      ParseRowsSound(tables[0], i);
      var r :| 0 <= r < |tables[0]| && RowArticle(tables[0][r]) == Some(first[i]);
      assert RowArticle(tables[0][r]) == Some(ParseTables(tables)[i]);
    } else {
      ParseTablesSound(tables[1..], i - |first|);
      var t, r :| 0 <= t < |tables[1..]| && 0 <= r < |tables[1..][t]|
                  && RowArticle(tables[1..][t][r]) == Some(ParseTables(tables[1..])[i - |first|]);
      assert RowArticle(tables[t + 1][r]) == Some(ParseTables(tables)[i]);
    }
  }

  lemma {:induction false} ParseRowsSound(rows: seq<Row>, i: nat)
    requires i < |ParseRows(rows)|
    ensures exists r :: 0 <= r < |rows| && RowArticle(rows[r]) == Some(ParseRows(rows)[i])
    decreases |rows|
  {
    var head := Articles(RowArticle(rows[0]));
    if i < |head| {
      assert RowArticle(rows[0]) == Some(ParseRows(rows)[i]);
    } else {
      ParseRowsSound(rows[1..], i - |head|);
      var r :| 0 <= r < |rows[1..]| && RowArticle(rows[1..][r]) == Some(ParseRows(rows[1..])[i - |head|]);
      assert RowArticle(rows[r + 1]) == Some(ParseRows(rows)[i]);
    }
  }
}
