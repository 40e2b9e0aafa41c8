/** markdown_to_html in flask_server/app.py. Each `re.sub` is a left-to-right
    scanner: at each index it tries the pattern; on a match it emits the
    replacement and resumes after the match, otherwise it copies one
    character. The patterns are
      links      \[(.*?)\]\((https?://[^\s]+)\)
      strong     \*\*(.*?)\*\*
      emphasis   \*(.*?)\*   and   _(.*?)_
    where `.` is any character but a line break, `*?` takes the shortest
    extent that lets the rest match, and `[^\s]+` the longest. */
module Markdown {
  import opened Wrappers
  import opened Text

  // ---------------------------------------------------------------------
  // The link pattern.

  /** Index just past `http://` or `https://` at q (`https?://`). */
  function SchemeEnd(s: string, q: nat): (u: Option<nat>)
    ensures u.Some? ==> q + 7 <= u.value <= |s|
  {
    if StartsWithAt(s, q, "http://") then Some(q + 7)
    else if StartsWithAt(s, q, "https://") then Some(q + 8)
    else None
  }

  /** End of the run of non-whitespace characters that starts at u. */
  function RunEnd(s: string, u: nat): (e: nat)
    requires u <= |s|
    ensures u <= e <= |s|
    decreases |s| - u
  {
    if u < |s| && !IsSpace(s[u]) then RunEnd(s, u + 1) else u
  }

  /** The run is maximal: no whitespace in it, whitespace or the end after it. */
  lemma {:induction false} RunEndMaximal(s: string, u: nat)
    requires u <= |s|
    ensures forall x :: u <= x < RunEnd(s, u) ==> !IsSpace(s[x])
    ensures RunEnd(s, u) < |s| ==> IsSpace(s[RunEnd(s, u)])
    decreases |s| - u
  {
    if u < |s| && !IsSpace(s[u]) {
      RunEndMaximal(s, u + 1);
    }
  }

  /** The greatest c in [lo, hi) with s[c] == ')'. */
  function LastParen(s: string, lo: nat, hi: nat): (c: Option<nat>)
    requires hi <= |s|
    ensures c.Some? ==> lo <= c.value < hi && s[c.value] == ')'
    decreases hi
  {
    if hi <= lo then None
    else if s[hi - 1] == ')' then Some(hi - 1)
    else LastParen(s, lo, hi - 1)
  }

  /** LastParen finds the last `)`, and finds one whenever there is one. */
  lemma {:induction false} LastParenLast(s: string, lo: nat, hi: nat)
    requires hi <= |s|
    ensures LastParen(s, lo, hi).Some? ==> forall x :: LastParen(s, lo, hi).value < x < hi ==> s[x] != ')'
    ensures LastParen(s, lo, hi).None? ==> forall x :: lo <= x < hi ==> s[x] != ')'
    decreases hi
  {
    if lo < hi && s[hi - 1] != ')' {
      LastParenLast(s, lo, hi - 1);
    }
  }

  /** The tail `\]\((https?://[^\s]+)\)` tried with `]` at k: the index of the
      closing parenthesis. The greedy `[^\s]+` makes it the last `)` of the
      non-whitespace run, at least one character past the scheme. */
  function LinkTail(s: string, k: nat): (c: Option<nat>)
    ensures c.Some? ==> StartsWithAt(s, k, "](") && k + 10 <= c.value < |s| && s[c.value] == ')'
  {
    if !StartsWithAt(s, k, "](") then None
    else match SchemeEnd(s, k + 2)
      case None => None
      case Some(u) => LastParen(s, u + 1, RunEnd(s, u))
  }

  /** What the tail captures holds no whitespace and starts with the scheme
      and at least one more character. */
  lemma LinkTailUrl(s: string, k: nat)
    requires LinkTail(s, k).Some?
    ensures var c := LinkTail(s, k).value;
            && (forall x :: k + 2 <= x <= c ==> !IsSpace(s[x]))
            && (|| (StartsWithAt(s, k + 2, "http://") && k + 10 <= c)
                || (StartsWithAt(s, k + 2, "https://") && k + 11 <= c))
  {
    var u := SchemeEnd(s, k + 2).value;
    assert forall x :: k + 2 <= x < u ==> !IsSpace(s[x]) by {
      if StartsWithAt(s, k + 2, "http://") {
        assert forall x :: k + 2 <= x < k + 9 ==> s[x] == "http://"[x - k - 2];
      } else {
        assert forall x :: k + 2 <= x < k + 10 ==> s[x] == "https://"[x - k - 2];
      }
    }
    RunEndMaximal(s, u);
  }

  /** The non-greedy `(.*?)` starting at j: the first k, before any line break,
      at which the tail matches, with the tail's closing parenthesis. */
  function LinkClose(s: string, j: nat): (r: Option<(nat, nat)>)
    ensures r.Some? ==> j <= r.value.0 && LinkTail(s, r.value.0) == Some(r.value.1)
    decreases |s| - j
  {
    if j >= |s| then None
    else match LinkTail(s, j)
      case Some(c) => Some((j, c))
      case None => if s[j] == '\n' then None else LinkClose(s, j + 1)
  }

  /** The text group is the shortest one: no line break in it, and the tail
      matches at no earlier index. */
  lemma {:induction false} LinkCloseFirst(s: string, j: nat)
    ensures var r := LinkClose(s, j);
            r.Some? ==> && (forall x :: j <= x < r.value.0 ==> s[x] != '\n')
                        && (forall x :: j <= x < r.value.0 ==> LinkTail(s, x).None?)
    decreases |s| - j
  {
    if j < |s| && LinkTail(s, j).None? && s[j] != '\n' {
      LinkCloseFirst(s, j + 1);
    }
  }

  /** A match of the link pattern: the two groups and the index just past it. */
  datatype LinkMatch = LinkMatch(text: string, url: string, end: nat)

  /** A URL the link pattern accepts as its second group. */
  predicate IsWebUrl(url: string) {
    && ((StartsWith(url, "http://") && |url| > 7) || (StartsWith(url, "https://") && |url| > 8))
    && forall x :: 0 <= x < |url| ==> !IsSpace(url[x])
  }

  function LinkAt(s: string, p: nat): (m: Option<LinkMatch>)
    ensures m.Some? ==> p < m.value.end <= |s|
  {
    if p < |s| && s[p] == '[' then
      match LinkClose(s, p + 1)
      case None => None
      case Some((k, c)) => Some(LinkMatch(s[p + 1..k], s[k + 2..c], c + 1))
    else None
  }

  /** A match in terms of the close of its text group. */
  lemma LinkAtClose(s: string, p: nat)
    requires LinkAt(s, p).Some?
    ensures p < |s| && s[p] == '[' && LinkClose(s, p + 1).Some?
    ensures var j, c := LinkClose(s, p + 1).value.0, LinkClose(s, p + 1).value.1;
            LinkAt(s, p).value == LinkMatch(s[p + 1..j], s[j + 2..c], c + 1)
  {
  }

  /** A match spans exactly `[text](url)`; the text holds no line break and
      the url is one the pattern accepts. */
  lemma LinkAtShape(s: string, p: nat)
    requires LinkAt(s, p).Some?
    ensures var m := LinkAt(s, p).value;
            && s[p..m.end] == "[" + m.text + "](" + m.url + ")"
            && (forall x :: 0 <= x < |m.text| ==> m.text[x] != '\n')
            && IsWebUrl(m.url)
  {
    var k, c := LinkClose(s, p + 1).value.0, LinkClose(s, p + 1).value.1;
    LinkSpan(s, p, k, c);
    LinkCloseFirst(s, p + 1);
    LinkTextOneLine(s, p + 1, k);
    LinkUrlAccepted(s, k, c);
  }

  lemma LinkSpan(s: string, p: nat, k: nat, c: nat)
    requires p < k && k + 2 <= c < |s| && s[p] == '[' && StartsWithAt(s, k, "](") && s[c] == ')'
    ensures s[p..c + 1] == "[" + s[p + 1..k] + "](" + s[k + 2..c] + ")"
  {
    calc {
      s[p..c + 1];
      { SliceSplit(s, p, p + 1, c + 1); }
      s[p..p + 1] + s[p + 1..c + 1];
      { SliceSplit(s, p + 1, k, c + 1); }
      s[p..p + 1] + s[p + 1..k] + s[k..c + 1];
      { SliceSplit(s, k, k + 2, c + 1); }
      s[p..p + 1] + s[p + 1..k] + s[k..k + 2] + s[k + 2..c + 1];
      { SliceSplit(s, k + 2, c, c + 1); }
      s[p..p + 1] + s[p + 1..k] + s[k..k + 2] + s[k + 2..c] + s[c..c + 1];
      { assert s[p..p + 1] == "["; assert s[c..c + 1] == ")"; }
      "[" + s[p + 1..k] + "](" + s[k + 2..c] + ")";
    }
  }

  lemma LinkTextOneLine(s: string, j: nat, k: nat)
    requires j <= k <= |s|
    requires forall x :: j <= x < k ==> s[x] != '\n'
    ensures forall x :: 0 <= x < k - j ==> s[j..k][x] != '\n'
  {
    forall x | 0 <= x < k - j ensures s[j..k][x] != '\n' {
      assert s[j..k][x] == s[j + x];
    }
  }

  lemma LinkUrlAccepted(s: string, k: nat, c: nat)
    requires LinkTail(s, k) == Some(c)
    ensures IsWebUrl(s[k + 2..c])
  {
    LinkTailUrl(s, k);
    var url := s[k + 2..c];
    forall x | 0 <= x < |url| ensures !IsSpace(url[x]) {
      assert url[x] == s[k + 2 + x];
    }
    SlicePrefix(s, k + 2, c, 7);
    if |url| > 8 {
      SlicePrefix(s, k + 2, c, 8);
    }
  }

  lemma SliceSplit(s: string, a: nat, b: nat, c: nat)
    requires a <= b <= c <= |s|
    ensures s[a..c] == s[a..b] + s[b..c]
  {
  }

  /** What the link substitution sees: characters it copies and the links it
      swaps out. */
  datatype Piece = Char(c: char) | Link(text: string, url: string)

  /** `re.sub` with the link pattern, scanning from index i. */
  function LinkPieces(s: string, i: nat): seq<Piece>
    decreases |s| - i
  {
    if i >= |s| then []
    else match LinkAt(s, i)
      case Some(m) => [Link(m.text, m.url)] + LinkPieces(s, m.end)
      case None => [Char(s[i])] + LinkPieces(s, i + 1)
  }

  /** The placeholder for the link that finds n links already stored. */
  function Key(n: nat): string {
    "{{LINK" + NatToString(n) + "}}"
  }

  function AnchorHtml(text: string, url: string): string {
    "<a href=\"" + url + "\" target=\"_blank\">" + text + "</a>"
  }

  /** The text with the n-th, (n+1)-th, ... link replaced by its placeholder. */
  function WithKeys(pieces: seq<Piece>, n: nat): string
    decreases |pieces|
  {
    if pieces == [] then []
    else match pieces[0]
      case Char(c) => [c] + WithKeys(pieces[1..], n)
      case Link(_, _) => Key(n) + WithKeys(pieces[1..], n + 1)
  }

  /** The (placeholder, anchor) entries the callback stores, in insertion
      order; the order `links.items()` returns them. */
  function Entries(pieces: seq<Piece>, n: nat): seq<(string, string)>
    decreases |pieces|
  {
    if pieces == [] then []
    else match pieces[0]
      case Char(_) => Entries(pieces[1..], n)
      case Link(t, u) => [(Key(n), AnchorHtml(t, u))] + Entries(pieces[1..], n + 1)
  }

  /** The (text, url) groups of the matched links, in order. */
  function Matches(pieces: seq<Piece>): seq<(string, string)>
    decreases |pieces|
  {
    if pieces == [] then []
    else match pieces[0]
      case Char(_) => Matches(pieces[1..])
      case Link(t, u) => [(t, u)] + Matches(pieces[1..])
  }

  // ---------------------------------------------------------------------
  // The emphasis patterns, with delimiter d and the tags open and close.

  /** The non-greedy `(.*?)` followed by the delimiter, from j: the first
      index, before any line break, at which the delimiter occurs. */
  function CloseAt(s: string, d: string, j: nat): (k: Option<nat>)
    requires d != []
    ensures k.Some? ==> j <= k.value && k.value + |d| <= |s|
    decreases |s| - j
  {
    if StartsWithAt(s, j, d) then Some(j)
    else if j >= |s| || s[j] == '\n' then None
    else CloseAt(s, d, j + 1)
  }

  /** The closing delimiter is the first one, on the same line: `(.*?)` is
      non-greedy and does not cross a line break. */
  lemma {:induction false} CloseAtShortest(s: string, d: string, j: nat)
    requires d != []
    ensures CloseAt(s, d, j).Some? ==> StartsWithAt(s, CloseAt(s, d, j).value, d)
    ensures CloseAt(s, d, j).Some? ==> forall x :: j <= x < CloseAt(s, d, j).value ==> s[x] != '\n'
    ensures CloseAt(s, d, j).Some? ==> forall x :: j <= x < CloseAt(s, d, j).value ==> !StartsWithAt(s, x, d)
    decreases |s| - j
  {
    if !StartsWithAt(s, j, d) && j < |s| && s[j] != '\n' {
      CloseAtShortest(s, d, j + 1);
    }
  }

  /** Where the pair opened at i closes, if a delimiter opens there. */
  function PairClose(s: string, d: string, i: nat): (k: Option<nat>)
    requires d != []
    ensures k.Some? ==> i + |d| <= k.value && k.value + |d| <= |s|
  {
    if StartsWithAt(s, i, d) then CloseAt(s, d, i + |d|) else None
  }

  /** `re.sub(delimiter (.*?) delimiter, open \1 close, s)`, from index i. */
  function SubPairs(s: string, d: string, open: string, close: string, i: nat): string
    requires d != []
    decreases |s| - i
  {
    if i >= |s| then []
    else match PairClose(s, d, i)
      case Some(k) => open + s[i + |d|..k] + close + SubPairs(s, d, open, close, k + |d|)
      case None => [s[i]] + SubPairs(s, d, open, close, i + 1)
  }

  /** The three emphasis passes in the order they run. */
  function Emphasis(s: string): string {
    SubPairs(SubPairs(SubPairs(s, "**", "<strong>", "</strong>", 0), "*", "<em>", "</em>", 0), "_", "<em>", "</em>", 0)
  }

  // ---------------------------------------------------------------------
  // Restoring the placeholders and the whole conversion.

  /** The `for key, value in links.items()` loop: each entry's key replaced
      everywhere by its value, entry after entry. */
  function Restore(text: string, links: seq<(string, string)>): string
    decreases |links|
  {
    if links == [] then text else Restore(ReplaceAll(text, links[0].0, links[0].1), links[1..])
  }

  /** What markdown_to_html returns. */
  function Render(text: string): string {
    var pieces := LinkPieces(text, 0);
    Restore(Emphasis(WithKeys(pieces, 0)), Entries(pieces, 0))
  }

  /** The link substitution: `re.sub` calling `replace_link`, which stores each
      anchor under the next placeholder and returns the placeholder. */
  method SubstituteLinks(text: string) returns (out: string, links: seq<(string, string)>)
    ensures out == WithKeys(LinkPieces(text, 0), 0)
    ensures links == Entries(LinkPieces(text, 0), 0)
  {
    out, links := "", [];
    var i := 0;
    while i < |text|
      invariant i <= |text|
      invariant WithKeys(LinkPieces(text, 0), 0) == out + WithKeys(LinkPieces(text, i), |links|)
      invariant Entries(LinkPieces(text, 0), 0) == links + Entries(LinkPieces(text, i), |links|)
      decreases |text| - i
    {
      out, links, i := ScanOne(text, i, out, links);
    }
  }

  /** One match attempt of the substitution at i: a match is replaced by the
      next placeholder and its anchor stored; otherwise one character is
      copied. What remains to be produced is unchanged. */
  method ScanOne(text: string, i: nat, out: string, links: seq<(string, string)>)
    returns (out': string, links': seq<(string, string)>, i': nat)
    requires i < |text|
    ensures i < i' <= |text|
    ensures out + WithKeys(LinkPieces(text, i), |links|) == out' + WithKeys(LinkPieces(text, i'), |links'|)
    ensures links + Entries(LinkPieces(text, i), |links|) == links' + Entries(LinkPieces(text, i'), |links'|)
  {
    var found := LinkAt(text, i);
    if found.Some? {
      var key := Key(|links|);
      ScanKeepsLink(text, i, |links|, out, links);
      out', links', i' := out + key, links + [(key, AnchorHtml(found.value.text, found.value.url))], found.value.end;
    } else {
      ScanKeepsChar(text, i, |links|, out, links);
      out', links', i' := out + [text[i]], links, i + 1;
    }
  }

  /** The loop invariant of SubstituteLinks across a match ... */
  lemma ScanKeepsLink(s: string, i: nat, n: nat, out: string, links: seq<(string, string)>)
    requires i < |s| && LinkAt(s, i).Some? && n == |links|
    ensures var m := LinkAt(s, i).value;
            var links' := links + [(Key(n), AnchorHtml(m.text, m.url))];
            && out + WithKeys(LinkPieces(s, i), n) == (out + Key(n)) + WithKeys(LinkPieces(s, m.end), |links'|)
            && links + Entries(LinkPieces(s, i), n) == links' + Entries(LinkPieces(s, m.end), |links'|)
  {
    var m := LinkAt(s, i).value;
    PiecesStep(s, i, n);
    AppendAssoc(out, Key(n), WithKeys(LinkPieces(s, m.end), n + 1));
    AppendAssoc(links, [(Key(n), AnchorHtml(m.text, m.url))], Entries(LinkPieces(s, m.end), n + 1));
  }

  /** ... and across a copied character. */
  lemma ScanKeepsChar(s: string, i: nat, n: nat, out: string, links: seq<(string, string)>)
    requires i < |s| && LinkAt(s, i).None?
    ensures out + WithKeys(LinkPieces(s, i), n) == (out + [s[i]]) + WithKeys(LinkPieces(s, i + 1), n)
    ensures links + Entries(LinkPieces(s, i), n) == links + Entries(LinkPieces(s, i + 1), n)
  {
    PiecesStep(s, i, n);
    AppendAssoc(out, [s[i]], WithKeys(LinkPieces(s, i + 1), n));
  }

  /** One step of the scan, seen through WithKeys and Entries. */
  lemma PiecesStep(s: string, i: nat, n: nat)
    requires i < |s|
    ensures LinkAt(s, i).Some? ==>
              var m := LinkAt(s, i).value;
              && WithKeys(LinkPieces(s, i), n) == Key(n) + WithKeys(LinkPieces(s, m.end), n + 1)
              && Entries(LinkPieces(s, i), n) == [(Key(n), AnchorHtml(m.text, m.url))] + Entries(LinkPieces(s, m.end), n + 1)
              && Matches(LinkPieces(s, i)) == [(m.text, m.url)] + Matches(LinkPieces(s, m.end))
    ensures LinkAt(s, i).None? ==>
              && WithKeys(LinkPieces(s, i), n) == [s[i]] + WithKeys(LinkPieces(s, i + 1), n)
              && Entries(LinkPieces(s, i), n) == Entries(LinkPieces(s, i + 1), n)
              && Matches(LinkPieces(s, i)) == Matches(LinkPieces(s, i + 1))
  {
    if LinkAt(s, i).Some? {
      var m := LinkAt(s, i).value;
      PiecesCons(Link(m.text, m.url), LinkPieces(s, m.end), n);
    } else {
      PiecesCons(Char(s[i]), LinkPieces(s, i + 1), n);
    }
  }

  /** One step of WithKeys and Entries. */
  lemma PiecesCons(p: Piece, rest: seq<Piece>, n: nat)
    ensures p.Char? ==> WithKeys([p] + rest, n) == [p.c] + WithKeys(rest, n)
    ensures p.Char? ==> Entries([p] + rest, n) == Entries(rest, n)
    ensures p.Link? ==> WithKeys([p] + rest, n) == Key(n) + WithKeys(rest, n + 1)
    ensures p.Link? ==> Entries([p] + rest, n) == [(Key(n), AnchorHtml(p.text, p.url))] + Entries(rest, n + 1)
    ensures Matches([p] + rest) == (if p.Link? then [(p.text, p.url)] else []) + Matches(rest)
  {
    assert ([p] + rest)[0] == p;
    assert ([p] + rest)[1..] == rest;
  }

  method MarkdownToHtml(text: string) returns (html: string)
    ensures html == Render(text)
  {
    var links;
    html, links := SubstituteLinks(text);
    html := SubPairs(html, "**", "<strong>", "</strong>", 0);
    html := SubPairs(html, "*", "<em>", "</em>", 0);
    html := SubPairs(html, "_", "<em>", "</em>", 0);
    ghost var emphasized := html;
    for j := 0 to |links|
      invariant Restore(emphasized, links) == Restore(html, links[j..])
    {
      assert links[j..][1..] == links[j + 1..];
      html := ReplaceAll(html, links[j].0, links[j].1);
    }
  }

  // ---------------------------------------------------------------------
  // Properties of the link substitution.

  /** The i-th stored entry is keyed by the i-th placeholder and holds the
      anchor built from the i-th matched link. */
  lemma {:induction false} EntriesNumbered(pieces: seq<Piece>, n: nat)
    ensures |Entries(pieces, n)| == |Matches(pieces)|
    ensures forall i :: 0 <= i < |Entries(pieces, n)| ==>
              Entries(pieces, n)[i] == (Key(n + i), AnchorHtml(Matches(pieces)[i].0, Matches(pieces)[i].1))
    decreases |pieces|
  {
    if pieces != [] {
      EntriesNumbered(pieces[1..], if pieces[0].Link? then n + 1 else n);
    }
  }

  /** Different counts give different placeholders, so no entry of the
      dictionary overwrites another. */
  lemma KeysDistinct(i: nat, j: nat)
    requires i != j
    ensures Key(i) != Key(j)
  {
    if Key(i) == Key(j) {
      assert NatToString(i) == Key(i)[6..|Key(i)| - 2];
      assert NatToString(j) == Key(j)[6..|Key(j)| - 2];
      NatToStringInjective(i, j);
    }
  }

  /** Every matched link comes from a match of the pattern at some index of
      the text, taken verbatim. */
  lemma {:induction false} MatchSource(s: string, i: nat, j: nat) returns (p: nat)
    requires j < |Matches(LinkPieces(s, i))|
    ensures i <= p < |s| && LinkAt(s, p).Some?
    ensures Matches(LinkPieces(s, i))[j] == (LinkAt(s, p).value.text, LinkAt(s, p).value.url)
    decreases |s| - i
  {
    PiecesStep(s, i, 0);
    var found := LinkAt(s, i);
    if found.None? {
      p := MatchSource(s, i + 1, j);
    } else if j == 0 {
      p := i;
    } else {
      p := MatchSource(s, found.value.end, j - 1);
    }
  }

  /** The anchor stored for the j-th link is built from a `[text](url)`
      written verbatim in the message, whatever the emphasis passes later do
      to the rest of the text. */
  lemma StoredAnchorsVerbatim(s: string, j: nat)
    requires j < |Entries(LinkPieces(s, 0), 0)|
    ensures exists p :: && 0 <= p < |s| && LinkAt(s, p).Some?
                        && s[p..LinkAt(s, p).value.end] == "[" + LinkAt(s, p).value.text + "](" + LinkAt(s, p).value.url + ")"
                        && IsWebUrl(LinkAt(s, p).value.url)
                        && Entries(LinkPieces(s, 0), 0)[j] == (Key(j), AnchorHtml(LinkAt(s, p).value.text, LinkAt(s, p).value.url))
  {
    EntriesNumbered(LinkPieces(s, 0), 0);
    var p := MatchSource(s, 0, j);
    LinkAtShape(s, p);
  }

  /** Text in which the pattern matches nowhere passes through unchanged and
      stores nothing. */
  lemma {:induction false} NoLinkNoPieces(s: string, i: nat, n: nat)
    requires forall p :: i <= p < |s| ==> LinkAt(s, p).None?
    ensures i <= |s| ==> WithKeys(LinkPieces(s, i), n) == s[i..]
    ensures Entries(LinkPieces(s, i), n) == []
    decreases |s| - i
  {
    if i < |s| {
      PiecesStep(s, i, n);
      NoLinkNoPieces(s, i + 1, n);
      assert s[i..] == [s[i]] + s[i + 1..];
    }
  }

  // ---------------------------------------------------------------------
  // Properties of the emphasis passes.

  /** The shortest closing delimiter is found whatever precedes it. */
  lemma {:induction false} CloseAtFirst(s: string, d: string, j: nat, k: nat)
    requires d != [] && j <= k && StartsWithAt(s, k, d)
    requires forall x :: j <= x < k ==> s[x] != '\n'
    requires forall x :: j <= x < k ==> !StartsWithAt(s, x, d)
    ensures CloseAt(s, d, j) == Some(k)
    decreases k - j
  {
    if j < k {
      CloseAtFirst(s, d, j + 1, k);
    }
  }

  /** No occurrence of the delimiter from i on: the pass copies the rest. */
  lemma {:induction false} SubPairsUnmatched(s: string, d: string, open: string, close: string, i: nat)
    requires d != []
    requires forall x :: i <= x < |s| ==> !StartsWithAt(s, x, d)
    ensures i <= |s| ==> SubPairs(s, d, open, close, i) == s[i..]
    decreases |s| - i
  {
    if i < |s| {
      SubPairsUnmatched(s, d, open, close, i + 1);
      assert s[i..] == [s[i]] + s[i + 1..];
    }
  }

  /** No delimiter character from i on: the pass copies the rest. */
  lemma SubPairsInert(s: string, d: string, open: string, close: string, i: nat)
    requires d != []
    requires forall x :: i <= x < |s| ==> s[x] !in d
    ensures i <= |s| ==> SubPairs(s, d, open, close, i) == s[i..]
  {
    forall x | i <= x < |s| ensures !StartsWithAt(s, x, d) {
      StartsWithAtHead(s, x, d);
    }
    SubPairsUnmatched(s, d, open, close, i);
  }

  /** A delimited span with no delimiter character and no line break inside
      becomes one element. */
  lemma SubPairsSpan(x: string, d: string, open: string, close: string)
    requires d != []
    requires forall i :: 0 <= i < |x| ==> x[i] !in d && x[i] != '\n'
    ensures SubPairs(d + x + d, d, open, close, 0) == open + x + close
  {
    var s := d + x + d;
    var k := |d| + |x|;
    assert s[..|d|] == d;
    assert s[k..k + |d|] == d;
    forall i | |d| <= i < k ensures s[i] != '\n' && !StartsWithAt(s, i, d) {
      assert s[i] == x[i - |d|];
      StartsWithAtHead(s, i, d);
    }
    CloseAtFirst(s, d, |d|, k);
    assert s[|d|..k] == x;
    assert SubPairs(s, d, open, close, k + |d|) == [];
  }

  /** Text with neither `*` nor `_` passes the three emphasis passes
      unchanged. */
  lemma NoDelimiters(s: string)
    requires forall i :: 0 <= i < |s| ==> s[i] != '*' && s[i] != '_'
    ensures Emphasis(s) == s
  {
    SubPairsInert(s, "**", "<strong>", "</strong>", 0);
    SubPairsInert(s, "*", "<em>", "</em>", 0);
    SubPairsInert(s, "_", "<em>", "</em>", 0);
    assert s[0..] == s;
  }

  // ---------------------------------------------------------------------
  // Properties of the whole conversion.

  /** A message with no link, no `*` and no `_` comes back unchanged. */
  lemma PlainTextUnchanged(s: string)
    requires forall p :: 0 <= p < |s| ==> LinkAt(s, p).None?
    requires forall p :: 0 <= p < |s| ==> s[p] != '*' && s[p] != '_'
    ensures Render(s) == s
  {
    NoLinkNoPieces(s, 0, 0);
    assert s[0..] == s;
    NoDelimiters(s);
  }

  /** Without `[` the link pattern matches nowhere and only the emphasis
      passes act. */
  lemma NoBrackets(s: string)
    requires forall p :: 0 <= p < |s| ==> s[p] != '['
    ensures Render(s) == Emphasis(s)
  {
    NoLinkNoPieces(s, 0, 0);
    assert s[0..] == s;
  }

  /** Plain text without `*`, `_`, `[` or line breaks. */
  predicate Plain(x: string) {
    forall i :: 0 <= i < |x| ==> x[i] != '*' && x[i] != '_' && x[i] != '[' && x[i] != '\n'
  }

  /** A character absent from three strings is absent from their
      concatenation. */
  lemma Absent(a: string, x: string, b: string, c: char)
    requires c !in a && c !in x && c !in b
    ensures forall i :: 0 <= i < |a + x + b| ==> (a + x + b)[i] != c
  {
    var s := a + x + b;
    forall i | 0 <= i < |s| ensures s[i] != c {
      if i < |a| { assert s[i] == a[i]; }
      else if i < |a| + |x| { assert s[i] == x[i - |a|]; }
      else { assert s[i] == b[i - |a| - |x|]; }
    }
  }

  lemma PlainAbsent(x: string)
    requires Plain(x)
    ensures '*' !in x && '_' !in x && '[' !in x && '\n' !in x
  {
  }

  lemma StrongEmphasis(x: string)
    requires Plain(x)
    ensures Emphasis("**" + x + "**") == "<strong>" + x + "</strong>"
  {
    PlainAbsent(x);
    SubPairsSpan(x, "**", "<strong>", "</strong>");
    var t := "<strong>" + x + "</strong>";
    Absent("<strong>", x, "</strong>", '*');
    Absent("<strong>", x, "</strong>", '_');
    SubPairsInert(t, "*", "<em>", "</em>", 0);
    SubPairsInert(t, "_", "<em>", "</em>", 0);
    assert t[0..] == t;
  }

  lemma UnderscoreEmphasis(x: string)
    requires Plain(x)
    ensures Emphasis("_" + x + "_") == "<em>" + x + "</em>"
  {
    PlainAbsent(x);
    var s := "_" + x + "_";
    Absent("_", x, "_", '*');
    SubPairsInert(s, "**", "<strong>", "</strong>", 0);
    SubPairsInert(s, "*", "<em>", "</em>", 0);
    assert s[0..] == s;
    SubPairsSpan(x, "_", "<em>", "</em>");
  }

  /** The empty case `**`: the strong pass finds no closing `**` after the
      opening one, and the `*` pass matches the empty group. */
  lemma EmptyStar()
    ensures Emphasis("**") == "<em></em>"
  {
    var s := "**";
    assert !StartsWithAt(s, 2, "**");
    assert CloseAt(s, "**", 2) == None;
    assert !StartsWithAt(s, 1, "**");
    assert SubPairs(s, "**", "<strong>", "</strong>", 1) == "*";
    assert SubPairs(s, "**", "<strong>", "</strong>", 0) == s;
    assert StartsWithAt(s, 1, "*");
    assert SubPairs(s, "*", "<em>", "</em>", 0) == "<em></em>";
    var t := "<em></em>";
    assert forall i :: 0 <= i < |t| ==> t[i] !in "_";
    SubPairsInert(t, "_", "<em>", "</em>", 0);
    assert t[0..] == t;
  }

  /** A non-empty plain x between single stars holds no `**`. */
  lemma NoDoubleStar(x: string)
    requires Plain(x) && x != []
    ensures forall p :: 0 <= p < |"*" + x + "*"| ==> !StartsWithAt("*" + x + "*", p, "**")
  {
    PlainAbsent(x);
    var s := "*" + x + "*";
    forall p | 0 <= p < |s| ensures !StartsWithAt(s, p, "**") {
      if p + 2 <= |s| {
        assert s[p..p + 2][0] == s[p];
        assert s[p..p + 2][1] == s[p + 1];
        if p == 0 {
          assert s[1] == x[0];
        } else {
          assert s[p] == x[p - 1];
        }
      }
    }
  }

  lemma StarEmphasis(x: string)
    requires Plain(x)
    ensures Emphasis("*" + x + "*") == "<em>" + x + "</em>"
  {
    if x == [] {
      assert "*" + x + "*" == "**";
      EmptyStar();
    } else {
      StarPasses(x);
      EmNoUnderscore(x);
    }
  }

  /** The `**` pass leaves `*x*` alone and the `*` pass matches it. */
  lemma StarPasses(x: string)
    requires Plain(x) && x != []
    ensures SubPairs(SubPairs("*" + x + "*", "**", "<strong>", "</strong>", 0), "*", "<em>", "</em>", 0)
         == "<em>" + x + "</em>"
  {
    PlainAbsent(x);
    var s := "*" + x + "*";
    NoDoubleStar(x);
    SubPairsUnmatched(s, "**", "<strong>", "</strong>", 0);
    assert s[0..] == s;
    SubPairsSpan(x, "*", "<em>", "</em>");
  }

  /** The `_` pass leaves `<em>x</em>` alone. */
  lemma EmNoUnderscore(x: string)
    requires Plain(x)
    ensures SubPairs("<em>" + x + "</em>", "_", "<em>", "</em>", 0) == "<em>" + x + "</em>"
  {
    PlainAbsent(x);
    var t := "<em>" + x + "</em>";
    Absent("<em>", x, "</em>", '_');
    SubPairsInert(t, "_", "<em>", "</em>", 0);
    assert t[0..] == t;
  }

  /** `**x**` becomes `<strong>x</strong>`: the double delimiter is consumed
      by the first pass, before the single `*` pass could split it. */
  lemma StrongRendered(x: string)
    requires Plain(x)
    ensures Render("**" + x + "**") == "<strong>" + x + "</strong>"
  {
    PlainAbsent(x);
    Absent("**", x, "**", '[');
    NoBrackets("**" + x + "**");
    StrongEmphasis(x);
  }

  /** `_x_` becomes `<em>x</em>`. */
  lemma UnderscoreRendered(x: string)
    requires Plain(x)
    ensures Render("_" + x + "_") == "<em>" + x + "</em>"
  {
    PlainAbsent(x);
    Absent("_", x, "_", '[');
    NoBrackets("_" + x + "_");
    UnderscoreEmphasis(x);
  }

  /** `*x*` becomes `<em>x</em>` too: the `**` pass finds no pair in it, and
      for an empty x it finds no closing `**` after the opening one. */
  lemma StarRendered(x: string)
    requires Plain(x)
    ensures Render("*" + x + "*") == "<em>" + x + "</em>"
  {
    PlainAbsent(x);
    Absent("*", x, "*", '[');
    NoBrackets("*" + x + "*");
    StarEmphasis(x);
  }
}
