/** What markdown_to_html makes of a message that ends with an appended
    `[caption](url)` link, as procesar_consulta in flask_server/app.py sends
    it: the HTML always ends with the anchor to that url, whatever the
    message before it holds — links, emphasis markers, even text that looks
    like a placeholder. */
module MarkdownLinks {
  import opened Wrappers
  import opened Text
  import opened Markdown

  /** The message with the link appended after a space. */
  function WithLink(r: string, caption: string, url: string): string {
    r + " [" + caption + "](" + url + ")"
  }

  /** A caption the non-greedy text group cannot run past. */
  predicate CaptionOk(caption: string) {
    forall x :: 0 <= x < |caption| ==> caption[x] != ']' && caption[x] != '\n'
  }

  /** The shape of a text ending in an appended link: a space at b, the
      link's `[` at b + 1, its `]` at k, no `]` and no line break between
      them, then `(`, the url and the final `)`. */
  predicate AppendedShape(s: string, b: nat, k: nat, url: string) {
    && b + 2 <= k && |s| == k + 3 + |url|
    && s[b] == ' ' && s[b + 1] == '['
    && (forall x :: b + 2 <= x < k ==> s[x] != ']' && s[x] != '\n')
    && s[k] == ']' && s[k + 1] == '(' && s[|s| - 1] == ')'
    && s[k + 2..|s| - 1] == url
  }

  lemma WithLinkShape(r: string, caption: string, url: string)
    requires CaptionOk(caption)
    ensures var s := WithLink(r, caption, url);
            && AppendedShape(s, |r|, |r| + 2 + |caption|, url)
            && s[|r| + 2..|r| + 2 + |caption|] == caption
            && s[..|r|] == r
  {
    var s, k := WithLink(r, caption, url), |r| + 2 + |caption|;
    forall x | |r| + 2 <= x < k ensures s[x] != ']' && s[x] != '\n' {
      assert s[x] == caption[x - |r| - 2];
    }
    assert s[|r| + 2..k] == caption;
    assert s[k + 2..|s| - 1] == url;
    assert s[..|r|] == r;
  }

  // ---------------------------------------------------------------------
  // The scan of the link pattern over the message.

  /** With `]` at the appended link's bracket the tail matches, up to the
      final `)`. */
  lemma TailAtBracket(s: string, b: nat, k: nat, url: string)
    requires AppendedShape(s, b, k, url) && IsWebUrl(url)
    ensures LinkTail(s, k) == Some(|s| - 1)
  {
    assert s[k..k + 2] == "](";
    assert s[k + 2..k + 9] == s[k + 2..|s| - 1][..7] == url[..7];
    assert |url| > 8 ==> s[k + 2..k + 10] == s[k + 2..|s| - 1][..8] == url[..8];
    var u := SchemeEnd(s, k + 2).value;
    assert u < |s| - 1;
    forall x | u <= x < |s| ensures !IsSpace(s[x]) {
      if x < |s| - 1 {
        assert s[x] == s[k + 2..|s| - 1][x - k - 2] == url[x - k - 2];
      }
    }
    RunEndMaximal(s, u);
    assert RunEnd(s, u) == |s|;
  }

  /** The first line-break-free index from j on at which the tail matches
      closes the text group. */
  lemma {:induction false} LinkCloseFinds(s: string, j: nat, k: nat)
    requires j <= k && LinkTail(s, k).Some?
    requires forall x :: j <= x < k ==> s[x] != '\n'
    ensures LinkClose(s, j).Some?
    decreases k - j
  {
    if LinkTail(s, j).None? {
      LinkCloseFinds(s, j + 1, k);
    }
  }

  /** The pattern matches at the appended link's `[`. */
  lemma AppendedMatch(s: string, b: nat, k: nat, url: string)
    requires AppendedShape(s, b, k, url) && IsWebUrl(url)
    ensures LinkAt(s, b + 1).Some?
  {
    TailAtBracket(s, b, k, url);
    LinkCloseFinds(s, b + 2, k);
  }

  /** A match starting at or before the appended `[` that reaches past it
      closes its text at the appended `]`: the space before the `[` stops
      any url that starts earlier, and no `]` stands between the
      brackets. */
  lemma SpanningClose(s: string, b: nat, k: nat, i: nat)
    requires b + 2 <= k < |s| && s[b] == ' ' && s[b + 1] == '['
    requires forall x :: b + 2 <= x < k ==> s[x] != ']'
    requires LinkTail(s, k).Some?
    requires i <= b + 1
    requires LinkAt(s, i).Some? && LinkAt(s, i).value.end > b + 1
    ensures LinkClose(s, i + 1).Some? && LinkClose(s, i + 1).value.0 == k
  {
    LinkAtClose(s, i);
    var j := LinkClose(s, i + 1).value.0;
    var c := LinkClose(s, i + 1).value.1;
    CloseNotAfter(s, i + 1, k);
    CloseNotBefore(s, b, j, c);
    StartsWithAtHead(s, j, "](");
  }

  /** The tail matches at k, so the text group closes at k or earlier. */
  lemma CloseNotAfter(s: string, j: nat, k: nat)
    requires j <= k && LinkTail(s, k).Some? && LinkClose(s, j).Some?
    ensures LinkClose(s, j).value.0 <= k
  {
    LinkCloseFirst(s, j);
  }

  /** A tail at j whose url reaches past the space at b starts after the
      `[` that follows that space. */
  lemma CloseNotBefore(s: string, b: nat, j: nat, c: nat)
    requires b + 1 < |s| && s[b] == ' ' && s[b + 1] == '['
    requires LinkTail(s, j) == Some(c) && b < c
    ensures b + 2 <= j
  {
    LinkTailUrl(s, j);
    assert IsSpace(s[b]);
    assert s[j..j + 2][0] == s[j] && s[j..j + 2][1] == s[j + 1];
  }

  /** ... and so ends at the final `)` and captures exactly the appended
      url. */
  lemma Spanning(s: string, b: nat, k: nat, url: string, i: nat)
    requires AppendedShape(s, b, k, url) && IsWebUrl(url)
    requires i <= b + 1
    requires LinkAt(s, i).Some? && LinkAt(s, i).value.end > b + 1
    ensures LinkAt(s, i).value == LinkMatch(s[i + 1..k], url, |s|)
  {
    TailAtBracket(s, b, k, url);
    SpanningClose(s, b, k, i);
    LinkAtClose(s, i);
  }

  /** Where the pattern does not match, the scan copies one character. */
  lemma SkipChar(s: string, i: nat)
    requires i < |s| && LinkAt(s, i).None?
    ensures LinkPieces(s, i) == [Char(s[i])] + LinkPieces(s, i + 1)
  {
  }

  /** Where it matches, the scan emits the link and resumes after it. */
  lemma SkipLink(s: string, i: nat)
    requires LinkAt(s, i).Some?
    ensures s[i] == '['
    ensures var m := LinkAt(s, i).value;
            LinkPieces(s, i) == [Link(m.text, m.url)] + LinkPieces(s, m.end)
  {
  }

  lemma LastLink(s: string, b: nat, k: nat, url: string, i: nat)
    requires AppendedShape(s, b, k, url) && IsWebUrl(url)
    requires i <= b + 1
    requires LinkAt(s, i).Some? && LinkAt(s, i).value.end > b + 1
    ensures s[i] == '['
    ensures LinkPieces(s, i) == [Link(s[i + 1..k], url)]
  {
    Spanning(s, b, k, url, i);
    SkipLink(s, i);
    assert LinkPieces(s, |s|) == [];
  }

  /** Before the match that reaches the appended link, the scan emits one
      piece and moves on, still at or before the appended `[`. */
  lemma ScanStep(s: string, b: nat, i: nat) returns (p: Piece, next: nat)
    requires LinkAt(s, b + 1).Some? && s[b] != '['
    requires i <= b + 1
    requires !(LinkAt(s, i).Some? && LinkAt(s, i).value.end > b + 1)
    ensures i < next <= b + 1
    ensures LinkPieces(s, i) == [p] + LinkPieces(s, next)
    ensures p.Link? ==> s[i] == '[' && i < b
  {
    assert b + 1 < |s|;
    if LinkAt(s, i).None? {
      assert i != b + 1;
      p, next := ScanChar(s, b, i);
    } else {
      p, next := ScanLink(s, b, i);
    }
  }

  /** No match before the appended `[`: one character is copied. */
  lemma ScanChar(s: string, b: nat, i: nat) returns (p: Piece, next: nat)
    requires i < b + 1 < |s| && LinkAt(s, i).None?
    ensures i < next <= b + 1
    ensures LinkPieces(s, i) == [p] + LinkPieces(s, next)
    ensures p.Char?
  {
    SkipChar(s, i);
    p, next := Char(s[i]), i + 1;
  }

  /** A match before the appended `[` ends at or before it. */
  lemma ScanLink(s: string, b: nat, i: nat) returns (p: Piece, next: nat)
    requires i <= b + 1 < |s| && s[b] != '['
    requires LinkAt(s, i).Some? && LinkAt(s, i).value.end <= b + 1
    ensures i < next <= b + 1
    ensures LinkPieces(s, i) == [p] + LinkPieces(s, next)
    ensures s[i] == '[' && i < b
  {
    SkipLink(s, i);
    var m := LinkAt(s, i).value;
    p, next := Link(m.text, m.url), m.end;
  }

  /** Scanning from any index up to the appended `[`, the last piece is the
      appended link. When the text before has no `[`, the link's text is
      what stands between the appended brackets. */
  lemma {:induction false} LastPiece(s: string, b: nat, k: nat, url: string, i: nat)
    returns (pieces: seq<Piece>, text: string)
    requires AppendedShape(s, b, k, url) && IsWebUrl(url)
    requires i <= b + 1
    ensures LinkPieces(s, i) == pieces + [Link(text, url)]
    ensures (forall x :: i <= x < b ==> s[x] != '[') ==> text == s[b + 2..k]
    decreases b + 1 - i
  {
    if LinkAt(s, i).Some? && LinkAt(s, i).value.end > b + 1 {
      LastLink(s, b, k, url, i);
      assert i < b || i == b + 1 by {
        assert s[b] == ' ' && s[i] == '[';
      }
      pieces, text := [], s[i + 1..k];
    } else {
      AppendedMatch(s, b, k, url);
      var p, next := ScanStep(s, b, i);
      var rest;
      rest, text := LastPiece(s, b, k, url, next);
      pieces := [p] + rest;
      AppendAssoc([p], rest, [Link(text, url)]);
    }
  }

  // ---------------------------------------------------------------------
  // From the pieces to the HTML.

  /** A last link piece gives the last placeholder and the last entry. */
  lemma {:induction false} LastLinkEntry(pieces: seq<Piece>, text: string, url: string, n: nat)
    ensures WithKeys(pieces + [Link(text, url)], n) == WithKeys(pieces, n) + Key(n + |Matches(pieces)|)
    ensures Entries(pieces + [Link(text, url)], n)
         == Entries(pieces, n) + [(Key(n + |Matches(pieces)|), AnchorHtml(text, url))]
    decreases |pieces|
  {
    var last := Link(text, url);
    if pieces == [] {
      assert pieces + [last] == [last] + [];
      PiecesCons(last, [], n);
    } else {
      var p, rest := pieces[0], pieces[1..];
      assert pieces + [last] == [p] + (rest + [last]);
      assert pieces == [p] + rest;
      PiecesCons(p, rest + [last], n);
      PiecesCons(p, rest, n);
      var n' := if p.Link? then n + 1 else n;
      LastLinkEntry(rest, text, url, n');
      if p.Char? {
        AppendAssoc([p.c], WithKeys(rest, n'), Key(n' + |Matches(rest)|));
      } else {
        AppendAssoc(Key(n), WithKeys(rest, n'), Key(n' + |Matches(rest)|));
        AppendAssoc([(Key(n), AnchorHtml(p.text, p.url))], Entries(rest, n'),
                    [(Key(n' + |Matches(rest)|), AnchorHtml(text, url))]);
      }
    }
  }

  /** What Render makes of a text whose last piece is a link. */
  lemma RenderLastLink(s: string, pieces: seq<Piece>, text: string, url: string)
    requires LinkPieces(s, 0) == pieces + [Link(text, url)]
    ensures var n, w := |Matches(pieces)|, WithKeys(pieces, 0);
            Render(s) == Restore(Emphasis(w + Key(n)), Entries(pieces, 0) + [(Key(n), AnchorHtml(text, url))])
  {
    LastLinkEntry(pieces, text, url, 0);
  }

  // ---------------------------------------------------------------------
  // Placeholders.

  lemma DigitsAbsent(n: nat, c: char)
    requires !IsDigit(c)
    ensures c !in NatToString(n)
  {
  }

  /** The characters of a placeholder. */
  lemma KeyShape(n: nat)
    ensures var key, ds := Key(n), NatToString(n);
            && |key| == |ds| + 8 && key[..6] == "{{LINK" && key[6..6 + |ds|] == ds
            && key[0] == '{' && key[1] == '{' && key[2] == 'L'
            && key[|key| - 2] == '}' && key[|key| - 1] == '}'
            && (forall x :: 0 <= x < |ds| ==> key[6 + x] == ds[x])
            && (forall x :: 2 <= x < |key| ==> key[x] != '{')
            && '*' !in key && '_' !in key
  {
    var key, ds := Key(n), NatToString(n);
    assert key[..6] == "{{LINK";
    assert key[6..6 + |ds|] == ds;
    forall x | 2 <= x < |key| ensures key[x] != '{' {
      if 6 <= x < 6 + |ds| {
        assert key[x] == ds[x - 6];
      }
    }
    DigitsAbsent(n, '*');
    DigitsAbsent(n, '_');
    Absent("{{LINK", ds, "}}", '*');
    Absent("{{LINK", ds, "}}", '_');
  }

  /** A shorter placeholder is no prefix of a longer one: its `}` meets a
      digit. */
  lemma KeyNotPrefix(j: nat, n: nat)
    requires j != n && |Key(j)| <= |Key(n)|
    ensures Key(n)[..|Key(j)|] != Key(j)
  {
    KeyShape(j);
    KeyShape(n);
    if |Key(j)| == |Key(n)| {
      assert Key(n)[..|Key(n)|] == Key(n);
      KeysDistinct(j, n);
    } else {
      var x := |NatToString(j)|;
      assert Key(n)[..|Key(j)|][6 + x] == Key(n)[6 + x] == NatToString(n)[x];
    }
  }

  /** One placeholder never occurs inside another. */
  lemma KeyNotInKey(j: nat, n: nat)
    requires j != n
    ensures forall i :: 0 <= i <= |Key(n)| ==> !StartsWithAt(Key(n), i, Key(j))
  {
    KeyShape(j);
    KeyShape(n);
    forall i | 0 <= i <= |Key(n)| ensures !StartsWithAt(Key(n), i, Key(j)) {
      StartsWithAtHead(Key(n), i, Key(j));
      if i == 1 && 1 + |Key(j)| <= |Key(n)| {
        assert Key(n)[1..1 + |Key(j)|][1] == Key(n)[2];
      }
      if i == 0 && |Key(j)| <= |Key(n)| {
        KeyNotPrefix(j, n);
      }
    }
  }

  /** No placeholder straddles the start of a placeholder. */
  lemma KeyNoStraddle(z: string, j: nat, n: nat)
    ensures forall i :: 0 <= i < |z| < i + |Key(j)| ==> !StartsWithAt(z + Key(n), i, Key(j))
  {
    KeyShape(j);
    KeyShape(n);
    var w := z + Key(n);
    forall i | 0 <= i < |z| < i + |Key(j)| ensures !StartsWithAt(w, i, Key(j)) {
      if i + |Key(j)| <= |w| {
        var o := |z| - i;
        assert w[i..i + |Key(j)|][o] == w[|z|] == '{';
        if o + 1 < |Key(j)| {
          assert w[i..i + |Key(j)|][o + 1] == w[|z| + 1] == '{';
        }
      }
    }
  }

  /** Restoring earlier entries leaves a later placeholder at the end in
      place. */
  lemma {:induction false} RestoreKeepsKey(z: string, entries: seq<(string, string)>, b: nat, n: nat)
    requires forall i :: 0 <= i < |entries| ==> entries[i].0 == Key(b + i)
    requires b + |entries| <= n
    ensures Restore(z + Key(n), entries) == Restore(z, entries) + Key(n)
    decreases |entries|
  {
    if entries != [] {
      var v := entries[0].1;
      assert Key(b) != [];
      KeyNoStraddle(z, b, n);
      ReplaceAllSplit(z, Key(n), Key(b), v);
      KeyNotInKey(b, n);
      ReplaceAllAbsent(Key(n), Key(b), v);
      RestoreKeepsKey(ReplaceAll(z, Key(b), v), entries[1..], b + 1, n);
    }
  }

  lemma {:induction false} RestoreAppend(x: string, e1: seq<(string, string)>, e2: seq<(string, string)>)
    ensures Restore(x, e1 + e2) == Restore(Restore(x, e1), e2)
    decreases |e1|
  {
    if e1 == [] {
      assert e1 + e2 == e2;
    } else {
      assert (e1 + e2)[1..] == e1[1..] + e2;
      RestoreAppend(ReplaceAll(x, e1[0].0, e1[0].1), e1[1..], e2);
    }
  }

  /** The last entry turns the trailing placeholder into its anchor. */
  lemma RestoreLastKey(y: string, n: nat, anchor: string)
    ensures Restore(y + Key(n), [(Key(n), anchor)]) == ReplaceAll(y, Key(n), anchor) + anchor
  {
    KeyShape(n);
    KeyNoStraddle(y, n, n);
    ReplaceAllSplit(y, Key(n), Key(n), anchor);
    ReplaceAllWhole(Key(n), anchor);
  }

  // ---------------------------------------------------------------------
  // Emphasis passes leave a trailing placeholder alone. The lemmas below
  // speak of a text s whose head is s[..n] and whose tail s[n..] can
  // neither finish a delimiter begun in the head nor begin one of its own.

  predicate InertTail(s: string, n: nat, d: string)
    requires d != [] && n <= |s|
  {
    d[0] !in s[n..] && (n < |s| ==> s[n] !in d)
  }

  lemma StartsKeepsSuffix(s: string, n: nat, d: string, j: nat)
    requires d != [] && j <= n <= |s| && InertTail(s, n, d)
    ensures StartsWithAt(s, j, d) <==> StartsWithAt(s[..n], j, d)
  {
    if j + |d| <= n {
      assert s[..n][j..j + |d|] == s[j..j + |d|];
    } else if j + |d| <= |s| {
      assert s[j..j + |d|][n - j] == s[n];
    }
  }

  /** Past lo there is no delimiter character: no delimiter closes. */
  lemma {:induction false} CloseAtInert(s: string, lo: nat, d: string, j: nat)
    requires d != [] && lo <= j
    requires forall x :: lo <= x < |s| ==> s[x] != d[0]
    ensures CloseAt(s, d, j).None?
    decreases |s| - j
  {
    StartsWithAtHead(s, j, d);
    if j < |s| && s[j] != '\n' {
      CloseAtInert(s, lo, d, j + 1);
    }
  }

  /** No delimiter opens in the tail. */
  lemma CloseAtPastEnd(s: string, n: nat, d: string, j: nat)
    requires d != [] && n <= j && n <= |s|
    requires d[0] !in s[n..]
    ensures CloseAt(s, d, j).None?
  {
    forall x | n <= x < |s| ensures s[x] != d[0] {
      assert s[x] == s[n..][x - n];
    }
    CloseAtInert(s, n, d, j);
  }

  lemma {:induction false} CloseAtKeepsSuffix(s: string, n: nat, d: string, j: nat)
    requires d != [] && j <= n <= |s| && InertTail(s, n, d)
    ensures CloseAt(s, d, j) == CloseAt(s[..n], d, j)
    decreases n - j
  {
    StartsKeepsSuffix(s, n, d, j);
    if !StartsWithAt(s[..n], j, d) {
      if j < n {
        assert s[..n][j] == s[j];
        CloseAtKeepsSuffix(s, n, d, j + 1);
      } else if n < |s| {
        CloseAtPastEnd(s, n, d, j + 1);
      } else {
        assert s[..n] == s;
      }
    }
  }

  lemma PairCloseKeepsSuffix(s: string, n: nat, d: string, i: nat)
    requires d != [] && i < n <= |s| && InertTail(s, n, d)
    ensures PairClose(s, d, i) == PairClose(s[..n], d, i)
  {
    StartsKeepsSuffix(s, n, d, i);
    if StartsWithAt(s[..n], i, d) {
      CloseAtKeepsSuffix(s, n, d, i + |d|);
    }
  }

  /** An emphasis pass over s is the pass over its head followed by the
      tail unchanged. */
  lemma {:induction false} SubPairsKeepsSuffix(s: string, n: nat, d: string, open: string, close: string, i: nat)
    requires d != [] && i <= n <= |s| && InertTail(s, n, d)
    ensures SubPairs(s, d, open, close, i) == SubPairs(s[..n], d, open, close, i) + s[n..]
    decreases n - i
  {
    if i == n {
      SuffixInert(s, n, d, open, close);
    } else {
      PairCloseKeepsSuffix(s, n, d, i);
      var k := PairClose(s[..n], d, i);
      if k.Some? {
        var j := k.value + |d|;
        SubPairsKeepsSuffix(s, n, d, open, close, j);
        MatchedKeepsSuffix(s, n, d, open, close, i, k.value, j);
      } else {
        SubPairsKeepsSuffix(s, n, d, open, close, i + 1);
        CopiedKeepsSuffix(s, n, d, open, close, i);
      }
    }
  }

  /** At the end of the head the pass copies the tail. */
  lemma SuffixInert(s: string, n: nat, d: string, open: string, close: string)
    requires d != [] && n <= |s|
    requires d[0] !in s[n..]
    ensures SubPairs(s, d, open, close, n) == SubPairs(s[..n], d, open, close, n) + s[n..]
  {
    forall x | n <= x < |s| ensures !StartsWithAt(s, x, d) {
      StartsWithAtHead(s, x, d);
      assert s[x] == s[n..][x - n];
    }
    SubPairsUnmatched(s, d, open, close, n);
  }

  /** One matched pair of an emphasis pass, resuming at j. */
  lemma SubPairsMatched(s: string, d: string, open: string, close: string, i: nat, k: nat, j: nat)
    requires d != [] && i < |s| && PairClose(s, d, i) == Some(k) && j == k + |d|
    ensures SubPairs(s, d, open, close, i) == open + s[i + |d|..k] + close + SubPairs(s, d, open, close, j)
  {
    assert !(i >= |s|);
    assert PairClose(s, d, i).value == k;
    assert SubPairs(s, d, open, close, i) == open + s[i + |d|..k] + close + SubPairs(s, d, open, close, k + |d|);
  }

  lemma JoinAfter(x: string, y: string, hx: string, hy: string, a: string, b: string, w: string)
    requires x == hx + a && y == hy + b && hx == hy && a == b + w
    ensures x == y + w
  {
    AppendAssoc(hy, b, w);
  }

  /** A pair matched in the head is matched the same way in s. */
  lemma MatchedKeepsSuffix(s: string, n: nat, d: string, open: string, close: string, i: nat, k: nat, j: nat)
    requires d != [] && i < n <= |s| && j == k + |d|
    requires PairClose(s[..n], d, i) == Some(k) && PairClose(s, d, i) == Some(k)
    requires SubPairs(s, d, open, close, j) == SubPairs(s[..n], d, open, close, j) + s[n..]
    ensures SubPairs(s, d, open, close, i) == SubPairs(s[..n], d, open, close, i) + s[n..]
  {
    var z := s[..n];
    SubPairsMatched(z, d, open, close, i, k, j);
    SubPairsMatched(s, d, open, close, i, k, j);
    assert z[i + |d|..k] == s[i + |d|..k];
    JoinAfter(SubPairs(s, d, open, close, i), SubPairs(z, d, open, close, i),
              open + s[i + |d|..k] + close, open + z[i + |d|..k] + close,
              SubPairs(s, d, open, close, j), SubPairs(z, d, open, close, j), s[n..]);
  }

  /** A character copied from the head is copied from s. */
  lemma CopiedKeepsSuffix(s: string, n: nat, d: string, open: string, close: string, i: nat)
    requires d != [] && i < n <= |s|
    requires PairClose(s[..n], d, i).None? && PairClose(s, d, i).None?
    requires SubPairs(s, d, open, close, i + 1) == SubPairs(s[..n], d, open, close, i + 1) + s[n..]
    ensures SubPairs(s, d, open, close, i) == SubPairs(s[..n], d, open, close, i) + s[n..]
  {
    assert s[..n][i] == s[i];
    AppendAssoc([s[i]], SubPairs(s[..n], d, open, close, i + 1), s[n..]);
  }

  /** A pass keeps a trailing key whose first character is no delimiter
      character and which holds no delimiter's first character. */
  lemma PassKeepsKey(z: string, key: string, d: string, open: string, close: string)
    requires d != [] && key != [] && d[0] !in key && key[0] !in d
    ensures SubPairs(z + key, d, open, close, 0) == SubPairs(z, d, open, close, 0) + key
  {
    var s := z + key;
    assert s[..|z|] == z;
    assert s[|z|..] == key;
    SubPairsKeepsSuffix(s, |z|, d, open, close, 0);
  }

  lemma EmphasisKeepsKey(z: string, n: nat)
    ensures Emphasis(z + Key(n)) == Emphasis(z) + Key(n)
  {
    var key := Key(n);
    KeyShape(n);
    PassKeepsKey(z, key, "**", "<strong>", "</strong>");
    var z1 := SubPairs(z, "**", "<strong>", "</strong>", 0);
    PassKeepsKey(z1, key, "*", "<em>", "</em>");
    var z2 := SubPairs(z1, "*", "<em>", "</em>", 0);
    PassKeepsKey(z2, key, "_", "<em>", "</em>");
  }

  // ---------------------------------------------------------------------
  // The end-to-end property.

  /** A text whose last piece is a link renders to something followed by
      that link's anchor. */
  lemma LastLinkRendered(s: string, pieces: seq<Piece>, text: string, url: string) returns (prefix: string)
    requires LinkPieces(s, 0) == pieces + [Link(text, url)]
    ensures Render(s) == prefix + AnchorHtml(text, url)
  {
    var n, w := |Matches(pieces)|, WithKeys(pieces, 0);
    var anchor := AnchorHtml(text, url);
    RenderLastLink(s, pieces, text, url);
    EmphasisKeepsKey(w, n);
    EntryKeys(pieces);
    prefix := RestoreTail(Emphasis(w), Entries(pieces, 0), n, anchor);
  }

  /** The entries stored for the pieces are keyed `{{LINK0}}`, `{{LINK1}}`, ... */
  lemma EntryKeys(pieces: seq<Piece>)
    ensures |Entries(pieces, 0)| == |Matches(pieces)|
    ensures forall i :: 0 <= i < |Entries(pieces, 0)| ==> Entries(pieces, 0)[i].0 == Key(i)
  {
    EntriesNumbered(pieces, 0);
  }

  /** Restoring the earlier entries and then a last one whose placeholder
      ends the text leaves that last anchor at the end. */
  lemma RestoreTail(y: string, entries: seq<(string, string)>, n: nat, anchor: string) returns (prefix: string)
    requires forall i :: 0 <= i < |entries| ==> entries[i].0 == Key(i)
    requires |entries| <= n
    ensures Restore(y + Key(n), entries + [(Key(n), anchor)]) == prefix + anchor
  {
    var e := Restore(y, entries);
    RestoreAppend(y + Key(n), entries, [(Key(n), anchor)]);
    RestoreKeepsKey(y, entries, 0, n);
    RestoreLastKey(e, n, anchor);
    prefix := ReplaceAll(e, Key(n), anchor);
  }

  /** A text of the appended shape renders to something followed by the
      anchor to the appended url. */
  lemma AppendedRendered(s: string, b: nat, k: nat, url: string) returns (prefix: string, text: string)
    requires AppendedShape(s, b, k, url) && IsWebUrl(url)
    ensures Render(s) == prefix + AnchorHtml(text, url)
    ensures '[' !in s[..b] ==> text == s[b + 2..k]
  {
    var pieces;
    pieces, text := LastPiece(s, b, k, url, 0);
    if '[' !in s[..b] {
      forall x | 0 <= x < b ensures s[x] != '[' {
        assert s[x] == s[..b][x];
      }
    }
    prefix := LastLinkRendered(s, pieces, text, url);
  }

  /** The HTML of a message with an appended link ends with the anchor to that
      link's url, whatever precedes it; when the message has no `[` of its
      own, the anchor's text is the caption. */
  lemma AppendedLinkRendered(r: string, caption: string, url: string) returns (prefix: string, text: string)
    requires CaptionOk(caption) && IsWebUrl(url)
    ensures Render(WithLink(r, caption, url)) == prefix + AnchorHtml(text, url)
    ensures '[' !in r ==> text == caption
  {
    WithLinkShape(r, caption, url);
    prefix, text := AppendedRendered(WithLink(r, caption, url), |r|, |r| + 2 + |caption|, url);
  }

  // ---------------------------------------------------------------------
  // A message without markup of its own.

  /** At the appended `[` the scan swaps out the appended link alone. */
  lemma AppendedPieces(s: string, b: nat, k: nat, url: string)
    requires AppendedShape(s, b, k, url) && IsWebUrl(url)
    ensures WithKeys(LinkPieces(s, b + 1), 0) == Key(0)
    ensures Entries(LinkPieces(s, b + 1), 0) == [(Key(0), AnchorHtml(s[b + 2..k], url))]
  {
    AppendedLink(s, b, k, url);
    SingleLink(LinkPieces(s, b + 1), s[b + 2..k], url);
  }

  /** Scanned from its `[`, the appended link is the only piece. */
  lemma AppendedLink(s: string, b: nat, k: nat, url: string)
    requires AppendedShape(s, b, k, url) && IsWebUrl(url)
    ensures LinkPieces(s, b + 1) == [Link(s[b + 2..k], url)]
  {
    AppendedMatch(s, b, k, url);
    LastLink(s, b, k, url, b + 1);
  }

  lemma SingleLink(pieces: seq<Piece>, text: string, url: string)
    requires pieces == [Link(text, url)]
    ensures WithKeys(pieces, 0) == Key(0)
    ensures Entries(pieces, 0) == [(Key(0), AnchorHtml(text, url))]
  {
    assert pieces[1..] == [];
  }

  /** A character other than `[` is copied: it heads the text and adds no
      entry. */
  lemma CharPieces(s: string, i: nat)
    requires i < |s| && s[i] != '['
    ensures WithKeys(LinkPieces(s, i), 0) == [s[i]] + WithKeys(LinkPieces(s, i + 1), 0)
    ensures Entries(LinkPieces(s, i), 0) == Entries(LinkPieces(s, i + 1), 0)
  {
    SkipChar(s, i);
    PiecesCons(Char(s[i]), LinkPieces(s, i + 1), 0);
  }

  /** A run without `[` is copied as it is. */
  lemma {:induction false} PlainRun(s: string, i: nat, j: nat, w: string, e: seq<(string, string)>)
    requires i <= j <= |s|
    requires forall x :: i <= x < j ==> s[x] != '['
    requires WithKeys(LinkPieces(s, j), 0) == w && Entries(LinkPieces(s, j), 0) == e
    ensures WithKeys(LinkPieces(s, i), 0) == s[i..j] + w
    ensures Entries(LinkPieces(s, i), 0) == e
    decreases j - i
  {
    if i == j {
      assert s[i..j] == [];
    } else {
      CharPieces(s, i);
      PlainRun(s, i + 1, j, w, e);
      assert s[i..j] == [s[i]] + s[i + 1..j];
      AppendAssoc([s[i]], s[i + 1..j], w);
    }
  }

  /** When nothing before the appended link is a `[`, the scan copies that
      prefix character by character and swaps out the appended link alone,
      as the first placeholder. */
  lemma PlainPrefixPieces(s: string, b: nat, k: nat, url: string)
    requires AppendedShape(s, b, k, url) && IsWebUrl(url)
    requires forall x :: 0 <= x < b ==> s[x] != '['
    ensures WithKeys(LinkPieces(s, 0), 0) == s[0..b + 1] + Key(0)
    ensures Entries(LinkPieces(s, 0), 0) == [(Key(0), AnchorHtml(s[b + 2..k], url))]
  {
    AppendedPieces(s, b, k, url);
    PlainHead(s, b, Key(0), [(Key(0), AnchorHtml(s[b + 2..k], url))]);
  }

  lemma PlainHead(s: string, b: nat, w: string, e: seq<(string, string)>)
    requires b < |s| && s[b] != '['
    requires forall x :: 0 <= x < b ==> s[x] != '['
    requires WithKeys(LinkPieces(s, b + 1), 0) == w && Entries(LinkPieces(s, b + 1), 0) == e
    ensures WithKeys(LinkPieces(s, 0), 0) == s[0..b + 1] + w
    ensures Entries(LinkPieces(s, 0), 0) == e
  {
    PlainRun(s, 0, b + 1, w, e);
  }

  lemma PrefixSnoc<T>(s: seq<T>, n: nat)
    requires n < |s|
    ensures s[..n + 1] == s[..n] + [s[n]]
  {
  }

  /** When the text before the appended link is r, with no `[`, `*` or `_`,
      r and the space keep their text and the appended link is the only
      anchor. */
  lemma PlainPrefixRendered(s: string, b: nat, k: nat, url: string, r: string, caption: string)
    requires AppendedShape(s, b, k, url) && IsWebUrl(url)
    requires s[..b] == r && s[b + 2..k] == caption
    requires '[' !in r && '*' !in r && '_' !in r
    ensures Render(s) == ReplaceAll(r + " ", Key(0), AnchorHtml(caption, url)) + AnchorHtml(caption, url)
  {
    var z, anchor := s[..b + 1], AnchorHtml(caption, url);
    PrefixSnoc(s, b);
    assert z == r + " ";
    forall x | 0 <= x < b ensures s[x] != '[' {
      assert s[x] == r[x];
    }
    PlainPrefixPieces(s, b, k, url);
    assert s[0..b + 1] == z;
    forall x | 0 <= x < |z| ensures z[x] != '*' && z[x] != '_' {
      if x < b {
        assert z[x] == r[x];
      }
    }
    EmphasisKeepsKey(z, 0);
    NoDelimiters(z);
    RestoreLastKey(z, 0, anchor);
  }

  /** A message with no `[`, `*` or `_` keeps its text; its appended link
      becomes the only anchor, and every copy of the first placeholder the
      message happens to contain becomes that anchor as well. */
  lemma PlainMessageRendered(r: string, caption: string, url: string)
    requires CaptionOk(caption) && IsWebUrl(url)
    requires '[' !in r && '*' !in r && '_' !in r
    ensures var anchor := AnchorHtml(caption, url);
            Render(WithLink(r, caption, url)) == ReplaceAll(r + " ", Key(0), anchor) + anchor
  {
    WithLinkShape(r, caption, url);
    PlainPrefixRendered(WithLink(r, caption, url), |r|, |r| + 2 + |caption|, url, r, caption);
  }

  /** The placeholder collision: a message that already reads `{{LINK0}}`
      comes out with a second copy of the appended anchor in its place. */
  lemma LiteralPlaceholderOverwritten(caption: string, url: string)
    requires CaptionOk(caption) && IsWebUrl(url)
    ensures var anchor := AnchorHtml(caption, url);
            Render(WithLink(Key(0), caption, url)) == anchor + " " + anchor
  {
    var key, anchor := Key(0), AnchorHtml(caption, url);
    assert key == "{{LINK0}}";
    PlainMessageRendered(key, caption, url);
    var t := key + " ";
    assert StartsWithAt(t, 0, key) by {
      assert t[0..|key|] == key;
    }
    assert t[|key|..] == " ";
    assert ReplaceAll(" ", key, anchor) == " ";
  }
}
