/** Every `[text](url)` link of a message comes out of markdown_to_html in
    flask_server/app.py as its anchor, wherever it stands, provided the
    message holds no `{`: then no placeholder can be forged or rebuilt by a
    restored anchor. The placeholder of each link survives the emphasis
    passes and the restoring of the other placeholders, its own entry turns
    it into the anchor, and the later entries leave that anchor intact. */
module MarkdownAnchors {
  import opened Wrappers
  import opened Text
  import opened Markdown
  import opened MarkdownLinks

  // ---------------------------------------------------------------------
  // The placeholders in the substituted text.

  /** The j-th link leaves its placeholder in the substituted text. */
  lemma {:induction false} KeyInText(pieces: seq<Piece>, n: nat, j: nat) returns (a: string, b: string)
    requires j < |Matches(pieces)|
    ensures Holds(WithKeys(pieces, n), a, Key(n + j), b)
    decreases |pieces|
  {
    match pieces[0]
    case Char(c) =>
      var a', b' := KeyInText(pieces[1..], n, j);
      a, b := [c] + a', b';
      AppendAssoc([c], a', Key(n + j) + b);
    case Link(_, _) =>
      if j == 0 {
        a, b := [], WithKeys(pieces[1..], n + 1);
      } else {
        var a', b' := KeyInText(pieces[1..], n + 1, j - 1);
        a, b := Key(n) + a', b';
        AppendAssoc(Key(n), a', Key(n + j) + b);
      }
  }

  // ---------------------------------------------------------------------
  // The emphasis passes.

  /** An occurrence of a delimiter consists of delimiter characters. */
  lemma DelimiterChars(s: string, q: nat, d: string)
    requires StartsWithAt(s, q, d)
    ensures forall y :: q <= y < q + |d| ==> s[y] == d[y - q]
  {
    forall y | q <= y < q + |d| ensures s[y] == d[y - q] {
      assert s[y] == s[q..q + |d|][y - q];
    }
  }

  /** A pass copies a run without delimiter characters. */
  lemma {:induction false} InertRunCopied(s: string, d: string, open: string, close: string, x: nat, hi: nat)
    requires d != [] && x <= hi <= |s|
    requires forall y, z :: x <= y < hi && 0 <= z < |d| ==> s[y] != d[z]
    ensures SubPairs(s, d, open, close, x) == s[x..hi] + SubPairs(s, d, open, close, hi)
    decreases hi - x
  {
    if x < hi {
      StartsWithAtHead(s, x, d);
      assert s[x] != d[0];
      InertRunCopied(s, d, open, close, x + 1, hi);
      assert s[x..hi] == [s[x]] + s[x + 1..hi];
      AppendAssoc([s[x]], s[x + 1..hi], SubPairs(s, d, open, close, hi));
    } else {
      assert s[x..hi] == [];
    }
  }

  /** Where a scan that starts before it meets a pair around the run. */
  lemma PairAroundRun(s: string, d: string, i: nat, k: nat, p: nat, m: nat)
    requires d != [] && i < p && 0 < m && p + m <= |s|
    requires forall y, z :: p <= y < p + m && 0 <= z < |d| ==> s[y] != d[z]
    requires PairClose(s, d, i) == Some(k)
    ensures i + |d| <= p
    ensures k + |d| <= p || p + m <= k
  {
    CloseAtShortest(s, d, i + |d|);
    DelimiterChars(s, i, d);
    DelimiterChars(s, k, d);
    assert s[p] != d[0];
    assert s[k] == d[0];
  }

  /** x holds w, with u before it and v after it. */
  predicate Holds(x: string, u: string, w: string, v: string) {
    x == u + (w + v)
  }

  /** The pass from i holds w, with u before it and v after it. */
  predicate PassHolds(s: string, d: string, open: string, close: string, i: nat, u: string, w: string, v: string)
    requires d != []
  {
    Holds(SubPairs(s, d, open, close, i), u, w, v)
  }

  /** A run without delimiter characters comes through a pass intact,
      wherever the scan starts before it: a pair around the run copies it
      inside its group. */
  lemma {:induction false} InertRunKept(s: string, d: string, open: string, close: string, i: nat, p: nat, m: nat)
    returns (u: string, v: string)
    requires d != [] && i <= p && 0 < m && p + m <= |s|
    requires forall y, z :: p <= y < p + m && 0 <= z < |d| ==> s[y] != d[z]
    ensures PassHolds(s, d, open, close, i, u, s[p..p + m], v)
    decreases p - i, 1
  {
    if i == p {
      u, v := RunCopied(s, d, open, close, p, m);
    } else if PairClose(s, d, i).None? {
      var u', v' := InertRunKept(s, d, open, close, i + 1, p, m);
      u, v := CopiedBeforeRun(s, d, open, close, i, p, m, u', v');
    } else {
      u, v := PairKept(s, d, open, close, i, p, m);
    }
  }

  /** The case of InertRunKept where a pair opens at i. */
  lemma {:induction false} PairKept(s: string, d: string, open: string, close: string, i: nat, p: nat, m: nat)
    returns (u: string, v: string)
    requires d != [] && i < p && 0 < m && p + m <= |s| && PairClose(s, d, i).Some?
    requires forall y, z :: p <= y < p + m && 0 <= z < |d| ==> s[y] != d[z]
    ensures PassHolds(s, d, open, close, i, u, s[p..p + m], v)
    decreases p - i, 0
  {
    var k := PairClose(s, d, i).value;
    PairAroundRun(s, d, i, k, p, m);
    if k + |d| <= p {
      var u', v' := InertRunKept(s, d, open, close, k + |d|, p, m);
      u, v := PairBeforeRun(s, d, open, close, i, k, p, m, u', v');
    } else {
      u, v := PairHoldsRun(s, d, open, close, i, k, p, m);
    }
  }

  /** The scan at the run copies it. */
  lemma RunCopied(s: string, d: string, open: string, close: string, p: nat, m: nat)
    returns (u: string, v: string)
    requires d != [] && p + m <= |s|
    requires forall y, z :: p <= y < p + m && 0 <= z < |d| ==> s[y] != d[z]
    ensures PassHolds(s, d, open, close, p, u, s[p..p + m], v)
  {
    InertRunCopied(s, d, open, close, p, p + m);
    u, v := [], SubPairs(s, d, open, close, p + m);
  }

  /** A copied character before the run joins the part before it. */
  lemma CopiedBeforeRun(s: string, d: string, open: string, close: string, i: nat, p: nat, m: nat, u': string, v': string)
    returns (u: string, v: string)
    requires d != [] && i < p && p + m <= |s| && PairClose(s, d, i).None?
    requires PassHolds(s, d, open, close, i + 1, u', s[p..p + m], v')
    ensures PassHolds(s, d, open, close, i, u, s[p..p + m], v)
  {
    SubPairsCopied(s, d, open, close, i);
    u, v := [s[i]] + u', v';
    AppendAssoc([s[i]], u', s[p..p + m] + v);
  }

  /** A pair closed before the run joins the part before it. */
  lemma PairBeforeRun(s: string, d: string, open: string, close: string, i: nat, k: nat, p: nat, m: nat, u': string, v': string)
    returns (u: string, v: string)
    requires d != [] && i < |s| && PairClose(s, d, i) == Some(k)
    requires k + |d| <= p && p + m <= |s|
    requires PassHolds(s, d, open, close, k + |d|, u', s[p..p + m], v')
    ensures PassHolds(s, d, open, close, i, u, s[p..p + m], v)
  {
    SubPairsMatched(s, d, open, close, i, k, k + |d|);
    var head := open + s[i + |d|..k] + close;
    u, v := head + u', v';
    AppendAssoc(head, u', s[p..p + m] + v);
  }

  /** A pair whose group holds the run copies it. */
  lemma PairHoldsRun(s: string, d: string, open: string, close: string, i: nat, k: nat, p: nat, m: nat)
    returns (u: string, v: string)
    requires d != [] && i < |s| && PairClose(s, d, i) == Some(k)
    requires i + |d| <= p && p + m <= k
    ensures PassHolds(s, d, open, close, i, u, s[p..p + m], v)
  {
    SubPairsMatched(s, d, open, close, i, k, k + |d|);
    var rest := SubPairs(s, d, open, close, k + |d|);
    u, v := open + s[i + |d|..p], s[p + m..k] + close + rest;
    GroupAroundRun(s, i + |d|, p, p + m, k, open, close, rest);
    HoldsVia(SubPairs(s, d, open, close, i), open + s[i + |d|..k] + close + rest, u, s[p..p + m], v);
  }

  lemma HoldsVia(x: string, e: string, u: string, w: string, v: string)
    requires x == e && Holds(e, u, w, v)
    ensures Holds(x, u, w, v)
  {
  }

  /** A position where no pair opens is copied. */
  lemma SubPairsCopied(s: string, d: string, open: string, close: string, i: nat)
    requires d != [] && i < |s| && PairClose(s, d, i).None?
    ensures SubPairs(s, d, open, close, i) == [s[i]] + SubPairs(s, d, open, close, i + 1)
  {
  }

  /** The rearrangement of a group split around the run. */
  lemma GroupAroundRun(s: string, g: nat, p: nat, q: nat, k: nat, open: string, close: string, rest: string)
    requires g <= p <= q <= k <= |s|
    ensures Holds(open + s[g..k] + close + rest, open + s[g..p], s[p..q], s[q..k] + close + rest)
  {
    assert s[g..k] == s[g..p] + s[p..q] + s[q..k];
  }

  /** One pass keeps a run without delimiter characters, wherever it stands. */
  lemma PassKeepsInner(x: string, a: string, key: string, b: string, d: string, open: string, close: string)
    returns (a': string, b': string)
    requires d != [] && key != [] && Holds(x, a, key, b)
    requires forall y, z :: 0 <= y < |key| && 0 <= z < |d| ==> key[y] != d[z]
    ensures Holds(SubPairs(x, d, open, close, 0), a', key, b')
  {
    assert x[|a|..|a| + |key|] == key;
    forall y, z | |a| <= y < |a| + |key| && 0 <= z < |d| ensures x[y] != d[z] {
      assert x[y] == key[y - |a|];
    }
    a', b' := InertRunKept(x, d, open, close, 0, |a|, |key|);
  }

  /** The three emphasis passes keep a placeholder wherever it stands. */
  lemma EmphasisKeepsInner(x: string, a: string, n: nat, b: string) returns (a': string, b': string)
    requires Holds(x, a, Key(n), b)
    ensures Holds(Emphasis(x), a', Key(n), b')
  {
    var key := Key(n);
    KeyShape(n);
    var x1 := SubPairs(x, "**", "<strong>", "</strong>", 0);
    var a1, b1 := PassKeepsInner(x, a, key, b, "**", "<strong>", "</strong>");
    var x2 := SubPairs(x1, "*", "<em>", "</em>", 0);
    var a2, b2 := PassKeepsInner(x1, a1, key, b1, "*", "<em>", "</em>");
    a', b' := PassKeepsInner(x2, a2, key, b2, "_", "<em>", "</em>");
  }

  // ---------------------------------------------------------------------
  // The restore loop.

  lemma KeyNoAngle(n: nat)
    ensures forall x :: 0 <= x < |Key(n)| ==> Key(n)[x] != '<'
  {
    DigitsAbsent(n, '<');
    Absent("{{LINK", NatToString(n), "}}", '<');
  }

  /** No placeholder straddles a `{{` that follows a. */
  lemma KeyNoStraddleBefore(a: string, rest: string, i: nat)
    requires |rest| >= 2 && rest[0] == '{' && rest[1] == '{'
    ensures forall x :: 0 <= x < |a| < x + |Key(i)| ==> !StartsWithAt(a + rest, x, Key(i))
  {
    KeyShape(i);
    var w := a + rest;
    forall x | 0 <= x < |a| < x + |Key(i)| ensures !StartsWithAt(w, x, Key(i)) {
      if x + |Key(i)| <= |w| {
        var o := |a| - x;
        assert w[x..x + |Key(i)|][o] == w[|a|] == '{';
        if o + 1 < |Key(i)| {
          assert w[x..x + |Key(i)|][o + 1] == w[|a| + 1] == '{';
        }
      }
    }
  }

  /** No placeholder starting inside a placeholder runs past its end. */
  lemma KeyNoStraddleAfter(j: nat, b: string, i: nat)
    ensures forall x :: 0 <= x < |Key(j)| < x + |Key(i)| ==> !StartsWithAt(Key(j) + b, x, Key(i))
  {
    KeyShape(i);
    KeyShape(j);
    var w := Key(j) + b;
    forall x | 0 <= x < |Key(j)| < x + |Key(i)| ensures !StartsWithAt(w, x, Key(i)) {
      if x + |Key(i)| <= |w| {
        if x == 0 {
          KeyNotPrefix(j, i);
          assert w[..|Key(i)|][..|Key(j)|] == Key(j);
        } else if x == 1 {
          assert w[1..1 + |Key(i)|][1] == w[2] == 'L';
        } else {
          assert w[x..x + |Key(i)|][0] == w[x] == Key(j)[x];
        }
      }
    }
  }

  /** Restoring another placeholder keeps this one in place. */
  lemma ReplaceOtherKey(a: string, j: nat, b: string, i: nat, v: string)
    requires i != j
    ensures ReplaceAll(a + (Key(j) + b), Key(i), v)
         == ReplaceAll(a, Key(i), v) + (Key(j) + ReplaceAll(b, Key(i), v))
  {
    KeyShape(i);
    KeyShape(j);
    KeyNoStraddleBefore(a, Key(j) + b, i);
    ReplaceAllSplit(a, Key(j) + b, Key(i), v);
    KeyNoStraddleAfter(j, b, i);
    ReplaceAllSplit(Key(j), b, Key(i), v);
    KeyNotInKey(i, j);
    ReplaceAllAbsent(Key(j), Key(i), v);
  }

  /** Restoring a placeholder turns this occurrence of it into the anchor. */
  lemma ReplaceOwnKey(a: string, j: nat, b: string, v: string)
    ensures ReplaceAll(a + (Key(j) + b), Key(j), v)
         == ReplaceAll(a, Key(j), v) + (v + ReplaceAll(b, Key(j), v))
  {
    KeyShape(j);
    KeyNoStraddleBefore(a, Key(j) + b, j);
    ReplaceAllSplit(a, Key(j) + b, Key(j), v);
    KeyNoStraddleAfter(j, b, j);
    ReplaceAllSplit(Key(j), b, Key(j), v);
    ReplaceAllWhole(Key(j), v);
  }

  /** Restoring a placeholder keeps a text that starts with `<` and holds
      no `{`, as an anchor without `{` does. */
  lemma ReplaceKeyAround(a: string, w: string, b: string, i: nat, v: string)
    requires w != [] && w[0] == '<' && '{' !in w
    ensures ReplaceAll(a + (w + b), Key(i), v) == ReplaceAll(a, Key(i), v) + (w + ReplaceAll(b, Key(i), v))
  {
    KeyShape(i);
    KeyNoAngle(i);
    var t := a + (w + b);
    forall x | 0 <= x < |a| < x + |Key(i)| ensures !StartsWithAt(t, x, Key(i)) {
      if x + |Key(i)| <= |t| {
        assert t[x..x + |Key(i)|][|a| - x] == t[|a|] == '<';
      }
    }
    ReplaceAllSplit(a, w + b, Key(i), v);
    forall x | 0 <= x < |w| < x + |Key(i)| ensures !StartsWithAt(w + b, x, Key(i)) {
      StartsWithAtHead(w + b, x, Key(i));
      assert (w + b)[x] == w[x];
    }
    ReplaceAllSplit(w, b, Key(i), v);
    forall x | 0 <= x <= |w| ensures !StartsWithAt(w, x, Key(i)) {
      StartsWithAtHead(w, x, Key(i));
    }
    ReplaceAllAbsent(w, Key(i), v);
  }

  /** Restoring earlier placeholders keeps a later one in place. */
  lemma {:induction false} RestoreKeepsOtherKey(a: string, j: nat, b: string, entries: seq<(string, string)>, base: nat)
    returns (a': string, b': string)
    requires forall i :: 0 <= i < |entries| ==> entries[i].0 == Key(base + i)
    requires base + |entries| <= j
    ensures Restore(a + (Key(j) + b), entries) == a' + (Key(j) + b')
    decreases |entries|
  {
    if entries == [] {
      a', b' := a, b;
    } else {
      var v := entries[0].1;
      ReplaceOtherKey(a, j, b, base, v);
      a', b' := RestoreKeepsOtherKey(ReplaceAll(a, Key(base), v), j, ReplaceAll(b, Key(base), v), entries[1..], base + 1);
    }
  }

  /** Restoring later placeholders keeps an anchor without `{` in place. */
  lemma {:induction false} RestoreKeepsAnchor(a: string, w: string, b: string, entries: seq<(string, string)>, base: nat)
    returns (a': string, b': string)
    requires w != [] && w[0] == '<' && '{' !in w
    requires forall i :: 0 <= i < |entries| ==> entries[i].0 == Key(base + i)
    ensures Restore(a + (w + b), entries) == a' + (w + b')
    decreases |entries|
  {
    if entries == [] {
      a', b' := a, b;
    } else {
      var v := entries[0].1;
      ReplaceKeyAround(a, w, b, base, v);
      a', b' := RestoreKeepsAnchor(ReplaceAll(a, Key(base), v), w, ReplaceAll(b, Key(base), v), entries[1..], base + 1);
    }
  }

  // ---------------------------------------------------------------------
  // The whole conversion.

  /** An anchor built from text and url without `{` holds no `{` and starts
      with `<`. */
  lemma AnchorShape(text: string, url: string)
    requires '{' !in text && '{' !in url
    ensures AnchorHtml(text, url) != [] && AnchorHtml(text, url)[0] == '<' && '{' !in AnchorHtml(text, url)
  {
    var h := AnchorHtml(text, url);
    var head, mid, tail := "<a href=\"", "\" target=\"_blank\">", "</a>";
    assert h == head + url + mid + text + tail;
    forall x | 0 <= x < |h| ensures h[x] != '{' {
      if x < |head| {
        assert h[x] == head[x];
      } else if x < |head| + |url| {
        assert h[x] == url[x - |head|];
      } else if x < |head| + |url| + |mid| {
        assert h[x] == mid[x - |head| - |url|];
      } else if x < |head| + |url| + |mid| + |text| {
        assert h[x] == text[x - |head| - |url| - |mid|];
      } else {
        assert h[x] == tail[x - |head| - |url| - |mid| - |text|];
      }
    }
  }

  /** The groups of a match are slices of the message, so they hold no `{`
      when the message holds none. */
  lemma MatchWithoutBrace(s: string, p: nat)
    requires '{' !in s && LinkAt(s, p).Some?
    ensures '{' !in LinkAt(s, p).value.text && '{' !in LinkAt(s, p).value.url
  {
    LinkAtClose(s, p);
    var k, c := LinkClose(s, p + 1).value.0, LinkClose(s, p + 1).value.1;
    var m := LinkAt(s, p).value;
    assert forall x :: 0 <= x < |m.text| ==> m.text[x] == s[p + 1 + x];
    assert forall x :: 0 <= x < |m.url| ==> m.url[x] == s[k + 2 + x];
  }

  /** In a message without `{`, every link of the message, each a
      `[text](url)` written in it, comes out in the HTML as
      `<a href="url" target="_blank">text</a>`. */
  lemma LinksRendered(s: string, j: nat) returns (p: nat, before: string, after: string)
    requires '{' !in s
    requires j < |Matches(LinkPieces(s, 0))|
    ensures p < |s| && LinkAt(s, p).Some?
    ensures var m := LinkAt(s, p).value;
            && s[p..m.end] == "[" + m.text + "](" + m.url + ")"
            && Matches(LinkPieces(s, 0))[j] == (m.text, m.url)
            && Render(s) == before + (AnchorHtml(m.text, m.url) + after)
  {
    var pieces := LinkPieces(s, 0);
    p := MatchSource(s, 0, j);
    LinkAtShape(s, p);
    var m := LinkAt(s, p).value;
    MatchWithoutBrace(s, p);
    before, after := RenderHolds(pieces, j, m.text, m.url);
  }

  /** The conversion of the pieces, followed through the j-th link. */
  lemma RenderHolds(pieces: seq<Piece>, j: nat, text: string, url: string) returns (before: string, after: string)
    requires j < |Matches(pieces)| && Matches(pieces)[j] == (text, url)
    requires '{' !in text && '{' !in url
    ensures Restore(Emphasis(WithKeys(pieces, 0)), Entries(pieces, 0)) == before + (AnchorHtml(text, url) + after)
  {
    var entries := Entries(pieces, 0);
    var anchor := AnchorHtml(text, url);
    EntryAt(pieces, j, text, url);
    AnchorShape(text, url);
    var a1, b1 := KeyInEmphasis(pieces, j);
    var y, a2, b2 := RestoreAround(Emphasis(WithKeys(pieces, 0)), a1, b1, j, entries, anchor);
    before, after := RestoreAroundAnchor(y, a2, b2, j, entries[j + 1..], anchor);
  }

  /** The j-th entry stores the anchor of the j-th link under Key(j). */
  lemma EntryAt(pieces: seq<Piece>, j: nat, text: string, url: string)
    requires j < |Matches(pieces)| && Matches(pieces)[j] == (text, url)
    ensures j < |Entries(pieces, 0)| && Entries(pieces, 0)[j] == (Key(j), AnchorHtml(text, url))
    ensures forall i :: 0 <= i < |Entries(pieces, 0)| ==> Entries(pieces, 0)[i].0 == Key(i)
  {
    EntriesNumbered(pieces, 0);
  }

  /** The placeholder of the j-th link is still in the text after the
      emphasis passes. */
  lemma KeyInEmphasis(pieces: seq<Piece>, j: nat) returns (a: string, b: string)
    requires j < |Matches(pieces)|
    ensures Holds(Emphasis(WithKeys(pieces, 0)), a, Key(j), b)
  {
    var a0, b0 := KeyInText(pieces, 0, j);
    a, b := EmphasisKeepsInner(WithKeys(pieces, 0), a0, j, b0);
  }

  /** The restore loop over all entries, split at the j-th: the entries
      before it leave its placeholder in place. */
  lemma RestoreAround(x: string, a: string, b: string, j: nat, entries: seq<(string, string)>, anchor: string)
    returns (y: string, a': string, b': string)
    requires j < |entries| && entries[j] == (Key(j), anchor)
    requires forall i :: 0 <= i < |entries| ==> entries[i].0 == Key(i)
    requires Holds(x, a, Key(j), b)
    ensures Restore(x, entries) == Restore(ReplaceAll(y, Key(j), anchor), entries[j + 1..])
    ensures Holds(y, a', Key(j), b')
  {
    RestoreSplit(x, j, entries);
    y := Restore(x, entries[..j]);
    a', b' := RestoreKeepsOtherKey(a, j, b, entries[..j], 0);
  }

  /** The restore loop runs the entries before the j-th, the j-th, and the
      entries after it. */
  lemma RestoreSplit(x: string, j: nat, entries: seq<(string, string)>)
    requires j < |entries|
    ensures Restore(x, entries)
         == Restore(ReplaceAll(Restore(x, entries[..j]), entries[j].0, entries[j].1), entries[j + 1..])
  {
    var tail := [entries[j]] + entries[j + 1..];
    assert entries == entries[..j] + tail;
    RestoreAppend(x, entries[..j], tail);
    assert tail[1..] == entries[j + 1..];
  }

  /** The j-th entry turns the placeholder into the anchor and the entries
      after it keep the anchor. */
  lemma RestoreAroundAnchor(y: string, a: string, b: string, j: nat, rest: seq<(string, string)>, anchor: string)
    returns (before: string, after: string)
    requires forall i :: 0 <= i < |rest| ==> rest[i].0 == Key(j + 1 + i)
    requires anchor != [] && anchor[0] == '<' && '{' !in anchor
    requires Holds(y, a, Key(j), b)
    ensures Restore(ReplaceAll(y, Key(j), anchor), rest) == before + (anchor + after)
  {
    ReplaceOwnKey(a, j, b, anchor);
    before, after := RestoreKeepsAnchor(ReplaceAll(a, Key(j), anchor), anchor, ReplaceAll(b, Key(j), anchor), rest, j + 1);
  }

  // ---------------------------------------------------------------------
  // A second placeholder collision.

  /** A text without `{` holds no placeholder. */
  lemma NoBraceNoKey(t: string, n: nat, v: string)
    requires '{' !in t
    ensures ReplaceAll(t, Key(n), v) == t
  {
    KeyShape(n);
    forall x | 0 <= x <= |t| ensures !StartsWithAt(t, x, Key(n)) {
      StartsWithAtHead(t, x, Key(n));
    }
    ReplaceAllAbsent(t, Key(n), v);
  }

  /** `[text](url)` written at the start of s, part by part. */
  predicate LinkWritten(s: string, text: string, url: string) {
    && |text| + |url| + 4 <= |s|
    && s[0] == '[' && s[1..|text| + 1] == text
    && s[|text| + 1] == ']' && s[|text| + 2] == '('
    && s[|text| + 3..|text| + |url| + 3] == url && s[|text| + |url| + 3] == ')'
  }

  /** The link text itself is written part by part. */
  lemma LinkTextWritten(h: string, text: string, url: string)
    requires h == "[" + text + "](" + url + ")"
    ensures LinkWritten(h, text, url)
  {
    assert h[1..|text| + 1] == text;
    assert h[|text| + 3..|text| + |url| + 3] == url;
  }

  /** So is a text that starts with it. */
  lemma PrefixWritten(s: string, h: string, text: string, url: string)
    requires |h| <= |s| && s[..|h|] == h && LinkWritten(h, text, url)
    ensures LinkWritten(s, text, url)
  {
    assert s[0] == h[0];
    assert s[1..|text| + 1] == h[1..|text| + 1];
    assert s[|text| + 1] == h[|text| + 1] && s[|text| + 2] == h[|text| + 2];
    assert s[|text| + 3..|text| + |url| + 3] == h[|text| + 3..|text| + |url| + 3];
    assert s[|text| + |url| + 3] == h[|text| + |url| + 3];
  }

  /** The tail of a link written at the start of s, followed by whitespace
      or the end, closes at its own `)`. */
  lemma FrontTail(s: string, text: string, url: string)
    requires LinkWritten(s, text, url) && IsWebUrl(url)
    requires |text| + |url| + 4 < |s| ==> IsSpace(s[|text| + |url| + 4])
    ensures LinkTail(s, |text| + 1) == Some(|text| + |url| + 3)
  {
    var u := FrontScheme(s, text, url);
    FrontRun(s, text, url, u);
  }

  /** The url written after `](` starts with its scheme. */
  lemma FrontScheme(s: string, text: string, url: string) returns (u: nat)
    requires LinkWritten(s, text, url) && IsWebUrl(url)
    ensures StartsWithAt(s, |text| + 1, "](")
    ensures SchemeEnd(s, |text| + 3) == Some(u) && |text| + 3 <= u < |text| + |url| + 3
  {
    var k, e := |text| + 1, |text| + |url| + 4;
    assert s[k..k + 2] == "](";
    assert s[k + 2..k + 9] == s[k + 2..e - 1][..7] == url[..7];
    assert |url| > 8 ==> s[k + 2..k + 10] == s[k + 2..e - 1][..8] == url[..8];
    u := SchemeEnd(s, k + 2).value;
  }

  /** From inside the url, the non-whitespace run reaches just past the
      closing `)`. */
  lemma FrontRun(s: string, text: string, url: string, u: nat)
    requires LinkWritten(s, text, url) && IsWebUrl(url)
    requires |text| + |url| + 4 < |s| ==> IsSpace(s[|text| + |url| + 4])
    requires |text| + 3 <= u < |text| + |url| + 3
    ensures RunEnd(s, u) == |text| + |url| + 4
  {
    var k, e := |text| + 1, |text| + |url| + 4;
    forall x | u <= x < e ensures !IsSpace(s[x]) {
      if x < e - 1 {
        assert s[x] == s[k + 2..e - 1][x - k - 2] == url[x - k - 2];
      }
    }
    RunEndMaximal(s, u);
  }

  /** No `]` and no line break in the written text. */
  lemma FrontCaption(s: string, text: string, url: string)
    requires LinkWritten(s, text, url) && CaptionOk(text)
    ensures forall x :: 1 <= x < |text| + 1 ==> s[x] != '\n' && s[x] != ']'
  {
    forall x | 1 <= x < |text| + 1 ensures s[x] != '\n' && s[x] != ']' {
      assert s[x] == s[1..|text| + 1][x - 1] == text[x - 1];
    }
  }

  /** A link written at the start of s, followed by whitespace or the end,
      is matched there with its own text and url. */
  lemma FrontLink(s: string, text: string, url: string)
    requires LinkWritten(s, text, url)
    requires CaptionOk(text) && IsWebUrl(url)
    requires |text| + |url| + 4 < |s| ==> IsSpace(s[|text| + |url| + 4])
    ensures LinkAt(s, 0) == Some(LinkMatch(text, url, |text| + |url| + 4))
  {
    FrontClose(s, text, url);
  }

  /** The text group of a link written at the start closes at its own
      `]`. */
  lemma FrontClose(s: string, text: string, url: string)
    requires LinkWritten(s, text, url)
    requires CaptionOk(text) && IsWebUrl(url)
    requires |text| + |url| + 4 < |s| ==> IsSpace(s[|text| + |url| + 4])
    ensures LinkClose(s, 1) == Some((|text| + 1, |text| + |url| + 3))
  {
    var k := |text| + 1;
    FrontTail(s, text, url);
    FrontCaption(s, text, url);
    LinkCloseFinds(s, 1, k);
    CloseNotAfter(s, 1, k);
    var j := LinkClose(s, 1).value.0;
    StartsWithAtHead(s, j, "](");
    assert j == k;
  }

  /** The message "[{{LINK1}}](u1)" with a link appended splits into the
      first link, the space and the appended link. */
  lemma NestedPieces(u1: string, caption: string, url: string)
    requires IsWebUrl(u1) && CaptionOk(caption) && IsWebUrl(url)
    ensures var s, e := WithLink("[" + Key(1) + "](" + u1 + ")", caption, url), |Key(1)| + |u1| + 4;
            && WithKeys(LinkPieces(s, 0), 0) == Key(0) + ([' '] + WithKeys(LinkPieces(s, e + 1), 1))
            && Entries(LinkPieces(s, 0), 0) == [(Key(0), AnchorHtml(Key(1), u1))] + Entries(LinkPieces(s, e + 1), 1)
            && LinkPieces(s, e + 1) == [Link(caption, url)]
  {
    var r := "[" + Key(1) + "](" + u1 + ")";
    var s := WithLink(r, caption, url);
    NestedFront(r, s, u1, caption, url);
    NestedBack(r, caption, url);
    PiecesStep(s, 0, 0);
    PiecesStep(s, |r|, 1);
  }

  /** The link written first is matched at the start. */
  lemma NestedFront(r: string, s: string, u1: string, caption: string, url: string)
    requires r == "[" + Key(1) + "](" + u1 + ")" && s == WithLink(r, caption, url)
    requires IsWebUrl(u1) && CaptionOk(caption)
    ensures |r| == |Key(1)| + |u1| + 4 < |s|
    ensures LinkAt(s, 0) == Some(LinkMatch(Key(1), u1, |r|))
  {
    KeyShape(1);
    WithLinkShape(r, caption, url);
    assert s[|r|] == ' ';
    assert CaptionOk(Key(1));
    LinkTextWritten(r, Key(1), u1);
    PrefixWritten(s, r, Key(1), u1);
    FrontLink(s, Key(1), u1);
  }

  /** After the first link come the space, matching nothing, and the
      appended link. */
  lemma NestedBack(r: string, caption: string, url: string)
    requires CaptionOk(caption) && IsWebUrl(url)
    ensures |r| < |WithLink(r, caption, url)| && LinkAt(WithLink(r, caption, url), |r|).None?
    ensures LinkPieces(WithLink(r, caption, url), |r| + 1) == [Link(caption, url)]
  {
    AppendedOf(r, caption, url);
    AppendedCaption(WithLink(r, caption, url), |r|, caption, url);
  }

  /** The caption written at b + 2 of s. */
  predicate CaptionAt(s: string, b: nat, caption: string) {
    b + 2 + |caption| <= |s| && s[b + 2..b + 2 + |caption|] == caption
  }

  lemma AppendedOf(r: string, caption: string, url: string)
    requires CaptionOk(caption)
    ensures AppendedShape(WithLink(r, caption, url), |r|, |r| + 2 + |caption|, url)
    ensures CaptionAt(WithLink(r, caption, url), |r|, caption)
  {
    WithLinkShape(r, caption, url);
  }

  lemma AppendedCaption(s: string, b: nat, caption: string, url: string)
    requires AppendedShape(s, b, b + 2 + |caption|, url) && IsWebUrl(url) && CaptionAt(s, b, caption)
    ensures b < |s| && LinkAt(s, b).None?
    ensures LinkPieces(s, b + 1) == [Link(caption, url)]
  {
    AppendedLink(s, b, b + 2 + |caption|, url);
  }

  /** The second collision: when a message already holds a link whose text
      is `{{LINK1}}`, the anchor of the appended link, stored under that
      key, is restored inside the first anchor as well as in its own place,
      so the HTML nests one anchor in another. Like
      MarkdownLinks.LiteralPlaceholderOverwritten, it comes from keeping
      the placeholders in the same text as the message. */
  lemma PlaceholderInLinkNested(u1: string, caption: string, url: string)
    requires IsWebUrl(u1) && CaptionOk(caption) && IsWebUrl(url) && '{' !in u1
    ensures Render(WithLink("[" + Key(1) + "](" + u1 + ")", caption, url))
         == AnchorHtml(AnchorHtml(caption, url), u1) + " " + AnchorHtml(caption, url)
  {
    var s := WithLink("[" + Key(1) + "](" + u1 + ")", caption, url);
    var w := Key(0) + ([' '] + Key(1));
    var entries := [(Key(0), AnchorHtml(Key(1), u1)), (Key(1), AnchorHtml(caption, url))];
    NestedKeys(u1, caption, url);
    NestedEmphasis();
    NestedRestore(u1, caption, url, w, entries);
  }

  /** The nested message becomes "{{LINK0}} {{LINK1}}" with one entry per
      link. */
  lemma NestedKeys(u1: string, caption: string, url: string)
    requires IsWebUrl(u1) && CaptionOk(caption) && IsWebUrl(url)
    ensures var s := WithLink("[" + Key(1) + "](" + u1 + ")", caption, url);
            && WithKeys(LinkPieces(s, 0), 0) == Key(0) + ([' '] + Key(1))
            && Entries(LinkPieces(s, 0), 0) == [(Key(0), AnchorHtml(Key(1), u1)), (Key(1), AnchorHtml(caption, url))]
  {
    NestedPieces(u1, caption, url);
    PiecesCons(Link(caption, url), [], 1);
    assert [Link(caption, url)] == [Link(caption, url)] + [];
  }

  /** The placeholders hold no emphasis delimiter. */
  lemma NestedEmphasis()
    ensures Emphasis(Key(0) + ([' '] + Key(1))) == Key(0) + ([' '] + Key(1))
  {
    var w := Key(0) + ([' '] + Key(1));
    KeyShape(0);
    KeyShape(1);
    forall i | 0 <= i < |w| ensures w[i] != '*' && w[i] != '_' {
      if i < |Key(0)| {
        assert w[i] == Key(0)[i];
      } else if i > |Key(0)| {
        assert w[i] == Key(1)[i - |Key(0)| - 1];
      }
    }
    NoDelimiters(w);
  }

  /** Restoring the two entries of the nested message. */
  lemma NestedRestore(u1: string, caption: string, url: string, w: string, entries: seq<(string, string)>)
    requires '{' !in u1
    requires w == Key(0) + ([' '] + Key(1))
    requires entries == [(Key(0), AnchorHtml(Key(1), u1)), (Key(1), AnchorHtml(caption, url))]
    ensures Restore(w, entries) == AnchorHtml(AnchorHtml(caption, url), u1) + " " + AnchorHtml(caption, url)
  {
    var k1, a1, a2 := Key(1), AnchorHtml(Key(1), u1), AnchorHtml(caption, url);
    var x, head, tail := NestedFirstEntry(u1, a1);
    NestedSecondEntry(x, head, tail, a2);
    assert entries[1..] == [(k1, a2)] && entries[1..][1..] == [];
    assert Restore(w, entries) == Restore(x, [(k1, a2)]);
    assert Restore(x, [(k1, a2)]) == ReplaceAll(x, k1, a2);
    assert AnchorHtml(a2, u1) == head + a2 + tail;
  }

  /** The first entry turns `{{LINK0}}` into the anchor that holds
      `{{LINK1}}`. */
  lemma NestedFirstEntry(u1: string, a1: string) returns (x: string, head: string, tail: string)
    requires '{' !in u1 && a1 == AnchorHtml(Key(1), u1)
    ensures x == ReplaceAll(Key(0) + ([' '] + Key(1)), Key(0), a1)
    ensures x == head + (Key(1) + (tail + [' '] + Key(1)))
    ensures head == "<a href=\"" + u1 + "\" target=\"_blank\">" && tail == "</a>"
    ensures '{' !in head && '{' !in tail
  {
    var k0, k1 := Key(0), Key(1);
    x := ReplaceAll(k0 + ([' '] + k1), k0, a1);
    RaLeadingKey([' '] + k1, a1);
    SpaceBeforeKey(a1);
    assert x == a1 + ([' '] + k1);
    head, tail := AnchorAroundText(k1, u1);
    Regroup(x, a1, head, k1, tail);
  }

  lemma Regroup(x: string, a: string, head: string, k: string, tail: string)
    requires x == a + ([' '] + k) && a == head + (k + tail)
    ensures x == head + (k + (tail + [' '] + k))
  {
  }

  /** A leading `{{LINK0}}` is replaced. */
  lemma RaLeadingKey(b: string, a1: string)
    ensures ReplaceAll(Key(0) + b, Key(0), a1) == a1 + ReplaceAll(b, Key(0), a1)
  {
    var k0 := Key(0);
    assert [] + (k0 + b) == k0 + b;
    ReplaceOwnKey([], 0, b, a1);
    assert ReplaceAll([], k0, a1) == [];
  }

  /** `{{LINK0}}` does not occur in " {{LINK1}}". */
  lemma SpaceBeforeKey(a1: string)
    ensures ReplaceAll([' '] + Key(1), Key(0), a1) == [' '] + Key(1)
  {
    var k0, k1 := Key(0), Key(1);
    assert [' '] + k1 == [' '] + (k1 + []);
    ReplaceOtherKey([' '], 1, [], 0, a1);
    NoBraceNoKey([' '], 0, a1);
    assert ReplaceAll([], k0, a1) == [];
  }

  /** An anchor is its text between a head and a tail that hold no `{`
      when the url holds none. */
  lemma AnchorAroundText(text: string, url: string) returns (head: string, tail: string)
    requires '{' !in url
    ensures AnchorHtml(text, url) == head + (text + tail)
    ensures head == "<a href=\"" + url + "\" target=\"_blank\">" && tail == "</a>"
    ensures '{' !in head && '{' !in tail
  {
    var h1, h2 := "<a href=\"", "\" target=\"_blank\">";
    head, tail := h1 + url + h2, "</a>";
    forall x | 0 <= x < |head| ensures head[x] != '{' {
      if x < |h1| {
        assert head[x] == h1[x];
      } else if x < |h1| + |url| {
        assert head[x] == url[x - |h1|];
      } else {
        assert head[x] == h2[x - |h1| - |url|];
      }
    }
  }

  /** The second entry replaces both copies of `{{LINK1}}`. */
  lemma NestedSecondEntry(x: string, head: string, tail: string, a2: string)
    requires x == head + (Key(1) + (tail + [' '] + Key(1)))
    requires '{' !in head && '{' !in tail
    ensures ReplaceAll(x, Key(1), a2) == head + a2 + tail + [' '] + a2
  {
    var mid := tail + [' '];
    assert '{' !in mid;
    RaLeadingAfter(x, head, mid, a2);
    RaTrailingKey(mid, a2);
    RegroupTwice(ReplaceAll(x, Key(1), a2), head, a2, mid, tail);
  }

  /** `{{LINK1}}` right after a text without `{` is replaced there. */
  lemma RaLeadingAfter(x: string, head: string, mid: string, a2: string)
    requires x == head + (Key(1) + (mid + Key(1)))
    requires '{' !in head
    ensures ReplaceAll(x, Key(1), a2) == head + (a2 + ReplaceAll(mid + Key(1), Key(1), a2))
  {
    ReplaceOwnKey(head, 1, mid + Key(1), a2);
    NoBraceNoKey(head, 1, a2);
  }

  lemma RegroupTwice(y: string, head: string, a2: string, mid: string, tail: string)
    requires y == head + (a2 + (mid + a2)) && mid == tail + [' ']
    ensures y == head + a2 + tail + [' '] + a2
  {
  }

  /** A trailing placeholder after a text without `{` is replaced. */
  lemma RaTrailingKey(mid: string, a2: string)
    requires '{' !in mid
    ensures ReplaceAll(mid + Key(1), Key(1), a2) == mid + a2
  {
    var k1 := Key(1);
    assert mid + k1 == mid + (k1 + []);
    ReplaceOwnKey(mid, 1, [], a2);
    NoBraceNoKey(mid, 1, a2);
    assert ReplaceAll([], k1, a2) == [];
  }
}
