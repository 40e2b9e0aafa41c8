/** String helpers with Python's meaning: whitespace as `str.isspace` and the
    regex class `\s` see it, `str.strip()`, decimal formatting of a count,
    and `str.replace`. */
module Text {

  /** Python's `str.isspace()`; the `\s` class of a `str` regular expression
      accepts exactly these characters. */
  predicate IsSpace(c: char) {
    || c == ' '
    || ('\t' <= c <= '\r')
    || ('\U{1c}' <= c <= '\U{1f}')
    || c == '\U{85}' || c == '\U{a0}' || c == '\U{1680}'
    || ('\U{2000}' <= c <= '\U{200a}')
    || c == '\U{2028}' || c == '\U{2029}' || c == '\U{202f}'
    || c == '\U{205f}' || c == '\U{3000}'
  }

  predicate IsDigit(c: char) {
    '0' <= c <= '9'
  }

  /** `p` occurs in `s` starting at index `q`. */
  predicate StartsWithAt(s: string, q: nat, p: string) {
    q + |p| <= |s| && s[q..q + |p|] == p
  }

  predicate StartsWith(s: string, p: string) {
    StartsWithAt(s, 0, p)
  }

  // ---------------------------------------------------------------------
  // str.strip()

  function TrimStart(s: string): (r: string)
    ensures |r| <= |s| && r == s[|s| - |r|..]
    ensures r != [] ==> !IsSpace(r[0])
    ensures forall i :: 0 <= i < |s| - |r| ==> IsSpace(s[i])
  {
    if s != [] && IsSpace(s[0]) then TrimStart(s[1..]) else s
  }

  function TrimEnd(s: string): (r: string)
    ensures |r| <= |s| && r == s[..|r|]
    ensures r != [] ==> !IsSpace(r[|r| - 1])
    ensures forall i :: |r| <= i < |s| ==> IsSpace(s[i])
  {
    if s != [] && IsSpace(s[|s| - 1]) then TrimEnd(s[..|s| - 1]) else s
  }

  /** `s.strip()`: the longest slice of `s` that neither starts nor ends with
      whitespace, obtained by removing only whitespace from both ends. */
  function Strip(s: string): (r: string)
    ensures exists a, b ::
              && 0 <= a <= b <= |s| && r == s[a..b]
              && (forall i :: 0 <= i < a ==> IsSpace(s[i]))
              && (forall i :: b <= i < |s| ==> IsSpace(s[i]))
    ensures r != [] ==> !IsSpace(r[0]) && !IsSpace(r[|r| - 1])
  {
    var t := TrimStart(s);
    var r := TrimEnd(t);
    assert r == s[|s| - |t|..|s| - |t| + |r|];
    r
  }

  lemma {:induction false} TrimStartNoLead(s: string)
    requires s == [] || !IsSpace(s[0])
    ensures TrimStart(s) == s
  {
  }

  lemma {:induction false} TrimEndNoTrail(s: string)
    requires s == [] || !IsSpace(s[|s| - 1])
    ensures TrimEnd(s) == s
  {
  }

  /** Stripping twice is stripping once. */
  lemma {:induction false} StripIdempotent(s: string)
    ensures Strip(Strip(s)) == Strip(s)
  {
    var r := Strip(s);
    TrimStartNoLead(r);
    TrimEndNoTrail(TrimStart(r));
  }

  // ---------------------------------------------------------------------
  // Decimal formatting of a count, as an f-string prints an int.

  function DigitChar(d: nat): (c: char)
    requires d < 10
    ensures IsDigit(c)
  {
    (('0' as int) + d) as char
  }

  function NatToString(n: nat): (r: string)
    ensures 1 <= |r|
    ensures |r| == 1 <==> n < 10
    ensures forall i :: 0 <= i < |r| ==> IsDigit(r[i])
    decreases n
  {
    if n < 10 then [DigitChar(n)] else NatToString(n / 10) + [DigitChar(n % 10)]
  }

  /** Distinct counts print as distinct strings. */
  lemma {:induction false} NatToStringInjective(m: nat, n: nat)
    requires NatToString(m) == NatToString(n)
    ensures m == n
    decreases n
  {
    if m >= 10 && n >= 10 {
      var sm, sn := NatToString(m), NatToString(n);
      assert sm[|sm| - 1] == DigitChar(m % 10);
      assert sn[|sn| - 1] == DigitChar(n % 10);
      assert NatToString(m / 10) == sm[..|sm| - 1];
      assert NatToString(n / 10) == sn[..|sn| - 1];
      NatToStringInjective(m / 10, n / 10);
    }
  }

  // ---------------------------------------------------------------------
  // str.replace(pat, repl): every non-overlapping occurrence of `pat`,
  // scanning left to right; an empty `pat` matches between all characters.

  function ReplaceAll(s: string, pat: string, repl: string): string
    decreases |s|
  {
    if pat == [] then
      if s == [] then repl else repl + [s[0]] + ReplaceAll(s[1..], pat, repl)
    else if s == [] then []
    else if StartsWithAt(s, 0, pat) then repl + ReplaceAll(s[|pat|..], pat, repl)
    else [s[0]] + ReplaceAll(s[1..], pat, repl)
  }

  /** `pat` occurs nowhere in `s`: replacing it changes nothing. */
  lemma {:induction false} ReplaceAllAbsent(s: string, pat: string, repl: string)
    requires pat != []
    requires forall i :: 0 <= i <= |s| ==> !StartsWithAt(s, i, pat)
    ensures ReplaceAll(s, pat, repl) == s
    decreases |s|
  {
    if s != [] {
      assert !StartsWithAt(s, 0, pat);
      forall i | 0 <= i <= |s[1..]| ensures !StartsWithAt(s[1..], i, pat) {
        assert !StartsWithAt(s, i + 1, pat);
      }
      ReplaceAllAbsent(s[1..], pat, repl);
    }
  }

  /** When no occurrence of `pat` straddles the boundary between `a` and `b`,
      replacing in `a + b` replaces in each part separately. */
  lemma {:induction false} ReplaceAllSplit(a: string, b: string, pat: string, repl: string)
    requires pat != []
    requires forall i :: 0 <= i < |a| < i + |pat| ==> !StartsWithAt(a + b, i, pat)
    ensures ReplaceAll(a + b, pat, repl) == ReplaceAll(a, pat, repl) + ReplaceAll(b, pat, repl)
    decreases |a|
  {
    var s := a + b;
    if a == [] {
      assert s == b;
    } else {
      var k := if StartsWithAt(s, 0, pat) then |pat| else 1;
      if StartsWithAt(s, 0, pat) {
        assert a[..|pat|] == s[..|pat|];
      }
      var a' := a[k..];
      assert s[k..] == a' + b;
      forall i | 0 <= i < |a'| < i + |pat| ensures !StartsWithAt(a' + b, i, pat) {
        StartsWithAtShift(s, k, i, pat);
      }
      ReplaceAllSplit(a', b, pat, repl);
      var head := if StartsWithAt(s, 0, pat) then repl else [s[0]];
      AppendAssoc(head, ReplaceAll(a', pat, repl), ReplaceAll(b, pat, repl));
    }
  }

  /** An occurrence begins with the pattern's first character. */
  lemma StartsWithAtHead(s: string, q: nat, p: string)
    requires p != []
    ensures StartsWithAt(s, q, p) ==> q < |s| && s[q] == p[0]
  {
    if StartsWithAt(s, q, p) {
      assert s[q..q + |p|][0] == s[q];
    }
  }

  /** An occurrence in a suffix is an occurrence in the whole. */
  lemma StartsWithAtShift(s: string, k: nat, i: nat, pat: string)
    requires k <= |s|
    ensures StartsWithAt(s[k..], i, pat) <==> StartsWithAt(s, k + i, pat)
  {
    if k + i + |pat| <= |s| {
      assert s[k..][i..i + |pat|] == s[k + i..k + i + |pat|];
    }
  }

  /** A prefix of a slice is a slice. */
  lemma SlicePrefix<T>(s: seq<T>, a: nat, b: nat, n: nat)
    requires a + n <= b <= |s|
    ensures s[a..b][..n] == s[a..a + n]
  {
  }

  lemma AppendAssoc<T>(a: seq<T>, b: seq<T>, c: seq<T>)
    ensures a + (b + c) == (a + b) + c
  {
  }

  /** Replacing a string in itself yields the replacement. */
  lemma ReplaceAllWhole(pat: string, repl: string)
    requires pat != []
    ensures ReplaceAll(pat, pat, repl) == repl
  {
    assert pat[|pat|..] == [];
  }
}
