/**
 * slugify(name) = re.sub(r"[^a-z0-9]+", "-", name.strip().lower()).strip("-"),
 * over ASCII text: lower() maps only A-Z, and strip() removes the ASCII
 * characters Python counts as whitespace.
 */
module Slug {

  /** The ASCII characters str.strip() removes by default. */
  const Whitespace: set<char> :=
    {' ', '\t', '\n', '\r', '\U{0B}', '\U{0C}', '\U{1C}', '\U{1D}', '\U{1E}', '\U{1F}'}

  /** The characters the pattern [^a-z0-9] does NOT match. */
  predicate IsAlnum(c: char) {
    ('a' <= c <= 'z') || ('0' <= c <= '9')
  }

  predicate IsSlugChar(c: char) {
    IsAlnum(c) || c == '-'
  }

  /** No two adjacent dashes. */
  ghost predicate NoDoubleDash(s: string) {
    forall i :: 0 <= i < |s| - 1 ==> !(s[i] == '-' && s[i + 1] == '-')
  }

  /** Only [a-z0-9-], no leading or trailing dash, no doubled dash. */
  ghost predicate IsSlug(s: string) {
    && (forall i :: 0 <= i < |s| ==> IsSlugChar(s[i]))
    && (|s| > 0 ==> s[0] != '-' && s[|s| - 1] != '-')
    && NoDoubleDash(s)
  }

  /** str.lstrip(chars). */
  function LStrip(s: string, cs: set<char>): (r: string)
    ensures |r| <= |s| && r == s[|s| - |r|..]
    ensures forall k :: 0 <= k < |s| - |r| ==> s[k] in cs
    ensures r == [] || r[0] !in cs
  {
    if s != [] && s[0] in cs then LStrip(s[1..], cs) else s
  }

  /** str.rstrip(chars). */
  function RStrip(s: string, cs: set<char>): (r: string)
    ensures |r| <= |s| && r == s[..|r|]
    ensures forall k :: |r| <= k < |s| ==> s[k] in cs
    ensures r == [] || r[|r| - 1] !in cs
  {
    if s != [] && s[|s| - 1] in cs then RStrip(s[..|s| - 1], cs) else s
  }

  /** str.strip(chars): both ends. The result is the slice s[a..a + |r|]; all
      that is cut off on either side is in `cs`, and neither end of the result is. */
  function Strip(s: string, cs: set<char>): (r: string)
    ensures exists a :: StrippedAt(s, cs, a, r)
    ensures r == [] || (r[0] !in cs && r[|r| - 1] !in cs)
  {
    var t := LStrip(s, cs);
    var r := RStrip(t, cs);
    assert r != [] ==> r[0] == t[0];
    SliceStripped(s, cs, t, r);
    r
  }

  /** Cutting a prefix of `cs` characters and then a suffix of them leaves a
      slice with only `cs` characters around it. */
  lemma SliceStripped(s: string, cs: set<char>, t: string, r: string)
    requires |t| <= |s| && t == s[|s| - |t|..] && forall k :: 0 <= k < |s| - |t| ==> s[k] in cs
    requires |r| <= |t| && r == t[..|r|] && forall k :: |r| <= k < |t| ==> t[k] in cs
    ensures StrippedAt(s, cs, |s| - |t|, r)
  {
    var a := |s| - |t|;
    assert r == s[a..a + |r|];
    forall k | a + |r| <= k < |s|
      ensures s[k] in cs
    {
      assert s[k] == t[k - a];
    }
  }

  /** `r` is the slice of `s` starting at `a`, and everything outside that slice is in `cs`. */
  ghost predicate StrippedAt(s: string, cs: set<char>, a: int, r: string) {
    && 0 <= a && a + |r| <= |s| && r == s[a..a + |r|]
    && (forall k :: 0 <= k < a ==> s[k] in cs)
    && (forall k :: a + |r| <= k < |s| ==> s[k] in cs)
  }

  /** str.lower() on ASCII letters. */
  function Lower(s: string): (r: string)
    ensures |r| == |s|
    ensures forall i :: 0 <= i < |s| ==> !('A' <= r[i] <= 'Z')
    ensures forall i :: 0 <= i < |s| && 'A' <= s[i] <= 'Z' ==> 'a' <= r[i] <= 'z' && r[i] as int - s[i] as int == 32
    ensures forall i :: 0 <= i < |s| && !('A' <= s[i] <= 'Z') ==> r[i] == s[i]
  {
    seq(|s|, i requires 0 <= i < |s| =>
      if 'A' <= s[i] <= 'Z' then (s[i] as int - 'A' as int + 'a' as int) as char else s[i])
  }

  /** Drops the run of characters [^a-z0-9] at the front. */
  function SkipRun(s: string): (r: string)
    ensures |r| <= |s| && r == s[|s| - |r|..]
    ensures forall k :: 0 <= k < |s| - |r| ==> !IsAlnum(s[k])
    ensures r == [] || IsAlnum(r[0])
  {
    if s != [] && !IsAlnum(s[0]) then
      var r := SkipRun(s[1..]);
      SkipRunStep(s, r);
      r
    else s
  }

  /** Skipping one more leading non-alphanumeric keeps SkipRun's contract. */
  lemma SkipRunStep(s: string, r: string)
    requires s != [] && !IsAlnum(s[0])
    requires |r| <= |s| - 1 && r == s[1..][|s| - 1 - |r|..]
    requires forall k :: 0 <= k < |s| - 1 - |r| ==> !IsAlnum(s[1..][k])
    ensures r == s[|s| - |r|..]
    ensures forall k :: 0 <= k < |s| - |r| ==> !IsAlnum(s[k])
  {
    assert s[1..][|s| - 1 - |r|..] == s[|s| - |r|..];
    forall k | 0 < k < |s| - |r| ensures !IsAlnum(s[k]) {
      assert s[k] == s[1..][k - 1];
    }
  }

  /** re.sub(r"[^a-z0-9]+", "-", s): every maximal run of other characters
      becomes a single dash. */
  function Collapse(s: string): (r: string)
    ensures forall i :: 0 <= i < |r| ==> IsSlugChar(r[i])
    ensures NoDoubleDash(r)
    ensures s != [] && IsAlnum(s[0]) ==> r != [] && r[0] == s[0]
    decreases |s|
  {
    if s == [] then []
    else if IsAlnum(s[0]) then [s[0]] + Collapse(s[1..])
    else
      var t := SkipRun(s);
      assert |t| < |s| by { assert t != s; }
      "-" + Collapse(t)
  }

  /** slugify(name). */
  function Slugify(name: string): (r: string)
    ensures IsSlug(r)
  {
    var c := Collapse(Lower(Strip(name, Whitespace)));
    var r := Strip(c, {'-'});
    SubstringKeepsSlugChars(c, LStrip(c, {'-'}), r);
    r
  }

  /** Cutting both ends of a dash-collapsed string keeps its alphabet and keeps
      dashes single. */
  lemma SubstringKeepsSlugChars(c: string, t: string, r: string)
    requires forall i :: 0 <= i < |c| ==> IsSlugChar(c[i])
    requires NoDoubleDash(c)
    requires |t| <= |c| && t == c[|c| - |t|..]
    requires |r| <= |t| && r == t[..|r|]
    ensures forall i :: 0 <= i < |r| ==> IsSlugChar(r[i])
    ensures NoDoubleDash(r)
  {
    var off := |c| - |t|;
    assert forall i :: 0 <= i < |r| ==> r[i] == c[off + i];
  }

  lemma {:induction false} CollapseFixed(t: string)
    requires forall i :: 0 <= i < |t| ==> IsSlugChar(t[i])
    requires NoDoubleDash(t)
    ensures Collapse(t) == t
  {
    if t != [] {
      assert NoDoubleDash(t[1..]);
      CollapseFixed(t[1..]);
      if !IsAlnum(t[0]) {
        assert SkipRun(t) == t[1..] by {
          if |t| > 1 {
            assert t[1] != '-';
            assert SkipRun(t[1..]) == t[1..];
          }
        }
      }
    }
  }

  /** Stripping a string whose ends are not in `cs` changes nothing. */
  lemma StripFixed(t: string, cs: set<char>)
    requires t == [] || (t[0] !in cs && t[|t| - 1] !in cs)
    ensures Strip(t, cs) == t
  {
    assert LStrip(t, cs) == t;
    assert RStrip(t, cs) == t;
  }

  lemma LowerFixed(t: string)
    requires forall i :: 0 <= i < |t| ==> IsSlugChar(t[i])
    ensures Lower(t) == t
  {
    forall i | 0 <= i < |t| ensures Lower(t)[i] == t[i] {
      assert IsSlugChar(t[i]);
    }
  }

  /** A slug is left unchanged by slugify. */
  lemma SlugifyFixed(t: string)
    requires IsSlug(t)
    ensures Slugify(t) == t
  {
    StripFixed(t, Whitespace);
    LowerFixed(t);
    CollapseFixed(t);
    StripFixed(t, {'-'});
  }

  /** slugify is idempotent. */
  lemma SlugifyIdempotent(name: string)
    ensures Slugify(Slugify(name)) == Slugify(name)
  {
    SlugifyFixed(Slugify(name));
  }

  /** A non-empty run of [a-z0-9]. */
  ghost predicate IsWord(w: string) {
    w != [] && forall i :: 0 <= i < |w| ==> IsAlnum(w[i])
  }

  /** The longest prefix made of [a-z0-9]. */
  function Word(s: string): (w: string)
    ensures |w| <= |s| && w == s[..|w|]
    ensures forall i :: 0 <= i < |w| ==> IsAlnum(w[i])
    ensures |w| == |s| || !IsAlnum(s[|w|])
  {
    if s != [] && IsAlnum(s[0]) then [s[0]] + Word(s[1..]) else []
  }

  /** The maximal runs of [a-z0-9] in `s`, left to right. */
  function Words(s: string): (ws: seq<string>)
    ensures forall k :: 0 <= k < |ws| ==> IsWord(ws[k])
    decreases |s|
  {
    if s == [] then []
    else if !IsAlnum(s[0]) then Words(s[1..])
    else
      var w := Word(s);
      [w] + Words(s[|w|..])
  }

  /** "-".join(ws) */
  function Join(ws: seq<string>): string
  {
    if ws == [] then [] else if |ws| == 1 then ws[0] else ws[0] + "-" + Join(ws[1..])
  }

  /** Joined words neither start nor end with a dash, and are empty only
      when there are no words. */
  lemma {:induction false} JoinEnds(ws: seq<string>)
    requires forall k :: 0 <= k < |ws| ==> IsWord(ws[k])
    ensures Join(ws) == [] <==> ws == []
    ensures Join(ws) != [] ==> IsAlnum(Join(ws)[0]) && IsAlnum(Join(ws)[|Join(ws)| - 1])
  {
    if |ws| > 1 {
      JoinEnds(ws[1..]);
    }
  }

  /** Characters [^a-z0-9] in front do not change the words. */
  lemma {:induction false} WordsSkip(s: string)
    ensures Words(SkipRun(s)) == Words(s)
  {
    if s != [] && !IsAlnum(s[0]) {
      WordsSkip(s[1..]);
    }
  }

  /** The substitution copies a leading run of [a-z0-9] unchanged. */
  lemma {:induction false} CollapseAlnumPrefix(w: string, rest: string)
    requires forall i :: 0 <= i < |w| ==> IsAlnum(w[i])
    ensures Collapse(w + rest) == w + Collapse(rest)
  {
    if w == [] {
      assert w + rest == rest;
    } else {
      assert (w + rest)[1..] == w[1..] + rest;
      CollapseAlnumPrefix(w[1..], rest);
    }
  }

  /** The dash the substitution leaves at the end of a string that ends with
      characters other than [a-z0-9]. */
  function Trail(s: string): string {
    if s != [] && !IsAlnum(s[|s| - 1]) then "-" else ""
  }

  /** After the substitution, a string starting with [a-z0-9] is its words
      joined by dashes, plus one trailing dash if it ended with other characters. */
  lemma {:induction false} CollapseWords(s: string)
    requires s == [] || IsAlnum(s[0])
    ensures Collapse(s) == Join(Words(s)) + Trail(s)
    decreases |s|, 1
  {
    if s != [] {
      var w := Word(s);
      var rest := s[|w|..];
      assert s == w + rest;
      CollapseAlnumPrefix(w, rest);
      assert Words(s) == [w] + Words(rest);
      if rest == [] {
        assert Join(Words(s)) == w && Trail(s) == "";
        assert Collapse(s) == w + [];
      } else {
        TrailSuffix(s, rest);
        var u := SkipRun(rest);
        WordsSkip(rest);
        if u == [] {
          WordThenSeparators(w, rest);
        } else {
          WordThenWords(w, rest);
        }
      }
    }
  }

  /** A word followed only by separators collapses to the word and one dash. */
  lemma WordThenSeparators(w: string, rest: string)
    requires w != [] && rest != [] && SkipRun(rest) == []
    ensures w + Collapse(rest) == Join([w] + Words(rest)) + Trail(rest)
  {
    assert Collapse(rest) == "-" + Collapse([]);
    WordsSkip(rest);
    assert Words(rest) == [];
    assert [w] + Words(rest) == [w];
    assert Trail(rest) == "-";
  }

  /** A word, a run of separators and then more words collapse to the word, one
      dash and the collapsed remainder. */
  lemma {:induction false} WordThenWords(w: string, rest: string)
    requires rest != [] && !IsAlnum(rest[0]) && SkipRun(rest) != []
    ensures w + Collapse(rest) == Join([w] + Words(rest)) + Trail(rest)
    decreases |w| + |rest|, 0
  {
    var u := SkipRun(rest);
    assert Collapse(rest) == "-" + Collapse(u);
    WordsSkip(rest);
    CollapseWords(u);
    var ws := Words(u);
    var j, tr := Join(ws), Trail(u);
    assert ws != [];
    JoinCons(w, ws);
    TrailSuffix(rest, u);
    Regroup(w, "-", j, tr);
  }

  lemma JoinCons(w: string, ws: seq<string>)
    requires ws != []
    ensures Join([w] + ws) == w + "-" + Join(ws)
  {
    assert ([w] + ws)[1..] == ws;
  }

  lemma TrailSuffix(s: string, u: string)
    requires u != [] && |u| <= |s| && u == s[|s| - |u|..]
    ensures Trail(s) == Trail(u)
  {
    assert s[|s| - 1] == u[|u| - 1];
  }

  lemma Regroup(p: string, q: string, r: string, t: string)
    ensures p + (q + (r + t)) == p + q + r + t
  {
  }

  lemma Regroup3(p: string, q: string, r: string)
    ensures p + (q + r) == p + q + r
  {
  }

  /** Stripping `cs` from a string whose middle part has ends outside `cs`
      and whose outer parts are all in `cs` leaves the middle part. */
  lemma StripAround(pre: string, mid: string, post: string, cs: set<char>)
    requires forall i :: 0 <= i < |pre| ==> pre[i] in cs
    requires forall i :: 0 <= i < |post| ==> post[i] in cs
    requires mid == [] || (mid[0] !in cs && mid[|mid| - 1] !in cs)
    ensures Strip(pre + mid + post, cs) == mid
  {
    var s := pre + mid + post;
    var r := Strip(s, cs);
    var a :| StrippedAt(s, cs, a, r);
    assert forall k :: 0 <= k < |pre| ==> s[k] == pre[k];
    assert forall k :: |pre| + |mid| <= k < |s| ==> s[k] == post[k - |pre| - |mid|];
    if mid != [] {
      assert s[|pre|] == mid[0];
      assert s[|pre| + |mid| - 1] == mid[|mid| - 1];
      assert a == |pre| && a + |r| == |pre| + |mid|;
    }
  }

  /** The dash a leading run of separators becomes. */
  function Lead(s: string): string {
    if s != [] && !IsAlnum(s[0]) then "-" else ""
  }

  /** The dash a trailing run of separators becomes, unless the leading run
      already took all of `s`. */
  function EndDash(s: string): string {
    if SkipRun(s) == [] then "" else Trail(s)
  }

  /** The substitution's output: an optional dash, the words joined by dashes,
      an optional dash. */
  lemma CollapseShape(s: string)
    ensures Collapse(s) == Lead(s) + Join(Words(s)) + EndDash(s)
  {
    if s == [] {
    } else if IsAlnum(s[0]) {
      CollapseShapeWord(s);
    } else {
      CollapseShapeRun(s);
    }
  }

  /** CollapseShape for a string that starts with [a-z0-9]. */
  lemma CollapseShapeWord(s: string)
    requires s != [] && IsAlnum(s[0])
    ensures Collapse(s) == "" + Join(Words(s)) + EndDash(s)
  {
    CollapseWords(s);
    assert SkipRun(s) == s;
    assert EndDash(s) == Trail(s);
    Rejoin(Collapse(s), Join(Words(s)), Trail(s), EndDash(s));
  }

  lemma Rejoin(c: string, j: string, t: string, e: string)
    requires c == j + t && e == t
    ensures c == "" + j + e
  {
  }

  /** CollapseShape for a string that starts with a separator. */
  lemma CollapseShapeRun(s: string)
    requires s != [] && !IsAlnum(s[0])
    ensures Collapse(s) == "-" + Join(Words(s)) + EndDash(s)
  {
    var u := SkipRun(s);
    WordsSkip(s);
    assert Collapse(s) == "-" + Collapse(u);
    if u == [] {
      assert Words(s) == [] && EndDash(s) == "";
    } else {
      CollapseWords(u);
      TrailSuffix(s, u);
      assert EndDash(s) == Trail(u);
      Regroup3("-", Join(Words(u)), Trail(u));
    }
  }

  /** The substitution followed by strip("-") joins the words with single dashes. */
  lemma CollapseStripJoins(s: string)
    ensures Strip(Collapse(s), {'-'}) == Join(Words(s))
  {
    CollapseShape(s);
    JoinEnds(Words(s));
    StripAround(Lead(s), Join(Words(s)), EndDash(s), {'-'});
  }

  /** The slug is the words of the lower-cased, stripped name joined by single
      dashes. */
  lemma SlugifyJoinsWords(name: string)
    ensures Slugify(name) == Join(Words(Lower(Strip(name, Whitespace))))
  {
    CollapseStripJoins(Lower(Strip(name, Whitespace)));
  }

  /** Characters [^a-z0-9] in front of a string add no word. */
  lemma {:induction false} WordsNonAlnumPrefix(x: string, m: string)
    requires forall i :: 0 <= i < |x| ==> !IsAlnum(x[i])
    ensures Words(x + m) == Words(m)
  {
    if x == [] {
      assert x + m == m;
    } else {
      assert (x + m)[1..] == x[1..] + m;
      WordsNonAlnumPrefix(x[1..], m);
    }
  }

  /** A separator after `m` does not lengthen its first word. */
  lemma {:induction false} WordAppendSep(m: string, z: string)
    requires z == [] || !IsAlnum(z[0])
    ensures Word(m + z) == Word(m)
  {
    if m == [] {
      assert m + z == z;
    } else if IsAlnum(m[0]) {
      assert (m + z)[1..] == m[1..] + z;
      WordAppendSep(m[1..], z);
    }
  }

  /** Characters [^a-z0-9] after a string add no word. */
  lemma {:induction false} WordsNonAlnumSuffix(m: string, z: string)
    requires forall i :: 0 <= i < |z| ==> !IsAlnum(z[i])
    ensures Words(m + z) == Words(m)
    decreases |m|
  {
    if m == [] {
      assert m + z == z && z == z + [];
      WordsNonAlnumPrefix(z, []);
    } else if !IsAlnum(m[0]) {
      assert (m + z)[1..] == m[1..] + z;
      WordsNonAlnumSuffix(m[1..], z);
    } else {
      WordAppendSep(m, z);
      var w := Word(m);
      assert (m + z)[|w|..] == m[|w|..] + z;
      WordsNonAlnumSuffix(m[|w|..], z);
    }
  }

  lemma LowerAppend(p: string, q: string)
    ensures Lower(p + q) == Lower(p) + Lower(q)
  {
  }

  /** Lower-casing characters that are neither letters nor digits yields no
      character of [a-z0-9]. */
  lemma LowerKeepsSeparators(x: string, cs: set<char>)
    requires forall c :: c in cs ==> !IsAlnum(c) && !('A' <= c <= 'Z')
    requires forall i :: 0 <= i < |x| ==> x[i] in cs
    ensures forall i :: 0 <= i < |Lower(x)| ==> !IsAlnum(Lower(x)[i])
  {
  }

  lemma WhitespaceIsSeparator()
    ensures forall c :: c in Whitespace ==> !IsAlnum(c) && !('A' <= c <= 'Z')
  {
  }

  /** Stripping whitespace before lower-casing changes no word. */
  lemma WordsIgnoreWhitespace(name: string)
    ensures Words(Lower(Strip(name, Whitespace))) == Words(Lower(name))
  {
    var r := Strip(name, Whitespace);
    var a :| StrippedAt(name, Whitespace, a, r);
    WhitespaceIsSeparator();
    WordsAroundSlice(name, Whitespace, a, r);
  }

  /** Cutting off separators around a slice changes no word of the lower-cased string. */
  lemma WordsAroundSlice(name: string, cs: set<char>, a: int, r: string)
    requires forall c :: c in cs ==> !IsAlnum(c) && !('A' <= c <= 'Z')
    requires StrippedAt(name, cs, a, r)
    ensures Words(Lower(r)) == Words(Lower(name))
  {
    var pre, post := name[..a], name[a + |r|..];
    assert name == pre + r + post;
    LowerAppend(pre + r, post);
    LowerAppend(pre, r);
    LowerKeepsSeparators(pre, cs);
    LowerKeepsSeparators(post, cs);
    var x, m, z := Lower(pre), Lower(r), Lower(post);
    WordsNonAlnumSuffix(m, z);
    Regroup3(x, m, z);
    WordsNonAlnumPrefix(x, m + z);
  }

  /** slugify(name) is "-".join of the [a-z0-9] runs of name.lower(). */
  lemma SlugifyWords(name: string)
    ensures Slugify(name) == Join(Words(Lower(name)))
  {
    SlugifyJoinsWords(name);
    WordsIgnoreWhitespace(name);
  }
}
