/**
 * The home page's search (src/pages/Home.jsx, `filteredArticles`): an article
 * is kept when its lower-cased title or lower-cased content contains the
 * lower-cased search term. Lower-casing is modelled on ASCII letters.
 */
module Home {
  import opened DocumentStore
  import opened ArticleService

  /** `toLowerCase` on one character: ASCII capitals become small letters. */
  function LowerChar(c: char): (r: char) {
    if 'A' <= c <= 'Z' then (c as int - 'A' as int + 'a' as int) as char else c
  }

  /** `toLowerCase` on a string, character by character. */
  function Lower(s: string): (r: string)
    ensures |r| == |s|
    ensures forall i :: 0 <= i < |s| ==> r[i] == LowerChar(s[i])
  {
    seq(|s|, i requires 0 <= i < |s| => LowerChar(s[i]))
  }

  /** Lower-casing twice is lower-casing once. */
  lemma LowerIdempotent(s: string)
    ensures Lower(Lower(s)) == Lower(s)
  {
    assert forall i :: 0 <= i < |s| ==> Lower(Lower(s))[i] == Lower(s)[i];
  }

  /** `s.includes(t)`: `t` occurs in `s` as a contiguous piece. */
  predicate Includes(s: string, t: string)
    decreases |s|
  {
    t <= s || (|s| > 0 && Includes(s[1..], t))
  }

  /** `Includes` says that `t` starts at some position of `s`. */
  lemma {:induction false} IncludesAt(s: string, t: string)
    ensures Includes(s, t) <==> exists k :: 0 <= k <= |s| && t <= s[k..]
    decreases |s|
  {
    assert s[0..] == s;
    if |s| > 0 {
      IncludesAt(s[1..], t);
      if Includes(s[1..], t) {
        var k :| 0 <= k <= |s[1..]| && t <= s[1..][k..];
        assert s[1..][k..] == s[k + 1..];
      }
      if exists k :: 0 <= k <= |s| && t <= s[k..] {
        var k :| 0 <= k <= |s| && t <= s[k..];
        if k > 0 {
          assert s[k..] == s[1..][k - 1..];
        }
      }
    }
  }

  /** Every string includes the empty string. */
  lemma IncludesEmpty(s: string)
    ensures Includes(s, "")
  {
  }

  /** A piece of a piece of `s` is a piece of `s`. */
  lemma IncludesTransitive(s: string, m: string, t: string)
    requires Includes(s, m) && Includes(m, t)
    ensures Includes(s, t)
  {
    IncludesAt(s, m);
    IncludesAt(m, t);
    var i :| 0 <= i <= |s| && m <= s[i..];
    var j :| 0 <= j <= |m| && t <= m[j..];
    assert t <= s[i + j..] by {
      assert forall k :: 0 <= k < |t| ==> t[k] == m[j + k] == s[i + j + k];
    }
    IncludesAt(s, t);
  }

  /** Lower-casing keeps an inclusion. */
  lemma LowerKeepsIncludes(s: string, t: string)
    requires Includes(s, t)
    ensures Includes(Lower(s), Lower(t))
  {
    IncludesAt(s, t);
    var k :| 0 <= k <= |s| && t <= s[k..];
    forall i | 0 <= i < |t|
      ensures Lower(t)[i] == Lower(s)[k..][i]
    {
      assert t[i] == s[k..][i] == s[k + i];
    }
    assert Lower(t) <= Lower(s)[k..];
    IncludesAt(Lower(s), Lower(t));
  }

  /** The filter's test for one article. */
  predicate MatchesSearch(a: Article, term: string) {
    Includes(Lower(a.title), Lower(term)) || Includes(Lower(a.content), Lower(term))
  }

  /** `r` is `s` with some elements left out, the rest in their order. */
  ghost predicate Subsequence<T>(r: seq<T>, s: seq<T>)
    decreases |s|
  {
    r == [] || (s != [] && ((r[0] == s[0] && Subsequence(r[1..], s[1..])) || Subsequence(r, s[1..])))
  }

  /** `filteredArticles`: the fetched articles that match the search term, in their order. */
  function FilterArticles(articles: seq<Doc<Article>>, term: string): (r: seq<Doc<Article>>)
    ensures forall d :: d in r <==> d in articles && MatchesSearch(d.data, term)
    ensures Subsequence(r, articles)
  {
    if articles == [] then []
    else
      var rest := FilterArticles(articles[1..], term);
      assert articles == [articles[0]] + articles[1..];
      if MatchesSearch(articles[0].data, term) then [articles[0]] + rest
      else
        assert rest == [] || rest[0] != articles[0] by {
          if rest != [] {
            assert rest[0] in rest;
          }
        }
        rest
  }

  /** An empty search keeps every article. */
  lemma {:induction false} EmptyTermKeepsAll(articles: seq<Doc<Article>>)
    ensures FilterArticles(articles, "") == articles
  {
    if articles != [] {
      EmptyTermKeepsAll(articles[1..]);
      assert Lower("") == "";
      IncludesEmpty(Lower(articles[0].data.title));
    }
  }

  /** The result depends on the term only through its lower-cased form. */
  lemma {:induction false} FilterIgnoresCase(articles: seq<Doc<Article>>, term: string, other: string)
    requires Lower(term) == Lower(other)
    ensures FilterArticles(articles, term) == FilterArticles(articles, other)
  {
    if articles != [] {
      FilterIgnoresCase(articles[1..], term, other);
    }
  }

  /** Searching for a term or for its lower-cased form gives the same articles. */
  lemma FilterSameForLowerTerm(articles: seq<Doc<Article>>, term: string)
    ensures FilterArticles(articles, Lower(term)) == FilterArticles(articles, term)
  {
    LowerIdempotent(term);
    FilterIgnoresCase(articles, Lower(term), term);
  }

  /** Filtering a second time with the same term changes nothing. */
  lemma {:induction false} FilterIdempotent(articles: seq<Doc<Article>>, term: string)
    ensures FilterArticles(FilterArticles(articles, term), term) == FilterArticles(articles, term)
  {
    if articles != [] {
      FilterIdempotent(articles[1..], term);
    }
  }

  /** A longer term that contains the shorter one keeps no article the shorter one drops. */
  lemma NarrowerTerm(articles: seq<Doc<Article>>, term: string, longer: string)
    requires Includes(longer, term)
    ensures forall d :: d in FilterArticles(articles, longer) ==> d in FilterArticles(articles, term)
  {
    LowerKeepsIncludes(longer, term);
    forall d | d in FilterArticles(articles, longer)
      ensures MatchesSearch(d.data, term)
    {
      if Includes(Lower(d.data.title), Lower(longer)) {
        IncludesTransitive(Lower(d.data.title), Lower(longer), Lower(term));
      } else {
        IncludesTransitive(Lower(d.data.content), Lower(longer), Lower(term));
      }
    }
  }
}
