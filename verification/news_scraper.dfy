/**
  Article-link extraction from a news front page. The parsed page is given as
  the sequence of its anchors, each a text (already stripped of surrounding
  whitespace) and an href; the extractor keeps the first ten anchors with a
  title and a link to the news site, making relative links absolute.
*/
module NewsScraper {

  /** An anchor tag of the page: its text and its href attribute. */
  datatype Anchor = Anchor(title: string, href: string)

  /** One extracted article: its title and its absolute link. */
  datatype Article = Article(title: string, link: string)

  /** The largest number of articles extracted. */
  const MaxArticles: nat := 10

  /** The text an href must contain to count as a link to the site. */
  const SiteMarker: string := "cnn.com"

  /** The origin put in front of links that do not start with `http`. */
  const SiteOrigin: string := "https://edition.cnn.com"

  /** `part` occurs in `s` starting at position `i`. */
  predicate OccursAt(s: string, part: string, i: nat) {
    i + |part| <= |s| && s[i..i + |part|] == part
  }

  /** `s` holds `part` as a contiguous piece. */
  predicate Contains(s: string, part: string) {
    exists i: nat | i <= |s| :: OccursAt(s, part, i)
  }

  /** An anchor yields an article when its title and href are non-empty and the href
      points to the site. */
  predicate Qualifies(a: Anchor) {
    a.title != [] && a.href != [] && Contains(a.href, SiteMarker)
  }

  /** The absolute form of an href: unchanged when it starts with `http`, otherwise
      prefixed with the site's origin. */
  function FullLink(href: string): string {
    if "http" <= href then href else SiteOrigin + href
  }

  function ToArticle(a: Anchor): Article {
    Article(a.title, FullLink(a.href))
  }

  /** The articles of every qualifying anchor, in document order. */
  function AllArticles(anchors: seq<Anchor>): seq<Article> {
    if anchors == [] then []
    else
      var n := |anchors| - 1;
      AllArticles(anchors[..n]) + (if Qualifies(anchors[n]) then [ToArticle(anchors[n])] else [])
  }

  /** The first `n` elements of `s`, or all of `s` when it is shorter. */
  function Take<T>(s: seq<T>, n: nat): (r: seq<T>)
    ensures |r| == if |s| < n then |s| else n
    ensures r <= s
  {
    if |s| <= n then s else s[..n]
  }

  /** Putting text in front of a string keeps every piece the string contains. */
  lemma ContainsAfterPrefix(prefix: string, s: string, part: string)
    ensures Contains(s, part) ==> Contains(prefix + s, part)
  {
    if Contains(s, part) {
      var i: nat :| i <= |s| && OccursAt(s, part, i);
      assert (prefix + s)[|prefix| + i..|prefix| + i + |part|] == s[i..i + |part|];
      assert OccursAt(prefix + s, part, |prefix| + i);
    }
  }

  /** Every full link is absolute (starts with `http`), ends with the href it was made
      from, and still points to the site when the href does. */
  lemma FullLinkIsAbsolute(href: string)
    ensures "http" <= FullLink(href)
    ensures var link := FullLink(href); |href| <= |link| && link[|link| - |href|..] == href
    ensures Contains(href, SiteMarker) ==> Contains(FullLink(href), SiteMarker)
  {
    ContainsAfterPrefix(SiteOrigin, href, SiteMarker);
  }

  /** Articles of consecutive stretches of anchors concatenate. */
  lemma {:induction false} AllArticlesAppend(a: seq<Anchor>, b: seq<Anchor>)
    ensures AllArticles(a + b) == AllArticles(a) + AllArticles(b)
    decreases |b|
  {
    if b != [] {
      var n := |b| - 1;
      assert (a + b)[..|a| + n] == a + b[..n];
      AllArticlesAppend(a, b[..n]);
    } else {
      assert a + b == a;
    }
  }

  /** A further anchor adds its article when it qualifies and contributes nothing when
      its title or href is empty or the href does not point to the site. */
  lemma AllArticlesSnoc(anchors: seq<Anchor>, a: Anchor)
    ensures Qualifies(a) ==> AllArticles(anchors + [a]) == AllArticles(anchors) + [ToArticle(a)]
    ensures !Qualifies(a) ==> AllArticles(anchors + [a]) == AllArticles(anchors)
  {
    assert (anchors + [a])[..|anchors|] == anchors;
  }

  /** Every qualifying anchor yields its article. */
  lemma {:induction false} QualifyingAnchorsYieldArticles(anchors: seq<Anchor>)
    ensures forall j :: 0 <= j < |anchors| && Qualifies(anchors[j]) ==> ToArticle(anchors[j]) in AllArticles(anchors)
    decreases |anchors|
  {
    if anchors != [] {
      var n := |anchors| - 1;
      QualifyingAnchorsYieldArticles(anchors[..n]);
      forall j | 0 <= j < n && Qualifies(anchors[j]) ensures ToArticle(anchors[j]) in AllArticles(anchors) {
        assert anchors[..n][j] == anchors[j];
      }
    }
  }

  /** Every article has a non-empty title and a link to the site, and comes from a
      qualifying anchor: its link is the anchor's href when that starts with `http`,
      and the site's origin followed by the href otherwise. */
  lemma {:induction false} AllArticlesFromQualifying(anchors: seq<Anchor>)
    ensures forall art :: art in AllArticles(anchors) ==>
              && art.title != []
              && Contains(art.link, SiteMarker)
              && exists j :: 0 <= j < |anchors| && Qualifies(anchors[j]) && art == ToArticle(anchors[j])
    decreases |anchors|
  {
    if anchors != [] {
      var n := |anchors| - 1;
      AllArticlesFromQualifying(anchors[..n]);
      forall art | art in AllArticles(anchors)
        ensures && art.title != []
                && Contains(art.link, SiteMarker)
                && exists j :: 0 <= j < |anchors| && Qualifies(anchors[j]) && art == ToArticle(anchors[j])
      {
        if art in AllArticles(anchors[..n]) {
          var j :| 0 <= j < n && Qualifies(anchors[..n][j]) && art == ToArticle(anchors[..n][j]);
          assert anchors[..n][j] == anchors[j];
        } else {
          var a := anchors[n];
          assert art == ToArticle(a);
          FullLinkIsAbsolute(a.href);
        }
      }
    }
  }

  /** The extraction loop: walk the anchors in document order, keep the qualifying ones,
      and stop as soon as ten articles are collected. */
  method ExtractArticles(anchors: seq<Anchor>) returns (articles: seq<Article>)
    ensures articles == Take(AllArticles(anchors), MaxArticles)
    ensures |articles| <= MaxArticles
    ensures forall art :: art in articles ==> art.title != [] && Contains(art.link, SiteMarker)
  {
    articles := [];
    var i := 0;
    while i < |anchors|
      invariant 0 <= i <= |anchors|
      invariant articles == AllArticles(anchors[..i])
      invariant |articles| < MaxArticles
    {
      var anchor := anchors[i];
      assert anchors[..i + 1] == anchors[..i] + [anchor];
      assert (anchors[..i] + [anchor])[..i] == anchors[..i];
      if Qualifies(anchor) {
        articles := articles + [ToArticle(anchor)];
      }
      i := i + 1;
      if |articles| >= MaxArticles {
        break;
      }
    }
    AllArticlesAppend(anchors[..i], anchors[i..]);
    assert anchors[..i] + anchors[i..] == anchors;
    AllArticlesFromQualifying(anchors);
  }
}
