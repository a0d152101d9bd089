/** The "Recent News" and "Market News" lists: the first five articles of a
    news feed, keeping in order those that have both a title and a link. */
module News {
  import opened Optional

  /** How many articles of a feed are looked at (`news[:5]`). */
  const MAX_ARTICLES: nat := 5

  /** A news article; `None` where the key is absent (`article.get(...)`). */
  datatype Article = Article(title: Option<string>, link: Option<string>)

  /** A rendered headline, `- [title](link)`. */
  datatype Headline = Headline(title: string, link: string)

  /** Python truthiness of the value of `article.get(key)`: present and not
      the empty string. */
  predicate Truthy(v: Option<string>) {
    v.Some? && v.value != ""
  }

  /** `if title and link`: both keys present with non-empty text. */
  predicate Listed(a: Article)
    ensures Listed(a) ==> a.title.Some? && a.link.Some? && |a.title.value| > 0 && |a.link.value| > 0
  {
    Truthy(a.title) && Truthy(a.link)
  }

  /** The headline rendered for a listed article: its own title and link. */
  function HeadlineOf(a: Article): (h: Headline)
    requires Listed(a)
    ensures Some(h.title) == a.title && Some(h.link) == a.link && h.title != "" && h.link != ""
  {
    Headline(a.title.value, a.link.value)
  }

  /** The headlines of the listed articles, in order. */
  function KeepListed(articles: seq<Article>): (r: seq<Headline>)
    ensures |r| <= |articles|
    ensures forall h :: h in r ==> h.title != "" && h.link != ""
  {
    if articles == [] then []
    else
      var head := if Listed(articles[0]) then [HeadlineOf(articles[0])] else [];
      head + KeepListed(articles[1..])
  }

  /** The headlines shown for a feed. */
  function RecentHeadlines(news: seq<Article>): (r: seq<Headline>)
    ensures |r| <= MAX_ARTICLES
  {
    KeepListed(if |news| <= MAX_ARTICLES then news else news[..MAX_ARTICLES])
  }

  /** Filtering keeps order: it distributes over concatenation. */
  lemma {:induction false} KeepListedAppend(a: seq<Article>, b: seq<Article>)
    ensures KeepListed(a + b) == KeepListed(a) + KeepListed(b)
    decreases |a|
  {
    if a == [] {
      assert a + b == b;
    } else {
      var ab := a + b;
      assert ab[0] == a[0];
      assert ab[1..] == a[1..] + b;
      KeepListedAppend(a[1..], b);
      var head := if Listed(a[0]) then [HeadlineOf(a[0])] else [];
      calc {
        KeepListed(ab);
        head + KeepListed(a[1..] + b);
        head + (KeepListed(a[1..]) + KeepListed(b));
        (head + KeepListed(a[1..])) + KeepListed(b);
      }
    }
  }

  /** A headline is kept exactly when it comes from an article of the feed
      that has both a title and a link. */
  lemma {:induction false} KeepListedMembers(articles: seq<Article>, h: Headline)
    ensures h in KeepListed(articles) <==>
      exists i :: 0 <= i < |articles| && Listed(articles[i]) && HeadlineOf(articles[i]) == h
    decreases |articles|
  {
    if articles != [] {
      var rest := articles[1..];
      KeepListedMembers(rest, h);
      if exists i :: 0 <= i < |rest| && Listed(rest[i]) && HeadlineOf(rest[i]) == h {
        var i :| 0 <= i < |rest| && Listed(rest[i]) && HeadlineOf(rest[i]) == h;
        assert articles[i + 1] == rest[i];
      }
      if exists i :: 0 <= i < |articles| && Listed(articles[i]) && HeadlineOf(articles[i]) == h {
        var i :| 0 <= i < |articles| && Listed(articles[i]) && HeadlineOf(articles[i]) == h;
        if i > 0 {
          assert rest[i - 1] == articles[i];
        }
      }
    }
  }

  /** Articles beyond the fifth never matter. */
  lemma RecentHeadlinesIgnoresTail(news: seq<Article>, more: seq<Article>)
    requires |news| >= MAX_ARTICLES
    ensures RecentHeadlines(news + more) == RecentHeadlines(news)
  {
    if more == [] {
      assert news + more == news;
    } else {
      assert (news + more)[..MAX_ARTICLES] == news[..MAX_ARTICLES];
    }
  }

  /** When every article of a feed has a title and a link, every one of them
      is kept, in order. */
  lemma {:induction false} AllListedShown(articles: seq<Article>)
    requires forall i :: 0 <= i < |articles| ==> Listed(articles[i])
    ensures |KeepListed(articles)| == |articles|
    ensures forall i :: 0 <= i < |articles| ==> KeepListed(articles)[i] == HeadlineOf(articles[i])
    decreases |articles|
  {
    if articles != [] {
      AllListedShown(articles[1..]);
    }
  }
}
