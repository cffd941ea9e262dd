/**
 The `articles` site helper: the resources of the Middleman sitemap whose
 path starts with "article", in sitemap order. A resource is modelled by
 its path alone, the only part of it the helper looks at.
 */
module SiteHelpers {

  datatype Resource = Resource(path: string)

  const ArticlePrefix: string := "article"

  /** Ruby's `path.start_with?("article")`: a plain prefix test, not a directory test. */
  predicate IsArticle(res: Resource): (b: bool)
    ensures b <==> |ArticlePrefix| <= |res.path| && res.path[..|ArticlePrefix|] == ArticlePrefix
  {
    ArticlePrefix <= res.path
  }

  /** `sitemap.resources.select { |res| res.path.start_with?("article") }` */
  function Articles(resources: seq<Resource>): (r: seq<Resource>)
    ensures |r| <= |resources|
    ensures forall res :: res in r <==> res in resources && IsArticle(res)
  {
    if |resources| == 0 then []
    else (if IsArticle(resources[0]) then [resources[0]] else []) + Articles(resources[1..])
  }

  /** Selecting from a concatenation selects from each part, in order: the order of the sitemap is kept. */
  lemma {:induction false} ArticlesAppend(a: seq<Resource>, b: seq<Resource>)
    ensures Articles(a + b) == Articles(a) + Articles(b)
  {
    if |a| == 0 {
      assert a + b == b;
    } else {
      assert (a + b)[1..] == a[1..] + b;
      ArticlesAppend(a[1..], b);
    }
  }

  /** Every article is kept as many times as it occurs; everything else is dropped. */
  lemma {:induction false} ArticlesCount(resources: seq<Resource>, res: Resource)
    ensures multiset(Articles(resources))[res] == if IsArticle(res) then multiset(resources)[res] else 0
  {
    if |resources| > 0 {
      ArticlesCount(resources[1..], res);
      assert resources == [resources[0]] + resources[1..];
    }
  }

  /** Selecting twice is selecting once. */
  lemma {:induction false} ArticlesIdempotent(resources: seq<Resource>)
    ensures Articles(Articles(resources)) == Articles(resources)
  {
    if |resources| > 0 {
      var head := if IsArticle(resources[0]) then [resources[0]] else [];
      ArticlesIdempotent(resources[1..]);
      ArticlesAppend(head, Articles(resources[1..]));
      if IsArticle(resources[0]) {
        assert Articles(head) == head;
      }
    }
  }

  /** A sitemap of articles only is returned whole. */
  lemma {:induction false} ArticlesOfArticles(resources: seq<Resource>)
    requires forall i :: 0 <= i < |resources| ==> IsArticle(resources[i])
    ensures Articles(resources) == resources
  {
    if |resources| > 0 {
      ArticlesOfArticles(resources[1..]);
      assert [resources[0]] + resources[1..] == resources;
    }
  }

  /** Pages outside "article…" are dropped, whatever directory they sit in; "articles-draft" is kept by the prefix test. */
  lemma ArticlesExample()
    ensures Articles([Resource("article/a.html"), Resource("about.html"), Resource("blog/article.html"), Resource("articles-draft.html")])
      == [Resource("article/a.html"), Resource("articles-draft.html")]
  {
    var s := [Resource("article/a.html"), Resource("about.html"), Resource("blog/article.html"), Resource("articles-draft.html")];
    assert s[1].path[1] != ArticlePrefix[1] && s[2].path[0] != ArticlePrefix[0];
    assert IsArticle(s[0]) && !IsArticle(s[1]) && !IsArticle(s[2]) && IsArticle(s[3]);
    assert s[1..][1..][1..][1..] == [];
  }
}
