/**
 * display_articles: run the pipeline and turn its records into one HTML page,
 * a header followed by one card per record, or a fixed notice when there are
 * none. The markup of a card is left to a function of the record.
 */
module Display {
  import opened Wrappers
  import opened Strings
  import opened Pipeline

  const NoArticlesNotice: string :=
    "<h3 style=\"text-align: center; color: red;\">No articles found. Please try again later.</h3>"

  const Header: string :=
    "<div style=\"text-align: center; padding: 20px; background-color: #f0f2f5; border-radius: 10px;\">\n"
    + "                        <h1 style=\"font-size: 2.2em; margin-bottom: 10px; color: #1a73e8;\">BBC News Summaries</h1>\n"
    + "                    </div>"

  /** One card per article, in list order. */
  function Cards(articles: seq<Article>, card: Article -> string): seq<string>
  {
    seq(|articles|, k requires 0 <= k < |articles| => card(articles[k]))
  }

  /** The page for a list of articles. */
  function Page(articles: seq<Article>, card: Article -> string): string
  {
    if articles == [] then NoArticlesNotice else Header + Concat(Cards(articles, card))
  }

  /** The rendering half of display_articles: collect the header and the cards, then join them. */
  method Render(articles: seq<Article>, card: Article -> string) returns (html: string)
    ensures html == Page(articles, card)
  {
    if articles == [] {
      html := NoArticlesNotice;
      return;
    }
    var htmlContent := [Header];
    for i := 0 to |articles|
      invariant htmlContent == [Header] + Cards(articles[..i], card)
    {
      var articleCard := card(articles[i]);
      htmlContent := htmlContent + [articleCard];
      assert Cards(articles[..i + 1], card) == Cards(articles[..i], card) + [articleCard];
    }
    assert articles[..|articles|] == articles;
    assert htmlContent[1..] == Cards(articles, card);
    html := Concat(htmlContent);
  }

  /**
   * display_articles: the page for the pipeline's articles; the exception a
   * failing listing parse raises propagates.
   */
  method DisplayArticles(o: Oracles, card: Article -> string) returns (r: Result<string, Failure>)
    ensures News(o).Err? ==> r == Err(News(o).error)
    ensures News(o).Ok? ==> r == Ok(Page(News(o).value, card))
  {
    var articles, _ := FetchNews(o);
    if articles.Err? {
      r := Err(articles.error);
      return;
    }
    var html := Render(articles.value, card);
    r := Ok(html);
  }

  /** The notice is shown exactly when there are no articles. */
  lemma PageIsNoticeIff(articles: seq<Article>, card: Article -> string)
    ensures Page(articles, card) == NoArticlesNotice <==> articles == []
  {
    if articles != [] {
      assert |Page(articles, card)| >= |Header| > |NoArticlesNotice|;
    }
  }

  /**
   * A non-empty page starts with the header, has exactly one card per
   * article, and card `k` stands right after the header and the cards of
   * the articles before it.
   */
  lemma PageShowsEachCardInOrder(articles: seq<Article>, card: Article -> string, k: nat)
    requires k < |articles|
    ensures var page := Page(articles, card);
            var start := |Header| + |Concat(Cards(articles[..k], card))|;
            && |Cards(articles, card)| == |articles|
            && page[..|Header|] == Header
            && start + |card(articles[k])| <= |page|
            && page[start..start + |card(articles[k])|] == card(articles[k])
  {
    var cards := Cards(articles, card);
    ConcatSplit(cards, k);
    assert cards[..k] == Cards(articles[..k], card);
    var page := Page(articles, card);
    var before := Concat(Cards(articles[..k], card));
    assert page == (Header + before) + card(articles[k]) + Concat(cards[k + 1..]);
  }
}
