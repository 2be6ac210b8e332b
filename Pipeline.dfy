/**
 * fetch_bbc_news: fetch the listing, select the candidates, then process each
 * candidate in turn, dropping the ones whose fetch, parse or summary fails.
 * The network, the HTML parser, the summarisation model and the clock are
 * supplied as oracles.
 */
module Pipeline {
  import opened Wrappers
  import opened Seqs
  import opened Listing
  import opened Extraction

  type Url = string
  type Markup = string
  type Timestamp = string

  /** An HTTP response: its status code and its body. */
  datatype Response = Response(status: int, content: Markup)

  /** Why processing one candidate raised. */
  datatype Failure = NetworkError | ParseError | ModelError

  /** One summarised article, built only when every step for its candidate succeeded. */
  datatype Article = Article(title: string, summary: string, link: Url, timestamp: Timestamp)

  /**
   * The outside world. `getListing` is the listing GET, which always answers
   * with a status; `getArticle(i, url)` is the article GET with its timeout
   * sent for candidate `i`, which may fail, so that two GETs of one URL can
   * get different answers; `parse` is the HTML parser;
   * `summarize(text, maxLength, minLength)` is the model; `now(i)` is the
   * clock reading taken for candidate `i`.
   */
  datatype Oracles = Oracles(
    getListing: Url -> Response,
    getArticle: (nat, Url) -> Result<Response, Failure>,
    parse: Markup -> Result<Doc, Failure>,
    summarize: (string, nat, nat) -> Result<string, Failure>,
    now: nat -> Timestamp)

  const ListingUrl: Url := "https://www.bbc.com/news"
  const HttpOk: int := 200
  const SummaryMaxLength: nat := 200
  const SummaryMinLength: nat := 50

  /**
   * The guarded body of the loop for candidate `i`, fetched from `url`. The
   * status of the article response is not looked at: whatever body came back
   * is parsed.
   */
  function ProcessArticle(o: Oracles, i: nat, url: Url): Result<Article, Failure>
  {
    match o.getArticle(i, url)
    case Err(e) => Err(e)
    case Ok(page) =>
      match o.parse(page.content)
      case Err(e) => Err(e)
      case Ok(doc) =>
        match o.summarize(BodyText(doc), SummaryMaxLength, SummaryMinLength)
        case Err(e) => Err(e)
        case Ok(summary) => Ok(Article(Title(doc), summary, url, o.now(i)))
  }

  /** What each candidate comes to, in candidate order. */
  function Outcomes(o: Oracles, urls: seq<Url>): seq<Result<Article, Failure>>
  {
    seq(|urls|, i requires 0 <= i < |urls| => ProcessArticle(o, i, urls[i]))
  }

  function Success(r: Result<Article, Failure>): Option<Article>
  {
    r.ToOption()
  }

  /** The records the loop collects from the candidate URLs. */
  function Records(o: Oracles, urls: seq<Url>): seq<Article>
  {
    FilterMap(Outcomes(o, urls), Success)
  }

  /** The positions of the candidates that produced a record. */
  function Survivors(o: Oracles, urls: seq<Url>): seq<nat>
  {
    KeptAt(Outcomes(o, urls), Success)
  }

  /**
   * What fetch_bbc_news returns: no articles for a listing status other than
   * 200; an error when parsing the listing raises (that exception is not
   * caught); otherwise the records of the candidates.
   */
  function News(o: Oracles): Result<seq<Article>, Failure>
  {
    var listing := o.getListing(ListingUrl);
    if listing.status != HttpOk then Ok([])
    else
      match o.parse(listing.content)
      case Err(e) => Err(e)
      case Ok(doc) => Ok(Records(o, CandidateUrls(doc.hrefs)))
  }

  /** The article URLs fetch_bbc_news requests, in order. */
  function ArticleRequests(o: Oracles): seq<Url>
  {
    var listing := o.getListing(ListingUrl);
    if listing.status != HttpOk then []
    else
      match o.parse(listing.content)
      case Err(_) => []
      case Ok(doc) => CandidateUrls(doc.hrefs)
  }

  /** Processing one more candidate appends its record, if it has one, and leaves the others. */
  lemma RecordsSnoc(o: Oracles, urls: seq<Url>, url: Url)
    ensures Records(o, urls + [url]) ==
      Records(o, urls) + (match ProcessArticle(o, |urls|, url)
                          case Ok(a) => [a]
                          case Err(_) => [])
  {
    var s := Outcomes(o, urls + [url]);
    assert s[..|s| - 1] == Outcomes(o, urls);
    assert s[|s| - 1] == ProcessArticle(o, |urls|, url);
  }

  /**
   * fetch_bbc_news itself. `requested` lists the article URLs it sends a GET
   * to, in order.
   */
  method FetchNews(o: Oracles) returns (result: Result<seq<Article>, Failure>, requested: seq<Url>)
    ensures result == News(o)
    ensures requested == ArticleRequests(o)
    ensures o.getListing(ListingUrl).status != HttpOk ==> result == Ok([]) && requested == []
  {
    requested := [];
    var listing := o.getListing(ListingUrl);
    if listing.status != HttpOk {
      result := Ok([]);
      return;
    }
    var soup := o.parse(listing.content);
    if soup.Err? {
      result := Err(soup.error);
      return;
    }
    var articleLinks := ArticleHrefs(soup.value.hrefs);
    var candidates := Take(articleLinks, CandidateLimit);
    ghost var urls := CandidateUrls(soup.value.hrefs);
    var articles: seq<Article> := [];
    for i := 0 to |candidates|
      invariant requested == urls[..i]
      invariant articles == Records(o, requested)
      invariant |articles| <= i <= CandidateLimit
    {
      var articleUrl := SiteRoot + candidates[i];
      ghost var before := requested;
      requested := requested + [articleUrl];
      RecordsSnoc(o, before, articleUrl);
      var response := o.getArticle(i, articleUrl);
      if response.Err? {
        continue;
      }
      var articleSoup := o.parse(response.value.content);
      if articleSoup.Err? {
        continue;
      }
      var title := Title(articleSoup.value);
      var articleText := BodyText(articleSoup.value);
      var summary := o.summarize(articleText, SummaryMaxLength, SummaryMinLength);
      if summary.Err? {
        continue;
      }
      var timestamp := o.now(i);
      articles := articles + [Article(title, summary.value, articleUrl, timestamp)];
    }
    assert requested == urls;
    result := Ok(articles);
  }

  /**
   * The records are exactly the successful candidates, in candidate order:
   * record `k` is what candidate `Survivors[k]` produced, the survivors
   * increase, and a candidate survives exactly when its processing succeeded.
   */
  lemma RecordsAreSurvivingCandidates(o: Oracles, urls: seq<Url>)
    ensures var recs := Records(o, urls);
            var ix := Survivors(o, urls);
            && |recs| == |ix| <= |urls|
            && (forall k, l :: 0 <= k < l < |ix| ==> ix[k] < ix[l])
            && (forall k :: 0 <= k < |ix| ==>
                  ix[k] < |urls| && ProcessArticle(o, ix[k], urls[ix[k]]) == Ok(recs[k]))
            && (forall i :: 0 <= i < |urls| ==>
                  (i in ix <==> ProcessArticle(o, i, urls[i]).Ok?))
  {
    var recs := Records(o, urls);
    var ix := Survivors(o, urls);
    var outs := Outcomes(o, urls);
    forall k | 0 <= k < |ix|
      ensures ix[k] < |urls| && ProcessArticle(o, ix[k], urls[ix[k]]) == Ok(recs[k])
    {
      assert Success(outs[ix[k]]) == Some(recs[k]);
    }
    forall i | 0 <= i < |urls| && i in ix
      ensures ProcessArticle(o, i, urls[i]).Ok?
    {
      var k :| 0 <= k < |ix| && ix[k] == i;
      assert Success(outs[ix[k]]).Some?;
    }
    forall i | 0 <= i < |urls| && ProcessArticle(o, i, urls[i]).Ok?
      ensures i in ix
    {
      assert Success(outs[i]).Some?;
    }
  }

  /**
   * Each record is assembled from its own candidate: the page fetched from
   * its URL parsed, its title is that page's title, its summary is the
   * model's answer for that page's body text with bounds 200 and 50, its link
   * is the candidate URL and its timestamp that candidate's clock reading.
   */
  lemma RecordFields(o: Oracles, urls: seq<Url>, k: nat)
    requires k < |Records(o, urls)|
    ensures var i := Survivors(o, urls)[k];
            var a := Records(o, urls)[k];
            && i < |urls|
            && a.link == urls[i]
            && a.timestamp == o.now(i)
            && o.getArticle(i, urls[i]).Ok?
            && o.parse(o.getArticle(i, urls[i]).value.content).Ok?
            && var doc := o.parse(o.getArticle(i, urls[i]).value.content).value;
               a.title == Title(doc) &&
               o.summarize(BodyText(doc), SummaryMaxLength, SummaryMinLength) == Ok(a.summary)
  {
    RecordsAreSurvivingCandidates(o, urls);
  }

  /** Two worlds in which every candidate but `j` comes to the same outcome. */
  ghost predicate AgreeExceptAt(o: Oracles, o2: Oracles, urls: seq<Url>, j: nat)
  {
    forall i :: 0 <= i < |urls| && i != j ==> ProcessArticle(o2, i, urls[i]) == ProcessArticle(o, i, urls[i])
  }

  /**
   * Failure isolation: if world `o2` is `o` except that candidate `j` now
   * fails, the records are those of `o` with candidate `j`'s record, if it
   * had one, taken out; every other record, and the order, is unchanged.
   * Candidate `j`'s record sits at position `k`, after the records of the
   * candidates before it.
   */
  lemma {:induction false} FailingCandidateIsDropped(o: Oracles, o2: Oracles, urls: seq<Url>, j: nat)
    requires j < |urls|
    requires AgreeExceptAt(o, o2, urls, j)
    requires ProcessArticle(o2, j, urls[j]).Err?
    ensures var k := |Records(o, urls[..j])|;
            && (ProcessArticle(o, j, urls[j]).Err? ==> Records(o2, urls) == Records(o, urls))
            && (ProcessArticle(o, j, urls[j]).Ok? ==>
                  k < |Records(o, urls)| &&
                  Records(o, urls)[k] == ProcessArticle(o, j, urls[j]).value &&
                  Records(o2, urls) == Records(o, urls)[..k] + Records(o, urls)[k + 1..])
  {
    var init := urls[..|urls| - 1];
    var last := urls[|urls| - 1];
    assert urls == init + [last];
    RecordsSnoc(o, init, last);
    RecordsSnoc(o2, init, last);
    var before := Records(o, init);
    var before2 := Records(o2, init);
    if j == |init| {
      assert init == urls[..j];
      assert Outcomes(o2, init) == Outcomes(o, init);
      assert before2 == before;
      assert Records(o2, urls) == before;
      if ProcessArticle(o, j, last).Ok? {
        assert Records(o, urls) == before + [ProcessArticle(o, j, last).value];
        assert (before + [ProcessArticle(o, j, last).value])[..|before|] == before;
      }
    } else {
      assert init[..j] == urls[..j];
      assert AgreeExceptAt(o, o2, init, j);
      FailingCandidateIsDropped(o, o2, init, j);
      var r := ProcessArticle(o, |init|, last);
      assert ProcessArticle(o2, |init|, last) == r;
      var tail: seq<Article> := if r.Ok? then [r.value] else [];
      assert Records(o, urls) == before + tail;
      assert Records(o2, urls) == before2 + tail;
      var k := |Records(o, urls[..j])|;
      if ProcessArticle(o, j, urls[j]).Ok? {
        assert (before + tail)[..k] == before[..k];
        assert (before + tail)[k + 1..] == before[k + 1..] + tail;
      }
    }
  }

  /** A processed candidate's record links to the URL it was fetched from. */
  lemma ProcessedLink(o: Oracles, i: nat, url: Url)
    requires ProcessArticle(o, i, url).Ok?
    ensures ProcessArticle(o, i, url).value.link == url
  {
  }

  /** The article GET of candidate `j` times out; every other call is as in `o`. */
  function TimeOutAt(o: Oracles, j: nat): Oracles
  {
    o.(getArticle := (i: nat, v: Url) => if i == j then Err(NetworkError) else o.getArticle(i, v))
  }

  /**
   * A timed-out article GET drops that candidate's record and no other, even
   * when the same URL is requested again for another candidate.
   */
  lemma TimeOutDropsOnlyThatCandidate(o: Oracles, urls: seq<Url>, j: nat)
    requires j < |urls|
    ensures var k := |Records(o, urls[..j])|;
            && (ProcessArticle(o, j, urls[j]).Err? ==> Records(TimeOutAt(o, j), urls) == Records(o, urls))
            && (ProcessArticle(o, j, urls[j]).Ok? ==>
                  k < |Records(o, urls)| &&
                  Records(TimeOutAt(o, j), urls) == Records(o, urls)[..k] + Records(o, urls)[k + 1..])
  {
    FailingCandidateIsDropped(o, TimeOutAt(o, j), urls, j);
  }

  /**
   * A repeated href is requested once per candidate: timing out the GET of
   * candidate `j` leaves candidate `i` with the same URL as it was.
   */
  lemma RepeatedUrlFetchedPerCandidate(o: Oracles, urls: seq<Url>, i: nat, j: nat)
    requires i < |urls| && j < |urls| && i != j && urls[i] == urls[j]
    ensures ProcessArticle(TimeOutAt(o, j), j, urls[j]).Err?
    ensures ProcessArticle(TimeOutAt(o, j), i, urls[i]) == ProcessArticle(o, i, urls[i])
  {
  }

  /**
   * Of three candidates, the second fails: the output holds the records of
   * the first and the third, in that order.
   */
  lemma SecondOfThreeFails(o: Oracles, urls: seq<Url>)
    requires |urls| == 3
    requires ProcessArticle(o, 0, urls[0]).Ok?
    requires ProcessArticle(o, 1, urls[1]).Err?
    requires ProcessArticle(o, 2, urls[2]).Ok?
    ensures Records(o, urls) ==
      [ProcessArticle(o, 0, urls[0]).value, ProcessArticle(o, 2, urls[2]).value]
  {
    RecordsSnoc(o, [], urls[0]);
    assert [] + [urls[0]] == urls[..1];
    RecordsSnoc(o, urls[..1], urls[1]);
    assert urls[..1] + [urls[1]] == urls[..2];
    RecordsSnoc(o, urls[..2], urls[2]);
    assert urls[..2] + [urls[2]] == urls;
    assert Records(o, []) == [];
  }

  /**
   * On a listing answered with 200 that parses, every candidate is
   * requested, and the output has at most one record per candidate and at
   * most CandidateLimit records; record `k` links to the site root followed
   * by candidate href `Survivors[k]`, and those positions increase, so the
   * links are an order-preserving selection of the candidate URLs.
   */
  lemma NewsFollowsCandidates(o: Oracles)
    requires o.getListing(ListingUrl).status == HttpOk
    requires o.parse(o.getListing(ListingUrl).content).Ok?
    ensures var hrefs := o.parse(o.getListing(ListingUrl).content).value.hrefs;
            var c := Candidates(hrefs);
            var ix := Survivors(o, ArticleRequests(o));
            && News(o).Ok?
            && ArticleRequests(o) == CandidateUrls(hrefs)
            && |News(o).value| == |ix| <= |c| <= CandidateLimit
            && (forall k :: 0 <= k < |ix| ==>
                  ix[k] < |c| && News(o).value[k].link == SiteRoot + c[ix[k]])
            && (forall k, l :: 0 <= k < l < |ix| ==> ix[k] < ix[l])
  {
    var hrefs := o.parse(o.getListing(ListingUrl).content).value.hrefs;
    RecordsAreSurvivingCandidates(o, CandidateUrls(hrefs));
    CandidateUrlsArePrefixedCandidates(hrefs);
  }
}
