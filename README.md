# BBC news summariser: a Dafny model of the ingestion pipeline

`fetch_bbc_news` fetches the BBC News listing page. It keeps the anchors whose
href contains `/news/articles/`, takes the first ten, and prefixes each with
`https://www.bbc.com`, even one that is already absolute. It then handles the candidates
one at a time: fetch the article, parse it, take the first `h1` as the title
(`"Untitled"` if there is none), join the paragraph texts with one space
(`"No content available."` if the join is empty), summarise that text with
bounds 200 and 50, and append a `{title, summary, link, timestamp}` record. A
candidate whose fetch, parse or summary raises is skipped, and the loop goes
on with the next one. `display_articles` turns the records into a page: a
fixed notice when there are none, otherwise a header followed by one card per
record.

The model replaces the outside world with an `Oracles` value. Its fields are
function-valued:

- `getListing`: the listing GET, which always answers with a status and a body.
- `getArticle(i, url)`: the article GET sent for candidate `i`, which may fail. It is keyed by the candidate's position because hrefs are not deduplicated, so one URL can be requested twice and get different answers.
- `parse`: the HTML parser. It yields the hrefs, the optional first-`h1` text and the paragraph texts, or fails.
- `summarize(text, maxLength, minLength)`: the model, which may fail.
- `now(i)`: the clock reading taken for candidate `i`.

Modules:

- `Wrappers`: `Option` and `Result`.
- `Seqs`: Python slicing and filtered comprehensions, with a proof that a filter keeps an order-preserving selection of its input.
- `Strings`: Python's `in`, `''.join` and `' '.join`.
- `Listing`: link selection.
- `Extraction`: title and body defaults.
- `Pipeline`: the per-candidate loop and its specification.
- `Display`: the page.

The two loops of the source are methods proved against specification
functions:

- `Pipeline.FetchNews` is proved against `Pipeline.News`. The guarded body of its loop for one candidate is `Pipeline.ProcessArticle`, and `News` collects the successful results of `ProcessArticle` over the candidates.
- `Display.Render` is proved against `Display.Page`.

Lemmas state the properties of those specification functions.

Some details of the code are easy to misread. The model follows the code:

- The body text is replaced by the placeholder only when it is empty. A whitespace-only join such as `" "` (two empty paragraphs) goes to the summariser unchanged; see `Extraction.WhitespaceBodyKept`.
- The title reads `"Untitled"` when there is no `h1`, and also when the `h1` text is itself `"Untitled"`; see `Extraction.TitleDefault`.
- The status of an article response is never checked. A 404 article page is parsed like any other.
- Parsing the listing page happens outside the per-candidate guard. A failure there propagates out of `fetch_bbc_news` and `display_articles`, so `News` and `DisplayArticles` return `Err` in that case.

## Model

| member | source | states |
|---|---|---|
| `Seqs.Take` | app.py:23 | the slice `[:10]` is the prefix of length min(length, 10) |
| `Seqs.KeptAt` | app.py:19 | the positions a filter keeps increase strictly, each one is accepted and gives the matching output, and every accepted position is among them |
| `Strings.ContainsIff` | app.py:19 | `sub in s` holds exactly when `sub` occurs at some position of `s` |
| `Strings.JoinLength` | app.py:33 | a join has every part plus one separator between each two parts |
| `Strings.JoinEmptyIff` | app.py:33-35 | a join with a non-empty separator is empty exactly for no parts or a single empty part |
| `Strings.ConcatSplit` | app.py:82 | in `''.join`, part k comes right after the concatenation of the parts before it |
| `Listing.CandidatesAreFirstArticleHrefs` | app.py:18-23 | the candidates are the first 10 hrefs that contain `/news/articles/`, in document order, with no other href among them |
| `Listing.ArticleUrlAlwaysPrefixed` | app.py:24 | the site root is always prepended, even to an absolute href, and the href stays whole after it |
| `Listing.CandidateUrlsArePrefixedCandidates` | app.py:19-24 | there are at most 10 candidate URLs, and each is the site root followed by an article href |
| `Extraction.TitleDefault` | app.py:30 | the title is the first `h1` text when there is one; it reads "Untitled" exactly when there is no `h1` or the `h1` says "Untitled" |
| `Extraction.BodyText` | app.py:32-36 | the summariser input is never empty, and it is either the space-join of the paragraphs or the placeholder |
| `Extraction.BodyTextDefaultsExactly` | app.py:33-36 | the placeholder replaces the join exactly when there are no paragraphs or one empty paragraph |
| `Extraction.WhitespaceBodyKept` | app.py:33-35 | two empty paragraphs give the body " ", which is not replaced |
| `Pipeline.ProcessedLink` | app.py:24-44 | a successful candidate's record links to the URL it was fetched from |
| `Pipeline.RepeatedUrlFetchedPerCandidate` | app.py:19-27 | a repeated href is requested separately for each candidate, so one GET of it can time out while another succeeds |
| `Pipeline.RecordsSnoc` | app.py:41-49 | one more candidate appends its record if it succeeded, appends nothing if it failed, and leaves the earlier records unchanged |
| `Pipeline.FetchNews` | app.py:10-51 | the loop returns the records of the successful candidates in order and requests every candidate URL in order; a non-200 listing gives no articles and no article requests |
| `Pipeline.RecordsAreSurvivingCandidates` | app.py:23-49 | the records are exactly the successful candidates, one each, in candidate order; a candidate yields a record if and only if its processing succeeds |
| `Pipeline.RecordFields` | app.py:26-46 | each record comes from its own candidate: title from that page, summary from the model on that page's body with bounds 200 and 50, link the candidate URL, timestamp that candidate's clock reading |
| `Pipeline.FailingCandidateIsDropped` | app.py:26-49 | making candidate j fail removes exactly candidate j's record, found after the records of the earlier candidates; every other record and their order stay the same |
| `Pipeline.TimeOutDropsOnlyThatCandidate` | app.py:27-49 | a timed-out article GET for candidate j drops that candidate's record and no other, even a record for the same URL |
| `Pipeline.SecondOfThreeFails` | app.py:23-49 | of three candidates where the second fails, the output is the first and the third record, in that order |
| `Pipeline.NewsFollowsCandidates` | app.py:14-51 | on a 200 listing every candidate is requested; there are at most as many records as candidates and at most 10; record links are the site root plus candidate hrefs, an order-preserving selection of them |
| `Display.Render` | app.py:55-82 | the loop's output is the notice for no articles, and the header followed by the concatenated cards otherwise |
| `Display.DisplayArticles` | app.py:53-82 | display renders the pipeline's articles, and a listing parse failure propagates |
| `Display.PageIsNoticeIff` | app.py:55-56 | the "no articles" notice is shown if and only if the article list is empty |
| `Display.PageShowsEachCardInOrder` | app.py:58-82 | a non-empty page begins with the header, has one card per article, and card k follows the header and the cards of the articles before it |

## Left out

- Network I/O: both GETs are oracles. The 10-second article timeout appears only as the `getArticle` oracle failing. An exception from the listing GET itself is not modelled: `getListing` always answers with a status.
- HTML parsing: BeautifulSoup is the `parse` oracle, from markup to hrefs, first-`h1` text and paragraph texts, or a failure.
- The summarisation model: `summarize` is an oracle of (text, 200, 50). What `max_length`, `min_length` and `do_sample=False` mean for the result is not modelled. Determinism across runs holds only because oracles are functions.
- Timestamps: `datetime.now().strftime(...)` is the opaque clock reading `now(i)` for candidate `i`. Its format and monotonicity are not modelled.
- Logging: the `print` in the exception handler has no bearing on the result.
- UI: the Gradio interface and its launch.
- Card markup: a card is an abstract function of the record. The inline HTML of the card template is not reproduced. The notice and the header are reproduced.
- Extraction.Title: carries no contract of its own; its property is stated by `Extraction.TitleDefault`.
