/**
 * Link selection on the listing page of fetch_bbc_news: keep the anchors whose
 * href contains the article marker, in document order, take the first ten and
 * make each one absolute by prefixing the site root.
 */
module Listing {
  import opened Wrappers
  import opened Seqs
  import opened Strings

  /** The substring that marks an href as an article link. */
  const ArticleMarker: string := "/news/articles/"

  /** Prepended to every selected href, whatever the href looks like. */
  const SiteRoot: string := "https://www.bbc.com"

  /** At most this many candidates are processed. */
  const CandidateLimit: nat := 10

  function KeepIfArticle(href: string): Option<string>
  {
    if Contains(href, ArticleMarker) then Some(href) else None
  }

  /** The hrefs of the listing that contain the article marker, in document order. */
  function ArticleHrefs(hrefs: seq<string>): seq<string>
  {
    FilterMap(hrefs, KeepIfArticle)
  }

  /** The loop's range: the first CandidateLimit article hrefs. */
  function Candidates(hrefs: seq<string>): seq<string>
  {
    Take(ArticleHrefs(hrefs), CandidateLimit)
  }

  /** The URL one candidate is fetched from. */
  function ArticleUrl(href: string): string
  {
    SiteRoot + href
  }

  /** The URLs of all candidates, in loop order. */
  function CandidateUrls(hrefs: seq<string>): seq<string>
  {
    var c := Candidates(hrefs);
    seq(|c|, k requires 0 <= k < |c| => ArticleUrl(c[k]))
  }

  /**
   * The candidates are exactly the first CandidateLimit hrefs, in document
   * order, that contain the marker: `ix` lists, increasingly, every position
   * of `hrefs` whose href contains the marker and no other, and candidate `k`
   * is the href at position `ix[k]`.
   */
  lemma CandidatesAreFirstArticleHrefs(hrefs: seq<string>)
    ensures var ix := KeptAt(hrefs, KeepIfArticle);
            var c := Candidates(hrefs);
            && |c| == (if |ix| <= CandidateLimit then |ix| else CandidateLimit)
            && (forall k :: 0 <= k < |c| ==> ix[k] < |hrefs| && c[k] == hrefs[ix[k]])
            && (forall k :: 0 <= k < |c| ==> Contains(c[k], ArticleMarker))
            && (forall k, l :: 0 <= k < l < |ix| ==> ix[k] < ix[l])
            && (forall i :: 0 <= i < |hrefs| ==> (i in ix <==> Contains(hrefs[i], ArticleMarker)))
  {
    var ix := KeptAt(hrefs, KeepIfArticle);
    var c := Candidates(hrefs);
    forall k | 0 <= k < |c| ensures c[k] == hrefs[ix[k]] && Contains(c[k], ArticleMarker) {
      assert KeepIfArticle(hrefs[ix[k]]) == Some(ArticleHrefs(hrefs)[k]);
    }
    forall i | 0 <= i < |hrefs| && i in ix ensures Contains(hrefs[i], ArticleMarker) {
      var k :| 0 <= k < |ix| && ix[k] == i;
      assert KeepIfArticle(hrefs[ix[k]]).Some?;
    }
  }

  /**
   * ArticleUrl's definition unpacked: the site root is always prepended, even
   * to an already absolute href, and the href is kept whole after it.
   */
  lemma ArticleUrlAlwaysPrefixed(href: string)
    ensures |ArticleUrl(href)| == |SiteRoot| + |href|
    ensures ArticleUrl(href)[..|SiteRoot|] == SiteRoot
    ensures ArticleUrl(href)[|SiteRoot|..] == href
  {
  }

  /** Every candidate URL is the site root followed by a candidate href. */
  lemma CandidateUrlsArePrefixedCandidates(hrefs: seq<string>)
    ensures |CandidateUrls(hrefs)| == |Candidates(hrefs)| <= CandidateLimit
    ensures forall k :: 0 <= k < |CandidateUrls(hrefs)| ==>
      CandidateUrls(hrefs)[k] == SiteRoot + Candidates(hrefs)[k] &&
      Contains(Candidates(hrefs)[k], ArticleMarker)
  {
    CandidatesAreFirstArticleHrefs(hrefs);
  }
}
