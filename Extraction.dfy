/** What fetch_bbc_news takes from a parsed article page: a title and the summariser input. */
module Extraction {
  import opened Wrappers
  import opened Strings

  /**
   * A parsed page, as the parser oracle delivers it: the hrefs of its anchors
   * in document order, the text of its first `h1` if any, and the text of
   * every `p` in document order.
   */
  datatype Doc = Doc(hrefs: seq<string>, h1: Option<string>, paragraphs: seq<string>)

  const Untitled: string := "Untitled"
  const NoContent: string := "No content available."

  /** The first `h1` text, or Untitled when the page has none. */
  function Title(doc: Doc): string
  {
    if doc.h1.Some? then doc.h1.value else Untitled
  }

  /** The paragraph texts joined by one space; an empty join becomes NoContent. */
  function BodyText(doc: Doc): (text: string)
    ensures text != ""
    ensures text == Join(doc.paragraphs, " ") || text == NoContent
  {
    var joined := Join(doc.paragraphs, " ");
    if joined == "" then NoContent else joined
  }

  /** The title reads Untitled exactly when there is no `h1` or its text is itself "Untitled". */
  lemma TitleDefault(doc: Doc)
    ensures Title(doc) == Untitled <==> doc.h1 == None || doc.h1 == Some(Untitled)
    ensures doc.h1.Some? ==> Title(doc) == doc.h1.value
  {
  }

  /**
   * The placeholder replaces the join exactly when the page has no paragraph
   * or a single empty one: the test is for emptiness only.
   */
  lemma BodyTextDefaultsExactly(doc: Doc)
    ensures BodyText(doc) != Join(doc.paragraphs, " ") <==>
      |doc.paragraphs| == 0 || (|doc.paragraphs| == 1 && doc.paragraphs[0] == "")
  {
    JoinEmptyIff(doc.paragraphs, " ");
  }

  /** Two empty paragraphs join to a single space, which is passed on as it is. */
  lemma WhitespaceBodyKept(doc: Doc)
    requires doc.paragraphs == ["", ""]
    ensures BodyText(doc) == " "
  {
    assert doc.paragraphs[1..] == [""];
    assert Join(doc.paragraphs, " ") == "" + " " + "";
  }
}
