/**
 * The server side (index.php): which comic a saved block renders, and the markup
 * it renders. The HTTP call is replaced by its response, given as a parameter and
 * consulted only when the block follows the latest comic.
 */
module Server {
  import opened Wrappers
  import opened Comics

  /**
   * The saved attributes as PHP receives them. `isCurrentComicSelected` is `None`
   * when the key is absent (the host omits an attribute equal to its default);
   * the other two are `None` when absent or null.
   */
  datatype BlockAttributes = BlockAttributes(
    isCurrentComicSelected: Option<bool>,
    selectedComicNumber: Option<int>,
    comic: Option<Comic>)

  /** `$comic_num`: the string 'latest', or the stored selected number (null when absent). */
  datatype ComicNum = LatestKeyword | Selected(number: Option<int>)

  /** The answer of the GET to the API: status code and the decoded body (None: not JSON). */
  datatype HttpResponse = HttpResponse(code: int, body: Option<Comic>)

  /** The ternary choosing `$comic_num`. */
  function ResolveComicNum(attributes: BlockAttributes): (n: ComicNum)
    ensures attributes.isCurrentComicSelected.None? ==> n == LatestKeyword
    ensures attributes.isCurrentComicSelected == Some(true) ==> n == LatestKeyword
    ensures attributes.isCurrentComicSelected == Some(false) ==> n == Selected(attributes.selectedComicNumber)
  {
    if attributes.isCurrentComicSelected.None? || attributes.isCurrentComicSelected.value
    then LatestKeyword
    else Selected(attributes.selectedComicNumber)
  }

  /** `xkcd_comic_gutenberg_block_get_comic`; `response` is what the request would return. */
  function GetComic(attributes: BlockAttributes, response: HttpResponse): (r: Option<Comic>)
    ensures ResolveComicNum(attributes).Selected? ==> r == attributes.comic
    ensures ResolveComicNum(attributes).LatestKeyword? && response.code == 200 ==> r == response.body
    ensures ResolveComicNum(attributes).LatestKeyword? && response.code != 200 ==> r.None?
  {
    if ResolveComicNum(attributes) != LatestKeyword then attributes.comic
    else if response.code == 200 then response.body
    else None
  }

  /** A pinned block issues no request: its comic does not depend on any response. */
  lemma PinnedIgnoresResponse(attributes: BlockAttributes, r1: HttpResponse, r2: HttpResponse)
    requires attributes.isCurrentComicSelected == Some(false)
    ensures GetComic(attributes, r1) == GetComic(attributes, r2) == attributes.comic
  {
  }

  /** A block following the latest comic ignores the stored comic entirely. */
  lemma LatestIgnoresStoredComic(attributes: BlockAttributes, stored: Option<Comic>, response: HttpResponse)
    requires attributes.isCurrentComicSelected != Some(false)
    ensures GetComic(attributes, response) == GetComic(attributes.(comic := stored), response)
  {
  }

  const CouldNotLoad: string := "Comic couldn't be loaded"

  const WrapperOpen: string := "<div class=\"xkcd-comic\">"
  const TitleOpen: string := "<div className=\"xkcd-comic__title\">"
  const TitleClose: string := "</div>"
  const ImageOpen: string := "<img src=\""
  const ImageAlt: string := "\" alt=\""
  const ImageClose: string := "\"/>"
  const WrapperClose: string := "</div>"

  /**
   * The markup for a comic: the fixed wrapper with title, image URL and alt text
   * inserted verbatim (no escaping) in that order.
   */
  function ComicMarkup(c: Comic): (m: string)
    ensures |m| == 91 + |c.title| + |c.img| + |c.alt|
    ensures m[..59] == WrapperOpen + TitleOpen
    ensures m[59..59 + |c.title|] == c.title
    ensures var i := 59 + |c.title|;
            m[i..i + 16] == TitleClose + ImageOpen && m[i + 16..i + 16 + |c.img|] == c.img
    ensures var j := 75 + |c.title| + |c.img|;
            m[j..j + 7] == ImageAlt && m[j + 7..j + 7 + |c.alt|] == c.alt
    ensures m[|m| - 9..] == ImageClose + WrapperClose
  {
    WrapperOpen + TitleOpen + c.title + TitleClose + ImageOpen + c.img + ImageAlt + c.alt
      + ImageClose + WrapperClose
  }

  /** No comic's markup can be mistaken for the error text. */
  lemma MarkupIsNotErrorText(c: Comic)
    ensures ComicMarkup(c) != CouldNotLoad
  {
    assert ComicMarkup(c)[0] == '<' != CouldNotLoad[0];
  }

  /** `xkcd_comic_gutenberg_block_render_callback`, building the output by appends. */
  method RenderCallback(attributes: BlockAttributes, response: HttpResponse) returns (output: string)
    ensures GetComic(attributes, response).None? ==> output == CouldNotLoad
    ensures GetComic(attributes, response).Some? ==> output == ComicMarkup(GetComic(attributes, response).value)
  {
    var comic := GetComic(attributes, response);
    if comic.None? {
      return CouldNotLoad;
    }
    output := WrapperOpen;
    output := output + TitleOpen + comic.value.title + TitleClose;
    output := output + ImageOpen + comic.value.img + ImageAlt + comic.value.alt + ImageClose;
    output := output + WrapperClose;
  }
}
