/** The public page view: fetches the one row of a page type and turns it
    into a layout of heading, body and image blocks. */
module Render {
  import opened Common
  import opened Pages

  const FallbackWidth := 300
  const MaxPublicWidth := 600
  const UntitledHeading := "Untitled Page"
  const NoContentBody := "No content available"

  /** One rendered image: the object key its URL is derived from, the alt
      text, the alignment, and the CSS width (None when no width applies). */
  datatype ImageBlock = ImageBlock(key: string, alt: string, align: Align, width: Option<int>)

  /** What a page view shows. */
  datatype Layout =
    | Loading
    | NotFound
    | PageView(heading: string, body: string, blocks: seq<ImageBlock>)

  /** The displayed width of an image on the public page (`width || 300`,
      capped): a zero, null, absent or NaN width shows at the fallback width,
      and nothing is shown wider than the ceiling; any other width below the
      ceiling is kept as stored. */
  function DisplayWidth(w: Width): (r: int)
    ensures r <= MaxPublicWidth
    ensures !(w.Px? && w.px != 0) ==> r == FallbackWidth
    ensures w.Px? && w.px != 0 ==> r <= w.px
    ensures w.Px? && w.px != 0 && w.px <= MaxPublicWidth ==> r == w.px
    ensures w.Px? && w.px > MaxPublicWidth ==> r == MaxPublicWidth
  {
    Min(if w.Px? && w.px != 0 then w.px else FallbackWidth, MaxPublicWidth)
  }

  /** The public block of one image spec of page type `pageType`. */
  function PublicBlock(pageType: string, img: ImageSpec): ImageBlock {
    ImageBlock(StorageKey(pageType, img.name), img.name, AlignOf(img.position), Some(DisplayWidth(img.width)))
  }

  /** The public view of a page type. Loading wins over everything; without
      a row the page is not found; otherwise the heading and body are never
      empty, and there is one block per stored image spec, in list order,
      each keyed under the page type, aligned by its position and no wider
      than the ceiling. */
  function RenderPage(pageType: string, loading: bool, pageData: Option<PageRow>): (r: Layout)
    ensures r.Loading? <==> loading
    ensures r.NotFound? <==> !loading && pageData.None?
    ensures r.PageView? ==> r.heading != "" && r.body != ""
    ensures r.PageView? && Truthy(pageData.value.title) ==> r.heading == pageData.value.title.value
    ensures r.PageView? && !Truthy(pageData.value.title) ==> r.heading == UntitledHeading
    ensures r.PageView? && Truthy(pageData.value.content) ==> r.body == pageData.value.content.value
    ensures r.PageView? && !Truthy(pageData.value.content) ==> r.body == NoContentBody
    ensures r.PageView? ==> |r.blocks| == |OrEmpty(pageData.value.images)|
    ensures r.PageView? ==> forall i :: 0 <= i < |r.blocks| ==>
      var img := OrEmpty(pageData.value.images)[i];
      && r.blocks[i].key == StorageKey(pageType, img.name)
      && r.blocks[i].alt == img.name
      && r.blocks[i].align == AlignOf(img.position)
      && r.blocks[i].width == Some(DisplayWidth(img.width))
    ensures r.PageView? ==> forall b :: b in r.blocks ==> b.width.Some? && b.width.value <= MaxPublicWidth
  {
    if loading then Loading
    else if pageData.None? then NotFound
    else
      var row := pageData.value;
      var imgs := OrEmpty(row.images);
      PageView(
        OrElse(row.title, UntitledHeading),
        OrElse(row.content, NoContentBody),
        seq(|imgs|, i requires 0 <= i < |imgs| => PublicBlock(pageType, imgs[i])))
  }

  // ---------------------------------------------------------------------
  // Fetching the row of one page type
  // ---------------------------------------------------------------------

  /** The rows whose `page_type` equals `t`, in table order: each such row
      as often as the table holds it, and no other row. */
  function OfType(rows: seq<PageRow>, t: string): (r: seq<PageRow>)
    ensures |r| <= |rows|
    ensures forall x :: x in r <==> x in rows && x.pageType == Some(t)
    ensures forall x :: multiset(r)[x] == if x.pageType == Some(t) then multiset(rows)[x] else 0
    ensures SubsequenceOf(r, rows)
  {
    if |rows| == 0 then []
    else
      assert rows == [rows[0]] + rows[1..];
      if rows[0].pageType == Some(t) then [rows[0]] + OfType(rows[1..], t)
      else OfType(rows[1..], t)
  }

  /** Two distinct rows of the same page type both survive the filter. */
  lemma {:induction false} OfTypeKeepsBoth(rows: seq<PageRow>, t: string, i: int, j: int)
    requires 0 <= i < j < |rows|
    requires rows[i].pageType == Some(t) && rows[j].pageType == Some(t)
    ensures |OfType(rows, t)| >= 2
  {
    if i == 0 {
      assert rows[1..][j - 1] == rows[j];
      assert rows[j] in OfType(rows[1..], t);
    } else {
      OfTypeKeepsBoth(rows[1..], t, i - 1, j - 1);
    }
  }

  /** When row `k` is the only row of type `t`, the filter keeps just it. */
  lemma {:induction false} OfTypeOnly(rows: seq<PageRow>, t: string, k: int)
    requires 0 <= k < |rows| && rows[k].pageType == Some(t)
    requires forall j :: 0 <= j < |rows| && j != k ==> rows[j].pageType != Some(t)
    ensures OfType(rows, t) == [rows[k]]
  {
    if k == 0 {
      forall j | 0 <= j < |rows| - 1
        ensures rows[1..][j].pageType != Some(t)
      {
        assert rows[1..][j] == rows[j + 1];
      }
      OfTypeNone(rows[1..], t);
    } else {
      forall j | 0 <= j < |rows| - 1 && j != k - 1
        ensures rows[1..][j].pageType != Some(t)
      {
        assert rows[1..][j] == rows[j + 1];
      }
      OfTypeOnly(rows[1..], t, k - 1);
    }
  }

  /** Without a row of type `t` the filter keeps nothing. */
  lemma {:induction false} OfTypeNone(rows: seq<PageRow>, t: string)
    requires forall j :: 0 <= j < |rows| ==> rows[j].pageType != Some(t)
    ensures OfType(rows, t) == []
  {
    if |rows| > 0 {
      assert forall j :: 0 <= j < |rows| - 1 ==> rows[1..][j] == rows[j + 1];
      OfTypeNone(rows[1..], t);
    }
  }

  /** The reply of the single-row query: an error, or the row. */
  datatype QueryReply = QueryReply(error: bool, data: Option<PageRow>)

  /** The single-row query by page type: it fails unless the store answers
      and exactly one row has that page type. */
  function SelectSingle(rows: seq<PageRow>, t: string, failed: bool): (r: QueryReply)
    ensures r.data.Some? <==> !failed && |OfType(rows, t)| == 1
    ensures r.error <==> r.data.None?
    ensures r.data.Some? ==> r.data.value in rows && r.data.value.pageType == Some(t)
  {
    if failed then QueryReply(true, None)
    else
      var matching := OfType(rows, t);
      if |matching| == 1 then
        assert matching[0] in matching;
        QueryReply(false, Some(matching[0]))
      else QueryReply(true, None)
  }

  /** The page data kept after a fetch: the row only when the reply carries
      no error and does carry a row. */
  function FetchedPage(reply: QueryReply): (r: Option<PageRow>)
    ensures r.Some? <==> !reply.error && reply.data.Some?
    ensures r.Some? ==> r == reply.data
  {
    if !reply.error && reply.data.Some? then reply.data else None
  }

  /** Two rows of the same page type (the duplicate that two racing first
      saves can create) make that page render as not found. */
  lemma DuplicatePageTypeNotFound(rows: seq<PageRow>, t: string, i: int, j: int)
    requires 0 <= i < j < |rows|
    requires rows[i].pageType == Some(t) && rows[j].pageType == Some(t)
    ensures RenderPage(t, false, FetchedPage(SelectSingle(rows, t, false))) == NotFound
  {
    OfTypeKeepsBoth(rows, t, i, j);
  }

  /** A page type held by exactly one row renders that row: the query
      returns it and the page shows it. */
  lemma UniquePageTypeRendered(rows: seq<PageRow>, t: string, k: int)
    requires 0 <= k < |rows| && rows[k].pageType == Some(t)
    requires forall j :: 0 <= j < |rows| && j != k ==> rows[j].pageType != Some(t)
    ensures SelectSingle(rows, t, false) == QueryReply(false, Some(rows[k]))
    ensures RenderPage(t, false, FetchedPage(SelectSingle(rows, t, false))) == RenderPage(t, false, Some(rows[k]))
  {
    OfTypeOnly(rows, t, k);
  }
}
