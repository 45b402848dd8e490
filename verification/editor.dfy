/** The site editor (the staff home page): a fixed catalog of page keys, the
    key-to-record map of every fetched row, a draft of the selected page's
    title, content and image list, and a live preview of that draft. */
module Editor {
  import opened Common
  import opened Pages
  import opened Effects
  import opened Render

  const UploadWidth := 300
  const UploadPosition := "center"
  const MaxPreviewWidth := 400
  const PreviewHeading := "Page Title"
  const PreviewBody := "Page content will appear here..."

  /** The working copy of the selected page, detached from the stored row. */
  datatype Draft = Draft(title: string, content: string, images: seq<ImageSpec>)

  /** The editor's state. `selected` is the selected page key ("" stands for
      no selection), `pages` the rows filed by key, `uploads` the object names
      of the last storage listing. */
  datatype EditorState = EditorState(selected: string, pages: map<string, PageRow>, draft: Draft, uploads: seq<string>)

  /** A new state together with the requests issued on the way to it. */
  datatype Step = Step(state: EditorState, effects: seq<Effect>)

  const EmptyDraft := Draft("", "", [])

  // ---------------------------------------------------------------------
  // List-level edits of the image list
  // ---------------------------------------------------------------------

  /** How many entries carry the name `name`. */
  function CountNamed(images: seq<ImageSpec>, name: string): nat {
    if |images| == 0 then 0
    else (if images[0].name == name then 1 else 0) + CountNamed(images[1..], name)
  }

  lemma {:induction false} CountNamedAppend(images: seq<ImageSpec>, extra: seq<ImageSpec>, name: string)
    ensures CountNamed(images + extra, name) == CountNamed(images, name) + CountNamed(extra, name)
  {
    if |images| == 0 {
      assert images + extra == extra;
    } else {
      assert (images + extra)[1..] == images[1..] + extra;
      CountNamedAppend(images[1..], extra, name);
    }
  }

  /** The spec given to a freshly uploaded file. */
  function UploadSpec(name: string): ImageSpec {
    ImageSpec(name, Px(UploadWidth), UploadPosition)
  }

  /** The list after an upload: the default spec of the file goes at the end
      and every earlier entry is kept; an entry of the same name is not
      replaced, so the name occurs once more than before. */
  function AppendUpload(images: seq<ImageSpec>, name: string): (r: seq<ImageSpec>)
    ensures |r| == |images| + 1
    ensures r[..|images|] == images
    ensures r[|images|] == ImageSpec(name, Px(UploadWidth), UploadPosition)
    ensures CountNamed(r, name) == CountNamed(images, name) + 1
  {
    CountNamedAppend(images, [UploadSpec(name)], name);
    assert CountNamed([UploadSpec(name)], name) == 1;
    images + [UploadSpec(name)]
  }

  /** The list after removing a file: exactly the entries whose name differs,
      in their original relative order. */
  function WithoutImage(images: seq<ImageSpec>, name: string): (r: seq<ImageSpec>)
    ensures forall x :: x in r <==> x in images && x.name != name
    ensures |r| + CountNamed(images, name) == |images|
    ensures SubsequenceOf(r, images)
  {
    if |images| == 0 then []
    else if images[0].name == name then WithoutImage(images[1..], name)
    else
      var rest := WithoutImage(images[1..], name);
      assert ([images[0]] + rest)[1..] == rest;
      [images[0]] + rest
  }

  /** The field an edit of one image changes. */
  datatype Field = WidthField(width: Width) | PositionField(position: string)

  /** One image spec with the edited field replaced. */
  function Apply(img: ImageSpec, f: Field): ImageSpec {
    match f
    case WidthField(w) => img.(width := w)
    case PositionField(p) => img.(position := p)
  }

  /** The list after a width or position edit: same length, same names in the
      same order; entries of the named file get the field, every other entry
      is identical, and the field not edited is untouched everywhere. */
  function Reposition(images: seq<ImageSpec>, name: string, f: Field): (r: seq<ImageSpec>)
    ensures |r| == |images|
    ensures forall i :: 0 <= i < |r| ==> r[i].name == images[i].name
    ensures forall i :: 0 <= i < |r| && images[i].name != name ==> r[i] == images[i]
    ensures forall i :: 0 <= i < |r| && images[i].name == name ==> r[i] == Apply(images[i], f)
    ensures f.WidthField? ==> forall i :: 0 <= i < |r| ==> r[i].position == images[i].position
    ensures f.PositionField? ==> forall i :: 0 <= i < |r| ==> r[i].width == images[i].width
  {
    seq(|images|, i requires 0 <= i < |images| => if images[i].name == name then Apply(images[i], f) else images[i])
  }

  /** Removing is distributive over concatenation. */
  lemma {:induction false} WithoutImageConcat(a: seq<ImageSpec>, b: seq<ImageSpec>, name: string)
    ensures WithoutImage(a + b, name) == WithoutImage(a, name) + WithoutImage(b, name)
  {
    if |a| == 0 {
      assert a + b == b;
    } else {
      assert (a + b)[0] == a[0];
      assert (a + b)[1..] == a[1..] + b;
      WithoutImageConcat(a[1..], b, name);
    }
  }

  /** Removing a file after uploading it leaves the list as removing it
      without the upload would: the upload leaves no trace. */
  lemma RemoveUndoesUpload(images: seq<ImageSpec>, name: string)
    ensures WithoutImage(AppendUpload(images, name), name) == WithoutImage(images, name)
  {
    WithoutImageConcat(images, [UploadSpec(name)], name);
    assert WithoutImage([UploadSpec(name)], name) == [];
  }

  /** Removing a name nobody carries changes nothing. */
  lemma {:induction false} WithoutAbsentName(images: seq<ImageSpec>, name: string)
    requires forall x :: x in images ==> x.name != name
    ensures WithoutImage(images, name) == images
  {
    if |images| > 0 {
      assert images[0] in images;
      WithoutAbsentName(images[1..], name);
      assert [images[0]] + images[1..] == images;
    }
  }

  /** Removing twice is removing once. */
  lemma RemoveIdempotent(images: seq<ImageSpec>, name: string)
    ensures WithoutImage(WithoutImage(images, name), name) == WithoutImage(images, name)
  {
    WithoutAbsentName(WithoutImage(images, name), name);
  }

  /** Editing a file's layout and then removing it is the same as removing
      it: the edit touches nothing but the removed entries. */
  lemma {:induction false} RemoveAfterReposition(images: seq<ImageSpec>, name: string, f: Field)
    ensures WithoutImage(Reposition(images, name, f), name) == WithoutImage(images, name)
  {
    if |images| > 0 {
      var r := Reposition(images, name, f);
      assert r[1..] == Reposition(images[1..], name, f);
      RemoveAfterReposition(images[1..], name, f);
    }
  }

  // ---------------------------------------------------------------------
  // Loading, selecting and fetching
  // ---------------------------------------------------------------------

  /** The draft filled from a row: a present title, content or image list is
      copied as stored, and an absent one becomes empty. */
  function DraftOf(page: PageRow): (d: Draft)
    ensures page.title.Some? ==> d.title == page.title.value
    ensures page.title.None? ==> d.title == ""
    ensures page.content.Some? ==> d.content == page.content.value
    ensures page.content.None? ==> d.content == ""
    ensures page.images.Some? ==> d.images == page.images.value
    ensures page.images.None? ==> d.images == []
  {
    Draft(OrElse(page.title, ""), OrElse(page.content, ""), OrEmpty(page.images))
  }

  /** Showing page `key`: with a record under the key the draft is loaded from
      it and the storage folder named by the record's id is listed (the old
      listing stays until the reply comes); without one the draft and the
      listing are emptied and nothing is requested. */
  function Select(s: EditorState, key: string): (r: Step)
    ensures r.state.selected == key && r.state.pages == s.pages
    ensures key in s.pages ==> r.state.draft == DraftOf(s.pages[key])
    ensures key in s.pages ==> r.state.uploads == s.uploads
    ensures key in s.pages ==> r.effects == [ListObjects(ListPrefix(IdText(s.pages[key].id)))]
    ensures key !in s.pages ==> r.state.draft == EmptyDraft && r.state.uploads == [] && r.effects == []
  {
    if key in s.pages then
      var page := s.pages[key];
      Step(s.(selected := key, draft := DraftOf(page)), [ListObjects(ListPrefix(IdText(page.id)))])
    else
      Step(s.(selected := key, draft := EmptyDraft, uploads := []), [])
  }

  /** Once a session is stored, every row is fetched; without one, nothing. */
  function FetchOnSession(session: Option<string>): (r: seq<Effect>)
    ensures session.Some? <==> r == [SelectAllPages]
    ensures session.None? <==> r == []
  {
    if session.Some? then [SelectAllPages] else []
  }

  /** The reply to the fetch of every row (None: an error or no data). On an
      error nothing changes; otherwise the rows are filed by key and the
      selected page is shown again from the new map. */
  function OnPagesFetched(s: EditorState, reply: Option<seq<PageRow>>): (r: Step)
    ensures reply.None? ==> r == Step(s, [])
    ensures reply.Some? ==> r.state.selected == s.selected
    ensures reply.Some? ==> r.state.pages == PageMap(reply.value)
    ensures reply.Some? ==> forall k :: k in r.state.pages <==>
      exists i :: 0 <= i < |reply.value| && RowKey(reply.value[i]) == k
    ensures reply.Some? && s.selected in r.state.pages ==> r.state.draft == DraftOf(r.state.pages[s.selected])
    ensures reply.Some? && s.selected in r.state.pages ==> r.state.uploads == s.uploads
    ensures reply.Some? && s.selected in r.state.pages ==>
      r.effects == [ListObjects(ListPrefix(IdText(r.state.pages[s.selected].id)))]
    ensures reply.Some? && s.selected !in r.state.pages ==>
      r.state.draft == EmptyDraft && r.state.uploads == [] && r.effects == []
  {
    if reply.None? then Step(s, [])
    else Select(s.(pages := PageMap(reply.value)), s.selected)
  }

  /** The reply to a storage listing: on success the listing is replaced
      (a missing list counts as empty); on an error nothing changes. */
  function OnUploadsListed(s: EditorState, failed: bool, data: Option<seq<string>>): (r: EditorState)
    ensures failed ==> r == s
    ensures !failed ==> r.uploads == OrEmpty(data) && r.(uploads := s.uploads) == s
  {
    if failed then s else s.(uploads := OrEmpty(data))
  }

  // ---------------------------------------------------------------------
  // Image edits
  // ---------------------------------------------------------------------

  /** An upload of `file` whose storage write `failed` or not. Without a file
      or a selected key nothing happens. Otherwise the object is written under
      the selected key; on success the folder of the selected key is listed
      again, and the image list grows by the default spec exactly when the
      selected key has a record. Nothing else in the state changes. */
  function UploadImage(s: EditorState, file: Option<string>, failed: bool): (r: Step)
    ensures file.None? || s.selected == "" ==> r == Step(s, [])
    ensures file.Some? && s.selected != "" && failed ==>
      r == Step(s, [UploadObject(StorageKey(s.selected, file.value))])
    ensures file.Some? && s.selected != "" && !failed ==>
      r.effects == [UploadObject(StorageKey(s.selected, file.value)), ListObjects(ListPrefix(s.selected))]
    ensures r.state.(draft := s.draft) == s
    ensures r.state.draft.title == s.draft.title && r.state.draft.content == s.draft.content
    ensures r.state.draft.images != s.draft.images <==>
      file.Some? && s.selected != "" && !failed && s.selected in s.pages
    ensures r.state.draft.images != s.draft.images ==>
      r.state.draft.images == AppendUpload(s.draft.images, file.value)
  {
    if file.None? || s.selected == "" then Step(s, [])
    else
      var key := StorageKey(s.selected, file.value);
      if failed then Step(s, [UploadObject(key)])
      else
        var images := if s.selected in s.pages then AppendUpload(s.draft.images, file.value) else s.draft.images;
        Step(s.(draft := s.draft.(images := images)), [UploadObject(key), ListObjects(ListPrefix(s.selected))])
  }

  /** Removing a file: the object under the selected key is deleted, the
      folder is listed again, and the file's entries leave the image list
      whatever the deletion's outcome. Nothing else in the state changes. */
  function RemoveImage(s: EditorState, name: string): (r: Step)
    ensures r.effects == [RemoveObjects([StorageKey(s.selected, name)]), ListObjects(ListPrefix(s.selected))]
    ensures r.state.(draft := s.draft) == s
    ensures r.state.draft.title == s.draft.title && r.state.draft.content == s.draft.content
    ensures forall x :: x in r.state.draft.images <==> x in s.draft.images && x.name != name
    ensures SubsequenceOf(r.state.draft.images, s.draft.images)
    ensures |r.state.draft.images| == |s.draft.images| - CountNamed(s.draft.images, name)
  {
    Step(s.(draft := s.draft.(images := WithoutImage(s.draft.images, name))),
         [RemoveObjects([StorageKey(s.selected, name)]), ListObjects(ListPrefix(s.selected))])
  }

  /** A width or position edit of the named file's entries; it requests
      nothing and changes nothing but the image list. */
  function UpdateImagePos(s: EditorState, name: string, f: Field): (r: EditorState)
    ensures r.(draft := s.draft) == s
    ensures r.draft.title == s.draft.title && r.draft.content == s.draft.content
    ensures |r.draft.images| == |s.draft.images|
    ensures forall i :: 0 <= i < |r.draft.images| ==>
      r.draft.images[i] == if s.draft.images[i].name == name then Apply(s.draft.images[i], f) else s.draft.images[i]
  {
    s.(draft := s.draft.(images := Reposition(s.draft.images, name, f)))
  }

  // ---------------------------------------------------------------------
  // Saving
  // ---------------------------------------------------------------------

  /** The record a save writes: the selected key and the current draft. */
  function WriteOf(s: EditorState): PageWrite {
    PageWrite(s.selected, s.draft.title, s.draft.content, s.draft.images)
  }

  /** Whether the record filed under the selected key has a (truthy) id. */
  predicate HasStoredId(s: EditorState) {
    s.selected in s.pages && Truthy(s.pages[s.selected].id)
  }

  /** A save: with no key selected nothing is requested. Otherwise exactly
      one write goes out, followed by a fetch of every row; the write is an
      update of the stored id exactly when the selected key's record has an
      id, and an insert otherwise; either way it carries the selected key and
      the draft's title, content and image list. */
  function SaveEffects(s: EditorState): (r: seq<Effect>)
    ensures s.selected == "" <==> r == []
    ensures s.selected != "" ==> |r| == 2 && r[1] == SelectAllPages
    ensures s.selected != "" ==> (r[0].UpdatePage? || r[0].InsertPage?)
    ensures s.selected != "" ==> (r[0].UpdatePage? <==> HasStoredId(s))
    ensures s.selected != "" && r[0].UpdatePage? ==> r[0].id == s.pages[s.selected].id.value
    ensures s.selected != "" ==>
      && r[0].write.pageType == s.selected
      && r[0].write.title == s.draft.title
      && r[0].write.content == s.draft.content
      && r[0].write.images == s.draft.images
  {
    if s.selected == "" then []
    else if HasStoredId(s) then [UpdatePage(s.pages[s.selected].id.value, WriteOf(s)), SelectAllPages]
    else [InsertPage(WriteOf(s)), SelectAllPages]
  }

  /** A first save inserts; once the fetch that follows returns the inserted
      row (with the id the table gave it, and no later row under the same
      key), the next save is an update of that id, not a second insert. The
      reloaded draft is the draft as the JSON write stored it: unchanged
      exactly when no width is NaN, and a NaN width, which the preview showed
      without a width, comes back as `null` and previews at width 0. */
  lemma SecondSaveUpdates(s: EditorState, before: seq<PageRow>, after: seq<PageRow>, id: string)
    requires s.selected != "" && !HasStoredId(s)
    requires id != ""
    requires forall j :: 0 <= j < |after| ==> RowKey(after[j]) != s.selected
    ensures var rows := before + [InsertedRow(id, WriteOf(s))] + after;
      var s' := OnPagesFetched(s, Some(rows)).state;
      && s'.draft == s.draft.(images := StoredImages(s.draft.images))
      && (s'.draft == s.draft <==> forall i :: 0 <= i < |s.draft.images| ==> s.draft.images[i].width != NaN)
      && SaveEffects(s') == [UpdatePage(id, WriteOf(s')), SelectAllPages]
    ensures var rows := before + [InsertedRow(id, WriteOf(s))] + after;
      var s' := OnPagesFetched(s, Some(rows)).state;
      forall i :: 0 <= i < |s.draft.images| && s.draft.images[i].width == NaN ==>
        Preview(s).blocks[i].width == None && Preview(s').blocks[i].width == Some(0)
  {
    var row := InsertedRow(id, WriteOf(s));
    var rows := before + [row] + after;
    var i := |before|;
    assert rows[i] == row;
    assert RowKey(row) == s.selected;
    forall j | i < j < |rows|
      ensures RowKey(rows[j]) != RowKey(rows[i])
    {
      assert rows[j] == after[j - i - 1];
    }
    PageMapLastWins(rows, i);
    StoredImagesUnchangedIff(s.draft.images);
    var s' := OnPagesFetched(s, Some(rows)).state;
    assert s'.pages == PageMap(rows) && s'.pages[s.selected] == row;
    assert s'.draft == DraftOf(row);
    assert HasStoredId(s');
    NaNPreviewsAtZeroAfterReload(s, s');
  }

  /** A first save whose refetch fails leaves the page map as it was, so the
      next save inserts the same row again: a second row of the page type. */
  lemma FailedRefetchInsertsAgain(s: EditorState)
    requires s.selected != "" && !HasStoredId(s)
    ensures SaveEffects(s)[0] == InsertPage(WriteOf(s))
    ensures SaveEffects(OnPagesFetched(s, None).state) == SaveEffects(s)
  {
  }

  /** A NaN width previews without a width; stored as `null`, it previews
      at 0. */
  lemma NaNPreviewsAtZeroAfterReload(s: EditorState, s': EditorState)
    requires s'.draft.images == StoredImages(s.draft.images)
    ensures forall i :: 0 <= i < |s.draft.images| && s.draft.images[i].width == NaN ==>
      Preview(s).blocks[i].width == None && Preview(s').blocks[i].width == Some(0)
  {
  }

  // ---------------------------------------------------------------------
  // The live preview
  // ---------------------------------------------------------------------

  /** The preview width, `Math.min(width, 400)`: a number is capped at the
      preview ceiling and never widened, a `null` width counts as 0, and an
      absent or NaN width gives no usable width at all. */
  function PreviewWidth(w: Width): (r: Option<int>)
    ensures r.Some? <==> w.Px? || w.Null?
    ensures w.Px? ==> r.value <= MaxPreviewWidth && r.value <= w.px
    ensures w.Px? && w.px <= MaxPreviewWidth ==> r == Some(w.px)
    ensures w.Px? && w.px > MaxPreviewWidth ==> r == Some(MaxPreviewWidth)
    ensures w.Null? ==> r == Some(0)
  {
    match w
    case Px(n) => Some(Min(n, MaxPreviewWidth))
    case Null => Some(0)
    case Undefined => None
    case NaN => None
  }

  function PreviewBlock(key: string, img: ImageSpec): ImageBlock {
    ImageBlock(StorageKey(key, img.name), img.name, AlignOf(img.position), PreviewWidth(img.width))
  }

  /** The preview of the draft: a heading and body that are never empty, and
      one block per draft image in list order, keyed under the selected key,
      aligned by its position and no wider than the preview ceiling. */
  function Preview(s: EditorState): (r: Layout)
    ensures r.PageView? && r.heading != "" && r.body != ""
    ensures s.draft.title != "" ==> r.heading == s.draft.title
    ensures s.draft.title == "" ==> r.heading == PreviewHeading
    ensures s.draft.content != "" ==> r.body == s.draft.content
    ensures s.draft.content == "" ==> r.body == PreviewBody
    ensures |r.blocks| == |s.draft.images|
    ensures forall i :: 0 <= i < |r.blocks| ==>
      && r.blocks[i].key == StorageKey(s.selected, s.draft.images[i].name)
      && r.blocks[i].alt == s.draft.images[i].name
      && r.blocks[i].align == AlignOf(s.draft.images[i].position)
      && r.blocks[i].width == PreviewWidth(s.draft.images[i].width)
    ensures forall b :: b in r.blocks && b.width.Some? ==> b.width.value <= MaxPreviewWidth
  {
    var imgs := s.draft.images;
    PageView(
      OrElse(Some(s.draft.title), PreviewHeading),
      OrElse(Some(s.draft.content), PreviewBody),
      seq(|imgs|, i requires 0 <= i < |imgs| => PreviewBlock(s.selected, imgs[i])))
  }

  /** What staff see in the preview is what visitors see once the draft is
      saved: the same blocks in the same order, with the same object keys,
      alt texts and alignments, and a non-empty title as heading; the preview
      never shows an image wider than the public page does. */
  lemma PreviewMatchesPublic(s: EditorState, id: string)
    ensures var pre := Preview(s);
      var pub := RenderPage(s.selected, false, Some(InsertedRow(id, WriteOf(s))));
      && pub.PageView?
      && |pub.blocks| == |pre.blocks|
      && (forall i :: 0 <= i < |pre.blocks| ==>
            && pre.blocks[i].key == pub.blocks[i].key
            && pre.blocks[i].alt == pub.blocks[i].alt
            && pre.blocks[i].align == pub.blocks[i].align
            && (pre.blocks[i].width.Some? ==> pre.blocks[i].width.value <= pub.blocks[i].width.value))
      && (s.draft.title != "" ==> pre.heading == pub.heading == s.draft.title)
  {
  }

  /** A file uploaded in the editor is read back by the public page of the
      same page type under the very key it was written to. */
  lemma UploadReachesPublicPage(s: EditorState, name: string)
    requires s.selected != "" && s.selected in s.pages
    ensures var r := UploadImage(s, Some(name), false);
      var pub := RenderPage(s.selected, false, Some(InsertedRow("id", WriteOf(r.state))));
      && r.effects[0] == UploadObject(pub.blocks[|pub.blocks| - 1].key)
      && pub.blocks[|pub.blocks| - 1].alt == name
  {
  }

  /** The public page of a saved record shows one block per written image,
      with the image's name as alt text. */
  lemma PublicAltTexts(key: string, id: string, w: PageWrite)
    ensures var pub := RenderPage(key, false, Some(InsertedRow(id, w)));
      && |pub.blocks| == |w.images|
      && forall i :: 0 <= i < |w.images| ==> pub.blocks[i].alt == w.images[i].name
  {
    var stored := StoredImages(w.images);
    assert forall i :: 0 <= i < |w.images| ==> stored[i].name == w.images[i].name;
  }

  /** Blocks whose alt texts are the names of a list that lacks `name` show
      no block of that name. */
  lemma NoBlockNamed(blocks: seq<ImageBlock>, imgs: seq<ImageSpec>, name: string)
    requires |blocks| == |imgs|
    requires forall i :: 0 <= i < |imgs| ==> blocks[i].alt == imgs[i].name
    requires forall x :: x in imgs ==> x.name != name
    ensures forall b :: b in blocks ==> b.alt != name
  {
    forall b | b in blocks
      ensures b.alt != name
    {
      var i :| 0 <= i < |blocks| && blocks[i] == b;
      assert imgs[i] in imgs;
    }
  }

  /** A file removed in the editor appears neither in the preview nor, once
      saved, on the public page. */
  lemma RemovedImageNotRendered(s: EditorState, name: string, id: string)
    ensures var s' := RemoveImage(s, name).state;
      var pub := RenderPage(s.selected, false, Some(InsertedRow(id, WriteOf(s'))));
      && (forall b :: b in Preview(s').blocks ==> b.alt != name)
      && (forall b :: b in pub.blocks ==> b.alt != name)
  {
    var s' := RemoveImage(s, name).state;
    var imgs := s'.draft.images;
    NoBlockNamed(Preview(s').blocks, imgs, name);
    PublicAltTexts(s.selected, id, WriteOf(s'));
    NoBlockNamed(RenderPage(s.selected, false, Some(InsertedRow(id, WriteOf(s')))).blocks, imgs, name);
  }

  /** After selecting a page whose record id differs from its key, the
      listing is requested under the id while an upload is written under the
      key, so the uploaded object is not in that listing (for keys and ids
      without slashes). */
  lemma UploadNotListedUnderId(s: EditorState, name: string)
    requires s.selected != "" && s.selected in s.pages
    requires var id := IdText(s.pages[s.selected].id); '/' !in id && '/' !in s.selected && id != s.selected
    ensures var listed := Select(s, s.selected).effects[0].prefix;
      var written := UploadImage(s, Some(name), false).effects[0].key;
      !(listed <= written)
  {
    ListedIffSameFolder(s.selected, IdText(s.pages[s.selected].id), name);
  }
}
