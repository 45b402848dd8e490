/** The page record, the layout spec of one image, the object-storage key
    layout, and the key-to-record map the editor builds from fetched rows. */
module Pages {
  import opened Common

  /** A width as JavaScript holds it: a number, `null` (as a stored row may
      carry it), absent (`undefined`), or NaN (what `parseInt` gives for an
      emptied width field). The four behave differently under `||`,
      `Math.min` and a JSON write, so none is merged into another. */
  datatype Width = Px(px: int) | Null | Undefined | NaN

  /** One image's placement on a page; `position` is free text, since stored
      rows may hold any value. */
  datatype ImageSpec = ImageSpec(name: string, width: Width, position: string)

  /** The width a row holds after a JSON write of it: NaN is written as
      `null`, every other width (an absent one stays absent) is kept. */
  function StoredWidth(w: Width): (r: Width)
    ensures r != NaN
    ensures w != NaN <==> r == w
    ensures w == NaN ==> r == Null
  {
    if w == NaN then Null else w
  }

  /** The image list a row holds after a JSON write of `images`: the same
      entries in the same order with each width as stored. */
  function StoredImages(images: seq<ImageSpec>): (r: seq<ImageSpec>)
    ensures |r| == |images|
    ensures forall i :: 0 <= i < |r| ==>
      r[i].name == images[i].name && r[i].position == images[i].position && r[i].width == StoredWidth(images[i].width)
  {
    seq(|images|, i requires 0 <= i < |images| => images[i].(width := StoredWidth(images[i].width)))
  }

  /** A JSON write gives the image list back unchanged exactly when no width
      in it is NaN. */
  lemma StoredImagesUnchangedIff(images: seq<ImageSpec>)
    ensures StoredImages(images) == images <==> forall i :: 0 <= i < |images| ==> images[i].width != NaN
  {
    var r := StoredImages(images);
    if forall i :: 0 <= i < |images| ==> images[i].width != NaN {
      assert forall i :: 0 <= i < |images| ==> r[i] == images[i];
    }
    if r == images {
      forall i | 0 <= i < |images|
        ensures images[i].width != NaN
      {
        assert r[i].width == images[i].width;
      }
    }
  }

  /** One tab of the legacy editor's menu; `text` holds the stored tab's
      `label` field (`label` is a Dafny keyword). */
  datatype MenuItem = MenuItem(text: string, link: string)

  /** One row of the `pages` table. Every column may be null. */
  datatype PageRow = PageRow(
    id: Option<string>,
    pageType: Option<string>,
    title: Option<string>,
    content: Option<string>,
    images: Option<seq<ImageSpec>>,
    menuItems: Option<seq<MenuItem>>,
    order: Option<int>)

  /** The text an id yields as an object key or in a template literal: a
      null id reads "null". */
  function IdText(id: Option<string>): string {
    if id.Some? then id.value else "null"
  }

  /** The key under which the editor files a fetched row: `page_type || id`. */
  function RowKey(row: PageRow): string {
    OrElse(row.pageType, IdText(row.id))
  }

  // ---------------------------------------------------------------------
  // Object-storage keys
  // ---------------------------------------------------------------------

  const StorageRoot := "pages/"

  /** The folder listed for a page: `pages/{folder}/`. */
  function ListPrefix(folder: string): string {
    StorageRoot + folder + "/"
  }

  /** The object key of one image: `pages/{folder}/{name}`. It lies under the
      folder's listing prefix, and the name is its tail. */
  function StorageKey(folder: string, name: string): (k: string)
    ensures ListPrefix(folder) <= k
    ensures k[|ListPrefix(folder)|..] == name
  {
    ListPrefix(folder) + name
  }

  /** Distinct names in one folder never share an object key. */
  lemma StorageKeyInjective(folder: string, a: string, b: string)
    requires StorageKey(folder, a) == StorageKey(folder, b)
    ensures a == b
  {
    var n := |ListPrefix(folder)|;
    assert a == StorageKey(folder, a)[n..];
  }

  /** One file name in two folders gives one key only when the folders are
      the same (slashes in the folder names do not matter here). */
  lemma StorageKeyFolderInjective(f1: string, f2: string, name: string)
    requires StorageKey(f1, name) == StorageKey(f2, name)
    ensures f1 == f2
  {
    var k := StorageKey(f1, name);
    assert |f1| == |f2|;
    assert f1 == k[6..6 + |f1|];
    assert f2 == k[6..6 + |f2|];
  }

  /** If a key of folder `f1` lies under the listing prefix of folder `f2`,
      and neither folder name contains a slash, the folders are the same. */
  lemma PrefixDeterminesFolder(f1: string, f2: string, name: string)
    requires '/' !in f1 && '/' !in f2
    requires ListPrefix(f2) <= StorageKey(f1, name)
    ensures f1 == f2
  {
    var p := ListPrefix(f2);
    var k := StorageKey(f1, name);
    assert forall j :: 6 <= j < 6 + |f1| ==> k[j] == f1[j - 6] != '/';
    assert forall j :: 6 <= j < 6 + |f2| ==> p[j] == f2[j - 6] != '/';
    assert k[6 + |f2|] == p[6 + |f2|] == '/';
    assert |f2| >= |f1|;
    assert k[6 + |f1|] == '/';
    assert |f1| >= |f2|;
    forall i | 0 <= i < |f1|
      ensures f1[i] == f2[i]
    {
      assert k[6 + i] == f1[i];
      assert p[6 + i] == f2[i];
    }
  }

  /** A folder listing shows an object exactly when the object was stored
      under that same folder (for folder names without slashes). */
  lemma ListedIffSameFolder(stored: string, listed: string, name: string)
    requires '/' !in stored && '/' !in listed
    ensures ListPrefix(listed) <= StorageKey(stored, name) <==> stored == listed
  {
    if ListPrefix(listed) <= StorageKey(stored, name) {
      PrefixDeterminesFolder(stored, listed, name);
    }
  }

  // ---------------------------------------------------------------------
  // Alignment
  // ---------------------------------------------------------------------

  datatype Align = Left | Center | Right

  /** The horizontal alignment of an image: "center" and "right" are
      recognised, every other position text falls back to left. */
  function AlignOf(position: string): (a: Align)
    ensures a == Center <==> position == "center"
    ensures a == Right <==> position == "right"
    ensures a == Left <==> position != "center" && position != "right"
  {
    if position == "center" then Center
    else if position == "right" then Right
    else Left
  }

  // ---------------------------------------------------------------------
  // The key-to-record map built from a fetch of every row
  // ---------------------------------------------------------------------

  /** Files each row under its RowKey, in list order, so that a later row with
      the same key replaces an earlier one. The keys are exactly the rows'
      keys, and every value is one of the rows. */
  function PageMap(rows: seq<PageRow>): (m: map<string, PageRow>)
    ensures forall k :: k in m <==> exists i :: 0 <= i < |rows| && RowKey(rows[i]) == k
    ensures forall k :: k in m ==> m[k] in rows
  {
    if |rows| == 0 then map[]
    else
      var init := rows[..|rows| - 1];
      var last := rows[|rows| - 1];
      assert forall i :: 0 <= i < |init| ==> init[i] == rows[i];
      PageMap(init)[RowKey(last) := last]
  }

  /** The map holds, under a row's key, that row whenever no later row has
      the same key: later rows overwrite earlier ones. */
  lemma {:induction false} PageMapLastWins(rows: seq<PageRow>, i: int)
    requires 0 <= i < |rows|
    requires forall j :: i < j < |rows| ==> RowKey(rows[j]) != RowKey(rows[i])
    ensures RowKey(rows[i]) in PageMap(rows)
    ensures PageMap(rows)[RowKey(rows[i])] == rows[i]
  {
    if i < |rows| - 1 {
      var init := rows[..|rows| - 1];
      assert init[i] == rows[i];
      forall j | i < j < |init|
        ensures RowKey(init[j]) != RowKey(init[i])
      {
        assert init[j] == rows[j];
      }
      PageMapLastWins(init, i);
      assert RowKey(rows[|rows| - 1]) != RowKey(rows[i]);
    }
  }
}
