/** The legacy staff editor: a list of page rows ordered by their `order`
    column, the current page, its title, content and menu tabs, and image
    uploads filed under the current row's id. */
module Legacy {
  import opened Common
  import opened Pages
  import opened Effects

  const NewPageTitle := "New Page"

  /** The legacy editor's state; `current` is None until a page is opened,
      `newLabel` is the text of the "new tab" input.

      Opening a row copies its tab list but not the tab records in it, so an
      edited label writes through to the row. `shared` is how many leading
      tabs are the very records of the current row's `menu_items`, and
      `openedAt` is the index in `pages` of the row record that is current,
      when it was opened from the list and the list was not fetched again
      since. */
  datatype LegacyState = LegacyState(
    pages: seq<PageRow>,
    current: Option<PageRow>,
    title: Option<string>,
    content: Option<string>,
    menuItems: seq<MenuItem>,
    newLabel: string,
    uploads: seq<string>,
    shared: nat,
    openedAt: Option<nat>)

  /** A new state together with the requests issued on the way to it. */
  datatype LegacyStep = LegacyStep(state: LegacyState, effects: seq<Effect>)

  /** The editor when first shown: no pages, no current page, empty fields. */
  const Initial := LegacyState([], None, Some(""), Some(""), [], "", [], 0, None)

  /** The record sharing the state claims: the shared tabs are the current
      row's tab list, and the row opened from the list is the current row. */
  predicate Consistent(s: LegacyState) {
    && s.shared <= |s.menuItems|
    && (s.shared > 0 ==> s.current.Some? && s.current.value.menuItems == Some(s.menuItems[..s.shared]))
    && (s.openedAt.Some? ==> s.openedAt.value < |s.pages| && s.current == Some(s.pages[s.openedAt.value]))
  }

  lemma InitialConsistent()
    ensures Consistent(Initial)
  {
  }

  // ---------------------------------------------------------------------
  // Menu tabs
  // ---------------------------------------------------------------------

  /** Adding a tab: with an empty label nothing changes; otherwise a fresh
      tab with that label and an empty link goes at the end of a copied list,
      every earlier tab is kept, and the label input is cleared. */
  function AddMenuItem(s: LegacyState): (r: LegacyState)
    ensures s.newLabel == "" ==> r == s
    ensures s.newLabel != "" ==> r.menuItems == s.menuItems + [MenuItem(s.newLabel, "")]
    ensures r.newLabel == ""
    ensures r.(menuItems := s.menuItems, newLabel := s.newLabel) == s
    ensures Consistent(s) ==> Consistent(r)
  {
    if s.newLabel == "" then s
    else
      var tabs := s.menuItems + [MenuItem(s.newLabel, "")];
      assert s.shared <= |s.menuItems| ==> tabs[..s.shared] == s.menuItems[..s.shared];
      s.(menuItems := tabs, newLabel := "")
  }

  /** Pressing "add" twice adds one tab: the first press clears the label. */
  lemma AddMenuItemOnce(s: LegacyState)
    ensures AddMenuItem(AddMenuItem(s)) == AddMenuItem(s)
    ensures s.menuItems <= AddMenuItem(s).menuItems
  {
  }

  /** A row with the label of its tab `i` set to `text`, when it has one. */
  function RowRelabelled(row: PageRow, i: nat, text: string): PageRow {
    if row.menuItems.Some? && i < |row.menuItems.value| then
      var tabs := row.menuItems.value;
      row.(menuItems := Some(tabs[i := tabs[i].(text := text)]))
    else row
  }

  /** Editing the label of tab `i`: the list is copied, that tab gets the
      text and every other tab and the count stay as they were. The tab
      record itself is edited in place, so when it is one of the current
      row's tabs the current row, and the list entry it was opened from,
      carry the new label too; nothing else changes. */
  function RelabelMenuItem(s: LegacyState, i: nat, text: string): (r: LegacyState)
    requires i < |s.menuItems|
    ensures |r.menuItems| == |s.menuItems|
    ensures r.menuItems[i] == MenuItem(text, s.menuItems[i].link)
    ensures forall j :: 0 <= j < |r.menuItems| && j != i ==> r.menuItems[j] == s.menuItems[j]
    ensures r.(menuItems := s.menuItems, pages := s.pages, current := s.current) == s
    ensures i >= s.shared ==> r.(menuItems := s.menuItems) == s
    ensures |r.pages| == |s.pages|
    ensures forall k :: 0 <= k < |s.pages| && s.openedAt != Some(k) ==> r.pages[k] == s.pages[k]
    ensures Consistent(s) ==> Consistent(r)
    ensures Consistent(s) && i < s.shared ==> r.current.value.menuItems == Some(r.menuItems[..s.shared])
    ensures Consistent(s) && i < s.shared ==>
      r.current == Some(s.current.value.(menuItems := Some(r.menuItems[..s.shared])))
    ensures Consistent(s) && i < s.shared && s.openedAt.Some? ==> r.pages[s.openedAt.value] == r.current.value
  {
    var tabs := s.menuItems[i := s.menuItems[i].(text := text)];
    if i < s.shared then
      var pages := if s.openedAt.Some? && s.openedAt.value < |s.pages|
        then s.pages[s.openedAt.value := RowRelabelled(s.pages[s.openedAt.value], i, text)]
        else s.pages;
      var current := if s.current.Some? then Some(RowRelabelled(s.current.value, i, text)) else None;
      assert Consistent(s) ==> tabs[..s.shared] == s.menuItems[..s.shared][i := s.menuItems[i].(text := text)];
      s.(menuItems := tabs, pages := pages, current := current)
    else
      assert tabs[..s.shared] == s.menuItems[..s.shared];
      s.(menuItems := tabs)
  }

  // ---------------------------------------------------------------------
  // Loading, saving, creating
  // ---------------------------------------------------------------------

  /** Opening a row: it becomes current, its title and content are copied
      as stored (no fallback), its menu tabs default to none (the tab records
      are the row's own), and the storage folder named by its id is listed. */
  function LoadPage(s: LegacyState, page: PageRow): (r: LegacyStep)
    ensures r.state.current == Some(page)
    ensures r.state.title == page.title && r.state.content == page.content
    ensures page.menuItems.Some? ==> r.state.menuItems == page.menuItems.value
    ensures page.menuItems.None? ==> r.state.menuItems == []
    ensures r.state.pages == s.pages && r.state.newLabel == s.newLabel && r.state.uploads == s.uploads
    ensures r.state.shared == |r.state.menuItems| && r.state.openedAt == None
    ensures r.effects == [ListObjects(ListPrefix(IdText(page.id)))]
    ensures Consistent(r.state)
  {
    var tabs := OrEmpty(page.menuItems);
    assert tabs[..|tabs|] == tabs;
    LegacyStep(
      s.(current := Some(page), title := page.title, content := page.content, menuItems := tabs,
         shared := |tabs|, openedAt := None),
      [ListObjects(ListPrefix(IdText(page.id)))])
  }

  /** Opening entry `j` of the page list from the sidebar: a load of that
      row, which stays the same record as the list entry. */
  function OpenListed(s: LegacyState, j: nat): (r: LegacyStep)
    requires j < |s.pages|
    ensures r.state == LoadPage(s, s.pages[j]).state.(openedAt := Some(j))
    ensures r.effects == [ListObjects(ListPrefix(IdText(s.pages[j].id)))]
    ensures Consistent(r.state)
  {
    var step := LoadPage(s, s.pages[j]);
    LegacyStep(step.state.(openedAt := Some(j)), step.effects)
  }

  /** A save: without a current page nothing is requested; otherwise only the
      title, content and menu tabs are written, to the current row's id, and
      the ordered list is fetched again. */
  function SavePage(s: LegacyState): (r: seq<Effect>)
    ensures s.current.None? <==> r == []
    ensures s.current.Some? ==> |r| == 2 && r[1] == SelectPagesByOrder
    ensures s.current.Some? ==> r[0].UpdateLegacyPage? && r[0].id == IdText(s.current.value.id)
    ensures s.current.Some? ==> r[0].patch == LegacyPatch(s.title, s.content, s.menuItems)
  {
    if s.current.None? then []
    else [UpdateLegacyPage(IdText(s.current.value.id), LegacyPatch(s.title, s.content, s.menuItems)), SelectPagesByOrder]
  }

  /** Saving a row right after opening it writes back its own title and
      content as stored and its tabs (none when it had none) to its own id. */
  lemma SaveAfterLoad(s: LegacyState, page: PageRow)
    ensures SavePage(LoadPage(s, page).state) ==
      [UpdateLegacyPage(IdText(page.id), LegacyPatch(page.title, page.content, OrEmpty(page.menuItems))), SelectPagesByOrder]
  {
  }

  /** An edited tab label shows again when its row is reopened from the list
      without saving, whatever row was opened in between: the edit wrote
      through to the row record the list holds. */
  lemma RelabelShowsOnReopen(s: LegacyState, j: nat, k: nat, i: nat, text: string)
    requires j < |s.pages| && k < |s.pages|
    requires i < |OrEmpty(s.pages[j].menuItems)|
    ensures var s1 := OpenListed(s, j).state;
      var s2 := RelabelMenuItem(s1, i, text);
      var s4 := OpenListed(OpenListed(s2, k).state, j).state;
      i < |s4.menuItems| && s4.menuItems[i] == MenuItem(text, s1.menuItems[i].link)
  {
    var s1 := OpenListed(s, j).state;
    var s2 := RelabelMenuItem(s1, i, text);
    assert s2.pages[j] == s2.current.value;
    assert s2.current.value.menuItems == Some(s2.menuItems[..s1.shared]);
  }

  /** A tab added and not saved is gone when its row is reopened from the
      list: the added tab is a new record in a copied list. */
  lemma AddedTabLostOnReopen(s: LegacyState, j: nat)
    requires j < |s.pages|
    ensures var s1 := OpenListed(s, j).state;
      OpenListed(AddMenuItem(s1), j).state.menuItems == s1.menuItems
  {
  }

  /** An upload of `file` whose storage write `failed` or not: without a file
      or a current page nothing is requested; otherwise the object is written
      under the current row's id and, on success, that folder is listed. */
  function UploadImage(s: LegacyState, file: Option<string>, failed: bool): (r: seq<Effect>)
    ensures file.None? || s.current.None? <==> r == []
    ensures r != [] ==> r[0] == UploadObject(StorageKey(IdText(s.current.value.id), file.value))
    ensures r != [] ==> |r| == if failed then 1 else 2
    ensures r != [] && !failed ==> r[1] == ListObjects(ListPrefix(IdText(s.current.value.id)))
  {
    if file.None? || s.current.None? then []
    else
      var folder := IdText(s.current.value.id);
      if failed then [UploadObject(StorageKey(folder, file.value))]
      else [UploadObject(StorageKey(folder, file.value)), ListObjects(ListPrefix(folder))]
  }

  /** The reply to a storage listing: on success the listing is replaced
      (a missing list counts as empty); on an error nothing changes. */
  function OnUploadsListed(s: LegacyState, failed: bool, data: Option<seq<string>>): (r: LegacyState)
    ensures failed ==> r == s
    ensures !failed ==> r.uploads == OrEmpty(data) && r.(uploads := s.uploads) == s
    ensures Consistent(s) ==> Consistent(r)
  {
    if failed then s else s.(uploads := OrEmpty(data))
  }

  /** Removing a file: without a current page nothing is requested; otherwise
      the object under the current row's id is deleted and the folder listed. */
  function RemoveImage(s: LegacyState, name: string): (r: seq<Effect>)
    ensures s.current.None? <==> r == []
    ensures s.current.Some? ==> r == [
      RemoveObjects([StorageKey(IdText(s.current.value.id), name)]),
      ListObjects(ListPrefix(IdText(s.current.value.id)))]
  {
    if s.current.None? then []
    else
      var folder := IdText(s.current.value.id);
      [RemoveObjects([StorageKey(folder, name)]), ListObjects(ListPrefix(folder))]
  }

  /** Removing a file deletes exactly the object an upload of it wrote, and
      lists the same folder a successful upload lists. */
  lemma RemoveDeletesUploadedObject(s: LegacyState, name: string, failed: bool)
    requires s.current.Some?
    ensures RemoveImage(s, name)[0] == RemoveObjects([UploadImage(s, Some(name), failed)[0].key])
    ensures RemoveImage(s, name)[1] == UploadImage(s, Some(name), false)[1]
  {
  }

  /** The legacy editor files images by row id and the public page reads them
      by page type, so a legacy upload is written under the key the public
      page of type `t` would read exactly when the row's id is `t`. */
  lemma LegacyUploadKeyIffIdIsType(s: LegacyState, name: string, t: string)
    requires s.current.Some?
    ensures UploadImage(s, Some(name), false)[0].key == StorageKey(t, name) <==> IdText(s.current.value.id) == t
  {
    var id := IdText(s.current.value.id);
    if StorageKey(id, name) == StorageKey(t, name) {
      StorageKeyFolderInjective(id, t, name);
    }
  }

  /** Creating a page: a row titled "New Page" with empty content and an
      order one past the number of listed pages is inserted, and the ordered
      list is fetched again. */
  function CreatePage(s: LegacyState): (r: seq<Effect>)
    ensures |r| == 2 && r[1] == SelectPagesByOrder
    ensures r[0] == InsertNewPage(NewPage(NewPageTitle, "", |s.pages| + 1))
    ensures r[0].page.order > |s.pages|
  {
    [InsertNewPage(NewPage(NewPageTitle, "", |s.pages| + 1)), SelectPagesByOrder]
  }

  /** The reply of the insert: the returned row, if there is one, is opened
      with its title, content and tabs; it is a record of its own, not an
      entry of the list. */
  function OnPageCreated(s: LegacyState, data: Option<PageRow>): (r: LegacyStep)
    ensures data.None? ==> r == LegacyStep(s, [])
    ensures data.Some? ==> r == LoadPage(s, data.value)
    ensures data.Some? ==> r.state.current == data && r.effects == [ListObjects(ListPrefix(IdText(data.value.id)))]
    ensures data.Some? ==> r.state.title == data.value.title && r.state.content == data.value.content
    ensures data.Some? ==> r.state.menuItems == OrEmpty(data.value.menuItems) && r.state.openedAt.None?
    ensures Consistent(s) ==> Consistent(r.state)
  {
    if data.Some? then LoadPage(s, data.value) else LegacyStep(s, [])
  }

  /** Once a session is stored, the ordered list is fetched; without one,
      nothing. */
  function FetchOnSession(session: Option<string>): (r: seq<Effect>)
    ensures session.Some? <==> r == [SelectPagesByOrder]
    ensures session.None? <==> r == []
  {
    if session.Some? then [SelectPagesByOrder] else []
  }

  /** The reply of the ordered fetch (None: an error or no data): the list is
      replaced by fresh records on success, so no entry is the current row
      any more; on an error the list is kept. */
  function OnPagesFetched(s: LegacyState, reply: Option<seq<PageRow>>): (r: LegacyState)
    ensures reply.None? ==> r == s
    ensures reply.Some? ==> r.pages == reply.value && r.openedAt.None?
    ensures reply.Some? ==> r.(pages := s.pages, openedAt := s.openedAt) == s
    ensures Consistent(s) ==> Consistent(r)
  {
    if reply.Some? then s.(pages := reply.value, openedAt := None) else s
  }

  // ---------------------------------------------------------------------
  // The ordered fetch: ascending `order`, rows without an order last
  // ---------------------------------------------------------------------

  /** Row `a` may come before row `b` in ascending `order` with nulls last. */
  predicate OrderBefore(a: PageRow, b: PageRow) {
    match a.order
    case None => b.order.None?
    case Some(x) => b.order.None? || x <= b.order.value
  }

  predicate SortedByOrder(rows: seq<PageRow>) {
    forall i, j :: 0 <= i < j < |rows| ==> OrderBefore(rows[i], rows[j])
  }

  /** Places `x` before the first row it may precede. */
  function InsertByOrder(x: PageRow, rows: seq<PageRow>): (r: seq<PageRow>)
    requires SortedByOrder(rows)
    ensures SortedByOrder(r)
    ensures multiset(r) == multiset(rows) + multiset{x}
  {
    if |rows| == 0 then [x]
    else if OrderBefore(x, rows[0]) then
      assert rows == [rows[0]] + rows[1..];
      [x] + rows
    else
      var rest := InsertByOrder(x, rows[1..]);
      assert rows == [rows[0]] + rows[1..];
      assert forall y :: y in rest ==> y == x || y in rows[1..] by {
        forall y | y in rest
          ensures y == x || y in rows[1..]
        {
          assert y in multiset(rest);
        }
      }
      assert forall y :: y in rest ==> OrderBefore(rows[0], y);
      var r := [rows[0]] + rest;
      assert forall j :: 0 < j < |r| ==> r[j] == rest[j - 1] && r[j] in rest;
      r
  }

  /** The rows in the order the ordered fetch returns them: ascending by
      `order`, rows without an order last, and nothing lost or added. */
  function SortByOrder(rows: seq<PageRow>): (r: seq<PageRow>)
    ensures SortedByOrder(r)
    ensures multiset(r) == multiset(rows)
    ensures |r| == |rows|
  {
    if |rows| == 0 then []
    else
      assert rows == [rows[0]] + rows[1..];
      InsertByOrder(rows[0], SortByOrder(rows[1..]))
  }

  /** The row an insert of `p` yields once the table assigns `id`. */
  function CreatedRow(id: string, p: NewPage): PageRow {
    PageRow(Some(id), None, Some(p.title), Some(p.content), None, None, Some(p.order))
  }

  /** When every listed page is numbered within 1..n (n pages), the page
      created next (numbered n + 1) is listed after all of them. */
  lemma CreatedPageListedLast(s: LegacyState, id: string)
    requires forall p :: p in s.pages ==> p.order.Some? && p.order.value <= |s.pages|
    ensures var created := CreatedRow(id, CreatePage(s)[0].page);
      SortByOrder(s.pages + [created]) == SortByOrder(s.pages) + [created]
  {
    var created := CreatedRow(id, CreatePage(s)[0].page);
    SortLastAfterAll(s.pages, created);
  }

  /** A value at two different positions of a list occurs in it at least
      twice. */
  lemma TwiceCounted<T>(r: seq<T>, i: int, j: int)
    requires 0 <= i < j < |r| && r[i] == r[j]
    ensures multiset(r)[r[i]] >= 2
  {
    assert r == r[..i] + [r[i]] + r[i + 1..j] + [r[j]] + r[j + 1..];
  }

  /** When every listed page that has an order is numbered at most n (n
      pages), the created page (numbered n + 1) is listed after every page
      that has an order and before every page without one, such as the rows
      the site editor inserts. */
  lemma CreatedPageBeforeUnordered(s: LegacyState, id: string)
    requires forall p :: p in s.pages && p.order.Some? ==> p.order.value <= |s.pages|
    ensures var created := CreatedRow(id, CreatePage(s)[0].page);
      var r := SortByOrder(s.pages + [created]);
      && created in r
      && forall c :: 0 <= c < |r| && r[c] == created ==>
        && (forall j :: 0 <= j < c ==> r[j].order.Some?)
        && (forall j :: c < j < |r| ==> r[j].order.None?)
  {
    var created := CreatedRow(id, CreatePage(s)[0].page);
    var rows := s.pages + [created];
    var r := SortByOrder(rows);
    assert created !in s.pages;
    assert multiset(rows) == multiset(s.pages) + multiset{created};
    assert multiset(rows)[created] == 1;
    assert created in multiset(r);
    forall c | 0 <= c < |r| && r[c] == created
      ensures forall j :: 0 <= j < c ==> r[j].order.Some?
      ensures forall j :: c < j < |r| ==> r[j].order.None?
    {
      forall j | 0 <= j < c
        ensures r[j].order.Some?
      {
        assert OrderBefore(r[j], r[c]);
      }
      forall j | c < j < |r|
        ensures r[j].order.None?
      {
        assert OrderBefore(r[c], r[j]);
        assert r[j] in multiset(rows);
        if r[j] == created {
          TwiceCounted(r, c, j);
        }
        assert r[j] in s.pages;
      }
    }
  }

  /** Sorting a list whose last row is ordered strictly after all others
      sorts the others and puts that row last. */
  lemma {:induction false} SortLastAfterAll(rows: seq<PageRow>, x: PageRow)
    requires forall y :: y in rows ==> !OrderBefore(x, y)
    ensures SortByOrder(rows + [x]) == SortByOrder(rows) + [x]
  {
    if |rows| == 0 {
      assert rows + [x] == [x];
    } else {
      var t := rows + [x];
      assert t[0] == rows[0];
      assert t[1..] == rows[1..] + [x];
      assert rows[0] in rows;
      SortLastAfterAll(rows[1..], x);
      var sorted := SortByOrder(rows[1..]);
      forall y | y in sorted
        ensures !OrderBefore(x, y)
      {
        assert y in multiset(sorted);
      }
      assert !OrderBefore(x, rows[0]);
      InsertOfLast(rows[0], sorted, x);
    }
  }

  /** When `x` is ordered strictly after `y`, inserting `y` into a sorted
      list that ends in `x` is inserting it into the list without `x` and
      then appending `x`. */
  lemma {:induction false} InsertOfLast(y: PageRow, sorted: seq<PageRow>, x: PageRow)
    requires SortedByOrder(sorted)
    requires SortedByOrder(sorted + [x])
    requires !OrderBefore(x, y)
    ensures InsertByOrder(y, sorted + [x]) == InsertByOrder(y, sorted) + [x]
  {
    if |sorted| == 0 {
      assert OrderBefore(y, x);
      assert [y] + [x] == [y, x];
    } else {
      var t := sorted + [x];
      assert t[0] == sorted[0];
      assert t[1..] == sorted[1..] + [x];
      if !OrderBefore(y, sorted[0]) {
        assert SortedByOrder(sorted[1..]);
        assert SortedByOrder(sorted[1..] + [x]) by {
          assert sorted[1..] + [x] == t[1..];
        }
        InsertOfLast(y, sorted[1..], x);
      }
    }
  }
}
