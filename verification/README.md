# Page-content editing model

This project is a Dafny model of the page-content core of a small marketing site with a staff-only
content editor. It covers three parts:

- **The site editor** (`Editor`, from `src/Pages/staffHome.jsx`). Staff pick a page key from a fixed
  catalog. The editor files every fetched row of the `pages` table by key and loads a draft
  (title, content, ordered image specs `{name, width, position}`). Uploads, removals and layout edits
  change that draft. A save updates the stored row or inserts a new one. A live preview renders the
  draft.
- **The public page view** (`Render`, from `src/Components/PageRenderer.jsx`). This is a pure
  function from the fetched row of a page type to a layout: heading and body with fallbacks, then
  one image block per spec in list order. Alignment falls back to left, and the width is defaulted
  and capped.
- **The legacy editor and the sign-in gate** (`Legacy` and `Auth`, from `src/Pages/staff.jsx`). They
  cover menu-tab editing, page creation with an explicit `order`, and saves and uploads keyed by the
  current row's id. They also cover the sign-in/sign-up outcome and the session-driven redirects
  between the sign-in screen (`/staff`) and the editor (`/staffHome`).

The components talk to a hosted database, object store and identity service. In the model each
handler is a pure function. It returns the requests it would issue as `Effects.Effect` values:
storage list/upload/remove, table select/insert/update, and navigation. The collaborators' replies
(rows, error flags, sessions) come back as parameters of the handler that consumes them. Absent
JavaScript values (`null`/`undefined`) are `Common.Option`. The code's `x || fallback` is
`Common.OrElse`, where an empty string counts as missing. A null id used as a key or in a storage
path reads "null". An image width is `Pages.Width`: a number, `null`, absent or NaN. These four
behave differently under `||`, `Math.min` and a JSON write.

Modules, leaves first: `Common` (common.dfy), `Pages` (pages.dfy: the row, the image spec, storage
keys, alignment, the key-to-row map), `Effects` (effects.dfy), `Render` (render.dfy), `Editor`
(editor.dfy), `Legacy` (legacy.dfy) and `Auth` (auth.dfy).

Behaviour kept as the code has it:

- An upload appends a fresh `{name, 300, "center"}` entry even when the name is already listed.
- The preview caps widths at 400 and gives no default. A `null` width previews at 0. An absent or
  NaN width gives no usable width. The public page caps at 600 and shows a zero, null, absent or
  NaN width as 300. `Editor.PreviewMatchesPublic` proves that the preview is never wider than the
  public page.
- Clearing a width field puts NaN in the draft. A save writes it as `null`, so after the refetch
  the same image previews at width 0 instead of without a width (`Editor.SecondSaveUpdates`).
- The site editor writes uploads under the page key but lists the folder named by the row id after
  a load. `Editor.UploadNotListedUnderId` proves the upload is then missing from that listing.
  The legacy editor files images under the row id. The public page reads them under the page type,
  so `Legacy.LegacyUploadKeyIffIdIsType` holds. The legacy editor never adds an `images` entry
  itself. Its upload shows on a public page only when the row's id is that page's type and the
  page's image list already names the file.
- The public page asks for exactly one row of its page type. Two rows of the same type make it
  render "Page not found" (`Render.DuplicatePageTypeNotFound`). Two racing first saves can create
  such a duplicate, and so can a first save whose refetch fails: the page map keeps no id, so the
  next save inserts again (`Editor.FailedRefetchInsertsAgain`).
- The sign-in screen leaves for the editor whenever it stores a session, so its own page editor is
  never shown (`Auth.LegacyEditorNeverShown`). The legacy editor's handlers are modelled as
  written, but in the routed app that editor cannot be reached.
- The site editor's inserts carry no `order`, and the legacy list sorts rows without an order
  last. A page the legacy editor creates is therefore listed before every site-editor row
  (`Legacy.CreatedPageBeforeUnordered`).
- A legacy tab edit copies the tab list but edits the tab record in place. The label therefore
  writes through to the row the tabs came from, and it shows again when that row is reopened
  without saving (`Legacy.RelabelShowsOnReopen`). A tab that was added and not saved is lost on
  reopening (`Legacy.AddedTabLostOnReopen`).

## Model

| member | source | states |
|---|---|---|
| Pages.PageMap | src/Pages/staffHome.jsx:62-69 | the map's keys are exactly the rows' `page_type \|\| id` keys, and every value is one of the fetched rows |
| Pages.PageMapLastWins | src/Pages/staffHome.jsx:64-68 | under a row's key the map holds that row whenever no later row has the same key: later rows overwrite earlier ones |
| Pages.StorageKey | src/Components/PageRenderer.jsx:33 | an image key `pages/{folder}/{name}` lies under the folder's listing prefix and ends in the file name |
| Pages.StorageKeyInjective | src/Pages/staffHome.jsx:107 | two different file names in one folder never share an object key |
| Pages.StorageKeyFolderInjective | src/Pages/staff.jsx:93 | one file name in two different folders never gives one object key |
| Pages.StoredWidth | src/Pages/staffHome.jsx:149-155 | a JSON write stores a NaN width as `null` and keeps every other width, an absent one staying absent |
| Pages.StoredImages | src/Pages/staffHome.jsx:149-155 | the stored image list has the same entries in the same order, with names and positions kept and each width as stored |
| Pages.StoredImagesUnchangedIff | src/Pages/staffHome.jsx:149-155 | the image list comes back from a write unchanged exactly when none of its widths is NaN |
| Pages.ListedIffSameFolder | src/Pages/staffHome.jsx:98 | for folder names without slashes, a listing of folder B shows an object stored under folder A exactly when A = B |
| Pages.AlignOf | src/Components/PageRenderer.jsx:56 | "center" aligns center and "right" aligns right, each in both directions; every other position aligns left |
| Render.DisplayWidth | src/Components/PageRenderer.jsx:63 | the public width is never above 600; a zero, null, absent or NaN width shows as 300; a non-zero number is never widened, is kept up to 600 and becomes 600 above it |
| Render.RenderPage | src/Components/PageRenderer.jsx:37-78 | loading wins; a missing row gives "Page not found"; otherwise the heading and body are never empty, a non-empty title/content is shown as stored, and an empty or missing one shows "Untitled Page"/"No content available"; there is one block per image spec in list order (none when the list is absent or empty), keyed `pages/{pageType}/{name}`, aligned by position, no wider than 600 |
| Render.OfType | src/Components/PageRenderer.jsx:18 | the filter keeps exactly the rows whose `page_type` equals the requested type, each as often as the table holds it, in table order, and no other row |
| Render.SelectSingle | src/Components/PageRenderer.jsx:15-19 | the single-row query yields a row exactly when the store answers and exactly one row has the type; that row is from the table and has the type |
| Render.FetchedPage | src/Components/PageRenderer.jsx:21-25 | the page data is kept only when the reply has no error and carries a row; otherwise it is cleared |
| Render.DuplicatePageTypeNotFound | src/Components/PageRenderer.jsx:15-43 | two rows with the same page type make that public page render "Page not found" |
| Render.UniquePageTypeRendered | src/Components/PageRenderer.jsx:15-43 | when exactly one row has the page type, the query returns that row and the page renders it |
| Editor.AppendUpload | src/Pages/staffHome.jsx:114-121 | an upload adds exactly one `{name, 300, "center"}` entry at the end, keeps every earlier entry, and does not replace an existing entry of that name: the name occurs once more |
| Editor.WithoutImage | src/Pages/staffHome.jsx:132 | removal keeps exactly the entries whose name differs, as a subsequence in original order, dropping as many entries as carried the name |
| Editor.Reposition | src/Pages/staffHome.jsx:137-141 | a layout edit keeps length, order and names; it changes only the edited field of entries with the given name, and every other entry is identical |
| Editor.RemoveUndoesUpload | src/Pages/staffHome.jsx:114-132 | removing a file after uploading it gives the same list as removing it without the upload |
| Editor.RemoveIdempotent | src/Pages/staffHome.jsx:132 | removing the same file twice is removing it once |
| Editor.RemoveAfterReposition | src/Pages/staffHome.jsx:132-141 | editing a file's layout and then removing it is the same as removing it |
| Editor.DraftOf | src/Pages/staffHome.jsx:86-90 | loading copies a present title, content and image list as stored and turns an absent one into an empty string or empty list |
| Editor.Select | src/Pages/staffHome.jsx:188-199 | selecting a key with a record loads the draft from it and lists the folder named by the record's id; without a record, title, content, images and uploads reset to empty and nothing is requested |
| Editor.FetchOnSession | src/Pages/staffHome.jsx:52-54 | every row is fetched exactly when a session is stored |
| Editor.OnPagesFetched | src/Pages/staffHome.jsx:56-84 | on an error nothing changes; otherwise the map is the `PageMap` of the rows (keys exactly the rows' keys, the last row of a key winning, by `Pages.PageMapLastWins`), and the selected page is reloaded from it, listing the folder named by its id, or reset with nothing requested when its key has no record |
| Editor.OnUploadsListed | src/Pages/staffHome.jsx:94-100 | a successful listing replaces the uploads (a missing list counts as empty); a failed one changes nothing |
| Editor.UploadImage | src/Pages/staffHome.jsx:102-126 | without a file or a selected key nothing happens; otherwise the object is written under the selected key and re-listed on success; the image list changes exactly when the upload succeeded and the key has a record, and then by one appended entry |
| Editor.RemoveImage | src/Pages/staffHome.jsx:128-135 | the object under the selected key is deleted and the folder re-listed; the file's entries leave the image list, and nothing else changes |
| Editor.UpdateImagePos | src/Pages/staffHome.jsx:137-142 | a layout edit changes only the image list, and only the named entries' edited field |
| Editor.FailedRefetchInsertsAgain | src/Pages/staffHome.jsx:144-186 | after a first save whose refetch fails, the next save is the same insert again, not an update |
| Editor.SaveEffects | src/Pages/staffHome.jsx:144-186 | no request without a selected key; otherwise one write and then a refetch; the write is an update of the stored id exactly when the key's record has an id, and an insert otherwise; it always carries the selected key and the draft's title, content and images |
| Editor.SecondSaveUpdates | src/Pages/staffHome.jsx:144-186 | after a first save inserts and the refetch returns the inserted row, the next save updates that id instead of inserting again; the reloaded draft is the draft as stored, unchanged exactly when no width is NaN, and a NaN width that previewed without a width previews at 0 |
| Editor.PreviewWidth | src/Pages/staffHome.jsx:464 | `Math.min(width, 400)`: a number is kept up to 400 and becomes 400 above it; `null` gives 0; an absent or NaN width gives no width |
| Editor.Preview | src/Pages/staffHome.jsx:449-471 | the preview heading/body fall back to "Page Title"/"Page content will appear here..."; there is one block per draft image in order, keyed under the selected key, aligned by position, no wider than 400 |
| Editor.PreviewMatchesPublic | src/Pages/staffHome.jsx:456-468 | once the draft is saved, the public page shows the same blocks in the same order with the same keys, alt texts and alignments as the preview, never narrower than the preview |
| Editor.UploadReachesPublicPage | src/Pages/staffHome.jsx:107 | the key an upload is written to is the key the public page of that page type reads for the appended image |
| Editor.RemovedImageNotRendered | src/Pages/staffHome.jsx:132 | a removed file appears neither in the preview nor on the public page once the draft is saved |
| Editor.PublicAltTexts | src/Components/PageRenderer.jsx:53-61 | the public page of a saved record shows one block per written image, with the image's name as alt text |
| Editor.UploadNotListedUnderId | src/Pages/staffHome.jsx:91 | when a record's id differs from its key (no slashes), the folder listed after loading it does not contain an object uploaded for that key |
| Legacy.AddMenuItem | src/Pages/staff.jsx:84-88 | an empty label changes nothing; otherwise `{label, link: ''}` is appended after every existing tab and the label input is cleared; nothing else changes |
| Legacy.AddMenuItemOnce | src/Pages/staff.jsx:84-88 | pressing "add" twice adds a single tab, and adding never drops or reorders tabs |
| Legacy.RelabelMenuItem | src/Pages/staff.jsx:298-302 | editing tab i changes only that tab's label in the list; when the tab is one of the current row's own tab records, the current row and the list entry it was opened from get the label too, and their other columns, the other list entries and the rest of the state stay as they were |
| Legacy.InitialConsistent | src/Pages/staff.jsx:18-24 | the editor starts with no shared tab records and no opened list entry |
| Legacy.LoadPage | src/Pages/staff.jsx:68-74 | opening a row makes it current, copies title and content without fallback, takes the row's own tab records (none when it has none), and lists the folder named by its id |
| Legacy.OpenListed | src/Pages/staff.jsx:271-273 | opening a list entry from the sidebar loads that row, which stays the same record as the list entry |
| Legacy.SaveAfterLoad | src/Pages/staff.jsx:68-82 | saving right after opening a row writes back its stored title, content and tabs (none when it had none) to its own id |
| Legacy.RelabelShowsOnReopen | src/Pages/staff.jsx:298-302 | a relabelled tab shows the new label when its row is reopened from the list without saving, whatever row was opened in between |
| Legacy.AddedTabLostOnReopen | src/Pages/staff.jsx:84-88 | a tab added and not saved is gone when its row is reopened from the list |
| Legacy.SavePage | src/Pages/staff.jsx:76-82 | no request without a current page; otherwise only title, content and menu tabs are written, to the current row's id, then the ordered list is refetched |
| Legacy.UploadImage | src/Pages/staff.jsx:90-98 | no request without a file or a current page; otherwise the object goes under the current row's id and that folder is re-listed on success |
| Legacy.RemoveImage | src/Pages/staff.jsx:100-106 | no request without a current page; otherwise the object under the current row's id is deleted and the folder re-listed |
| Legacy.RemoveDeletesUploadedObject | src/Pages/staff.jsx:90-106 | a removal deletes exactly the object an upload of that file wrote, and lists the folder a successful upload lists |
| Legacy.LegacyUploadKeyIffIdIsType | src/Pages/staff.jsx:93 | a legacy upload is written under the key the public page of type t would read exactly when the row's id is t |
| Legacy.CreatePage | src/Pages/staff.jsx:108-116 | a new page is inserted with title "New Page", empty content and order = number of listed pages + 1, then the list is refetched |
| Legacy.OnPageCreated | src/Pages/staff.jsx:115 | the row returned by the insert, if any, is opened exactly as `LoadPage` opens it: it becomes current, its title and content are copied, its tabs are loaded, and its folder is listed; it is not a list entry |
| Legacy.FetchOnSession | src/Pages/staff.jsx:48-50 | the ordered list is fetched exactly when a session is stored |
| Legacy.OnPagesFetched | src/Pages/staff.jsx:52-58 | a successful fetch replaces the page list with fresh records, none of them the current row; a failed one keeps it |
| Legacy.OnUploadsListed | src/Pages/staff.jsx:60-66 | a successful listing replaces the uploads (a missing list counts as empty); a failed one changes nothing |
| Legacy.SortByOrder | src/Pages/staff.jsx:56 | the page list comes back ascending by `order`, rows without an order last, as a permutation of the table |
| Legacy.CreatedPageListedLast | src/Pages/staff.jsx:111 | in the special case where every listed page has an order of at most n (n pages), the created page is listed after all of them |
| Legacy.CreatedPageBeforeUnordered | src/Pages/staff.jsx:111 | when every listed page that has an order is numbered at most n, the created page is listed after every page with an order and before every page without one |
| Auth.EditorReact | src/Pages/staffHome.jsx:31-44 | the editor stores the session and navigates to "/staff" exactly when there is none, at mount and on every notification |
| Auth.LoginMount | src/Pages/staff.jsx:29-34 | the sign-in screen stores the session at mount and navigates to "/staffHome" exactly when there is one |
| Auth.TargetMountStays | src/Pages/staff.jsx:26-40 | whenever either screen navigates for a session, the screen it reaches, mounting with that session, does not navigate again |
| Auth.LoginChange | src/Pages/staff.jsx:35-40 | a notification with a session is stored and navigates to "/staffHome"; one without a session leaves the stored session as it was |
| Auth.Enter | src/Pages/staffHome.jsx:33-37 | opening either screen ends on the editor exactly when there is a session, after at most one redirect, which goes to "/staffHome" with a session and to "/staff" without; the screen reached stores the session |
| Auth.Notify | src/Pages/staffHome.jsx:39-44 | after any notification the editor is on screen exactly when there is a session; at most one navigation fires, exactly when the screen changes, to "/staffHome" with a session and to "/staff" without; the editor stores every session it is told |
| Auth.NotifySettles | src/Pages/staff.jsx:35-40 | repeating the same notification changes nothing and navigates nowhere |
| Auth.RunKeepsLoginEmpty | src/Pages/staff.jsx:29-40 | if the sign-in screen on display stores no session, it still stores none after any sequence of notifications |
| Auth.LegacyEditorNeverShown | src/Pages/staff.jsx:29-40 | whichever screen opens first and whatever notifications follow, the sign-in screen on display shows its form and never its own page editor |
| Auth.HandleAuthSubmit | src/Pages/staff.jsx:126-148 | the old message is cleared; an error shows its message; a sign-up with a user and no session shows the confirm-email message; every other answer navigates to "/staffHome" with no message; a call that throws leaves the message cleared and navigates nowhere; the form is never left busy |
| Auth.AuthOutcomeIgnoresStaleState | src/Pages/staff.jsx:129 | the outcome does not depend on the message shown before, and a sign-in ignores the sign-up fields |

## Left out

- Database, object-store and identity calls are not executed. They are emitted as `Effect` values,
  and their replies are parameters.
- Of the collaborators' behaviour, only the following is modelled. `Render.SelectSingle` gives
  the single-row query's rule: an error unless exactly one row matches. `Legacy.SortByOrder` gives
  the ordered fetch: ascending, with nulls last. `Effects.InsertedRow`, `Pages.StoredImages` and
  `Legacy.CreatedRow` give what an insert stores. Everything else a collaborator does is a
  parameter.
- React hooks, the order in which asynchronous replies arrive, and the `active` liveness flag are
  not modelled. Each handler is one sequential step.
- The site editor's `loading` flag is not modelled. That includes the disabled Save button while
  a save is in flight, which is presentational and async plumbing. The public page's `loading` is
  the `loading` parameter of `Render.RenderPage`, and the sign-in form's is `Auth.AuthForm.loading`.
- The `updated_at` timestamp written on save is not modelled, because it depends on the clock.
- Auth.HandleAuthSubmit: when the identity call throws, the error propagates out of the handler
  after the form is released. Only the form and navigation outcome is modelled.
- Public URLs are represented by the object key they are derived from. URL formatting belongs to
  the storage service.
- JSX markup, styles, `alert` messages, the broken-image `onError` hiding and the sidebar
  highlighting are presentational.
- The editor's "Log out" button (src/Pages/staffHome.jsx:222) is not modelled. It signs out, which
  sends the editor to "/staff" as `Auth.Notify` states, and then navigates to "/". That route lies
  outside the two-screen gate, so a sign-out from the editor ends on "/". The sign-in screen's
  "Sign out" button only signs out, and the resulting notification is `Auth.LoginChange` with no
  session.
- `src/Components/contact.js`, `src/Components/Menu.js`, `src/App.jsx`, `src/App.js` and
  `src/Pages/login.jsx` are not part of this model. They hold route wiring, scroll/resize handling,
  a static nav bar and an unrouted page.
- Legacy.SortByOrder: the table leaves the relative order of rows with equal `order` unspecified.
  The model returns them in their table order, which is one admissible answer. Only sortedness and
  permutation are stated.
- The key-to-row map is a plain string-keyed map. A JavaScript object lookup of a prototype
  property name (such as "constructor") is not modelled.
