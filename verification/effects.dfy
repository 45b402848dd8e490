/** The requests the components hand to their collaborators: the object
    store, the `pages` table and the router. Each handler in the model returns
    the requests it issues instead of performing them; the replies come back
    as parameters of the handler that consumes them. */
module Effects {
  import opened Common
  import opened Pages

  /** The record the editor writes on save (the `updated_at` stamp is left out). */
  datatype PageWrite = PageWrite(pageType: string, title: string, content: string, images: seq<ImageSpec>)

  /** The columns the legacy editor writes on save. */
  datatype LegacyPatch = LegacyPatch(title: Option<string>, content: Option<string>, menuItems: seq<MenuItem>)

  /** The record the legacy editor inserts for a new page. */
  datatype NewPage = NewPage(title: string, content: string, order: int)

  datatype Effect =
    | ListObjects(prefix: string)            // storage `list(prefix)`
    | UploadObject(key: string)              // storage `upload(key, file, {upsert: true})`
    | RemoveObjects(keys: seq<string>)       // storage `remove(keys)`
    | SelectAllPages                         // `select('*')`
    | SelectPagesByOrder                     // `select('*').order('order', ascending)`
    | UpdatePage(id: string, write: PageWrite)
    | InsertPage(write: PageWrite)
    | UpdateLegacyPage(id: string, patch: LegacyPatch)
    | InsertNewPage(page: NewPage)
    | Navigate(path: string)

  /** The row the table holds after inserting `w` (sent as JSON) and
      assigning it `id`. */
  function InsertedRow(id: string, w: PageWrite): PageRow {
    PageRow(Some(id), Some(w.pageType), Some(w.title), Some(w.content), Some(StoredImages(w.images)), None, None)
  }
}
