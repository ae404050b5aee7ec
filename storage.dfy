/** The storage abstraction every backend shares: the records exchanged
    with a backend and the two-way error. */
module Storage {
  import opened Wrappers

  /** A storage error: the page is not there, or the backend failed for a
      reason of its own (`Cause`, the backend's error type). */
  datatype Error<Cause> = PageNotFound(name: string) | ImplError(cause: Cause)

  /** Data handed to a page's template besides its source. */
  datatype Metadata = Metadata(title: Option<string>, template: string)

  /** A page: `name` identifies it and may hold "/" separators for pages
      grouped under another, `source` is its markdown. */
  datatype Page = Page(name: string, source: string, metadata: Metadata)

  type PageResult<Cause> = Result<Page, Error<Cause>>

  /** The template a page gets when its metadata names none. */
  function DefaultMetadataTemplate(): (template: string)
    ensures template == "page"
  {
    "page"
  }
}
