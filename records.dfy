/** The records the extractor reads and produces, and the two stores it reads
    them from. A store is modelled by what its queries yield: a query either
    raises a database error or produces its rows. */
module Records {
  import opened Common

  /** The output record (the `Highlight` dataclass). Times are whole seconds
      since the 1970 epoch. */
  datatype Highlight = Highlight(
    text: string,
    createdAt: int,
    bookTitle: string,
    chapter: Option<string>,
    note: Option<string>)

  /** `sqlite3.OperationalError` (an unknown table or column, among others)
      as against any other exception a query can raise. */
  datatype DbError = OperationalError | OtherError

  /** What running a query and reading its cursor gives. */
  datatype Fetch<T> = Raised(error: DbError) | Fetched(rows: T)

  /** One row of the annotation query; `text` is never NULL there. */
  datatype AnnotationRow = AnnotationRow(
    text: string,
    createdAt: Option<int>,
    note: Option<string>,
    bookId: Option<string>,
    representativeText: Option<string>,
    annotationType: Option<int>,
    isUnderline: Option<int>)

  /** The one column of a title query; the title itself may be NULL. */
  datatype TitleRow = TitleRow(title: Option<string>)

  /** One row of the book-information query; `bookTitle` is never NULL there. */
  datatype BookRow = BookRow(
    bookTitle: string,
    author: Option<string>,
    progress: Option<real>,
    lastOpened: Option<int>,
    description: Option<string>,
    genre: Option<string>)

  /** The library store: `firstTitleRow(sql, assetId)` is what `fetchone()`
      gives after running a title query with the asset id bound, and
      `bookRows(sql, params)` the rows of a book-information query. */
  datatype LibraryStore = LibraryStore(
    firstTitleRow: (string, string) -> Fetch<Option<TitleRow>>,
    bookRows: (string, seq<string>) -> Fetch<seq<BookRow>>)

  /** An opened extractor: what the annotation query yields on the annotation
      store, and the library store, which may not be connected. */
  datatype Session = Session(
    annotations: Fetch<seq<AnnotationRow>>,
    library: Option<LibraryStore>)

  /** Why an extraction raised instead of returning highlights. */
  datatype Failure =
    | QueryFailed(error: DbError)
      // the fallback read `library_conn.execute` while no library store was connected
    | NoLibraryConnection

  datatype Result<T> = Ok(value: T) | Err(failure: Failure)
}
