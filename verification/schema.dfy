/** The `books` table: one record type with the column defaults of its DDL. */
module Schema {

  /** A nullable column value, or an optional request field. */
  datatype Option<T> = None | Some(value: T)

  /** The `status` ENUM column. */
  datatype Status = Unread | Reading | Read

  /** One row of `books`, without its key (the store maps ids to rows) and
      without the two timestamps, which only the database clock sets. */
  datatype Book = Book(
    title: string,
    author: Option<string>,
    status: Status,
    memo: Option<string>,
    imageFilename: Option<string>,
    totalPages: int,
    currentPage: int)

  /** Column defaults: a new row is unread, on page 0 and has no cover. */
  const DefaultStatus: Status := Unread
  const DefaultPages: int := 0

  /** The row an INSERT naming title, author, memo and total_pages produces. */
  function Inserted(title: string, author: Option<string>, memo: Option<string>, totalPages: int): Book
  {
    Book(title, author, DefaultStatus, memo, None, totalPages, DefaultPages)
  }
}
