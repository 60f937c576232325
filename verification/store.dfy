/** The state the route handlers act on: the `books` table keyed by id, the
    table's next AUTO_INCREMENT value, and the names of the files in the
    uploads directory. */
module BookStore {
  import opened Schema
  import opened Uploads

  datatype Store = Store(books: map<int, Book>, nextId: nat, files: set<string>)

  /** The JSON (or page) outcome a handler reports. */
  datatype Reply = Added(id: int) | Updated | Deleted | DatabaseError

  /** The store after one request, and what the request reported. */
  datatype Step = Step(store: Store, reply: Reply)

  /** A freshly created table with an empty uploads directory. */
  const Empty: Store := Store(map[], 1, {})

  /** AUTO_INCREMENT starts at 1 and stays above every id handed out. */
  predicate Valid(s: Store) {
    && s.nextId >= 1
    && forall id :: id in s.books ==> 1 <= id < s.nextId
  }

  /** Every recorded cover is a final name owned by its book and is on disk. */
  predicate Consistent(s: Store) {
    forall id :: id in s.books && s.books[id].imageFilename.Some? ==>
      && OwnedBy(s.books[id].imageFilename.value, id)
      && s.books[id].imageFilename.value in s.files
  }

  predicate Invariant(s: Store) {
    Valid(s) && Consistent(s)
  }

  /** The ids of the rows with status `st`. */
  ghost function WithStatus(books: map<int, Book>, st: Status): set<int> {
    set id | id in books && books[id].status == st
  }
}
