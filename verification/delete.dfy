/** `DELETE /api/books/:id`: remove the book's cover file if it has one and it
    exists, then delete the row. */
module DeleteRoute {
  import opened Schema
  import opened Uploads
  import opened BookStore

  /** The cover file the handler removes: the row's image_filename when the
      row exists, the name is truthy (non-null, non-empty) and the file is on
      disk. */
  function CoverToRemove(s: Store, id: int): Option<string> {
    if id in s.books && s.books[id].imageFilename.Some?
       && s.books[id].imageFilename.value != "" && s.books[id].imageFilename.value in s.files
    then s.books[id].imageFilename
    else None
  }

  /** The whole handler; it always reports success. */
  function Delete(s: Store, id: int): (r: Step)
    ensures r.reply == Deleted
    ensures r.store.nextId == s.nextId
    // exactly that row is gone
    ensures r.store.books.Keys == s.books.Keys - {id}
    ensures forall k :: k in r.store.books ==> r.store.books[k] == s.books[k]
    // the only file that can disappear is that row's cover
    ensures r.store.files <= s.files
    ensures forall f :: f in s.files && f !in r.store.files ==>
      id in s.books && s.books[id].imageFilename == Some(f)
    // and a non-empty cover name does disappear
    ensures id in s.books && s.books[id].imageFilename.Some? && s.books[id].imageFilename.value != "" ==>
      s.books[id].imageFilename.value !in r.store.files
    // a missing id changes nothing
    ensures id !in s.books ==> r.store == s
  {
    var files := match CoverToRemove(s, id) case Some(f) => s.files - {f} case None => s.files;
    Step(s.(books := s.books - {id}, files := files), Deleted)
  }

  /** Deleting a book keeps every other book's cover on disk: covers are owned
      by exactly one book, so the removed file was nobody else's. */
  lemma DeleteKeepsInvariant(s: Store, id: int)
    requires Invariant(s)
    ensures Invariant(Delete(s, id).store)
  {
    var r := Delete(s, id).store;
    forall k | k in r.books && r.books[k].imageFilename.Some?
      ensures r.books[k].imageFilename.value in r.files
    {
      var name := r.books[k].imageFilename.value;
      if id in s.books && s.books[id].imageFilename == Some(name) {
        OwnerUnique(name, id, k);
        assert false;
      }
    }
  }

  /** A deleted book leaves the total and the counter of its own status, and
      the other counters do not move. */
  lemma DeleteCounts(s: Store, id: int)
    requires id in s.books
    ensures var r := Delete(s, id).store;
      && |r.books| == |s.books| - 1
      && (forall st :: WithStatus(r.books, st) == WithStatus(s.books, st) - {id})
      && |WithStatus(r.books, s.books[id].status)| == |WithStatus(s.books, s.books[id].status)| - 1
  {
  }
}
