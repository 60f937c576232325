/** `POST /api/books`: insert the row with its defaults, then move the staged
    cover (if any) to its id-derived name and record that name. */
module CreateRoute {
  import opened Schema
  import opened Uploads
  import opened BookStore

  /** The multipart text fields. `None` is a field the form did not send (it
      reaches SQL as NULL); for `totalPages` it is also any falsy value, which
      `total_pages || 0` replaces by 0. */
  datatype Form = Form(
    title: Option<string>,
    author: Option<string>,
    memo: Option<string>,
    totalPages: Option<int>)

  /** The files once multer has written the upload under its temporary name,
      which happens before the handler runs. */
  function Staged(files: set<string>, upload: Option<Upload>): set<string> {
    match upload
    case None => files
    case Some(u) => files + {TempName(u)}
  }

  /** The INSERT statement: a NULL title violates NOT NULL; otherwise the row
      gets the next AUTO_INCREMENT id. */
  function Insert(s: Store, form: Form): (r: Step)
    requires Valid(s)
    ensures r.reply.Added? <==> form.title.Some?
    ensures r.reply.DatabaseError? <==> form.title.None?
    ensures r.reply.DatabaseError? ==> r.store == s
    ensures r.reply.Added? ==>
      && r.reply.id == s.nextId && r.reply.id !in s.books
      && r.store.nextId == s.nextId + 1
      && r.store.books.Keys == s.books.Keys + {r.reply.id}
      && (forall k :: k in s.books ==> r.store.books[k] == s.books[k])
      && Valid(r.store)
      && r.store.files == s.files
    // the new row holds the sent text fields and total_pages (0 when falsy)
    // with the column defaults for everything else
    ensures r.reply.Added? ==>
      r.store.books[r.reply.id]
        == Inserted(form.title.value, form.author, form.memo,
                    if form.totalPages.Some? then form.totalPages.value else 0)
  {
    match form.title
    case None => Step(s, DatabaseError)
    case Some(title) =>
      var id := s.nextId;
      var pages := match form.totalPages case Some(n) => n case None => 0;
      var row := Inserted(title, form.author, form.memo, pages);
      Step(Store(s.books[id := row], s.nextId + 1, s.files), Added(id))
  }

  /** Rename the staged file to `book_<id><ext>`, then UPDATE the row's
      image_filename to that name. */
  function AttachImage(s: Store, id: nat, u: Upload): (r: Store)
    requires id in s.books
    ensures r.nextId == s.nextId
    ensures r.books.Keys == s.books.Keys
    ensures r.books[id] == s.books[id].(imageFilename := Some(FinalName(id, u.ext)))
    ensures forall k :: k in s.books && k != id ==> r.books[k] == s.books[k]
    ensures FinalName(id, u.ext) in r.files
    ensures TempName(u) !in r.files
    ensures forall f :: f != TempName(u) && f != FinalName(id, u.ext) ==> (f in r.files <==> f in s.files)
  {
    var name := FinalName(id, u.ext);
    // the staged and final names differ in their first character
    assert name != TempName(u) by {
      assert name[0] == 'b';
      assert TempName(u)[0] == 't';
    }
    var files := s.files - {TempName(u)} + {name};
    s.(books := s.books[id := s.books[id].(imageFilename := Some(name))], files := files)
  }

  /** The whole handler. */
  function Create(s: Store, form: Form, upload: Option<Upload>): (r: Step)
    requires Valid(s)
    ensures Valid(r.store)
    // a titled form adds a book; a missing title fails before any row exists,
    // and the staged file stays behind
    ensures r.reply.Added? <==> form.title.Some?
    ensures r.reply.DatabaseError? <==> form.title.None?
    ensures r.reply.DatabaseError? ==>
      r.store == s.(files := Staged(s.files, upload))
    // otherwise a fresh id, exactly one new row, and nothing else changed
    ensures r.reply.Added? ==>
      var id := r.reply.id;
      && id == s.nextId && id !in s.books
      && r.store.nextId == s.nextId + 1
      && r.store.books.Keys == s.books.Keys + {id}
      && (forall k :: k in s.books ==> r.store.books[k] == s.books[k])
    // the new row: the given text fields, total_pages or 0, unread on page 0
    ensures r.reply.Added? ==>
      var b := r.store.books[r.reply.id];
      && Some(b.title) == form.title && b.author == form.author && b.memo == form.memo
      && b.totalPages == (if form.totalPages.Some? then form.totalPages.value else 0)
      && b.status == Unread && b.currentPage == 0
    // without a cover, no image and the files are as they were
    ensures r.reply.Added? && upload.None? ==>
      r.store.books[r.reply.id].imageFilename == None && r.store.files == s.files
    // with a cover, the row names book_<id><ext>, that file exists and the
    // temporary one is gone; every other file is untouched
    ensures r.reply.Added? && upload.Some? ==>
      var id, u := r.reply.id, upload.value;
      && id >= 0
      && r.store.books[id].imageFilename == Some(FinalName(id, u.ext))
      && FinalName(id, u.ext) in r.store.files
      && TempName(u) !in r.store.files
      && (forall f :: f != TempName(u) && f != FinalName(id, u.ext) ==> (f in r.store.files <==> f in s.files))
  {
    var staged := s.(files := Staged(s.files, upload));
    var ins := Insert(staged, form);
    match ins.reply
    case Added(id) =>
      if upload.Some? then
        Step(AttachImage(ins.store, id, upload.value), ins.reply)
      else ins
    case _ => ins
  }

  /** Creating a book keeps every recorded cover owned by its book and on
      disk: the new cover is the new book's, and the staged temporary file
      that disappears was never anybody's cover. */
  lemma CreateKeepsInvariant(s: Store, form: Form, upload: Option<Upload>)
    requires Invariant(s)
    requires upload.Some? ==> IsExtName(upload.value.ext)
    ensures Invariant(Create(s, form, upload).store)
  {
    var r := Create(s, form, upload);
    if r.reply.Added? {
      var id := r.reply.id;
      forall k | k in r.store.books && r.store.books[k].imageFilename.Some?
        ensures OwnedBy(r.store.books[k].imageFilename.value, k)
        ensures r.store.books[k].imageFilename.value in r.store.files
      {
        var name := r.store.books[k].imageFilename.value;
        if k == id {
          FinalNameOwned(id, upload.value.ext);
        } else if upload.Some? {
          TempNameNotOwned(upload.value, name, k);
        }
      }
    }
  }

  /** A created book is counted once more in the total and under "unread",
      and the other two counters do not move. */
  lemma CreateCounts(s: Store, form: Form, upload: Option<Upload>)
    requires Valid(s)
    ensures var r := Create(s, form, upload);
      r.reply.Added? ==>
        && |r.store.books| == |s.books| + 1
        && WithStatus(r.store.books, Unread) == WithStatus(s.books, Unread) + {r.reply.id}
        && |WithStatus(r.store.books, Unread)| == |WithStatus(s.books, Unread)| + 1
        && WithStatus(r.store.books, Reading) == WithStatus(s.books, Reading)
        && WithStatus(r.store.books, Read) == WithStatus(s.books, Read)
  {
    var r := Create(s, form, upload);
    if r.reply.Added? {
      var id := r.reply.id;
      assert r.store.books == s.books[id := r.store.books[id]];
      assert r.store.books[id].status == Unread;
    }
  }
}
