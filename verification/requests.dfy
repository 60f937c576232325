/** The server handling one request after another, each as one atomic
    transition of the store. */
module Requests {
  import opened Schema
  import opened Uploads
  import opened BookStore
  import opened CreateRoute
  import opened PatchRoute
  import opened DeleteRoute

  datatype Request =
    | AddBook(form: Form, upload: Option<Upload>)
    | PatchBook(id: int, body: PatchBody)
    | DeleteBook(id: int)

  /** An upload's extension is one `path.extname` can produce. */
  predicate WellFormed(q: Request) {
    q.AddBook? && q.upload.Some? ==> IsExtName(q.upload.value.ext)
  }

  /** Route a request to its handler. */
  function Handle(s: Store, q: Request): (r: Step)
    requires Valid(s)
    ensures Valid(r.store)
    ensures s.nextId <= r.store.nextId
    ensures r.reply.Added? ==> r.reply.id == s.nextId && r.store.nextId == s.nextId + 1
    ensures !r.reply.Added? ==> r.store.nextId == s.nextId
  {
    match q
    case AddBook(form, upload) => Create(s, form, upload)
    case PatchBook(id, body) => Patch(s, id, body)
    case DeleteBook(id) => Delete(s, id)
  }

  /** The final store and the reply to each request, in order. */
  datatype Trace = Trace(store: Store, replies: seq<Reply>)

  function Run(s: Store, qs: seq<Request>): (t: Trace)
    requires Valid(s)
    ensures Valid(t.store)
    ensures |t.replies| == |qs|
    ensures s.nextId <= t.store.nextId
    decreases |qs|
  {
    if qs == [] then Trace(s, [])
    else
      var first := Handle(s, qs[0]);
      var rest := Run(first.store, qs[1..]);
      Trace(rest.store, [first.reply] + rest.replies)
  }

  /** Ids handed out by successful creates are new to the starting store and
      strictly increase along the run, whatever is patched or deleted in
      between. */
  lemma {:induction false} RunAddsFreshIncreasingIds(s: Store, qs: seq<Request>)
    requires Valid(s)
    ensures forall i :: 0 <= i < |Run(s, qs).replies| && Run(s, qs).replies[i].Added? ==>
      && s.nextId <= Run(s, qs).replies[i].id < Run(s, qs).store.nextId
      && Run(s, qs).replies[i].id !in s.books
    ensures forall i, j ::
      (0 <= i < j < |Run(s, qs).replies| && Run(s, qs).replies[i].Added? && Run(s, qs).replies[j].Added?) ==>
        Run(s, qs).replies[i].id < Run(s, qs).replies[j].id
    decreases |qs|
  {
    if qs != [] {
      var first := Handle(s, qs[0]);
      var rest := Run(first.store, qs[1..]);
      RunAddsFreshIncreasingIds(first.store, qs[1..]);
      var t := Run(s, qs);
      assert t.replies == [first.reply] + rest.replies;
      assert t.store == rest.store;
      forall i | 0 <= i < |t.replies| && t.replies[i].Added?
        ensures s.nextId <= t.replies[i].id < t.store.nextId
        ensures t.replies[i].id !in s.books
      {
        if i > 0 {
          assert t.replies[i] == rest.replies[i - 1];
          assert first.store.nextId <= rest.replies[i - 1].id < rest.store.nextId;
        } else {
          assert t.replies[0] == first.reply;
          assert first.store.nextId <= rest.store.nextId;
        }
      }
      forall i, j | 0 <= i < j < |t.replies| && t.replies[i].Added? && t.replies[j].Added?
        ensures t.replies[i].id < t.replies[j].id
      {
        assert t.replies[j] == rest.replies[j - 1];
        assert first.store.nextId <= rest.replies[j - 1].id;
        if i > 0 {
          assert t.replies[i] == rest.replies[i - 1];
          assert rest.replies[i - 1].id < rest.replies[j - 1].id;
        } else {
          assert t.replies[0] == first.reply;
        }
      }
    }
  }

  /** Every run of well-formed requests keeps the store invariant: ids below
      the counter, and every recorded cover owned by its book and on disk. */
  lemma {:induction false} RunKeepsInvariant(s: Store, qs: seq<Request>)
    requires Invariant(s)
    requires forall i :: 0 <= i < |qs| ==> WellFormed(qs[i])
    ensures Invariant(Run(s, qs).store)
    decreases |qs|
  {
    if qs != [] {
      var first := Handle(s, qs[0]);
      match qs[0] {
        case AddBook(form, upload) =>
          assert WellFormed(qs[0]);
          CreateKeepsInvariant(s, form, upload);
        case PatchBook(id, body) => PatchKeepsInvariant(s, id, body);
        case DeleteBook(id) => DeleteKeepsInvariant(s, id);
      }
      RunKeepsInvariant(first.store, qs[1..]);
    }
  }

  /** A book is added with 100 pages, read to page 100 and deleted. */
  lemma DuneExample()
    ensures var added := Handle(Empty, AddBook(Form(Some("Dune"), None, None, Some(100)), None));
      var patched := Handle(added.store, PatchBook(1, PatchBody(None, Given(100), Absent, Absent)));
      var deleted := Handle(patched.store, DeleteBook(1));
      && added.reply == Added(1)
      && added.store.books[1].status == Unread && added.store.books[1].currentPage == 0
      && patched.store.books[1].status == Read
      && 1 !in deleted.store.books
  {
  }
}
