/** `PATCH /api/books/:id`: a partial update over four columns, with the rule
    that reaching the stored page count marks the book read. */
module PatchRoute {
  import opened Schema
  import opened BookStore

  /** Whether a request key was sent at all (`!== undefined`). */
  datatype Field<T> = Absent | Given(value: T)

  /** The recognised keys of the JSON body. `status` is `None` for every falsy
      value (missing, null, the empty string), since it is applied only when
      truthy; the other three are applied whenever present, so a JSON null
      memo is `Given(None)` and clears the column. */
  datatype PatchBody = PatchBody(
    status: Option<Status>,
    currentPage: Field<int>,
    memo: Field<Option<string>>,
    totalPages: Field<int>)

  /** One `column = ?` fragment of the UPDATE statement. The four constructors
      are the allow-list: no other column can be named. */
  datatype Assignment =
    | SetStatus(status: Status)
    | SetCurrentPage(page: int)
    | SetMemo(memo: Option<string>)
    | SetTotalPages(pages: int)

  /** The auto-promotion test: a current page was sent, the row exists, and
      the page count stored BEFORE this request is positive and reached. */
  predicate Promotes(s: Store, id: int, body: PatchBody) {
    && body.currentPage.Given?
    && id in s.books
    && s.books[id].totalPages > 0
    && body.currentPage.value >= s.books[id].totalPages
  }

  /** The status the handler goes on to apply: `read` when promoted,
      otherwise whatever the request sent. */
  function EffectiveStatus(s: Store, id: int, body: PatchBody): Option<Status> {
    if Promotes(s, id, body) then Some(Read) else body.status
  }

  /** The SET list, in the order the handler pushes the fragments. */
  function Assignments(status: Option<Status>, body: PatchBody): (r: seq<Assignment>)
    ensures |r| <= 4
    ensures r == [] <==>
      status.None? && body.currentPage.Absent? && body.memo.Absent? && body.totalPages.Absent?
  {
    (match status case Some(st) => [SetStatus(st)] case None => [])
    + (match body.currentPage case Given(p) => [SetCurrentPage(p)] case Absent => [])
    + (match body.memo case Given(m) => [SetMemo(m)] case Absent => [])
    + (match body.totalPages case Given(n) => [SetTotalPages(n)] case Absent => [])
  }

  function Assign(b: Book, a: Assignment): Book {
    match a
    case SetStatus(st) => b.(status := st)
    case SetCurrentPage(p) => b.(currentPage := p)
    case SetMemo(m) => b.(memo := m)
    case SetTotalPages(n) => b.(totalPages := n)
  }

  /** The row after the UPDATE runs its SET list left to right. */
  function AssignAll(b: Book, updates: seq<Assignment>): Book
    decreases |updates|
  {
    if updates == [] then b else AssignAll(Assign(b, updates[0]), updates[1..])
  }

  lemma {:induction false} AssignAllAppend(b: Book, x: seq<Assignment>, y: seq<Assignment>)
    ensures AssignAll(b, x + y) == AssignAll(AssignAll(b, x), y)
    decreases |x|
  {
    if x == [] {
      assert x + y == y;
    } else {
      assert (x + y)[0] == x[0];
      assert (x + y)[1..] == x[1..] + y;
      AssignAllAppend(Assign(b, x[0]), x[1..], y);
    }
  }

  lemma AssignOne(b: Book, a: Assignment)
    ensures AssignAll(b, [a]) == Assign(b, a)
  {
  }

  /** Running the SET list sets exactly the supplied columns, each to its
      supplied value, and leaves every other column as it was. */
  lemma AssignmentsFieldwise(b: Book, status: Option<Status>, body: PatchBody)
    ensures var b' := AssignAll(b, Assignments(status, body));
      && b'.title == b.title && b'.author == b.author && b'.imageFilename == b.imageFilename
      && b'.status == (if status.Some? then status.value else b.status)
      && b'.currentPage == (if body.currentPage.Given? then body.currentPage.value else b.currentPage)
      && b'.memo == (if body.memo.Given? then body.memo.value else b.memo)
      && b'.totalPages == (if body.totalPages.Given? then body.totalPages.value else b.totalPages)
  {
    var s1: seq<Assignment> := match status case Some(st) => [SetStatus(st)] case None => [];
    var s2: seq<Assignment> := match body.currentPage case Given(p) => [SetCurrentPage(p)] case Absent => [];
    var s3: seq<Assignment> := match body.memo case Given(m) => [SetMemo(m)] case Absent => [];
    var s4: seq<Assignment> := match body.totalPages case Given(n) => [SetTotalPages(n)] case Absent => [];
    assert Assignments(status, body) == s1 + s2 + s3 + s4;
    AssignAllAppend(b, s1 + s2 + s3, s4);
    AssignAllAppend(b, s1 + s2, s3);
    AssignAllAppend(b, s1, s2);
    var b1 := AssignAll(b, s1);
    var b2 := AssignAll(b1, s2);
    var b3 := AssignAll(b2, s3);
    if s1 != [] { AssignOne(b, s1[0]); }
    if s2 != [] { AssignOne(b1, s2[0]); }
    if s3 != [] { AssignOne(b2, s3[0]); }
    if s4 != [] { AssignOne(b3, s4[0]); }
  }

  /** The whole handler; it always reports success. */
  function Patch(s: Store, id: int, body: PatchBody): (r: Step)
    ensures r.reply == Updated
    ensures r.store.nextId == s.nextId && r.store.files == s.files
    ensures r.store.books.Keys == s.books.Keys
    ensures forall k :: k in s.books && k != id ==> r.store.books[k] == s.books[k]
    // a missing row is left alone
    ensures id !in s.books ==> r.store == s
    // on the row: the title, author and cover stay; the status is read when
    // promoted, else the sent status, else the old one; the other three
    // columns take the value sent, if any
    ensures id in s.books ==>
      var b, b' := s.books[id], r.store.books[id];
      && b'.title == b.title && b'.author == b.author && b'.imageFilename == b.imageFilename
      && b'.status == (if Promotes(s, id, body) then Read
                       else if body.status.Some? then body.status.value
                       else b.status)
      && b'.currentPage == (if body.currentPage.Given? then body.currentPage.value else b.currentPage)
      && b'.memo == (if body.memo.Given? then body.memo.value else b.memo)
      && b'.totalPages == (if body.totalPages.Given? then body.totalPages.value else b.totalPages)
  {
    var status := EffectiveStatus(s, id, body);
    var updates := Assignments(status, body);
    if |updates| > 0 && id in s.books then
      AssignmentsFieldwise(s.books[id], status, body);
      Step(s.(books := s.books[id := AssignAll(s.books[id], updates)]), Updated)
    else
      Step(s, Updated)
  }

  /** The promotion test reads the page count stored before the request:
      whatever total_pages the same request sends, the resulting status is
      the same as if it had sent none. */
  lemma PromotionIgnoresSuppliedTotal(s: Store, id: int, body: PatchBody)
    requires id in s.books
    ensures Patch(s, id, body).store.books[id].status
         == Patch(s, id, body.(totalPages := Absent)).store.books[id].status
  {
  }

  /** A request that names none of the four columns (or only a falsy status)
      changes nothing, yet still reports success. */
  lemma EmptyPatchIsNoop(s: Store, id: int)
    ensures Patch(s, id, PatchBody(None, Absent, Absent, Absent)) == Step(s, Updated)
  {
  }

  /** Sending the same request twice has the effect of sending it once, as
      long as it does not also change total_pages. */
  lemma PatchIdempotentWithoutTotal(s: Store, id: int, body: PatchBody)
    requires body.totalPages.Absent?
    ensures var s1 := Patch(s, id, body).store;
      Patch(s1, id, body).store == s1
  {
  }

  /** Sending the page count and a page that reaches it in one request does
      not promote when the stored count was 0; sending the same request again
      then does. */
  lemma PromotionNeedsStoredTotal()
    ensures var row := Inserted("Dune", None, None, 0);
      var s := Store(map[1 := row], 2, {});
      var body := PatchBody(None, Given(300), Absent, Given(300));
      var once := Patch(s, 1, body).store;
      var twice := Patch(once, 1, body).store;
      && once.books[1].status == Unread
      && once.books[1].currentPage >= once.books[1].totalPages > 0
      && twice.books[1].status == Read
  {
  }

  /** A patch never touches covers or files, so it keeps the store invariant. */
  lemma PatchKeepsInvariant(s: Store, id: int, body: PatchBody)
    requires Invariant(s)
    ensures Invariant(Patch(s, id, body).store)
  {
  }

  /** The total stays; the patched book moves from its old status counter to
      its new one, and no other book moves. */
  lemma PatchCounts(s: Store, id: int, body: PatchBody, st: Status)
    requires id in s.books
    ensures var s1 := Patch(s, id, body).store;
      && |s1.books| == |s.books|
      && WithStatus(s1.books, st) - {id} == WithStatus(s.books, st) - {id}
      && (id in WithStatus(s1.books, st) <==> s1.books[id].status == st)
  {
  }
}
