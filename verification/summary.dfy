/** The counters the index page shows above the book list. */
module Summary {
  import opened Schema
  import opened BookStore

  datatype Stats = Stats(total: nat, unread: nat, reading: nat, read: nat)

  /** How many of `rows` have status `st`. */
  function CountStatus(rows: seq<Book>, st: Status): (n: nat)
    ensures n <= |rows|
  {
    if rows == [] then 0
    else CountStatus(rows[1..], st) + (if rows[0].status == st then 1 else 0)
  }

  /** Every row has exactly one of the three statuses. */
  lemma {:induction false} CountsPartition(rows: seq<Book>)
    ensures CountStatus(rows, Unread) + CountStatus(rows, Reading) + CountStatus(rows, Read) == |rows|
  {
    if rows != [] {
      CountsPartition(rows[1..]);
    }
  }

  /** The stats object of the index page, computed from the listed rows. */
  function Compute(rows: seq<Book>): (r: Stats)
    ensures r.total == |rows|
    ensures r.unread + r.reading + r.read == r.total
  {
    CountsPartition(rows);
    Stats(|rows|, CountStatus(rows, Unread), CountStatus(rows, Reading), CountStatus(rows, Read))
  }

  /** `order` lists every row of `books` exactly once (in whatever order the
      SELECT returned them). */
  predicate IsListing(books: map<int, Book>, order: seq<int>) {
    && (forall i :: 0 <= i < |order| ==> order[i] in books)
    && (forall id :: id in books ==> id in order)
    && (forall i, j :: 0 <= i < j < |order| ==> order[i] != order[j])
  }

  /** The rows of `books` in the order `order` names them. */
  function Rows(books: map<int, Book>, order: seq<int>): (rows: seq<Book>)
    requires forall i :: 0 <= i < |order| ==> order[i] in books
    ensures |rows| == |order|
    ensures forall i {:trigger rows[i]} :: 0 <= i < |order| ==> rows[i] == books[order[i]]
  {
    if order == [] then [] else [books[order[0]]] + Rows(books, order[1..])
  }

  /** The stats of any listing of the store are the store's own counts: the
      total is the number of books, each counter the number of books with
      that status. */
  lemma StatsOfStore(books: map<int, Book>, order: seq<int>)
    requires IsListing(books, order)
    ensures var r := Compute(Rows(books, order));
      && r.total == |books|
      && r.unread == |WithStatus(books, Unread)|
      && r.reading == |WithStatus(books, Reading)|
      && r.read == |WithStatus(books, Read)|
  {
    DistinctCard(order);
    var listed := set id | id in order;
    forall id | id in listed ensures id in books.Keys {
      var i :| 0 <= i < |order| && order[i] == id;
    }
    forall id | id in books.Keys ensures id in listed {
      assert id in order;
    }
    assert listed == books.Keys;
    assert |books| == |books.Keys|;
    CountRows(books, order, Unread);
    CountRows(books, order, Reading);
    CountRows(books, order, Read);
    assert (set id | id in order && id in books && books[id].status == Unread) == WithStatus(books, Unread);
    assert (set id | id in order && id in books && books[id].status == Reading) == WithStatus(books, Reading);
    assert (set id | id in order && id in books && books[id].status == Read) == WithStatus(books, Read);
  }

  /** Counting the listed rows by status counts the listed ids by status. */
  lemma {:induction false} CountRows(books: map<int, Book>, order: seq<int>, st: Status)
    requires forall i :: 0 <= i < |order| ==> order[i] in books
    requires forall i, j :: 0 <= i < j < |order| ==> order[i] != order[j]
    ensures CountStatus(Rows(books, order), st)
         == |set id | id in order && id in books && books[id].status == st|
  {
    if order != [] {
      var x, rest := order[0], order[1..];
      CountRows(books, rest, st);
      var tail := set id | id in rest && id in books && books[id].status == st;
      var all := set id | id in order && id in books && books[id].status == st;
      assert x !in rest by {
        forall i | 0 <= i < |rest| ensures rest[i] != x {
          assert rest[i] == order[i + 1];
        }
      }
      var rows := Rows(books, order);
      assert rows == [books[x]] + Rows(books, rest);
      assert rows[0] == books[x];
      assert rows[1..] == Rows(books, rest);
      if books[x].status == st {
        assert all == tail + {x};
      } else {
        assert all == tail;
      }
    }
  }

  /** A list without repeats has as many distinct elements as entries. */
  lemma {:induction false} DistinctCard(order: seq<int>)
    requires forall i, j :: 0 <= i < j < |order| ==> order[i] != order[j]
    ensures |set id | id in order| == |order|
  {
    if order != [] {
      var x, rest := order[0], order[1..];
      DistinctCard(rest);
      assert x !in rest by {
        forall i | 0 <= i < |rest| ensures rest[i] != x {
          assert rest[i] == order[i + 1];
        }
      }
      assert (set id | id in order) == (set id | id in rest) + {x};
    }
  }
}
