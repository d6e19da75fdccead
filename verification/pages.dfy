/** The paginator `Iterable` (BotAssistant/BotAssistant/address_book.py:165-193)
    that `AddressBook.__iter__` returns and `print_book` walks: a page
    counter over the book's values. */
module Pages {
  import opened Seqs
  import opened Records
  import opened Books

  /** `ROWS_PER_PAGE`. */
  const RowsPerPage: nat := 10

  /** The iterator's state: page size, the values it slices, the next page number. */
  datatype Pager = Pager(n: nat, rows: seq<Record>, page: nat)

  /** What one `__next__` call produces. */
  datatype Step = Stop | Page(records: seq<Record>)

  function Min(a: int, b: int): int {
    if a <= b then a else b
  }

  /** `AddressBook.__iter__`: a fresh pager at page 0. */
  function Start(b: Book): (p: Pager)
    ensures p.n == RowsPerPage && p.page == 0 && p.rows == Values(b)
  {
    Pager(RowsPerPage, Values(b), 0)
  }

  lemma MulStep(a: int, n: int)
    ensures (a + 1) * n == a * n + n
  {
  }

  /** `Iterable.__next__`: the slice `[page*n, min((page+1)*n, total))` and
      one page on, or `StopIteration` with the state left as it was. */
  function Next(p: Pager): (r: (Pager, Step))
    ensures r.1.Stop? <==> p.page * p.n >= |p.rows|
    ensures r.1.Stop? ==> r.0 == p
    ensures r.1.Page? ==> r.0 == p.(page := p.page + 1)
    ensures r.1.Page? ==> |r.1.records| <= p.n
    ensures r.1.Page? && p.n > 0 ==> |r.1.records| >= 1
  {
    var start := p.page * p.n;
    MulStep(p.page, p.n);
    var end := Min((p.page + 1) * p.n, |p.rows|);
    if start >= |p.rows| then (p, Stop)
    else (p.(page := p.page + 1), Page(p.rows[start..end]))
  }

  /** What a page-producing `Next` returns, in terms of the start offset. */
  lemma NextPage(p: Pager)
    requires p.page * p.n < |p.rows|
    ensures Next(p).0.page * Next(p).0.n == p.page * p.n + p.n
    ensures Next(p).1 == Page(p.rows[p.page * p.n..Min(p.page * p.n + p.n, |p.rows|)])
  {
    MulStep(p.page, p.n);
  }

  /** Every page `print_book` receives, in order, until `StopIteration`. */
  function Drain(p: Pager): seq<seq<Record>>
    requires p.n > 0
    decreases |p.rows| - p.page * p.n
  {
    if p.page * p.n >= |p.rows| then []
    else
      NextPage(p);
      [Next(p).1.records] + Drain(Next(p).0)
  }

  /** The state the pager is left in once it has stopped. */
  function Exhaust(p: Pager): Pager
    requires p.n > 0
    decreases |p.rows| - p.page * p.n
  {
    if p.page * p.n >= |p.rows| then p
    else
      NextPage(p);
      Exhaust(Next(p).0)
  }

  /** The records from page `p.page` on. */
  function Remaining(p: Pager): seq<Record> {
    p.rows[Min(p.page * p.n, |p.rows|)..]
  }

  /** The pages concatenate to the records not yet paged, in order. */
  lemma {:induction false} DrainCovers(p: Pager)
    requires p.n > 0
    ensures Flatten(Drain(p)) == Remaining(p)
    decreases |p.rows| - p.page * p.n
  {
    var start := p.page * p.n;
    if start < |p.rows| {
      NextPage(p);
      var q := Next(p).0;
      var page := Next(p).1.records;
      DrainCovers(q);
      var pages := Drain(p);
      assert pages[1..] == Drain(q);
      assert page + Remaining(q) == Remaining(p);
    }
  }

  /** All pages are full except the last, which holds between 1 and `n` records. */
  predicate FullThenTail(pages: seq<seq<Record>>, n: nat) {
    && (forall i :: 0 <= i < |pages| - 1 ==> |pages[i]| == n)
    && (|pages| > 0 ==> 1 <= |pages[|pages| - 1]| <= n)
  }

  /** With `left` records still to page, the page count is the least `k`
      with `k * n >= left`. */
  predicate CeilPages(count: int, left: int, n: nat) {
    if left <= 0 then count == 0 else (count - 1) * n < left <= count * n
  }

  lemma CeilStep(count: int, left: int, n: nat)
    requires n > 0 && left > 0
    requires CeilPages(count, left - n, n)
    ensures CeilPages(count + 1, left, n)
  {
    MulStep(count, n);
    MulStep(count - 1, n);
  }

  lemma {:induction false} DrainShape(p: Pager)
    requires p.n > 0
    ensures FullThenTail(Drain(p), p.n)
    ensures CeilPages(|Drain(p)|, |p.rows| - p.page * p.n, p.n)
    decreases |p.rows| - p.page * p.n
  {
    var start := p.page * p.n;
    var left := |p.rows| - start;
    if start < |p.rows| {
      NextPage(p);
      var q := Next(p).0;
      var page := Next(p).1.records;
      DrainShape(q);
      var rest := Drain(q);
      var pages := Drain(p);
      assert pages == [page] + rest;
      CeilStep(|rest|, left, p.n);
      if |rest| > 0 {
        assert |page| == p.n;
        forall i | 0 <= i < |pages| - 1
          ensures |pages[i]| == p.n
        {
          if i > 0 {
            assert pages[i] == rest[i - 1];
          }
        }
      }
    }
  }

  /** Once drained the pager keeps stopping, however often it is asked. */
  lemma {:induction false} ExhaustStops(p: Pager)
    requires p.n > 0
    ensures Next(Exhaust(p)).1.Stop?
    ensures Next(Exhaust(p)).0 == Exhaust(p)
    decreases |p.rows| - p.page * p.n
  {
    if p.page * p.n < |p.rows| {
      NextPage(p);
      ExhaustStops(Next(p).0);
    }
  }

  /** The pages `print_book` prints for a book. */
  function PrintBookPages(b: Book): seq<seq<Record>> {
    Drain(Start(b))
  }

  /** Pagination of a whole book: the pages concatenate to its values in
      insertion order, every page but the last holds ten records, and there
      are ceil(|b| / 10) pages, none for an empty book. */
  lemma PrintBookPaging(b: Book)
    ensures Flatten(PrintBookPages(b)) == Values(b)
    ensures FullThenTail(PrintBookPages(b), RowsPerPage)
    ensures |PrintBookPages(b)| == (|b| + RowsPerPage - 1) / RowsPerPage
    ensures |b| == 0 ==> PrintBookPages(b) == []
  {
    DrainCovers(Start(b));
    DrainShape(Start(b));
    assert Values(b)[0..] == Values(b);
  }

  /** The worked example of a page size of 2 over 5 records: pages of 2, 2 and 1. */
  lemma FiveRecordsInPairs(rows: seq<Record>)
    requires |rows| == 5
    ensures |Drain(Pager(2, rows, 0))| == 3
    ensures FullThenTail(Drain(Pager(2, rows, 0)), 2)
    ensures |Drain(Pager(2, rows, 0))[2]| == 1
  {
    var p := Pager(2, rows, 0);
    DrainShape(p);
    DrainCovers(p);
    var pages := Drain(p);
    assert |pages| == 3;
    assert Flatten(pages) == pages[0] + Flatten(pages[1..]);
    assert Flatten(pages[1..]) == pages[1] + Flatten(pages[2..]);
    assert Flatten(pages[2..]) == pages[2] + Flatten(pages[3..]);
    assert |Flatten(pages)| == 5;
  }
}
