/**
 * A client that is sent pages, each with the last row it holds, and asks on with that row.
 *
 * What it gets next is `next` of the row, whatever that function is; the laws here say when the pages
 * are nevertheless the rows cut into pages.
 */
module PageChains {
  import opened Prelude
  import opened PageWalks

  // Up to n pages, from what is left for the first one.  `extra` names the row after the page instead
  // of its last one.
  function Chain<T>(left: seq<T>, next: T -> seq<T>, limit: nat, extra: bool, n: nat): seq<seq<T>>
    requires limit >= 1
    decreases n
  {
    if n == 0 then []
    else if |left| <= limit then [left]
    else [left[..limit]] + Chain(next(left[NamedAt(limit, extra)]), next, limit, extra, n - 1)
  }

  // The position of the named row.
  function NamedAt(limit: int, extra: bool): int {
    if extra then limit else limit - 1
  }

  predicate SameFirstPage<T(==)>(a: seq<T>, b: seq<T>, limit: nat) {
    a[..Min(limit, |a|)] == b[..Min(limit, |b|)] && (|a| > limit <==> |b| > limit)
  }

  // What comes after the row before position i starts like the rows from i on.
  predicate BoundaryHolds<T(==)>(rows: seq<T>, next: T -> seq<T>, limit: nat, i: nat)
    requires 0 < i <= |rows|
  {
    SameFirstPage(next(rows[i - 1]), rows[i..], limit)
  }

  // At start + limit, start + 2 * limit, and so on.
  predicate BoundariesHold<T(==)>(rows: seq<T>, next: T -> seq<T>, limit: nat, start: nat)
    requires limit >= 1
    decreases |rows| - start
  {
    start + limit < |rows| ==>
      BoundaryHolds(rows, next, limit, start + limit) && BoundariesHold(rows, next, limit, start + limit)
  }

  lemma CutTellsFirstPage<T>(start: nat, limit: nat, rows: seq<T>)
    requires limit >= 1 && start <= |rows|
    ensures var cut, left := Cut(start, limit, rows), rows[start..];
            && cut[0] == left[..Min(limit, |left|)] == Window(start, limit, rows)
            && (|cut| > 1 <==> |left| > limit)
  {
    assert rows[start..][..Min(limit, |rows| - start)] == Window(start, limit, rows);
  }

  lemma SameTail<T>(first: T, rest: seq<T>, rest': seq<T>)
    ensures [first] + rest == [first] + rest' <==> rest == rest'
  {
    assert ([first] + rest)[1..] == rest && ([first] + rest')[1..] == rest';
  }

  predicate AreCut<T(==)>(left: seq<T>, next: T -> seq<T>, limit: nat, n: nat, rows: seq<T>, start: nat)
    requires limit >= 1
  {
    Chain(left, next, limit, false, n) == Cut(start, limit, rows)
  }

  // The first page, and whether there is a second, tell what was left.
  lemma PagesTellFirstPage<T>(left: seq<T>, next: T -> seq<T>, limit: nat, n: nat, rows: seq<T>, start: nat)
    requires limit >= 1 && n >= 2 && start <= |rows| && AreCut(left, next, limit, n, rows, start)
    ensures SameFirstPage(left, rows[start..], limit)
  {
    var pages := Chain(left, next, limit, false, n);
    CutTellsFirstPage(start, limit, rows);
    assert pages[0] == left[..Min(limit, |left|)];
    if |left| > limit {
      assert Chain(next(left[limit - 1]), next, limit, false, n - 1) != [];
    }
  }

  lemma LastPageIsCut<T>(left: seq<T>, next: T -> seq<T>, limit: nat, n: nat, rows: seq<T>, start: nat)
    requires limit >= 1 && n > 0 && start <= |rows| <= start + limit
    requires SameFirstPage(left, rows[start..], limit)
    ensures AreCut(left, next, limit, n, rows, start)
  {
    CutTellsFirstPage(start, limit, rows);
    assert left == left[..Min(limit, |left|)];
  }

  lemma PageAtBoundary<T>(left: seq<T>, next: T -> seq<T>, limit: nat, n: nat, rows: seq<T>, start: nat)
    requires limit >= 1 && n > 0 && start + limit < |rows|
    requires SameFirstPage(left, rows[start..], limit)
    ensures AreCut(left, next, limit, n, rows, start) <==>
            AreCut(next(rows[start + limit - 1]), next, limit, n - 1, rows, start + limit)
  {
    CutTellsFirstPage(start, limit, rows);
    assert left[limit - 1] == left[..limit][limit - 1] == rows[start..][..limit][limit - 1];
    SameTail(Window(start, limit, rows), Chain(next(rows[start + limit - 1]), next, limit, false, n - 1),
             Cut(start + limit, limit, rows));
  }

  lemma {:induction false} HoldingBoundariesCut<T>(left: seq<T>, next: T -> seq<T>, limit: nat, n: nat, rows: seq<T>,
                                                   start: nat)
    requires limit >= 1 && start <= |rows| && n >= |rows| - start + 2
    requires SameFirstPage(left, rows[start..], limit) && BoundariesHold(rows, next, limit, start)
    ensures AreCut(left, next, limit, n, rows, start)
    decreases |rows| - start
  {
    var i, m := start + limit, n - 1;
    if i >= |rows| {
      LastPageIsCut(left, next, limit, n, rows, start);
    } else {
      var more := next(rows[i - 1]);
      HoldingBoundariesCut(more, next, limit, m, rows, i);
      PageAtBoundary(left, next, limit, n, rows, start);
    }
  }

  lemma {:induction false} CutsHoldBoundaries<T>(left: seq<T>, next: T -> seq<T>, limit: nat, n: nat, rows: seq<T>,
                                                 start: nat)
    requires limit >= 1 && start <= |rows| && n >= |rows| - start + 2
    requires AreCut(left, next, limit, n, rows, start)
    ensures SameFirstPage(left, rows[start..], limit) && BoundariesHold(rows, next, limit, start)
    decreases |rows| - start
  {
    PagesTellFirstPage(left, next, limit, n, rows, start);
    var i, m := start + limit, n - 1;
    if i < |rows| {
      PageAtBoundary(left, next, limit, n, rows, start);
      CutsHoldBoundaries(next(rows[i - 1]), next, limit, m, rows, i);
    }
  }

  // The pages are the rows cut into pages if and only if every boundary holds.
  lemma ChainIsCutIff<T>(rows: seq<T>, next: T -> seq<T>, limit: nat, n: nat)
    requires limit >= 1 && n >= |rows| + 2
    ensures Chain(rows, next, limit, false, n) == Cut(0, limit, rows) <==> BoundariesHold(rows, next, limit, 0)
  {
    assert rows[0..] == rows;
    if BoundariesHold(rows, next, limit, 0) {
      HoldingBoundariesCut(rows, next, limit, n, rows, 0);
    }
    if AreCut(rows, next, limit, n, rows, 0) {
      CutsHoldBoundaries(rows, next, limit, n, rows, 0);
    }
  }
}
