/** Following the offset and page links of shared/api_pagination.py from request to request. */
module PageWalks {
  import opened Prelude
  import opened Pagination

  // A request that is answered by position.
  predicate Ready(p: Params) {
    Normal(p) && Placed(p) && ByPosition(p.kind)
  }

  function MetadataFor(p: Params, total: int): Metadata
    requires Ready(p)
  {
    MetadataOf(p, Some(total), true).value
  }

  function Led(p: Params, position: Option<int>): Option<Params> {
    if position.None? then None else Some(Moved(p, position.value))
  }

  // What the next, previous, first and last links of the answer to p ask for.
  function Next(p: Params, total: int): Option<Params>
    requires Ready(p)
  {
    Led(p, MetadataFor(p, total).links.next)
  }

  function Previous(p: Params, total: int): Option<Params>
    requires Ready(p)
  {
    Led(p, MetadataFor(p, total).links.previous)
  }

  function First(p: Params, total: int): Option<Params>
    requires Ready(p)
  {
    Led(p, MetadataFor(p, total).links.first)
  }

  function Last(p: Params, total: int): Option<Params>
    requires Ready(p)
  {
    Led(p, MetadataFor(p, total).links.last)
  }

  // ---------------------------------------------------------------- arithmetic of pages

  lemma CeilDivBounds(total: int, limit: int)
    requires limit >= 1
    ensures (CeilDiv(total, limit) - 1) * limit < total <= CeilDiv(total, limit) * limit
  {
  }

  lemma ProductIsNatural(a: nat, limit: nat)
    ensures a * limit >= 0
  {
  }

  lemma ProductKeepsOrder(a: int, b: int, limit: int)
    requires limit >= 1
    ensures a < b ==> a * limit + limit <= b * limit
    ensures a <= b ==> a * limit <= b * limit
  {
    if a < b {
      ProductIsNatural(b - a - 1, limit);
      assert (b - a - 1) * limit == b * limit - a * limit - limit;
    }
  }

  // The test page mode makes is the test offset mode makes.
  lemma PageTestIsOffsetTest(page: int, limit: int, total: int)
    requires limit >= 1
    ensures page < CeilDiv(total, limit) <==> (page - 1) * limit + limit < total
    ensures (page - 1) * limit + limit == page * limit
  {
    var pages := CeilDiv(total, limit);
    CeilDivBounds(total, limit);
    ProductKeepsOrder(page, pages - 1, limit);
    ProductKeepsOrder(pages, page, limit);
  }

  // ---------------------------------------------------------------- one link

  // A next link is offered exactly while rows remain past this page, and starts where it ends.
  lemma NextLink(p: Params, total: int)
    requires Ready(p)
    ensures Next(p, total).Some? <==> Start(p) + p.limit < total
    ensures Next(p, total).Some? ==> Ready(Next(p, total).value)
                                     && Start(Next(p, total).value) == Start(p) + p.limit
  {
    if p.kind.PageKind? {
      PageTestIsOffsetTest(p.page.value, p.limit, total);
    }
  }

  lemma PreviousLink(p: Params, total: int)
    requires Ready(p)
    ensures Previous(p, total).Some? <==> Start(p) > 0
    ensures Previous(p, total).Some? ==> Ready(Previous(p, total).value)
                                         && Start(Previous(p, total).value) == Max(0, Start(p) - p.limit)
  {
    if p.kind.PageKind? {
      PageTestIsOffsetTest(p.page.value - 1, p.limit, total);
      ProductKeepsOrder(0, p.page.value - 1, p.limit);
      ProductKeepsOrder(1, p.page.value - 1, p.limit);
    }
  }

  // Of two requests that differ only in position, at most one starts at a given row.
  lemma StartDecides(p: Params, r: Params)
    requires Ready(p) && Ready(r)
    requires p.kind == r.kind && p.limit == r.limit && Start(p) == Start(r)
    ensures p.kind.OffsetKind? ==> p.offset == r.offset
    ensures p.kind.PageKind? ==> p.page == r.page
  {
    if p.kind.PageKind? {
      ProductKeepsOrder(p.page.value - 1, r.page.value - 1, p.limit);
      ProductKeepsOrder(r.page.value - 1, p.page.value - 1, p.limit);
    }
  }

  // Going on and back returns to the same request.
  lemma PreviousUndoesNext(p: Params, total: int)
    requires Ready(p) && Next(p, total).Some?
    ensures Ready(Next(p, total).value)
    ensures Previous(Next(p, total).value, total) == Some(Cleaned(p))
  {
    NextLink(p, total);
    var n := Next(p, total).value;
    PreviousLink(n, total);
    StartDecides(p, Previous(n, total).value);
  }

  // Going back and on does so exactly from a page that is not empty and starts at least one page in:
  // the previous link of an offset below the limit leads to offset 0.
  lemma NextUndoesPreviousIff(p: Params, total: int)
    requires Ready(p) && Previous(p, total).Some?
    ensures Ready(Previous(p, total).value)
    ensures Next(Previous(p, total).value, total) == Some(Cleaned(p)) <==> p.limit <= Start(p) < total
  {
    PreviousLink(p, total);
    var b := Previous(p, total).value;
    NextLink(b, total);
    if p.limit <= Start(p) < total {
      StartDecides(p, Next(b, total).value);
    }
  }

  // ---------------------------------------------------------------- whole walks

  // The rows a page holds: skip start, take limit.
  function Window<T>(start: nat, limit: nat, rows: seq<T>): seq<T> {
    rows[Min(start, |rows|)..Min(start + limit, |rows|)]
  }

  // Every page of a client that follows next links to the end.
  function Walk<T>(p: Params, rows: seq<T>): seq<seq<T>>
    requires Ready(p)
    decreases |rows| - Start(p)
  {
    NextLink(p, |rows|);
    var next := Next(p, |rows|);
    [Window(Start(p), p.limit, rows)] + if next.None? then [] else Walk(next.value, rows)
  }

  function Concat<T>(pages: seq<seq<T>>): seq<T> {
    if pages == [] then [] else pages[0] + Concat(pages[1..])
  }

  // Rows cut into pages of limit, from start on.
  function Cut<T>(start: nat, limit: nat, rows: seq<T>): seq<seq<T>>
    requires limit >= 1
    decreases |rows| - start
  {
    [Window(start, limit, rows)] + if start + limit < |rows| then Cut(start + limit, limit, rows) else []
  }

  lemma {:induction false} WalkIsCut<T>(p: Params, rows: seq<T>)
    requires Ready(p)
    ensures Walk(p, rows) == Cut(Start(p), p.limit, rows)
    decreases |rows| - Start(p)
  {
    NextLink(p, |rows|);
    if Next(p, |rows|).Some? {
      WalkIsCut(Next(p, |rows|).value, rows);
    }
  }

  lemma ConcatFirst<T>(first: seq<T>, pages: seq<seq<T>>)
    ensures Concat([first] + pages) == first + Concat(pages)
  {
    assert ([first] + pages)[1..] == pages;
  }

  lemma WindowThenRest<T>(start: nat, limit: nat, rows: seq<T>)
    ensures Window(start, limit, rows) + rows[Min(start + limit, |rows|)..] == rows[Min(start, |rows|)..]
  {
  }

  lemma {:induction false} CutVisitsAll<T>(start: nat, limit: nat, rows: seq<T>)
    requires limit >= 1
    ensures Concat(Cut(start, limit, rows)) == rows[Min(start, |rows|)..]
    decreases |rows| - start
  {
    var pages := if start + limit < |rows| then Cut(start + limit, limit, rows) else [];
    assert Concat(pages) == rows[Min(start + limit, |rows|)..] by {
      if start + limit < |rows| {
        CutVisitsAll(start + limit, limit, rows);
      }
    }
    ConcatFirst(Window(start, limit, rows), pages);
    WindowThenRest(start, limit, rows);
  }

  predicate FullButLast<T>(pages: seq<seq<T>>, limit: nat) {
    && pages != []
    && (forall i :: 0 <= i < |pages| - 1 ==> |pages[i]| == limit)
    && 1 <= |pages[|pages| - 1]| <= limit
  }

  lemma FullPageFirst<T>(first: seq<T>, pages: seq<seq<T>>, limit: nat)
    requires |first| == limit && FullButLast(pages, limit)
    ensures FullButLast([first] + pages, limit)
  {
    var all := [first] + pages;
    forall i | 0 <= i < |all| - 1 ensures |all[i]| == limit {
      if i > 0 {
        assert all[i] == pages[i - 1];
      }
    }
    assert all[|all| - 1] == pages[|pages| - 1];
  }

  lemma {:induction false} CutCount<T>(start: nat, limit: nat, rows: seq<T>)
    requires limit >= 1 && start < |rows|
    ensures |Cut(start, limit, rows)| == CeilDiv(|rows| - start, limit)
    decreases |rows| - start
  {
    if start + limit < |rows| {
      CutCount(start + limit, limit, rows);
      OneMorePage(|rows| - start, limit);
    } else {
      OnePage(|rows| - start, limit);
    }
  }

  lemma {:induction false} CutFullPages<T>(start: nat, limit: nat, rows: seq<T>)
    requires limit >= 1 && start < |rows|
    ensures FullButLast(Cut(start, limit, rows), limit)
    decreases |rows| - start
  {
    if start + limit < |rows| {
      CutFullPages(start + limit, limit, rows);
      FullPageFirst(Window(start, limit, rows), Cut(start + limit, limit, rows), limit);
    }
  }

  lemma OneMorePage(total: int, limit: int)
    requires limit >= 1
    ensures CeilDiv(total, limit) == CeilDiv(total - limit, limit) + 1
  {
    CeilDivBounds(total, limit);
    CeilDivBounds(total - limit, limit);
    ProductKeepsOrder(CeilDiv(total, limit), CeilDiv(total - limit, limit) + 1, limit);
    ProductKeepsOrder(CeilDiv(total - limit, limit) + 1, CeilDiv(total, limit), limit);
  }

  lemma OnePage(total: int, limit: int)
    requires 1 <= total <= limit
    ensures CeilDiv(total, limit) == 1
  {
    CeilDivBounds(total, limit);
    ProductKeepsOrder(CeilDiv(total, limit), 0, limit);
    ProductKeepsOrder(1, CeilDiv(total, limit) - 1, limit);
  }

  // Every row from the starting position on is served exactly once, in order, in full pages but for
  // the last; and the walk ends.
  lemma LinksVisitEverything<T>(p: Params, rows: seq<T>)
    requires Ready(p)
    ensures Concat(Walk(p, rows)) == rows[Min(Start(p), |rows|)..]
    ensures |Walk(p, rows)| == if Start(p) < |rows| then CeilDiv(|rows| - Start(p), p.limit) else 1
    ensures Start(p) < |rows| ==> FullButLast(Walk(p, rows), p.limit)
  {
    WalkIsCut(p, rows);
    CutVisitsAll(Start(p), p.limit, rows);
    if Start(p) < |rows| {
      CutCount(Start(p), p.limit, rows);
      CutFullPages(Start(p), p.limit, rows);
    }
  }

  lemma FirstLink(p: Params, total: int)
    requires Ready(p)
    ensures First(p, total).Some? && Ready(First(p, total).value) && Start(First(p, total).value) == 0
  {
  }

  lemma WalkFromTheFirstRow<T>(p: Params, rows: seq<T>)
    requires Ready(p) && Start(p) == 0
    ensures Concat(Walk(p, rows)) == rows
  {
    WalkIsCut(p, rows);
    CutVisitsAll(0, p.limit, rows);
    assert rows[0..] == rows;
  }

  // From anywhere, the first link starts a walk over all rows.
  lemma {:induction false} FirstLinkStartsFullWalk<T>(p: Params, rows: seq<T>)
    requires Ready(p)
    ensures First(p, |rows|).Some? && Ready(First(p, |rows|).value)
    ensures Concat(Walk(First(p, |rows|).value, rows)) == rows
  {
    FirstLink(p, |rows|);
    WalkFromTheFirstRow(First(p, |rows|).value, rows);
  }

  // An offset request and a page request for the same rows lead through the same pages, and agree
  // on whether more rows follow or precede.
  lemma {:induction false} PageModeMatchesOffsetMode<T>(p: Params, r: Params, rows: seq<T>)
    requires Ready(p) && Ready(r) && p.kind.OffsetKind? && r.kind.PageKind?
    requires p.limit == r.limit && p.offset.value == (r.page.value - 1) * r.limit
    ensures Walk(p, rows) == Walk(r, rows)
    ensures MetadataFor(p, |rows|).hasNext == MetadataFor(r, |rows|).hasNext
    ensures MetadataFor(p, |rows|).hasPrevious == MetadataFor(r, |rows|).hasPrevious
  {
    WalkIsCut(p, rows);
    WalkIsCut(r, rows);
    NextLink(p, |rows|);
    NextLink(r, |rows|);
    PreviousLink(p, |rows|);
    PreviousLink(r, |rows|);
  }

  // ---------------------------------------------------------------- walks through actual links

  // The address in the next link of the answer to q.
  function NextAddress(q: Query, p: Params, total: int): Query
    requires Ready(p) && MetadataFor(p, total).hasNext
  {
    BuildUrl(p.kind, q, MetadataFor(p, total).links.next.value)
  }

  lemma NextAddressAsksFor(c: Config, q: Query, p: Params, total: int)
    requires ExtractParams(c, q) == Ok(p) && Ready(p) && Next(p, total).Some?
    ensures var r := ExtractParams(c, NextAddress(q, p, total));
            r.Ok? && Cleaned(r.value) == Next(p, total).value
  {
    LinkAsksFor(c, q, p, MetadataFor(p, total).links.next.value);
  }

  // The request that address makes.
  function NextAsked(c: Config, q: Query, p: Params, total: int): (r: Params)
    requires ExtractParams(c, q) == Ok(p) && Ready(p) && Next(p, total).Some?
    ensures ExtractParams(c, NextAddress(q, p, total)) == Ok(r)
    ensures Ready(r) && Cleaned(r) == Next(p, total).value
  {
    NextAddressAsksFor(c, q, p, total);
    ExtractParams(c, NextAddress(q, p, total)).value
  }

  function AddressWalk<T>(c: Config, q: Query, p: Params, rows: seq<T>): seq<seq<T>>
    requires ExtractParams(c, q) == Ok(p) && Ready(p)
    decreases |rows| - Start(p)
  {
    NextLink(p, |rows|);
    [Window(Start(p), p.limit, rows)] +
    if Next(p, |rows|).None? then []
    else AddressWalk(c, NextAddress(q, p, |rows|), NextAsked(c, q, p, |rows|), rows)
  }

  lemma SameWalk<T>(p: Params, r: Params, rows: seq<T>)
    requires Ready(p) && Ready(r) && Cleaned(p) == r
    ensures Walk(p, rows) == Walk(r, rows)
  {
    WalkIsCut(p, rows);
    WalkIsCut(r, rows);
  }

  // Printing each position into an address and parsing it back changes nothing about a walk.
  lemma {:induction false} AddressesLeadThroughWalk<T>(c: Config, q: Query, p: Params, rows: seq<T>)
    requires ExtractParams(c, q) == Ok(p) && Ready(p)
    ensures AddressWalk(c, q, p, rows) == Walk(p, rows)
    decreases |rows| - Start(p)
  {
    NextLink(p, |rows|);
    if Next(p, |rows|).Some? {
      var r := NextAsked(c, q, p, |rows|);
      AddressesLeadThroughWalk(c, NextAddress(q, p, |rows|), r, rows);
      SameWalk(r, Next(p, |rows|).value, rows);
    }
  }

  // ---------------------------------------------------------------- the last link

  // The request whose answer offers no next link.
  function WalkEnd(p: Params, total: int): (r: Params)
    requires Ready(p)
    decreases total - Start(p)
  {
    NextLink(p, total);
    if Next(p, total).None? then p else WalkEnd(Next(p, total).value, total)
  }

  lemma {:induction false} EndOfWalk(p: Params, total: int)
    requires Ready(p) && Start(p) < total
    ensures var r := WalkEnd(p, total);
            && Ready(r) && r.kind == p.kind && r.limit == p.limit
            && Start(r) < total <= Start(r) + p.limit && Start(r) % p.limit == Start(p) % p.limit
    decreases total - Start(p)
  {
    NextLink(p, total);
    if Next(p, total).Some? {
      EndOfWalk(Next(p, total).value, total);
      OneLapOn(Start(p), p.limit);
    }
  }

  lemma OneLapOn(a: int, limit: int)
    requires limit >= 1
    ensures (a + limit) % limit == a % limit
  {
    var k := a / limit;
    assert a + limit == (k + 1) * limit + a % limit;
    Remainder(a + limit, k + 1, a % limit, limit);
  }

  lemma Remainder(a: int, k: int, r: int, limit: int)
    requires 0 <= r < limit && a == k * limit + r
    ensures a % limit == r && a / limit == k
  {
    var d := a / limit;
    ProductKeepsOrder(d, k, limit);
    ProductKeepsOrder(k, d, limit);
  }

  lemma LastLink(p: Params, total: int)
    requires Ready(p) && total >= 1
    ensures Last(p, total).Some? && Ready(Last(p, total).value)
    ensures Start(Last(p, total).value) == (CeilDiv(total, p.limit) - 1) * p.limit
  {
    var pages := CeilDiv(total, p.limit);
    CeilDivBounds(total, p.limit);
    ProductKeepsOrder(pages, 0, p.limit);
    ProductKeepsOrder(0, pages - 1, p.limit);
    assert pages >= 1;
  }

  // The last link leads to the page on which the walk ends exactly when the walk started on a whole
  // number of pages, as every page request does.
  lemma LastLinkEndsWalkIff(p: Params, total: int)
    requires Ready(p) && Start(p) < total
    ensures Last(p, total).Some? && Ready(Last(p, total).value) && Ready(WalkEnd(p, total))
    ensures Start(Last(p, total).value) == Start(WalkEnd(p, total)) <==> Start(p) % p.limit == 0
    ensures p.kind.PageKind? ==> Start(p) % p.limit == 0
  {
    EndOfWalk(p, total);
    LastLink(p, total);
    LastMultiple(Start(WalkEnd(p, total)), p.limit, total);
    if p.kind.PageKind? {
      Remainder(Start(p), p.page.value - 1, 0, p.limit);
    }
  }

  lemma LastMultiple(end: nat, limit: int, total: int)
    requires limit >= 1 && end < total <= end + limit
    ensures end == (CeilDiv(total, limit) - 1) * limit <==> end % limit == 0
  {
    var pages := CeilDiv(total, limit);
    CeilDivBounds(total, limit);
    Remainder((pages - 1) * limit, pages - 1, 0, limit);
    if end % limit == 0 {
      var k := end / limit;
      assert end == k * limit;
      ProductKeepsOrder(k, pages - 1, limit);
      ProductKeepsOrder(pages - 1, k, limit);
    }
  }
}
