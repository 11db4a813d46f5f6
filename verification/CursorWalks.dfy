/**
 * Following the cursors of shared/api_pagination.py from request to request, with the intended filter.
 *
 * The filter reads `id`, whatever field the cursor was made of.  For any field, a client gets the rows
 * cut into pages exactly when, at each page boundary, what the filter keeps starts like what is left
 * (`CursorPagesAreCutIff`); for `id` itself that is so exactly when no boundary splits a tie.
 */
module CursorWalks {
  import opened Prelude
  import opened Pagination
  import opened PageWalks
  import opened PageChains
  import opened CursorAnswers

  // What a request brings: rows, and the cursor to ask on with.
  type Server = Params -> (seq<Row>, Option<string>)

  // The pages of a client that sends back every cursor it is given, up to n requests.
  function ClientPages(p: Params, serve: Server, n: nat): seq<seq<Row>>
    decreases n
  {
    if n == 0 then []
    else
      var (data, cursor) := serve(p);
      [data] + if cursor.None? then [] else ClientPages(p.(cursor := cursor), serve, n - 1)
  }

  function ServerOf(rows: seq<Row>, codec: Codec, extra: bool): Server {
    (p: Params) =>
      if Normal(p) && p.kind.CursorKind? && Filtered(p, rows, codec).Ok?
      then (Served(p, rows, codec, extra).data, Served(p, rows, codec, extra).metadata.nextCursor)
      else ([], None)
  }

  function CursorPages(p: Params, rows: seq<Row>, codec: Codec, extra: bool, n: nat): seq<seq<Row>> {
    ClientPages(p, ServerOf(rows, codec, extra), n)
  }

  // The first page of what is left, and a cursor if that is not all.
  function PageAndCursor(p: Params, left: seq<Row>, codec: Codec, extra: bool): (seq<Row>, Option<string>)
    requires p.limit >= 1
  {
    if |left| <= p.limit then (left, None)
    else (left[..p.limit], Some(codec.encode(Column(left[NamedAt(p.limit, extra)], CursorField(p)))))
  }

  ghost predicate ServesPages(serve: Server, rows: seq<Row>, codec: Codec, extra: bool) {
    forall p :: Asks(p, rows, codec) ==> serve(p) == PageAndCursor(p, Left(p, rows, codec), codec, extra)
  }

  lemma ServerServesPages(rows: seq<Row>, codec: Codec, extra: bool)
    ensures ServesPages(ServerOf(rows, codec, extra), rows, codec, extra)
  {
    forall p | Asks(p, rows, codec)
      ensures ServerOf(rows, codec, extra)(p) == PageAndCursor(p, Left(p, rows, codec), codec, extra)
    {
      var left := Left(p, rows, codec);
      AskedAnswer(p, rows, codec, extra);
      assert left[..|left|] == left;
    }
  }

  // What the filter keeps when asked on with the cursor of a row.
  function AfterRow(rows: seq<Row>, order: SortOrder, field: string): Row -> seq<Row> {
    (r: Row) => Kept(rows, order, Column(r, field))
  }

  lemma {:induction false} ClientPagesAreChain(p: Params, serve: Server, rows: seq<Row>, codec: Codec, extra: bool,
                                               n: nat)
    requires Asks(p, rows, codec) && ServesPages(serve, rows, codec, extra)
    ensures ClientPages(p, serve, n) ==
            Chain(Left(p, rows, codec), AfterRow(rows, p.sortOrder, CursorField(p)), p.limit, extra, n)
    decreases n
  {
    var left := Left(p, rows, codec);
    if n > 0 && |left| > p.limit {
      var value := Column(left[NamedAt(p.limit, extra)], CursorField(p));
      SentBack(p, rows, codec, value);
      ClientPagesAreChain(p.(cursor := Some(codec.encode(value))), serve, rows, codec, extra, n - 1);
    }
  }

  lemma CursorPagesAreChain(p: Params, rows: seq<Row>, codec: Codec, extra: bool, n: nat)
    requires Asks(p, rows, codec)
    ensures CursorPages(p, rows, codec, extra, n) ==
            Chain(Left(p, rows, codec), AfterRow(rows, p.sortOrder, CursorField(p)), p.limit, extra, n)
  {
    ServerServesPages(rows, codec, extra);
    ClientPagesAreChain(p, ServerOf(rows, codec, extra), rows, codec, extra, n);
  }

  // ---------------------------------------------------------------- any sort field

  // For any sort field: a client that returns every cursor gets the rows cut into pages, and then
  // stops, if and only if every boundary holds.
  lemma {:induction false} CursorPagesAreCutIff(p: Params, rows: seq<Row>, codec: Codec, n: nat)
    requires Asks(p, rows, codec) && p.cursor.None? && n >= |rows| + 2
    ensures CursorPages(p, rows, codec, false, n) == Cut(0, p.limit, rows) <==>
            BoundariesHold(rows, AfterRow(rows, p.sortOrder, CursorField(p)), p.limit, 0)
  {
    CursorPagesAreChain(p, rows, codec, false, n);
    ChainIsCutIff(rows, AfterRow(rows, p.sortOrder, CursorField(p)), p.limit, n);
  }

  // An input for which they do not: rows sorted by another field, of which the first page comes again
  // and again, with the same cursor.
  lemma OtherSortFieldRepeatsAPage(codec: Codec)
    requires Faithful(codec)
    ensures var p := Params(CursorKind, 1, None, None, None, Some("age"), Asc);
            var rows := [map["id" := 10, "age" := 1], map["id" := 20, "age" := 2]];
            var first := Served(p, rows, codec, false);
            && first.metadata.nextCursor == Some(codec.encode(1))
            && var again := p.(cursor := first.metadata.nextCursor);
               Filtered(again, rows, codec).Ok? && Served(again, rows, codec, false) == first
  {
    var p := Params(CursorKind, 1, None, None, None, Some("age"), Asc);
    var rows: seq<Row> := [map["id" := 10, "age" := 1], map["id" := 20, "age" := 2]];
    assert Filtered(p, rows, codec) == Ok(rows);
    assert Fetched(p, rows, codec).value == rows;
    assert rows[..1] == [rows[0]];
    var again := p.(cursor := Some(codec.encode(1)));
    assert codec.decode(codec.encode(1)) == Some(1);
    assert rows[1..] == [rows[1]] && rows[1..][1..] == [];
    assert Kept(rows[1..], Asc, 1) == [rows[1]] + Kept([], Asc, 1);
    assert Kept(rows, Asc, 1) == rows;
    assert Filtered(again, rows, codec) == Ok(rows);
  }

  // ---------------------------------------------------------------- rows sorted by the field the filter reads

  predicate InOrder(order: SortOrder, first: int, second: int) {
    if order.Asc? then first <= second else first >= second
  }

  // The caller sorts the rows by the cursor field, in the order asked for.
  predicate Sorted(rows: seq<Row>, order: SortOrder) {
    && (forall i :: 0 <= i < |rows| ==> CURSOR_FIELD in rows[i])
    && (forall i, j :: 0 <= i < j < |rows| ==> InOrder(order, Key(rows[i]), Key(rows[j])))
  }

  ghost predicate SortedById(p: Params, rows: seq<Row>) {
    CursorField(p) == CURSOR_FIELD && Sorted(rows, p.sortOrder)
  }

  // Rows still ahead, seen from the front: cut off a page, go on after the named row.
  function Pages(left: seq<Row>, limit: int, order: SortOrder, extra: bool): seq<seq<Row>>
    requires limit >= 1 && Sorted(left, order)
    decreases |left|
  {
    if |left| <= limit then [left]
    else
      var cursor := Key(left[NamedAt(limit, extra)]);
      KeptIsTail(left, order, NamedAt(limit, extra));
      [left[..limit]] + Pages(Kept(left, order, cursor), limit, order, extra)
  }

  // The filter skips the named row and every row before it or level with it, and nothing else.
  lemma KeptIsTail(left: seq<Row>, order: SortOrder, i: nat)
    requires Sorted(left, order) && i < |left|
    ensures var kept := Kept(left, order, Key(left[i]));
            && |kept| < |left| - i && kept == left[|left| - |kept|..]
            && Sorted(kept, order)
            && (|kept| == |left| - i - 1 <==>
                  i + 1 < |left| ==> Key(left[i]) != Key(left[i + 1]))
  {
    var cursor := Key(left[i]);
    var kept := Kept(left, order, cursor);
    KeptIsSuffix(left, order, cursor);
    var cut := |left| - |kept|;
    assert cut > i by {
      if cut <= i {
        assert kept[i - cut] == left[i];
        KeptAreAfter(left, order, cursor, i - cut);
      }
    }
    if i + 1 < |left| && Key(left[i]) != Key(left[i + 1]) {
      KeptFrom(left, order, cursor, i + 1);
    }
    if i + 1 < |left| && cut == i + 1 {
      KeptAreAfter(left, order, cursor, 0);
    }
  }

  lemma {:induction false} KeptAreAfter(rows: seq<Row>, order: SortOrder, cursor: int, i: nat)
    requires i < |Kept(rows, order, cursor)|
    ensures var r := Kept(rows, order, cursor)[i];
            CURSOR_FIELD in r && After(order, Key(r), cursor)
  {
    if CURSOR_FIELD in rows[0] && After(order, Key(rows[0]), cursor) {
      if i > 0 {
        KeptAreAfter(rows[1..], order, cursor, i - 1);
      }
    } else {
      KeptAreAfter(rows[1..], order, cursor, i);
    }
  }

  lemma {:induction false} KeptFrom(rows: seq<Row>, order: SortOrder, cursor: int, i: nat)
    requires Sorted(rows, order) && i < |rows| && After(order, Key(rows[i]), cursor)
    ensures |Kept(rows, order, cursor)| >= |rows| - i
  {
    if i > 0 {
      KeptFrom(rows[1..], order, cursor, i - 1);
    } else if |rows| > 1 {
      assert rows[1..][0] == rows[1];
      KeptFrom(rows[1..], order, cursor, 0);
    }
  }

  lemma {:induction false} KeptIsSuffix(rows: seq<Row>, order: SortOrder, cursor: int)
    requires Sorted(rows, order)
    ensures var kept := Kept(rows, order, cursor); kept == rows[|rows| - |kept|..]
  {
    if rows != [] {
      KeptIsSuffix(rows[1..], order, cursor);
      if After(order, Key(rows[0]), cursor) {
        KeptFrom(rows, order, cursor, 0);
      }
    }
  }

  lemma {:induction false} KeptTwice(rows: seq<Row>, order: SortOrder, first: int, second: int)
    requires After(order, second, first)
    ensures Kept(Kept(rows, order, first), order, second) == Kept(rows, order, second)
  {
    if rows != [] {
      KeptTwice(rows[1..], order, first, second);
      if CURSOR_FIELD in rows[0] && After(order, Key(rows[0]), first) {
        assert ([rows[0]] + Kept(rows[1..], order, first))[1..] == Kept(rows[1..], order, first);
      }
    }
  }

  // On sorted rows the client goes through the pages cut off the front of what is left.
  lemma {:induction false} ChainIsPages(rows: seq<Row>, left: seq<Row>, order: SortOrder, limit: nat, extra: bool,
                                        n: nat)
    requires limit >= 1 && Sorted(left, order) && n > |left|
    requires left == rows || exists cursor :: left == Kept(rows, order, cursor)
    ensures Chain(left, AfterRow(rows, order, CURSOR_FIELD), limit, extra, n) == Pages(left, limit, order, extra)
    decreases n
  {
    if |left| > limit {
      var i := NamedAt(limit, extra);
      var key := Key(left[i]);
      if left != rows {
        var cursor :| left == Kept(rows, order, cursor);
        KeptAreAfter(rows, order, cursor, i);
        KeptTwice(rows, order, cursor, key);
      }
      KeptIsTail(left, order, i);
      ChainIsPages(rows, Kept(rows, order, key), order, limit, extra, n - 1);
    }
  }

  lemma CursorWalkIsPages(p: Params, rows: seq<Row>, codec: Codec, extra: bool, n: nat)
    requires Asks(p, rows, codec) && SortedById(p, rows) && n > |Left(p, rows, codec)|
    ensures Sorted(Left(p, rows, codec), p.sortOrder)
    ensures CursorPages(p, rows, codec, extra, n)
            == Pages(Left(p, rows, codec), p.limit, p.sortOrder, extra)
  {
    var left := Left(p, rows, codec);
    if p.cursor.Some? && p.cursor.value != "" {
      KeptIsSuffix(rows, p.sortOrder, codec.decode(p.cursor.value).value);
    }
    CursorPagesAreChain(p, rows, codec, extra, n);
    ChainIsPages(rows, left, p.sortOrder, p.limit, extra, n);
  }

  lemma PageThenRest<T>(left: seq<T>, limit: nat, kept: seq<T>, rest: seq<T>)
    requires |kept| <= |left| - limit && kept == left[|left| - |kept|..]
    requires multiset(rest) <= multiset(kept)
    ensures multiset(left[..limit] + rest) <= multiset(left)
  {
    var skipped := left[limit..|left| - |kept|];
    assert left == left[..limit] + skipped + kept;
  }

  lemma PageThenPages<T>(left: seq<T>, limit: nat, kept: seq<T>, pages: seq<seq<T>>)
    requires |kept| <= |left| - limit && kept == left[|left| - |kept|..]
    requires multiset(Concat(pages)) <= multiset(kept)
    ensures multiset(Concat([left[..limit]] + pages)) <= multiset(left)
  {
    ConcatFirst(left[..limit], pages);
    PageThenRest(left, limit, kept, Concat(pages));
  }

  lemma OnlyPage<T>(left: seq<T>)
    ensures Concat([left]) == left
  {
    ConcatFirst(left, []);
    assert [left] + [] == [left] && left + [] == left;
  }

  lemma {:induction false} PagesRepeatNothing(left: seq<Row>, limit: int, order: SortOrder, extra: bool)
    requires limit >= 1 && Sorted(left, order)
    ensures multiset(Concat(Pages(left, limit, order, extra))) <= multiset(left)
    decreases |left|
  {
    if |left| <= limit {
      OnlyPage(left);
    } else {
      var i := NamedAt(limit, extra);
      KeptIsTail(left, order, i);
      var kept := Kept(left, order, Key(left[i]));
      PagesRepeatNothing(kept, limit, order, extra);
      PageThenPages(left, limit, kept, Pages(kept, limit, order, extra));
    }
  }

  lemma NoLonger<T>(a: seq<T>, b: seq<T>)
    requires multiset(a) <= multiset(b)
    ensures |a| <= |b|
  {
    assert |multiset(b) - multiset(a)| == |b| - |a|;
  }

  // Row i has the key of the row before it.
  predicate LevelAt(rows: seq<Row>, i: int)
    requires 0 < i < |rows|
  {
    Key(rows[i - 1]) == Key(rows[i])
  }

  // Rows on both sides of a page boundary have different keys.
  predicate NoTieSplit(rows: seq<Row>, limit: int)
    requires limit >= 1
  {
    forall i :: 0 < i < |rows| && i % limit == 0 ==> !LevelAt(rows, i)
  }

  lemma NoTieSplitSooner(left: seq<Row>, limit: int)
    requires limit >= 1 && |left| > limit && !LevelAt(left, limit)
    requires NoTieSplit(left[limit..], limit)
    ensures NoTieSplit(left, limit)
  {
    forall i | 0 < i < |left| && i % limit == 0 ensures !LevelAt(left, i) {
      if i > limit {
        OneLapOn(i - limit, limit);
        assert !LevelAt(left[limit..], i - limit);
      } else if i < limit {
        Remainder(i, 0, i, limit);
      }
    }
  }

  lemma NoTieSplitLater(left: seq<Row>, limit: int)
    requires limit >= 1 && |left| > limit
    requires NoTieSplit(left, limit)
    ensures NoTieSplit(left[limit..], limit) && !LevelAt(left, limit)
  {
    OneLapOn(0, limit);
    Remainder(0, 0, 0, limit);
    var later := left[limit..];
    forall i | 0 < i < |later| && i % limit == 0 ensures !LevelAt(later, i) {
      OneLapOn(i, limit);
      assert !LevelAt(left, i + limit);
    }
  }

  lemma OnePageSplitsNothing(left: seq<Row>, limit: int)
    requires limit >= 1 && |left| <= limit
    ensures NoTieSplit(left, limit)
  {
    forall i | 0 < i < |left| ensures i % limit == i {
      Remainder(i, 0, i, limit);
    }
  }

  lemma SameRest<T>(left: seq<T>, limit: nat, rest: seq<T>)
    requires limit <= |left|
    ensures left[..limit] + rest == left <==> rest == left[limit..]
  {
    assert (left[..limit] + rest)[limit..] == rest;
    assert left[..limit] + left[limit..] == left;
  }

  lemma {:induction false} PagesVisitAllIff(left: seq<Row>, limit: int, order: SortOrder)
    requires limit >= 1 && Sorted(left, order)
    ensures Concat(Pages(left, limit, order, false)) == left <==> NoTieSplit(left, limit)
    decreases |left|
  {
    if |left| <= limit {
      OnlyPage(left);
      OnePageSplitsNothing(left, limit);
    } else {
      var kept := Kept(left, order, Key(left[limit - 1]));
      KeptIsTail(left, order, limit - 1);
      var rest := Concat(Pages(kept, limit, order, false));
      ConcatFirst(left[..limit], Pages(kept, limit, order, false));
      SameRest(left, limit, rest);
      if LevelAt(left, limit) {
        PagesRepeatNothing(kept, limit, order, false);
        NoLonger(rest, kept);
      } else {
        PagesVisitAllIff(kept, limit, order);
        if NoTieSplit(kept, limit) {
          NoTieSplitSooner(left, limit);
        }
      }
      if NoTieSplit(left, limit) {
        NoTieSplitLater(left, limit);
      }
    }
  }

  // On sorted rows a boundary holds exactly when it does not split a tie.
  lemma BoundaryHoldsIff(rows: seq<Row>, order: SortOrder, limit: nat, i: nat)
    requires Sorted(rows, order) && limit >= 1 && 0 < i < |rows|
    ensures BoundaryHolds(rows, AfterRow(rows, order, CURSOR_FIELD), limit, i) <==> !LevelAt(rows, i)
  {
    var kept := Kept(rows, order, Key(rows[i - 1]));
    KeptIsTail(rows, order, i - 1);
    if LevelAt(rows, i) && BoundaryHolds(rows, AfterRow(rows, order, CURSOR_FIELD), limit, i) {
      assert rows[i..][..Min(limit, |rows[i..]|)][0] == rows[i];
      assert kept[..Min(limit, |kept|)][0] == kept[0];
      KeptAreAfter(rows, order, Key(rows[i - 1]), 0);
    }
  }

  lemma {:induction false} NoTieNoBrokenBoundary(rows: seq<Row>, order: SortOrder, limit: nat, start: nat)
    requires Sorted(rows, order) && limit >= 1 && start % limit == 0 && NoTieSplit(rows, limit)
    ensures BoundariesHold(rows, AfterRow(rows, order, CURSOR_FIELD), limit, start)
    decreases |rows| - start
  {
    if start + limit < |rows| {
      OneLapOn(start, limit);
      assert !LevelAt(rows, start + limit);
      BoundaryHoldsIff(rows, order, limit, start + limit);
      NoTieNoBrokenBoundary(rows, order, limit, start + limit);
    }
  }

  // Naming the last kept row, a client gets the rows cut into pages, which is every row once and in
  // order, if and only if no page ends between two rows with the same key.
  lemma CursorsVisitAllIff(p: Params, rows: seq<Row>, codec: Codec, n: nat)
    requires Asks(p, rows, codec) && SortedById(p, rows) && p.cursor.None? && n >= |rows| + 2
    ensures CursorPages(p, rows, codec, false, n) == Cut(0, p.limit, rows) <==> NoTieSplit(rows, p.limit)
    ensures Concat(CursorPages(p, rows, codec, false, n)) == rows <==> NoTieSplit(rows, p.limit)
  {
    CursorPagesAreCutIff(p, rows, codec, n);
    CursorWalkIsPages(p, rows, codec, false, n);
    PagesVisitAllIff(rows, p.limit, p.sortOrder);
    CutVisitsAll(0, p.limit, rows);
    assert rows[0..] == rows;
    if NoTieSplit(rows, p.limit) {
      Remainder(0, 0, 0, p.limit);
      NoTieNoBrokenBoundary(rows, p.sortOrder, p.limit, 0);
    }
  }

  // So it does for every limit exactly when the keys are distinct.
  lemma EveryLimitIffDistinct(rows: seq<Row>, order: SortOrder)
    requires Sorted(rows, order)
    ensures (forall limit {:trigger NoTieSplit(rows, limit)} :: limit >= 1 ==> NoTieSplit(rows, limit))
            <==> (forall i, j :: 0 <= i < j < |rows| ==> Key(rows[i]) != Key(rows[j]))
  {
    if forall limit {:trigger NoTieSplit(rows, limit)} :: limit >= 1 ==> NoTieSplit(rows, limit) {
      assert NoTieSplit(rows, 1);
      forall i, j | 0 <= i < j < |rows| ensures Key(rows[i]) != Key(rows[j]) {
        assert (i + 1) % 1 == 0;
        assert !LevelAt(rows, i + 1);
      }
    }
  }

  // Naming the extra row, it loses a row at every page boundary: it gets all rows only when there is a
  // single page.
  lemma NamingTheExtraRowVisitsAllIff(p: Params, rows: seq<Row>, codec: Codec, n: nat)
    requires Asks(p, rows, codec) && SortedById(p, rows) && p.cursor.None? && n > |rows|
    ensures Concat(CursorPages(p, rows, codec, true, n)) == rows <==> |rows| <= p.limit
  {
    CursorWalkIsPages(p, rows, codec, true, n);
    if |rows| <= p.limit {
      OnlyPage(rows);
    } else {
      var kept := Kept(rows, p.sortOrder, Key(rows[p.limit]));
      KeptIsTail(rows, p.sortOrder, p.limit);
      ConcatFirst(rows[..p.limit], Pages(kept, p.limit, p.sortOrder, true));
      PagesRepeatNothing(kept, p.limit, p.sortOrder, true);
      NoLonger(Concat(Pages(kept, p.limit, p.sortOrder, true)), kept);
    }
  }

  // Whichever row is named, nothing is served twice.
  lemma CursorsRepeatNothing(p: Params, rows: seq<Row>, codec: Codec, extra: bool, n: nat)
    requires Asks(p, rows, codec) && SortedById(p, rows) && p.cursor.None? && n > |rows|
    ensures multiset(Concat(CursorPages(p, rows, codec, extra, n))) <= multiset(rows)
  {
    CursorWalkIsPages(p, rows, codec, extra, n);
    PagesRepeatNothing(rows, p.limit, p.sortOrder, extra);
  }
}
