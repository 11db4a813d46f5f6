/**
 * Fetching rows and answering with a cursor (shared/api_pagination.py): paginate_query takes one row
 * more than the limit, create_paginated_response drops it again and names the row to go on after.
 *
 * The cursor filter is the intended one, which keeps the rows after the cursor.  As it is written it
 * looks the column up by a call with too few arguments, and so refuses every cursor
 * (`RefusesEveryCursor`).
 */
module CursorAnswers {
  import opened Prelude
  import opened Pagination
  import PageChains
  import PageWalks

  // A row by its columns; a missing column reads as None.
  type Row = map<string, int>

  // Cursor text: JSON, a hash of it, and base64 around both.
  datatype Codec = Codec(encode: int -> string, decode: string -> Option<int>)

  ghost predicate Faithful(codec: Codec) {
    forall k :: codec.decode(codec.encode(k)) == Some(k) && codec.encode(k) != ""
  }

  // build_cursor_condition
  predicate After(order: SortOrder, value: int, cursor: int) {
    if order.Asc? then value > cursor else value < cursor
  }

  const CURSOR_FIELD := "id"

  function Column(r: Row, field: string): int {
    Lookup(r, field, 0)
  }

  function Key(r: Row): int {
    Column(r, CURSOR_FIELD)
  }

  // The rows the filter keeps, in their order.
  function Kept(rows: seq<Row>, order: SortOrder, cursor: int): (kept: seq<Row>)
    ensures |kept| <= |rows|
  {
    if rows == [] then []
    else if CURSOR_FIELD in rows[0] && After(order, Key(rows[0]), cursor)
    then [rows[0]] + Kept(rows[1..], order, cursor)
    else Kept(rows[1..], order, cursor)
  }

  lemma {:induction false} KeptAreRows(rows: seq<Row>, order: SortOrder, cursor: int)
    ensures forall r :: r in Kept(rows, order, cursor) ==> r in rows
  {
    if rows != [] {
      KeptAreRows(rows[1..], order, cursor);
    }
  }

  // apply_cursor_to_query
  function Filtered(p: Params, rows: seq<Row>, codec: Codec): Result<seq<Row>, Failure> {
    if !p.kind.CursorKind? || p.cursor.None? || p.cursor.value == "" then Ok(rows)
    else
      match codec.decode(p.cursor.value)
      case None => Err(InvalidCursor)
      case Some(cursor) => Ok(Kept(rows, p.sortOrder, cursor))
  }

  // A cursor request is refused if and only if its cursor is not blank and cannot be read; a blank one, or
  // none, keeps all rows, and one that reads as a key keeps rows past that key and no others.
  lemma CursorRefusedIff(p: Params, rows: seq<Row>, codec: Codec)
    ensures Filtered(p, rows, codec).Err? <==>
            && p.kind.CursorKind? && p.cursor.Some? && p.cursor.value != ""
            && codec.decode(p.cursor.value).None?
    ensures Filtered(p, rows, codec).Err? ==> Filtered(p, rows, codec).error == InvalidCursor
    ensures !p.kind.CursorKind? || p.cursor.None? || p.cursor.value == "" ==> Filtered(p, rows, codec) == Ok(rows)
    ensures Filtered(p, rows, codec).Ok? && p.kind.CursorKind? && p.cursor.Some? && p.cursor.value != "" ==>
              var cursor := codec.decode(p.cursor.value).value;
              forall r :: r in Filtered(p, rows, codec).value <==>
                r in rows && "id" in r && if p.sortOrder == Asc then r["id"] > cursor else r["id"] < cursor
  {
    if p.kind.CursorKind? && p.cursor.Some? && p.cursor.value != "" && codec.decode(p.cursor.value).Some? {
      KeptMembers(rows, p.sortOrder, codec.decode(p.cursor.value).value);
    }
  }

  lemma {:induction false} KeptMembers(rows: seq<Row>, order: SortOrder, cursor: int)
    ensures forall r :: r in Kept(rows, order, cursor) <==>
              r in rows && CURSOR_FIELD in r && After(order, Key(r), cursor)
  {
    if rows != [] {
      KeptMembers(rows[1..], order, cursor);
      assert rows == [rows[0]] + rows[1..];
    }
  }

  // The filter as it is written: a blank cursor is ignored, and any other one leads to the refusal that
  // is meant for cursors that cannot be read.
  function FilteredAsWritten(p: Params, rows: seq<Row>): Result<seq<Row>, Failure> {
    if !p.kind.CursorKind? || p.cursor.None? || p.cursor.value == "" then Ok(rows) else Err(InvalidCursor)
  }

  // The rows paginate_query asks for.
  function Fetched(p: Params, rows: seq<Row>, codec: Codec): Result<seq<Row>, Failure>
    requires Placed(p)
  {
    match Filtered(p, rows, codec)
    case Err(e) => Err(e)
    case Ok(left) =>
      Ok(if ByPosition(p.kind) then PageWalks.Window(Start(p), p.limit, left)
         else PageWalks.Window(0, p.limit + 1, left))
  }

  function CursorField(p: Params): string {
    if p.sortBy.None? || p.sortBy.value == "" then CURSOR_FIELD else p.sortBy.value
  }

  // create_cursor_from_item
  function CursorFor(item: Row, p: Params, codec: Codec): Option<string> {
    if !p.kind.CursorKind? || item == map[] || CursorField(p) !in item then None
    else Some(codec.encode(item[CursorField(p)]))
  }

  datatype Answer = Answer(data: seq<Row>, metadata: Metadata)

  function AnswerOf(data: seq<Row>, p: Params, total: Option<int>, linked: bool, lastItem: Option<Row>,
                    codec: Codec): Result<Answer, Failure>
    requires Normal(p)
  {
    match MetadataOf(p, total, linked)
    case Err(e) => Err(e)
    case Ok(m) =>
      if p.kind.CursorKind? && lastItem.Some? && lastItem.value != map[] && |data| == p.limit + 1
      then Ok(Answer(data[..p.limit], m.(nextCursor := CursorFor(lastItem.value, p, codec), hasNext := true)))
      else Ok(Answer(data, m))
  }

  // A search request is sent one row too many, and no way to the rest: it serves all rows exactly
  // when there are at most limit + 1.
  lemma SearchServesAllIff(p: Params, rows: seq<Row>, total: Option<int>, linked: bool, lastItem: Option<Row>,
                           codec: Codec)
    requires Normal(p) && p.kind.SearchKind?
    ensures var a := AnswerOf(Fetched(p, rows, codec).value, p, total, linked, lastItem, codec);
            && a.Ok? && !a.value.metadata.hasNext && a.value.metadata.nextCursor.None?
            && a.value.metadata.links == NO_LINKS
            && (a.value.data == rows <==> |rows| <= p.limit + 1)
  {
    assert PageWalks.Window(0, p.limit + 1, rows) == rows[..Min(p.limit + 1, |rows|)];
    assert rows[..|rows|] == rows;
  }

  method CreatePaginatedResponse(rows: seq<Row>, params: PaginationParams, total: Option<int>, linked: bool,
                                 lastItem: Option<Row>, codec: Codec)
    returns (data: seq<Row>, r: Result<PaginationMetadata, Failure>)
    requires Normal(params.View())
    ensures r.Ok? ==> fresh(r.value)
    ensures match AnswerOf(rows, params.View(), total, linked, lastItem, codec)
            case Ok(a) => r.Ok? && Answer(data, r.value.View()) == a
            case Err(e) => r == Err(e)
  {
    data := rows;
    if params.kind.CursorKind? && lastItem.Some? && lastItem.value != map[] && |data| == params.limit + 1 {
      data := data[..|data| - 1];
      var nextCursor := CursorFor(lastItem.value, params.View(), codec);
      r := CreateMetadata(params, total, linked);
      if r.Ok? {
        r.value.nextCursor := nextCursor;
        r.value.hasNext := true;
      }
    } else {
      r := CreateMetadata(params, total, linked);
    }
  }

  // ---------------------------------------------------------------- answers to cursor requests

  ghost predicate HasColumn(rows: seq<Row>, field: string) {
    forall r :: r in rows ==> field in r
  }

  // A cursor request that is not refused, on rows that have the field its cursors are made of.
  ghost predicate Asks(p: Params, rows: seq<Row>, codec: Codec) {
    && Normal(p) && p.kind.CursorKind? && Faithful(codec)
    && Filtered(p, rows, codec).Ok? && HasColumn(rows, CursorField(p))
  }

  // The rows it is answered from.
  function Left(p: Params, rows: seq<Row>, codec: Codec): seq<Row> {
    if Filtered(p, rows, codec).Ok? then Filtered(p, rows, codec).value else []
  }

  // Which fetched row the caller names: the last one kept, or the extra one.
  function Named(fetched: seq<Row>, limit: int, extra: bool): Option<Row>
    requires limit >= 1
  {
    if fetched == [] then None
    else if extra then Some(fetched[|fetched| - 1])
    else Some(fetched[Min(limit, |fetched|) - 1])
  }

  function Served(p: Params, rows: seq<Row>, codec: Codec, extra: bool): Answer
    requires Normal(p) && p.kind.CursorKind? && Filtered(p, rows, codec).Ok?
  {
    var fetched := Fetched(p, rows, codec).value;
    AnswerOf(fetched, p, None, false, Named(fetched, p.limit, extra), codec).value
  }

  lemma LeftAreRows(p: Params, rows: seq<Row>, codec: Codec)
    requires Filtered(p, rows, codec).Ok?
    ensures forall r :: r in Left(p, rows, codec) ==> r in rows
  {
    if p.cursor.Some? && p.cursor.value != "" && p.kind.CursorKind? {
      KeptAreRows(rows, p.sortOrder, codec.decode(p.cursor.value).value);
    }
  }

  // One answer: the first page of what is left, and, exactly when more is left than that, the news of it
  // and a cursor for the named row, if that row has the field.
  lemma AnswerHoldsFirstPage(p: Params, rows: seq<Row>, codec: Codec, extra: bool)
    requires Normal(p) && p.kind.CursorKind? && Filtered(p, rows, codec).Ok?
    requires forall r :: r in rows ==> r != map[]
    ensures var left := Left(p, rows, codec);
            var a := Served(p, rows, codec, extra);
            && a.data == left[..Min(p.limit, |left|)]
            && (a.metadata.hasNext <==> |left| > p.limit)
            && a.metadata.nextCursor ==
               (if |left| > p.limit then CursorFor(left[PageChains.NamedAt(p.limit, extra)], p, codec) else None)
            && (|left| > p.limit ==>
                  var row := left[PageChains.NamedAt(p.limit, extra)];
                  && (a.metadata.nextCursor.Some? <==> CursorField(p) in row)
                  && (CursorField(p) in row ==>
                        a.metadata.nextCursor == Some(codec.encode(row[CursorField(p)]))))
  {
    var left := Left(p, rows, codec);
    var fetched := Fetched(p, rows, codec).value;
    assert fetched == left[..Min(p.limit + 1, |left|)];
    if |left| > p.limit {
      var item := left[PageChains.NamedAt(p.limit, extra)];
      assert Named(fetched, p.limit, extra) == Some(item) && item in left;
      LeftAreRows(p, rows, codec);
    }
  }

  // For rows that have the field there is a cursor.
  lemma AskedAnswer(p: Params, rows: seq<Row>, codec: Codec, extra: bool)
    requires Asks(p, rows, codec)
    ensures var left := Left(p, rows, codec);
            var a := Served(p, rows, codec, extra);
            && a.data == left[..Min(p.limit, |left|)]
            && a.metadata.nextCursor ==
               if |left| > p.limit
               then Some(codec.encode(Column(left[PageChains.NamedAt(p.limit, extra)], CursorField(p)))) else None
  {
    var left := Left(p, rows, codec);
    assert forall r :: r in rows ==> CursorField(p) in r;
    AnswerHoldsFirstPage(p, rows, codec, extra);
    if |left| > p.limit {
      LeftAreRows(p, rows, codec);
      assert left[PageChains.NamedAt(p.limit, extra)] in left;
    }
  }

  // The request that sends a cursor back.
  lemma SentBack(p: Params, rows: seq<Row>, codec: Codec, value: int)
    requires Asks(p, rows, codec)
    ensures var next := p.(cursor := Some(codec.encode(value)));
            && Asks(next, rows, codec) && CursorField(next) == CursorField(p)
            && Left(next, rows, codec) == Kept(rows, p.sortOrder, value)
  {
    assert codec.decode(codec.encode(value)) == Some(value);
  }

  // With the filter as it is written every cursor that is handed out is refused when it comes back, so
  // a client gets all rows if and only if they fit on the first page.
  lemma RefusesEveryCursor(p: Params, rows: seq<Row>, codec: Codec, extra: bool)
    requires Asks(p, rows, codec) && p.cursor.None?
    ensures var a := Served(p, rows, codec, extra);
            && FilteredAsWritten(p, rows) == Ok(rows)
            && (a.data == rows <==> |rows| <= p.limit)
            && (a.metadata.nextCursor.Some? <==> |rows| > p.limit)
            && (a.metadata.nextCursor.Some? ==>
                  FilteredAsWritten(p.(cursor := a.metadata.nextCursor), rows) == Err(InvalidCursor))
  {
    AskedAnswer(p, rows, codec, extra);
    assert rows[..|rows|] == rows;
    if |rows| > p.limit {
      var value := Column(rows[PageChains.NamedAt(p.limit, extra)], CursorField(p));
      assert codec.decode(codec.encode(value)) == Some(value);
    }
  }
}
