/**
 * Page walking (shared/api_pagination.py).  A client starts from any request and keeps following
 * the next link, or the next cursor, that each response carries.
 */
module Pagination {
  import opened Prelude
  import opened Texts

  // ---------------------------------------------------------------- requests

  datatype Kind = OffsetKind | PageKind | CursorKind | SearchKind
  datatype SortOrder = Asc | Desc
  datatype Failure = ValueError | TypeError | InvalidCursor
  type Query = map<string, string>

  datatype Config = Config(defaultLimit: int, maxLimit: int, defaultKind: Kind,
                           allowOffset: bool, allowPage: bool, allowCursor: bool,
                           sortFields: seq<string>)

  datatype Params = Params(kind: Kind, limit: int, offset: Option<int>, page: Option<int>,
                           cursor: Option<string>, sortBy: Option<string>, sortOrder: SortOrder)

  function KindNamed(s: string): Option<Kind> {
    match s
    case "offset" => Some(OffsetKind)
    case "page" => Some(PageKind)
    case "cursor" => Some(CursorKind)
    case "search" => Some(SearchKind)
    case _ => None
  }

  function Permitted(c: Config, kind: Kind): Kind {
    if kind.CursorKind? && !c.allowCursor then OffsetKind
    else if kind.OffsetKind? && !c.allowOffset then PageKind
    else if kind.PageKind? && !c.allowPage then OffsetKind
    else kind
  }

  function KindAsked(c: Config, q: Query): Kind {
    var named := if "type" in q then KindNamed(q["type"]) else Some(c.defaultKind);
    Permitted(c, if named.Some? then named.value else c.defaultKind)
  }

  function Lower(s: string): string {
    seq(|s|, i requires 0 <= i < |s| =>
      if 'A' <= s[i] <= 'Z' then (s[i] as int + 32) as char else s[i])
  }

  function OrderAsked(q: Query): SortOrder {
    if "sort_order" in q && Lower(q["sort_order"]) == "desc" then Desc else Asc
  }

  function Get(q: Query, name: string): Option<string> {
    if name in q then Some(q[name]) else None
  }

  // A number among the parameters, or its default; None is ValueError.
  function Number(q: Query, name: string, default: int): Option<int> {
    if name in q then ParseInt(q[name]) else Some(default)
  }

  function SortAsked(allowed: seq<string>, q: Query): Option<string> {
    var asked := Get(q, "sort_by");
    if asked.Some? && asked.value != "" && allowed != [] && asked.value !in allowed
    then Some(allowed[0]) else asked
  }

  // What construction makes of the fields it is given.
  function Normalized(p: Params): Params {
    p.(limit := if p.limit <= 0 then 20 else p.limit,
       offset := if p.offset.Some? then Some(Max(0, p.offset.value)) else None,
       page := if p.page.Some? then Some(Max(1, p.page.value)) else None)
  }

  // Normal form of the fields: kept by construction.
  predicate Normal(p: Params) { Normalized(p) == p }

  lemma NormalOnes(p: Params)
    ensures Normal(Normalized(p))
    ensures Normal(p) <==> p.limit >= 1 && (p.offset.Some? ==> p.offset.value >= 0)
                           && (p.page.Some? ==> p.page.value >= 1)
    ensures Normalized(p).limit == if p.limit >= 1 then p.limit else 20
    ensures p.offset.Some? ==> Normalized(p).offset == Some(if p.offset.value < 0 then 0 else p.offset.value)
    ensures p.page.Some? ==> Normalized(p).page == Some(if p.page.value < 1 then 1 else p.page.value)
  {
  }

  class PaginationParams {
    const kind: Kind
    var limit: int
    var offset: Option<int>
    var page: Option<int>
    const cursor: Option<string>
    const sortBy: Option<string>
    const sortOrder: SortOrder

    constructor (p: Params)
      ensures View() == Normalized(p)
    {
      kind, limit, offset, page := p.kind, p.limit, p.offset, p.page;
      cursor, sortBy, sortOrder := p.cursor, p.sortBy, p.sortOrder;
      new;
      if limit <= 0 {
        limit := 20;
      }
      if offset.Some? && offset.value < 0 {
        offset := Some(0);
      }
      if page.Some? && page.value < 1 {
        page := Some(1);
      }
    }

    function View(): Params
      reads this
    {
      Params(kind, limit, offset, page, cursor, sortBy, sortOrder)
    }
  }

  function ExtractParams(c: Config, q: Query): (r: Result<Params, Failure>)
    ensures r.Ok? ==> Normal(r.value) && Placed(r.value)
  {
    var kind := KindAsked(c, q);
    var limit := Number(q, "limit", c.defaultLimit);
    var offset := if kind.OffsetKind? then Number(q, "offset", 0) else Some(0);
    var page := if kind.PageKind? then Number(q, "page", 1) else Some(1);
    if limit.None? || offset.None? || page.None? then Err(ValueError)
    else Ok(Normalized(Params(kind, Min(limit.value, c.maxLimit),
                              if kind.OffsetKind? then offset else None,
                              if kind.PageKind? then page else None,
                              if kind.CursorKind? then Get(q, "cursor") else None,
                              SortAsked(c.sortFields, q), OrderAsked(q))))
  }

  // Refused is exactly a limit, offset or page that is no number, the latter two where they are looked at.
  lemma RefusedIff(c: Config, q: Query)
    ensures ExtractParams(c, q).Err? <==>
            || ("limit" in q && ParseInt(q["limit"]) == None)
            || (KindAsked(c, q) == OffsetKind && "offset" in q && ParseInt(q["offset"]) == None)
            || (KindAsked(c, q) == PageKind && "page" in q && ParseInt(q["page"]) == None)
  {
  }

  // The limit is the one asked for, or the default, cut to the maximum; but what is below 1 becomes 20,
  // after the cut.  So a positive maximum is kept if and only if at least one row is asked for or the
  // maximum is at least 20.
  lemma LimitIsWithinMaximumIff(c: Config, q: Query)
    requires ExtractParams(c, q).Ok?
    ensures var p := ExtractParams(c, q).value;
            var asked := if "limit" in q then ParseInt(q["limit"]).value else c.defaultLimit;
            && (c.maxLimit >= 1 && asked >= 1 ==> p.limit == if asked <= c.maxLimit then asked else c.maxLimit)
            && (c.maxLimit < 1 || asked < 1 ==> p.limit == 20)
            && (c.maxLimit >= 1 ==> (p.limit <= c.maxLimit <==> asked >= 1 || c.maxLimit >= 20))
  {
  }

  // A request starts where it says, negative offsets and pages below 1 being taken for the first, or at
  // the beginning; only cursor requests have a cursor.
  lemma PositionFollowsQuery(c: Config, q: Query)
    requires ExtractParams(c, q).Ok?
    ensures var p := ExtractParams(c, q).value;
            && p.kind == KindAsked(c, q)
            && (p.kind == OffsetKind && "offset" !in q ==> p.offset == Some(0))
            && (p.kind == PageKind && "page" !in q ==> p.page == Some(1))
            && (p.kind == OffsetKind && "offset" in q ==>
                  p.offset == Some(if ParseInt(q["offset"]).value < 0 then 0 else ParseInt(q["offset"]).value))
            && (p.kind == PageKind && "page" in q ==>
                  p.page == Some(if ParseInt(q["page"]).value < 1 then 1 else ParseInt(q["page"]).value))
            && (p.cursor.Some? <==> p.kind == CursorKind && "cursor" in q)
            && (p.cursor.Some? ==> p.cursor.value == q["cursor"])
  {
  }

  // One of the four letters of `word`, in either case, at each place.
  ghost predicate IsWord(s: string, small: string, large: string)
    requires |small| == |large|
  {
    |s| == |small| && forall i :: 0 <= i < |s| ==> s[i] == small[i] || s[i] == large[i]
  }

  // The order is descending if and only if the query says "desc", in letters of any case; rows are sorted
  // by the field asked for, or by the first permitted one if another is asked for.
  lemma SortFollowsQuery(c: Config, q: Query)
    requires ExtractParams(c, q).Ok?
    ensures var p := ExtractParams(c, q).value;
            && (p.sortOrder == Desc <==> "sort_order" in q && IsWord(q["sort_order"], "desc", "DESC"))
            && ("sort_by" !in q ==> p.sortBy == None)
            && ("sort_by" in q && (c.sortFields == [] || q["sort_by"] in c.sortFields) ==>
                  p.sortBy == Some(q["sort_by"]))
            && ("sort_by" in q && q["sort_by"] != "" && c.sortFields != [] && q["sort_by"] !in c.sortFields ==>
                  p.sortBy == Some(c.sortFields[0]))
  {
    if "sort_order" in q {
      var s := q["sort_order"];
      LowerIsWord(s);
    }
  }

  lemma LowerIsWord(s: string)
    ensures Lower(s) == "desc" <==> IsWord(s, "desc", "DESC")
  {
    var low := Lower(s);
    if low == "desc" {
      forall i | 0 <= i < |s| ensures s[i] == "desc"[i] || s[i] == "DESC"[i] {
        assert low[i] == "desc"[i];
      }
    }
  }

  // The kind asked for is the one the query names, if that is one and is allowed, else the default; an
  // offset or cursor request that is not allowed becomes a page or offset request, and so on.
  lemma KindFollowsQuery(c: Config, q: Query)
    requires c.allowOffset && c.allowPage && c.allowCursor
    ensures "type" in q && q["type"] == "offset" ==> KindAsked(c, q) == OffsetKind
    ensures "type" in q && q["type"] == "page" ==> KindAsked(c, q) == PageKind
    ensures "type" in q && q["type"] == "cursor" ==> KindAsked(c, q) == CursorKind
    ensures "type" in q && q["type"] == "search" ==> KindAsked(c, q) == SearchKind
    ensures "type" !in q || q["type"] !in ["offset", "page", "cursor", "search"] ==> KindAsked(c, q) == c.defaultKind
  {
  }

  // What is not allowed is replaced: cursors by offsets, offsets by pages, and pages by offsets, once.
  lemma ForbiddenKindIsReplaced(c: Config, q: Query, all: Config)
    requires all == c.(allowOffset := true, allowPage := true, allowCursor := true)
    ensures var asked := KindAsked(all, q);
            KindAsked(c, q) ==
            match asked
            case CursorKind => if c.allowCursor then CursorKind else OffsetKind
            case OffsetKind => if c.allowOffset then OffsetKind else PageKind
            case PageKind => if c.allowPage then PageKind else OffsetKind
            case SearchKind => SearchKind
  {
  }

  // What every request that is not refused looks like.
  predicate Placed(p: Params) {
    && p.limit >= 1
    && (p.kind.OffsetKind? ==> p.offset.Some? && p.offset.value >= 0)
    && (p.kind.PageKind? ==> p.page.Some? && p.page.value >= 1)
  }

  predicate ByPosition(kind: Kind) { kind.OffsetKind? || kind.PageKind? }

  // calculate_offset, for page requests.
  function Start(p: Params): (n: int)
    requires Placed(p)
    ensures n >= 0
  {
    match p.kind
    case OffsetKind => p.offset.value
    case PageKind => (p.page.value - 1) * p.limit
    case _ => 0
  }

  // ---------------------------------------------------------------- metadata and links

  // The quotient, rounded up.
  function CeilDiv(total: int, limit: int): int
    requires limit >= 1
  {
    -((-total) / limit)
  }

  function PositionName(kind: Kind): string {
    if kind.OffsetKind? then "offset" else "page"
  }

  // The request a link makes: position v, everything else as it was asked.
  function BuildUrl(kind: Kind, q: Query, value: int): Query {
    var asked := q[PositionName(kind) := IntText(value)];
    map k | k in asked && asked[k] != ""
            && !(k == "offset" && !kind.OffsetKind?)
            && !(k == "page" && !kind.PageKind?)
            && !(k == "cursor" && !kind.CursorKind?) :: asked[k]
  }

  // A link is known by the position it leads to.
  datatype Links = Links(next: Option<int>, previous: Option<int>, first: Option<int>, last: Option<int>)

  const NO_LINKS := Links(None, None, None, None)

  datatype Metadata = Metadata(totalPages: Option<int>, hasNext: bool, hasPrevious: bool,
                               nextCursor: Option<string>, links: Links)

  const BLANK := Metadata(None, false, false, None, NO_LINKS)

  function OptionalLink(offered: bool, position: int): Option<int> {
    if offered then Some(position) else None
  }

  function Counted(p: Params, total: int): Result<Metadata, Failure>
    requires p.limit >= 1
  {
    var pages := CeilDiv(total, p.limit);
    match p.kind
    case OffsetKind =>
      if p.offset.None? then Err(TypeError)
      else Ok(Metadata(Some(pages), p.offset.value + p.limit < total, p.offset.value > 0, None, NO_LINKS))
    case PageKind =>
      if p.page.None? then Err(TypeError)
      else Ok(Metadata(Some(pages), p.page.value < pages, p.page.value > 1, None, NO_LINKS))
    case _ => Ok(Metadata(Some(pages), false, false, None, NO_LINKS))
  }

  function LinksOf(p: Params, m: Metadata): Links {
    var counted := m.totalPages.Some? && m.totalPages.value != 0;
    match p.kind
    case OffsetKind =>
      var offset := if p.offset.Some? then p.offset.value else 0;
      Links(OptionalLink(m.hasNext, offset + p.limit), OptionalLink(m.hasPrevious, Max(0, offset - p.limit)),
            Some(0), OptionalLink(counted, if counted then (m.totalPages.value - 1) * p.limit else 0))
    case PageKind =>
      var page := if p.page.Some? then p.page.value else 0;
      Links(OptionalLink(m.hasNext, page + 1), OptionalLink(m.hasPrevious, page - 1),
            Some(1), OptionalLink(counted, if counted then m.totalPages.value else 0))
    case _ => NO_LINKS
  }

  function MetadataOf(p: Params, total: Option<int>, linked: bool): Result<Metadata, Failure>
    requires Normal(p)
  {
    var counted := if total.None? then Ok(BLANK) else Counted(p, total.value);
    match counted
    case Err(e) => Err(e)
    case Ok(m) => Ok(if linked then m.(links := LinksOf(p, m)) else m)
  }

  // With a total, the number of pages holds all rows and one page less does not; without one nothing is
  // said; and links are given only when asked for.  A total without the position that its kind needs is
  // the one failure.
  lemma MetadataFollows(p: Params, total: Option<int>, linked: bool)
    requires Normal(p)
    ensures var r := MetadataOf(p, total, linked);
            && (r.Err? <==>
                total.Some? && ((p.kind.OffsetKind? && p.offset.None?) || (p.kind.PageKind? && p.page.None?)))
            && (r.Err? ==> r.error == TypeError)
            && (r.Ok? && !linked ==> r.value.links == Links(None, None, None, None))
            && (r.Ok? && total.None? ==>
                  r.value.totalPages.None? && !r.value.hasNext && !r.value.hasPrevious)
            && (r.Ok? && total.Some? ==>
                  && r.value.totalPages.Some?
                  && (r.value.totalPages.value - 1) * p.limit < total.value <= r.value.totalPages.value * p.limit)
            && (r.Ok? ==> r.value.nextCursor.None?)
            && (r.Ok? && (p.kind.CursorKind? || p.kind.SearchKind?) ==>
                  !r.value.hasNext && !r.value.hasPrevious && r.value.links == Links(None, None, None, None))
  {
  }

  class PaginationMetadata {
    var totalPages: Option<int>
    var hasNext: bool
    var hasPrevious: bool
    var nextCursor: Option<string>
    var nextUrl: Option<int>
    var previousUrl: Option<int>
    var firstUrl: Option<int>
    var lastUrl: Option<int>

    constructor ()
      ensures View() == BLANK
    {
      totalPages, hasNext, hasPrevious, nextCursor := None, false, false, None;
      nextUrl, previousUrl, firstUrl, lastUrl := None, None, None, None;
    }

    function View(): Metadata
      reads this
    {
      Metadata(totalPages, hasNext, hasPrevious, nextCursor, Links(nextUrl, previousUrl, firstUrl, lastUrl))
    }

    method GenerateNavigationUrls(params: PaginationParams)
      requires params.kind.OffsetKind? && (hasNext || hasPrevious) ==> params.offset.Some?
      requires params.kind.PageKind? && (hasNext || hasPrevious) ==> params.page.Some?
      requires View().links == NO_LINKS
      modifies `nextUrl, `previousUrl, `firstUrl, `lastUrl
      ensures View() == old(View()).(links := LinksOf(params.View(), old(View())))
    {
      if params.kind.OffsetKind? {
        if hasNext {
          nextUrl := Some(params.offset.value + params.limit);
        }
        if hasPrevious {
          previousUrl := Some(Max(0, params.offset.value - params.limit));
        }
        firstUrl := Some(0);
        if totalPages.Some? && totalPages.value != 0 {
          var lastOffset := (totalPages.value - 1) * params.limit;
          lastUrl := Some(lastOffset);
        }
      } else if params.kind.PageKind? {
        if hasNext {
          nextUrl := Some(params.page.value + 1);
        }
        if hasPrevious {
          previousUrl := Some(params.page.value - 1);
        }
        firstUrl := Some(1);
        if totalPages.Some? && totalPages.value != 0 {
          lastUrl := totalPages;
        }
      }
    }
  }

  method CreateMetadata(params: PaginationParams, total: Option<int>, linked: bool)
    returns (r: Result<PaginationMetadata, Failure>)
    requires Normal(params.View())
    ensures r.Ok? ==> fresh(r.value)
    ensures match MetadataOf(params.View(), total, linked)
            case Ok(m) => r.Ok? && r.value.View() == m
            case Err(e) => r == Err(e)
  {
    var metadata := new PaginationMetadata();
    if total.Some? {
      metadata.totalPages := Some(CeilDiv(total.value, params.limit));
      if params.kind.OffsetKind? {
        if params.offset.None? {
          return Err(TypeError);
        }
        metadata.hasNext := params.offset.value + params.limit < total.value;
        metadata.hasPrevious := params.offset.value > 0;
      } else if params.kind.PageKind? {
        if params.page.None? {
          return Err(TypeError);
        }
        metadata.hasNext := params.page.value < metadata.totalPages.value;
        metadata.hasPrevious := params.page.value > 1;
      }
    }
    if linked {
      metadata.GenerateNavigationUrls(params);
    }
    return Ok(metadata);
  }

  // ---------------------------------------------------------------- what a link asks for

  // An absent sort field and a blank one are the same to every reader.
  function WithoutBlank(o: Option<string>): Option<string> {
    if o == Some("") then None else o
  }

  function Cleaned(p: Params): Params {
    p.(sortBy := WithoutBlank(p.sortBy))
  }

  function Moved(p: Params, position: int): Params {
    if p.kind.OffsetKind? then Cleaned(p).(offset := Some(position)) else Cleaned(p).(page := Some(position))
  }

  lemma LinkKeepsKey(kind: Kind, q: Query, v: nat, k: string)
    requires ByPosition(kind)
    ensures var u := BuildUrl(kind, q, v);
            && Get(u, PositionName(kind)) == Some(NatText(v))
            && (k !in ["offset", "page", "cursor"] ==> Get(u, k) == WithoutBlank(Get(q, k)))
  {
  }

  lemma LinkKeepsKind(c: Config, q: Query, v: nat)
    requires ByPosition(KindAsked(c, q))
    ensures KindAsked(c, BuildUrl(KindAsked(c, q), q, v)) == KindAsked(c, q)
  {
    LinkKeepsKey(KindAsked(c, q), q, v, "type");
  }

  lemma LinkKeepsSort(allowed: seq<string>, kind: Kind, q: Query, v: nat)
    requires ByPosition(kind)
    ensures WithoutBlank(SortAsked(allowed, BuildUrl(kind, q, v))) == WithoutBlank(SortAsked(allowed, q))
    ensures OrderAsked(BuildUrl(kind, q, v)) == OrderAsked(q)
  {
    LinkKeepsKey(kind, q, v, "sort_by");
    LinkKeepsKey(kind, q, v, "sort_order");
  }

  lemma LinkKeepsLimit(kind: Kind, q: Query, v: nat, default: int)
    requires ByPosition(kind) && Number(q, "limit", default).Some?
    ensures Number(BuildUrl(kind, q, v), "limit", default) == Number(q, "limit", default)
  {
    LinkKeepsKey(kind, q, v, "limit");
    ParseIntInvertsText(0);
  }

  lemma LinkMoves(kind: Kind, q: Query, v: nat, default: int)
    requires ByPosition(kind)
    ensures Number(BuildUrl(kind, q, v), PositionName(kind), default) == Some(v)
  {
    LinkKeepsKey(kind, q, v, "type");
    ParseIntInvertsText(v);
  }

  // Reading a link back gives the request it was made from, moved to the position in the link.
  lemma LinkAsksFor(c: Config, q: Query, p: Params, v: nat)
    requires ExtractParams(c, q) == Ok(p) && ByPosition(p.kind)
    requires p.kind.PageKind? ==> v >= 1
    ensures var r := ExtractParams(c, BuildUrl(p.kind, q, v));
            r.Ok? && Cleaned(r.value) == Moved(p, v)
  {
    LinkKeepsKind(c, q, v);
    LinkKeepsSort(c.sortFields, p.kind, q, v);
    LinkKeepsLimit(p.kind, q, v, c.defaultLimit);
    LinkMoves(p.kind, q, v, if p.kind.OffsetKind? then 0 else 1);
  }
}
