/** Listing recharge orders: one window of the list stitched from one or two server pages. */
module RechargeList {
  import opened Wrappers

  const SERVER_LIMIT: nat := 100

  function Min(a: nat, b: nat): nat { if a < b then a else b }

  function Slice<T>(list: seq<T>, from: nat, to: nat): seq<T>
    requires from <= to
  {
    list[Min(from, |list|)..Min(to, |list|)]
  }

  // The page API: the pages are numbered from 1.
  function ServerPage<T>(list: seq<T>, page: nat, pageSize: nat): seq<T>
    requires 0 < page
  {
    Slice(list, (page - 1) * pageSize, (page - 1) * pageSize + pageSize)
  }

  function PageOf(offset: nat, limit: nat): nat
    requires 0 < limit
  {
    offset / limit + 1
  }

  function Skipped(offset: nat, limit: nat): (skip: nat)
    requires 0 < limit
    ensures skip <= offset && skip < limit
  {
    PageStart(offset, limit);
    offset % limit
  }

  lemma PageStart(offset: nat, limit: nat)
    requires 0 < limit
    ensures offset / limit * limit + offset % limit == offset && 0 <= offset / limit * limit
  {
  }

  lemma PagesAreSlices<T>(list: seq<T>, offset: nat, limit: nat)
    requires 0 < limit
    ensures var start := offset - Skipped(offset, limit);
            && 0 < PageOf(offset, limit)
            && ServerPage(list, PageOf(offset, limit), limit) == Slice(list, start, start + limit)
            && ServerPage(list, PageOf(offset, limit) + 1, limit) == Slice(list, start + limit, start + 2 * limit)
  {
    var before := offset / limit;
    PageStart(offset, limit);
    assert (before + 1) * limit == before * limit + limit;
  }

  lemma Consecutive<T>(list: seq<T>, from: nat, via: nat, to: nat)
    requires from <= via <= to
    ensures Slice(list, from, via) + Slice(list, via, to) == Slice(list, from, to)
  {
  }

  lemma DropOf<T>(list: seq<T>, from: nat, via: nat, to: nat)
    requires from <= via <= to
    ensures var slice := Slice(list, from, to); slice[Min(via - from, |slice|)..] == Slice(list, via, to)
  {
  }

  lemma TakeOf<T>(list: seq<T>, from: nat, via: nat, to: nat)
    requires from <= via <= to
    ensures var slice := Slice(list, from, to); slice[..Min(via - from, |slice|)] == Slice(list, from, via)
  {
  }

  lemma SecondPage<T>(list: seq<T>, start: nat, offset: nat, limit: nat, orders: seq<T>, next: seq<T>)
    requires start <= offset <= start + limit
    requires orders == Slice(list, offset, start + limit)
    requires next == Slice(list, start + limit, start + 2 * limit)
    ensures (orders + next)[..Min(limit, |orders + next|)] == Slice(list, offset, offset + limit)
  {
    hide Slice;
    Consecutive(list, offset, start + limit, start + 2 * limit);
    TakeOf(list, offset, offset + limit, start + 2 * limit);
  }

  // Whether an order of the window can lie on the page after the one that holds the offset.
  predicate NeedsSecondPage(total: nat, reportsTotal: bool, offset: nat, limit: nat)
    requires 0 < limit
  {
    var skip := Skipped(offset, limit);
    var pageEnd := offset - skip + limit;
    skip != 0 && (pageEnd < total || (pageEnd == total && !reportsTotal))
  }

  lemma PageIsFullIff<T>(list: seq<T>, reportsTotal: bool, offset: nat, limit: nat)
    requires 0 < limit
    ensures var skip := Skipped(offset, limit);
            var start := offset - skip;
            && (NeedsSecondPage(|list|, reportsTotal, offset, limit) <==>
               && 0 < skip && |Slice(list, start, start + limit)| == limit
               && (!reportsTotal || offset + |Slice(list, offset, start + limit)| < |list|))
            && (!NeedsSecondPage(|list|, reportsTotal, offset, limit) ==>
               Slice(list, offset, start + limit) == Slice(list, offset, offset + limit))
  {
    hide Skipped;
  }

  // The window from one or two pages of the given size.
  method Window<T>(server: seq<T>, reportsTotal: bool, offset: nat, limit: nat) returns (orders: seq<T>, pages: nat)
    requires 0 < limit
    ensures orders == Slice(server, offset, offset + limit)
    ensures pages == if NeedsSecondPage(|server|, reportsTotal, offset, limit) then 2 else 1
  {
    hide PageOf, Skipped, Slice, ServerPage, NeedsSecondPage;
    var page := PageOf(offset, limit);
    var skip := Skipped(offset, limit);
    ghost var start := offset - skip;
    PagesAreSlices(server, offset, limit);
    PageIsFullIff(server, reportsTotal, offset, limit);
    var items := ServerPage(server, page, limit);
    var total := if reportsTotal then Some(|server|) else None;
    DropOf(server, start, offset, start + limit);
    orders := items[Min(skip, |items|)..];
    pages := 1;
    if 0 < skip && |items| == limit && (total.None? || offset + |orders| < total.value) {
      var next := ServerPage(server, page + 1, limit);
      pages := 2;
      SecondPage(server, start, offset, limit, orders, next);
      orders := orders + next;
      orders := orders[..Min(limit, |orders|)];
    }
  }

  /**
   * The list as the server holds it; it reports the total or not. The orders returned are exactly those of
   * the requested window, and the second page is fetched only when it can hold one of them.
   */
  method List<T>(server: seq<T>, reportsTotal: bool, offset: nat, requested: nat)
    returns (orders: seq<T>, limit: nat, pages: nat)
    requires 0 < requested
    ensures limit == if requested < 100 then requested else 100
    ensures orders == Slice(server, offset, offset + limit)
    ensures pages == if NeedsSecondPage(|server|, reportsTotal, offset, limit) then 2 else 1
  {
    limit := Min(requested, SERVER_LIMIT);
    orders, pages := Window(server, reportsTotal, offset, limit);
  }
}
