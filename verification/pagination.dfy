/** `EndlessPagination`: cursor pagination over newest-first lists by
    `created_at`. A request carries an optional `created_at__gt` cursor (newer
    than, for refreshing) and an optional `created_at__lt` cursor (older than,
    for scrolling); the first one wins when both are given. */
module Pagination {
  import opened Wrappers
  import opened Sequences

  /** The page size the class declares. */
  const DefaultPageSize: nat := 20

  /** A listed object; only its creation time matters to pagination. */
  datatype Item = Item(id: nat, createdAt: int)

  /** The cursors of `request.query_params`, already parsed to integers. */
  datatype Query = Query(createdAtGt: Option<int>, createdAtLt: Option<int>)

  /** The returned objects and the `has_next_page` flag set alongside. */
  datatype Page = Page(items: seq<Item>, hasNextPage: bool)

  function FirstPage(): Query {
    Query(None, None)
  }

  function Older(t: int): Query {
    Query(None, Some(t))
  }

  function Newer(t: int): Query {
    Query(Some(t), None)
  }

  /** Newest first, ties allowed (the order of `order_by('-created_at')`). */
  predicate NewestFirst(list: seq<Item>) {
    forall i, j :: 0 <= i < j < |list| ==> list[i].createdAt >= list[j].createdAt
  }

  /** Newest first without ties (timestamps of one user's rows). */
  predicate StrictlyNewestFirst(list: seq<Item>) {
    forall i, j :: 0 <= i < j < |list| ==> list[i].createdAt > list[j].createdAt
  }

  lemma StrictlyIsNewestFirst(list: seq<Item>)
    requires StrictlyNewestFirst(list)
    ensures NewestFirst(list)
  {
  }

  /* ------------------------------------------------------ the two loops */

  /** The `created_at__gt` loop: collect objects while they are newer than `t`. */
  function TakeNewer(list: seq<Item>, t: int): (r: seq<Item>)
    ensures |r| <= |list| && r == list[..|r|]
    ensures forall k :: 0 <= k < |r| ==> r[k].createdAt > t
    ensures |r| < |list| ==> list[|r|].createdAt <= t
  {
    if list == [] || list[0].createdAt <= t then []
    else [list[0]] + TakeNewer(list[1..], t)
  }

  /** The `created_at__lt` loop: the index of the first object older than `t`,
      or `|list|` when there is none (the `else` branch of the `for`). */
  function FirstOlder(list: seq<Item>, t: int): (i: nat)
    ensures i <= |list|
    ensures forall k :: 0 <= k < i ==> list[k].createdAt >= t
    ensures i < |list| ==> list[i].createdAt < t
  {
    if list == [] || list[0].createdAt < t then 0
    else 1 + FirstOlder(list[1..], t)
  }

  /** `paginate_ordered_list`. Without an older object the list is replaced
      by `[]` while `index` keeps the last value `enumerate` produced. */
  function PaginateOrderedList(list: seq<Item>, q: Query, pageSize: nat): (p: Page)
    ensures q.createdAtGt.Some? ==> !p.hasNextPage && |p.items| <= |list|
    ensures q.createdAtGt.None? ==> |p.items| <= pageSize
    ensures p.hasNextPage ==> |p.items| == pageSize
    ensures q.createdAtGt.None? && q.createdAtLt.Some? && p.items != [] ==> p.items[0].createdAt < q.createdAtLt.value
  {
    if q.createdAtGt.Some? then
      Page(TakeNewer(list, q.createdAtGt.value), false)
    else
      var (rest, index) :=
        if q.createdAtLt.None? then (list, 0)
        else
          var i := FirstOlder(list, q.createdAtLt.value);
          if i < |list| then (list, i)
          else ([], if |list| == 0 then 0 else |list| - 1);
      Page(Slice(rest, index, index + pageSize), |rest| > index + pageSize)
  }

  /** `created_at__gt`: the longest prefix of objects newer than the cursor,
      never with a next page. */
  lemma OrderedListNewer(list: seq<Item>, t: int, pageSize: nat)
    ensures var p := PaginateOrderedList(list, Newer(t), pageSize);
      && !p.hasNextPage
      && |p.items| <= |list| && p.items == list[..|p.items|]
      && (forall k :: 0 <= k < |p.items| ==> p.items[k].createdAt > t)
      && (|p.items| < |list| ==> list[|p.items|].createdAt <= t)
  {
  }

  /** `created_at__lt`: the page starts at the first object older than the
      cursor and holds up to `pageSize` objects; there is a next page exactly
      when objects remain after it; with no older object the page is empty. */
  lemma OrderedListOlder(list: seq<Item>, t: int, pageSize: nat, i: nat)
    requires i <= |list|
    requires forall k :: 0 <= k < i ==> list[k].createdAt >= t
    requires i < |list| ==> list[i].createdAt < t
    ensures var p := PaginateOrderedList(list, Older(t), pageSize);
      && p.items == list[i..Min(i + pageSize, |list|)]
      && (p.hasNextPage <==> |list| > i + pageSize)
  {
    FirstOlderUnique(list, t, i);
  }

  /** No cursor: the first `pageSize` objects, with a next page exactly when
      there are more. */
  lemma OrderedListFirst(list: seq<Item>, pageSize: nat)
    ensures var p := PaginateOrderedList(list, FirstPage(), pageSize);
      && p.items == list[..Min(pageSize, |list|)]
      && (p.hasNextPage <==> |list| > pageSize)
  {
  }

  /** Without a `created_at__gt` cursor a page is never longer than the page size. */
  lemma OrderedListBounded(list: seq<Item>, q: Query, pageSize: nat)
    requires q.createdAtGt.None?
    ensures |PaginateOrderedList(list, q, pageSize).items| <= pageSize
    ensures PaginateOrderedList(list, q, pageSize).hasNextPage ==> |PaginateOrderedList(list, q, pageSize).items| == pageSize
  {
  }

  /** The loops of `paginate_ordered_list`, as written. */
  method PaginateOrderedListLoop(list: seq<Item>, q: Query, pageSize: nat) returns (objects: seq<Item>, hasNextPage: bool)
    ensures Page(objects, hasNextPage) == PaginateOrderedList(list, q, pageSize)
  {
    if q.createdAtGt.Some? {
      var t := q.createdAtGt.value;
      objects := [];
      var n := 0;
      while n < |list|
        invariant 0 <= n <= |list|
        invariant objects == list[..n]
        invariant forall k :: 0 <= k < n ==> list[k].createdAt > t
      {
        if list[n].createdAt > t {
          objects := objects + [list[n]];
          n := n + 1;
        } else {
          break;
        }
      }
      assert n < |list| ==> list[n].createdAt <= t;
      OrderedListNewer(list, t, pageSize);
      TakeNewerUnique(list, t, objects);
      return objects, false;
    }
    var rest := list;
    var index: nat := 0;
    if q.createdAtLt.Some? {
      var t := q.createdAtLt.value;
      var n := 0;
      // each turn of `enumerate` sets `index` before the test that breaks
      while n < |list| && list[n].createdAt >= t
        invariant 0 <= n <= |list|
        invariant forall k :: 0 <= k < n ==> list[k].createdAt >= t
        invariant index == if n == 0 then 0 else n - 1
      {
        index := n;
        n := n + 1;
      }
      if n < |list| {
        index := n;
      } else {
        rest := [];
      }
      FirstOlderUnique(list, t, n);
    }
    hasNextPage := |rest| > index + pageSize;
    objects := Slice(rest, index, index + pageSize);
  }

  lemma TakeNewerUnique(list: seq<Item>, t: int, r: seq<Item>)
    requires |r| <= |list| && r == list[..|r|]
    requires forall k :: 0 <= k < |r| ==> r[k].createdAt > t
    requires |r| < |list| ==> list[|r|].createdAt <= t
    ensures TakeNewer(list, t) == r
  {
    var s := TakeNewer(list, t);
  }

  lemma FirstOlderUnique(list: seq<Item>, t: int, i: nat)
    requires i <= |list|
    requires forall k :: 0 <= k < i ==> list[k].createdAt >= t
    requires i < |list| ==> list[i].createdAt < t
    ensures FirstOlder(list, t) == i
  {
    var j := FirstOlder(list, t);
  }

  /* ------------------------------------------------------------ scrolling */

  /** `t` is the creation time of a listed object. */
  predicate IsListedTime(list: seq<Item>, t: int) {
    exists k :: 0 <= k < |list| && list[k].createdAt == t
  }

  /** The objects a client has not seen yet when its cursor is `cursor`. */
  function Remaining(list: seq<Item>, cursor: Option<int>): nat {
    match cursor
    case None => |list| + 1
    case Some(t) => |list| - FirstOlder(list, t)
  }

  /** On a list without ties, the cursor `list[k].createdAt` points just past `k`. */
  lemma FirstOlderAt(list: seq<Item>, k: nat)
    requires StrictlyNewestFirst(list) && k < |list|
    ensures FirstOlder(list, list[k].createdAt) == k + 1
  {
    FirstOlderUnique(list, list[k].createdAt, k + 1);
  }

  /** Paging with `created_at__lt` set to the last object of the previous
      page: the page after the `k` objects seen so far. */
  lemma PageAfter(list: seq<Item>, k: nat, pageSize: nat)
    requires StrictlyNewestFirst(list) && 1 <= k <= |list|
    ensures var p := PaginateOrderedList(list, Older(list[k - 1].createdAt), pageSize);
      && p.items == list[k..Min(k + pageSize, |list|)]
      && (p.hasNextPage <==> |list| > k + pageSize)
  {
    FirstOlderAt(list, k - 1);
    OrderedListOlder(list, list[k - 1].createdAt, pageSize, k);
  }

  /** A client that starts without a cursor and follows each page with
      `created_at__lt` set to the page's last `created_at`, while
      `has_next_page` holds. */
  function Scroll(list: seq<Item>, pageSize: nat, cursor: Option<int>): seq<Item>
    requires pageSize >= 1 && StrictlyNewestFirst(list)
    requires cursor.Some? ==> IsListedTime(list, cursor.value)
    decreases Remaining(list, cursor)
  {
    var page := PaginateOrderedList(list, Query(None, cursor), pageSize);
    if !page.hasNextPage then page.items
    else
      ScrollProgress(list, pageSize, cursor);
      page.items + Scroll(list, pageSize, Some(page.items[|page.items| - 1].createdAt))
  }

  /** A page with a next page is full; its last object is a listed one, and
      using it as the next cursor leaves fewer objects to see. */
  lemma ScrollProgress(list: seq<Item>, pageSize: nat, cursor: Option<int>)
    requires pageSize >= 1 && StrictlyNewestFirst(list)
    requires cursor.Some? ==> IsListedTime(list, cursor.value)
    requires PaginateOrderedList(list, Query(None, cursor), pageSize).hasNextPage
    ensures var items := PaginateOrderedList(list, Query(None, cursor), pageSize).items;
      && |items| == pageSize
      && IsListedTime(list, items[pageSize - 1].createdAt)
      && Remaining(list, Some(items[pageSize - 1].createdAt)) < Remaining(list, cursor)
  {
    var items := PaginateOrderedList(list, Query(None, cursor), pageSize).items;
    var start := Start(list, cursor);
    CursorPage(list, pageSize, cursor);
    assert items == list[start..start + pageSize];
    assert items[pageSize - 1] == list[start + pageSize - 1];
    FirstOlderAt(list, start + pageSize - 1);
  }

  /** Where the page for `cursor` starts: the front without a cursor, else
      just past the cursor's object. */
  function Start(list: seq<Item>, cursor: Option<int>): nat {
    if cursor.None? then 0 else FirstOlder(list, cursor.value)
  }

  /** The page for a cursor taken from a listed object is the window at
      `Start`, with a next page exactly when objects remain after it. */
  lemma CursorPage(list: seq<Item>, pageSize: nat, cursor: Option<int>)
    requires StrictlyNewestFirst(list)
    requires cursor.Some? ==> IsListedTime(list, cursor.value)
    ensures var p := PaginateOrderedList(list, Query(None, cursor), pageSize);
      var start := Start(list, cursor);
      && start <= |list|
      && p.items == list[start..Min(start + pageSize, |list|)]
      && (p.hasNextPage <==> |list| > start + pageSize)
  {
    if cursor.None? {
      assert Query(None, cursor) == FirstPage();
      OrderedListFirst(list, pageSize);
    } else {
      var j :| 0 <= j < |list| && list[j].createdAt == cursor.value;
      assert Query(None, cursor) == Older(cursor.value);
      FirstOlderAt(list, j);
      OrderedListOlder(list, cursor.value, pageSize, j + 1);
    }
  }

  /** Scrolling is the page at the cursor, followed, when there is a next
      page, by scrolling on from that page's last object. */
  lemma ScrollUnfold(list: seq<Item>, pageSize: nat, cursor: Option<int>, page: Page)
    requires pageSize >= 1 && StrictlyNewestFirst(list)
    requires cursor.Some? ==> IsListedTime(list, cursor.value)
    requires PaginateOrderedList(list, Query(None, cursor), pageSize) == page
    ensures !page.hasNextPage ==> Scroll(list, pageSize, cursor) == page.items
    ensures page.hasNextPage ==>
      && |page.items| == pageSize
      && IsListedTime(list, page.items[pageSize - 1].createdAt)
      && Scroll(list, pageSize, cursor)
           == page.items + Scroll(list, pageSize, Some(page.items[pageSize - 1].createdAt))
  {
    if page.hasNextPage {
      ScrollProgress(list, pageSize, cursor);
    }
  }

  /** One page of scrolling from the cursor `list[k - 1].createdAt`: the next
      `pageSize` objects, then scrolling on from the last of them. */
  lemma ScrollStep(list: seq<Item>, pageSize: nat, k: nat)
    requires pageSize >= 1 && StrictlyNewestFirst(list) && 1 <= k <= |list|
    ensures |list| > k + pageSize ==>
      Scroll(list, pageSize, Some(list[k - 1].createdAt))
        == list[k..k + pageSize] + Scroll(list, pageSize, Some(list[k + pageSize - 1].createdAt))
    ensures |list| <= k + pageSize ==>
      Scroll(list, pageSize, Some(list[k - 1].createdAt)) == list[k..]
  {
    var c := list[k - 1].createdAt;
    assert IsListedTime(list, c) by {
      assert list[k - 1].createdAt == c;
    }
    assert Query(None, Some(c)) == Older(c);
    var page := PaginateOrderedList(list, Query(None, Some(c)), pageSize);
    PageAfter(list, k, pageSize);
    ScrollUnfold(list, pageSize, Some(c), page);
    if page.hasNextPage {
      assert page.items[pageSize - 1] == list[k + pageSize - 1];
    }
  }

  /** Scrolling from the cursor `list[k - 1].createdAt` returns everything after `k`. */
  lemma {:induction false} ScrollFrom(list: seq<Item>, pageSize: nat, k: nat)
    requires pageSize >= 1 && StrictlyNewestFirst(list) && 1 <= k <= |list|
    ensures Scroll(list, pageSize, Some(list[k - 1].createdAt)) == list[k..]
    decreases |list| - k
  {
    if |list| > k + pageSize {
      ScrollFrom(list, pageSize, k + pageSize);
      ScrollJoin(list, pageSize, k);
    } else {
      ScrollStep(list, pageSize, k);
    }
  }

  /** A full page followed by everything after it is everything after `k`. */
  lemma ScrollJoin(list: seq<Item>, pageSize: nat, k: nat)
    requires pageSize >= 1 && StrictlyNewestFirst(list) && 1 <= k && k + pageSize < |list|
    requires Scroll(list, pageSize, Some(list[k + pageSize - 1].createdAt)) == list[k + pageSize..]
    ensures Scroll(list, pageSize, Some(list[k - 1].createdAt)) == list[k..]
  {
    ScrollStep(list, pageSize, k);
    SplitAt(list, k, k + pageSize);
  }

  /** Scrolling from the first page visits every object exactly once, in order. */
  lemma ScrollVisitsAll(list: seq<Item>, pageSize: nat)
    requires pageSize >= 1 && StrictlyNewestFirst(list)
    ensures Scroll(list, pageSize, None) == list
  {
    var page := PaginateOrderedList(list, Query(None, None), pageSize);
    assert page.items == list[..Min(pageSize, |list|)] && (page.hasNextPage <==> |list| > pageSize) by {
      OrderedListFirst(list, pageSize);
    }
    if page.hasNextPage {
      var next := list[pageSize - 1].createdAt;
      assert Scroll(list, pageSize, None) == page.items + Scroll(list, pageSize, Some(next)) by {
        ScrollProgress(list, pageSize, None);
      }
      ScrollFrom(list, pageSize, pageSize);
      SplitAt(list, 0, pageSize);
      assert list[0..] == list && list[0..pageSize] == list[..pageSize];
    }
  }

  /** With two objects sharing a creation time the scroll loses one: the first
      page of size 1 ends at time 5 and has a next page, and the page older
      than 5 is empty, so the second object is never returned. */
  lemma ScrollSkipsTiedObjects()
    ensures var list := [Item(1, 5), Item(2, 5)];
      && NewestFirst(list) && !StrictlyNewestFirst(list)
      && PaginateOrderedList(list, FirstPage(), 1) == Page([Item(1, 5)], true)
      && PaginateOrderedList(list, Older(5), 1) == Page([], false)
  {
    var list := [Item(1, 5), Item(2, 5)];
    assert list[0].createdAt == list[1].createdAt;
    OrderedListFirst(list, 1);
    OrderedListOlder(list, 5, 1, 2);
  }

  /* ------------------------------------------------ filters on sorted lists */

  /** On a newest-first list the objects newer than `t` are the ones the
      `created_at__gt` loop collects. */
  lemma NewerIsPrefix(list: seq<Item>, t: int)
    requires NewestFirst(list)
    ensures Filter((x: Item) => x.createdAt > t, list) == TakeNewer(list, t)
  {
    var m := |TakeNewer(list, t)|;
    FilterPrefix((x: Item) => x.createdAt > t, list, m);
  }

  /** On a newest-first list the objects older than `t` are the suffix from
      the first older one. */
  lemma OlderIsSuffix(list: seq<Item>, t: int)
    requires NewestFirst(list)
    ensures Filter((x: Item) => x.createdAt < t, list) == list[FirstOlder(list, t)..]
  {
    FilterSuffix((x: Item) => x.createdAt < t, list, FirstOlder(list, t));
  }

  /** On a newest-first list the objects not newer than `t` are the suffix
      after the newer ones. */
  lemma AtMostIsSuffix(list: seq<Item>, t: int)
    requires NewestFirst(list)
    ensures Filter((x: Item) => x.createdAt <= t, list) == list[|TakeNewer(list, t)|..]
  {
    FilterSuffix((x: Item) => x.createdAt <= t, list, |TakeNewer(list, t)|);
  }

  /** On a newest-first list the objects from `t` up to `maxTimestamp`
      (exclusive), when every object is below `maxTimestamp`, are the prefix
      before the first older one. */
  lemma AtLeastIsPrefix(list: seq<Item>, t: int, maxTimestamp: int)
    requires NewestFirst(list)
    requires forall k :: 0 <= k < |list| ==> list[k].createdAt < maxTimestamp
    ensures Filter((x: Item) => t <= x.createdAt < maxTimestamp, list) == list[..FirstOlder(list, t)]
  {
    FilterPrefix((x: Item) => t <= x.createdAt < maxTimestamp, list, FirstOlder(list, t));
  }

  /* ---------------------------------------------------- paginate_queryset */

  /** `paginate_queryset`. `rows` is the table in `order_by('-created_at')`
      order; filtering keeps that order, so filtering the sorted rows is the
      same as sorting the filtered ones. */
  function PaginateQueryset(rows: seq<Item>, q: Query, pageSize: nat): (p: Page)
    ensures q.createdAtGt.Some? ==> !p.hasNextPage
    ensures q.createdAtGt.Some? ==> forall k :: 0 <= k < |p.items| ==> p.items[k].createdAt > q.createdAtGt.value
    ensures q.createdAtGt.None? ==> |p.items| <= pageSize && |p.items| <= |rows|
    ensures p.hasNextPage ==> |p.items| == pageSize
    ensures q.createdAtGt.None? && q.createdAtLt.Some? ==>
      forall k :: 0 <= k < |p.items| ==> p.items[k].createdAt < q.createdAtLt.value
  {
    if q.createdAtGt.Some? then
      var t := q.createdAtGt.value;
      Page(Filter((x: Item) => x.createdAt > t, rows), false)
    else
      var filtered :=
        if q.createdAtLt.Some? then
          var t := q.createdAtLt.value;
          Filter((x: Item) => x.createdAt < t, rows)
        else rows;
      var window := Take(filtered, pageSize + 1);
      Page(Take(window, pageSize), |window| > pageSize)
  }

  /** Without `created_at__gt`, a queryset page holds at most `pageSize` rows,
      and has a next page exactly when more than `pageSize` rows match. */
  lemma QuerysetBounded(rows: seq<Item>, t: Option<int>, pageSize: nat)
    ensures var p := PaginateQueryset(rows, Query(None, t), pageSize);
      var matching := if t.Some? then Filter((x: Item) => x.createdAt < t.value, rows) else rows;
      && |p.items| <= pageSize
      && p.items == matching[..|p.items|]
      && (p.hasNextPage <==> |matching| > pageSize)
  {
  }

  /** On a newest-first table the queryset path and the cached-list path
      return the same page for every request. */
  lemma QuerysetAgreesWithOrderedList(rows: seq<Item>, q: Query, pageSize: nat)
    requires NewestFirst(rows)
    ensures PaginateQueryset(rows, q, pageSize) == PaginateOrderedList(rows, q, pageSize)
  {
    if q.createdAtGt.Some? {
      NewerIsPrefix(rows, q.createdAtGt.value);
    } else if q.createdAtLt.Some? {
      var t := q.createdAtLt.value;
      var i := FirstOlder(rows, t);
      OlderIsSuffix(rows, t);
      OrderedListOlder(rows, t, pageSize, i);
      var window := Take(rows[i..], pageSize + 1);
      assert Take(window, pageSize) == rows[i..Min(i + pageSize, |rows|)];
    }
  }

  /* ------------------------------------------------- paginate_cached_list */

  /** `paginate_cached_list` as written: the ordered-list page, or `None` to
      make the caller read the database when the page may be cut short by the
      cache's length limit. */
  function PaginateCachedList(cached: seq<Item>, q: Query, pageSize: nat, limit: nat): (r: Option<Page>)
    ensures r.Some? ==> r.value == PaginateOrderedList(cached, q, pageSize)
    ensures r.None? <==>
      q.createdAtGt.None? && !PaginateOrderedList(cached, q, pageSize).hasNextPage && |cached| >= limit
  {
    var page := PaginateOrderedList(cached, q, pageSize);
    if q.createdAtGt.Some? then Some(page)
    else if page.hasNextPage then Some(page)
    else if |cached| < limit then Some(page)
    else None
  }

  /** A bounded cache of a newest-first source: the newest objects, and all
      of them unless the cache is full. */
  predicate CachedWindow(cached: seq<Item>, source: seq<Item>, limit: nat) {
    && |cached| <= |source|
    && cached == source[..|cached|]
    && (|cached| < limit ==> cached == source)
  }

  /** The ordered-list page of a prefix is the page of the whole list once it
      starts at an older object inside the prefix and leaves some after it. */
  lemma PrefixOlderPage(cached: seq<Item>, source: seq<Item>, t: int, pageSize: nat)
    requires |cached| <= |source| && cached == source[..|cached|]
    requires PaginateOrderedList(cached, Older(t), pageSize).hasNextPage
    ensures PaginateOrderedList(source, Older(t), pageSize) == PaginateOrderedList(cached, Older(t), pageSize)
  {
    var i := FirstOlder(cached, t);
    assert i < |cached|;
    assert forall k :: 0 <= k <= i ==> source[k] == cached[k];
    FirstOlderUnique(source, t, i);
    OrderedListOlder(cached, t, pageSize, i);
    OrderedListOlder(source, t, pageSize, i);
    assert source[i..i + pageSize] == cached[i..i + pageSize];
  }

  /** Without `created_at__gt`, whatever `paginate_cached_list` returns is the
      page the whole source would give, and it falls back only on a full cache. */
  lemma CachedListSound(cached: seq<Item>, source: seq<Item>, q: Query, pageSize: nat, limit: nat)
    requires CachedWindow(cached, source, limit)
    requires q.createdAtGt.None?
    ensures var r := PaginateCachedList(cached, q, pageSize, limit);
      && (r.Some? ==> r.value == PaginateOrderedList(source, q, pageSize))
      && (r.None? ==> |cached| >= limit)
  {
    var page := PaginateOrderedList(cached, q, pageSize);
    if page.hasNextPage && |cached| >= limit {
      if q.createdAtLt.Some? {
        PrefixOlderPage(cached, source, q.createdAtLt.value, pageSize);
      } else {
        OrderedListFirst(cached, pageSize);
        OrderedListFirst(source, pageSize);
        assert source[..pageSize] == cached[..pageSize];
      }
    }
  }

  /** The `created_at__gt` branch returns the cached page even when the cache
      is full and every cached object is newer than the cursor: here the
      source holds three newer objects and the page shows two of them, with
      no next page. */
  lemma CachedListNewerTruncates()
    ensures var source := [Item(1, 3), Item(2, 2), Item(3, 1)];
      var cached := source[..2];
      && CachedWindow(cached, source, 2)
      && PaginateCachedList(cached, Newer(0), DefaultPageSize, 2) == Some(Page(cached, false))
      && PaginateOrderedList(source, Newer(0), DefaultPageSize) == Page(source, false)
  {
    var source := [Item(1, 3), Item(2, 2), Item(3, 1)];
    var cached := source[..2];
    assert TakeNewer(cached, 0) == cached by {
      assert cached[1..][1..] == [];
    }
    assert TakeNewer(source, 0) == source by {
      assert source[1..][1..][1..] == [];
    }
  }

  /** `paginate_cached_list` with the `created_at__gt` branch also falling back
      when the page covers a full cache. */
  function PaginateCachedListFixed(cached: seq<Item>, q: Query, pageSize: nat, limit: nat): Option<Page> {
    var page := PaginateOrderedList(cached, q, pageSize);
    if q.createdAtGt.Some? then
      if |page.items| == |cached| && |cached| >= limit then None else Some(page)
    else if page.hasNextPage then Some(page)
    else if |cached| < limit then Some(page)
    else None
  }

  /** For every request, whatever the corrected `paginate_cached_list` returns
      is the page the whole source would give, and it falls back only on a
      full cache. */
  lemma CachedListFixedSound(cached: seq<Item>, source: seq<Item>, q: Query, pageSize: nat, limit: nat)
    requires CachedWindow(cached, source, limit)
    ensures var r := PaginateCachedListFixed(cached, q, pageSize, limit);
      && (r.Some? ==> r.value == PaginateOrderedList(source, q, pageSize))
      && (r.None? ==> |cached| >= limit)
  {
    if q.createdAtGt.Some? {
      var t := q.createdAtGt.value;
      var r := TakeNewer(cached, t);
      if |r| < |cached| {
        assert source[|r|] == cached[|r|];
        assert r == source[..|r|];
        TakeNewerUnique(source, t, r);
      }
    } else {
      CachedListSound(cached, source, q, pageSize, limit);
    }
  }

  /* ------------------------------------------------------- paginate_hbase */

  /** The range scans `paginate_hbase` issues on the rows of one key prefix.
      `rows` is newest first; the store keeps keys in ascending order, and
      within a prefix the key order is taken to be the `created_at` order. */

  /** `filter(start=(prefix, t), stop=(prefix, MAX_TIMESTAMP))`: ascending,
      from `t` inclusive to `maxTimestamp` exclusive. */
  function ScanNewerFrom(rows: seq<Item>, t: int, maxTimestamp: int): seq<Item> {
    Reverse(Filter((x: Item) => t <= x.createdAt < maxTimestamp, rows))
  }

  /** `filter(start=(prefix, t), stop=(prefix, None), limit, reverse=True)`:
      descending from `t` inclusive, at most `limit` rows. */
  function ScanOlderFrom(rows: seq<Item>, t: int, limit: nat): seq<Item> {
    Take(Filter((x: Item) => x.createdAt <= t, rows), limit)
  }

  /** The `created_at__gt` branch: drop the oldest row when it is the cursor
      row, and return the rest newest first. */
  function HbaseNewerPage(rows: seq<Item>, t: int, maxTimestamp: int): Page {
    var objects := ScanNewerFrom(rows, t, maxTimestamp);
    if |objects| > 0 && objects[0].createdAt == t then Page(Reverse(objects[1..]), false)
    else Page(Reverse(objects), false)
  }

  /** The scan of the `created_at__lt` branch with a leading cursor row dropped. */
  function OlderRows(rows: seq<Item>, t: int, pageSize: nat): seq<Item> {
    var objects := ScanOlderFrom(rows, t, pageSize + 2);
    if |objects| > 0 && objects[0].createdAt == t then objects[1..] else objects
  }

  /** The `created_at__lt` branch as written: one trailing row is removed when
      more than `pageSize` rows remain. */
  function HbaseOlderPage(rows: seq<Item>, t: int, pageSize: nat): Page {
    var objects := OlderRows(rows, t, pageSize);
    if |objects| > pageSize then Page(objects[..|objects| - 1], true)
    else Page(objects, false)
  }

  /** The branch without a cursor: `pageSize + 1` rows, the extra one only
      signalling a next page. */
  function HbaseFirstPage(rows: seq<Item>, pageSize: nat): Page {
    var objects := Take(rows, pageSize + 1);
    if |objects| > pageSize then Page(objects[..|objects| - 1], true)
    else Page(objects, false)
  }

  /** `paginate_hbase` as written. */
  function PaginateHbase(rows: seq<Item>, q: Query, pageSize: nat, maxTimestamp: int): (p: Page)
    ensures q.createdAtGt.Some? ==> !p.hasNextPage
    ensures q.createdAtGt.None? && q.createdAtLt.None? ==> |p.items| <= pageSize
    ensures q.createdAtGt.None? ==> |p.items| <= pageSize + 1
    ensures p.hasNextPage ==> |p.items| >= pageSize
  {
    if q.createdAtGt.Some? then HbaseNewerPage(rows, q.createdAtGt.value, maxTimestamp)
    else if q.createdAtLt.Some? then HbaseOlderPage(rows, q.createdAtLt.value, pageSize)
    else HbaseFirstPage(rows, pageSize)
  }

  /** The `created_at__lt` branch cut to `pageSize` rows. */
  function HbaseOlderPageFixed(rows: seq<Item>, t: int, pageSize: nat): Page {
    var objects := OlderRows(rows, t, pageSize);
    if |objects| > pageSize then Page(objects[..pageSize], true)
    else Page(objects, false)
  }

  /** `paginate_hbase` with the corrected `created_at__lt` branch. */
  function PaginateHbaseFixed(rows: seq<Item>, q: Query, pageSize: nat, maxTimestamp: int): Page {
    if q.createdAtGt.Some? then HbaseNewerPage(rows, q.createdAtGt.value, maxTimestamp)
    else if q.createdAtLt.Some? then HbaseOlderPageFixed(rows, q.createdAtLt.value, pageSize)
    else HbaseFirstPage(rows, pageSize)
  }

  /** Rows of one prefix below `MAX_TIMESTAMP`, newest first, without ties. */
  predicate HbaseRows(rows: seq<Item>, maxTimestamp: int) {
    && StrictlyNewestFirst(rows)
    && forall k :: 0 <= k < |rows| ==> rows[k].createdAt < maxTimestamp
  }

  /** The descending scan from `t` is the run after the newer rows. */
  lemma OlderScan(rows: seq<Item>, t: int, limit: nat, m: nat)
    requires NewestFirst(rows) && m == |TakeNewer(rows, t)|
    ensures ScanOlderFrom(rows, t, limit) == rows[m..Min(m + limit, |rows|)]
  {
    AtMostIsSuffix(rows, t);
    assert Take(rows[m..], limit) == rows[m..][..Min(limit, |rows| - m)];
  }

  /** The rows before the end of the newer run are newer than `t`. */
  lemma NewerRun(rows: seq<Item>, t: int)
    ensures forall k :: 0 <= k < |TakeNewer(rows, t)| ==> rows[k].createdAt > t
  {
    var r := TakeNewer(rows, t);
    forall k | 0 <= k < |r|
      ensures rows[k].createdAt > t
    {
      assert rows[k] == r[k];
    }
  }

  /** When the row after the newer ones is the cursor row, the first older
      row follows it. */
  lemma FirstOlderListed(rows: seq<Item>, t: int)
    requires StrictlyNewestFirst(rows)
    requires |TakeNewer(rows, t)| < |rows| && rows[|TakeNewer(rows, t)|].createdAt == t
    ensures FirstOlder(rows, t) == |TakeNewer(rows, t)| + 1
  {
    var m := |TakeNewer(rows, t)|;
    NewerRun(rows, t);
    if m + 1 < |rows| {
      assert rows[m].createdAt > rows[m + 1].createdAt;
    }
    FirstOlderUnique(rows, t, m + 1);
  }

  /** Otherwise the row after the newer ones is the first older row. */
  lemma FirstOlderUnlisted(rows: seq<Item>, t: int)
    requires |TakeNewer(rows, t)| == |rows| || rows[|TakeNewer(rows, t)|].createdAt != t
    ensures FirstOlder(rows, t) == |TakeNewer(rows, t)|
  {
    NewerRun(rows, t);
    FirstOlderUnique(rows, t, |TakeNewer(rows, t)|);
  }

  /** No stored row carries `t` when the row after the newer ones does not. */
  lemma UnlistedTime(rows: seq<Item>, t: int)
    requires NewestFirst(rows)
    requires |TakeNewer(rows, t)| == |rows| || rows[|TakeNewer(rows, t)|].createdAt != t
    ensures !IsListedTime(rows, t)
  {
    var m := |TakeNewer(rows, t)|;
    NewerRun(rows, t);
    forall k | 0 <= k < |rows|
      ensures rows[k].createdAt != t
    {
      if k >= m {
        assert rows[m].createdAt >= rows[k].createdAt;
      }
    }
  }

  /** The scan loses its first row exactly when that row is the cursor. */
  lemma DropCursorRow(rows: seq<Item>, t: int, pageSize: nat, m: nat, e: nat)
    requires m <= e <= |rows|
    requires ScanOlderFrom(rows, t, pageSize + 2) == rows[m..e]
    ensures m < e && rows[m].createdAt == t ==> OlderRows(rows, t, pageSize) == rows[m + 1..e]
    ensures m == e || rows[m].createdAt != t ==> OlderRows(rows, t, pageSize) == rows[m..e]
  {
    var objects := rows[m..e];
    if m < e {
      assert objects[0] == rows[m];
      assert objects[1..] == rows[m + 1..e];
    }
  }

  /** With the cursor row present the scan loses it and keeps `pageSize + 1`
      older rows at most. */
  lemma OlderRowsListed(rows: seq<Item>, t: int, pageSize: nat)
    requires StrictlyNewestFirst(rows)
    requires |TakeNewer(rows, t)| < |rows| && rows[|TakeNewer(rows, t)|].createdAt == t
    ensures var i := FirstOlder(rows, t);
      OlderRows(rows, t, pageSize) == rows[i..Min(i + pageSize + 1, |rows|)]
  {
    var m := |TakeNewer(rows, t)|;
    var e := Min(m + pageSize + 2, |rows|);
    FirstOlderListed(rows, t);
    StrictlyIsNewestFirst(rows);
    OlderScan(rows, t, pageSize + 2, m);
    DropCursorRow(rows, t, pageSize, m, e);
  }

  /** Without it the scan keeps `pageSize + 2` older rows at most. */
  lemma OlderRowsUnlisted(rows: seq<Item>, t: int, pageSize: nat)
    requires NewestFirst(rows)
    requires |TakeNewer(rows, t)| == |rows| || rows[|TakeNewer(rows, t)|].createdAt != t
    ensures var i := FirstOlder(rows, t);
      OlderRows(rows, t, pageSize) == rows[i..Min(i + pageSize + 2, |rows|)]
  {
    var m := |TakeNewer(rows, t)|;
    var e := Min(m + pageSize + 2, |rows|);
    FirstOlderUnlisted(rows, t);
    OlderScan(rows, t, pageSize + 2, m);
    DropCursorRow(rows, t, pageSize, m, e);
  }

  /** The scan with the cursor row dropped is the run of strictly older rows,
      one shorter than the scan limit when the cursor row was there. */
  lemma OlderRowsRun(rows: seq<Item>, t: int, pageSize: nat)
    requires StrictlyNewestFirst(rows)
    ensures var i := FirstOlder(rows, t);
      IsListedTime(rows, t) ==> OlderRows(rows, t, pageSize) == rows[i..Min(i + pageSize + 1, |rows|)]
    ensures var i := FirstOlder(rows, t);
      !IsListedTime(rows, t) ==> OlderRows(rows, t, pageSize) == rows[i..Min(i + pageSize + 2, |rows|)]
  {
    var m := |TakeNewer(rows, t)|;
    if m < |rows| && rows[m].createdAt == t {
      assert IsListedTime(rows, t);
      OlderRowsListed(rows, t, pageSize);
    } else {
      UnlistedTime(rows, t);
      OlderRowsUnlisted(rows, t, pageSize);
    }
  }

  /** The ascending scan from `t` is the newest-first run of rows at or
      after `t`, reversed. */
  lemma NewerScan(rows: seq<Item>, t: int, maxTimestamp: int)
    requires HbaseRows(rows, maxTimestamp)
    ensures ScanNewerFrom(rows, t, maxTimestamp) == Reverse(rows[..FirstOlder(rows, t)])
  {
    AtLeastIsPrefix(rows, t, maxTimestamp);
  }

  /** When the oldest row at or after `t` is the cursor row, it is dropped. */
  lemma HbaseNewerListed(rows: seq<Item>, t: int, maxTimestamp: int)
    requires HbaseRows(rows, maxTimestamp)
    requires 0 < FirstOlder(rows, t) && rows[FirstOlder(rows, t) - 1].createdAt == t
    ensures var i := FirstOlder(rows, t);
      && HbaseNewerPage(rows, t, maxTimestamp) == Page(rows[..i - 1], false)
      && TakeNewer(rows, t) == rows[..i - 1]
  {
    var i := FirstOlder(rows, t);
    NewerScan(rows, t, maxTimestamp);
    ReverseTail(rows[..i]);
    assert rows[..i][..i - 1] == rows[..i - 1];
    ReverseInvolution(rows[..i - 1]);
    TakeNewerUnique(rows, t, rows[..i - 1]);
  }

  /** Otherwise every scanned row is newer than `t` and all are returned. */
  lemma HbaseNewerUnlisted(rows: seq<Item>, t: int, maxTimestamp: int)
    requires HbaseRows(rows, maxTimestamp)
    requires 0 == FirstOlder(rows, t) || rows[FirstOlder(rows, t) - 1].createdAt != t
    ensures var i := FirstOlder(rows, t);
      && HbaseNewerPage(rows, t, maxTimestamp) == Page(rows[..i], false)
      && TakeNewer(rows, t) == rows[..i]
  {
    var i := FirstOlder(rows, t);
    NewerScan(rows, t, maxTimestamp);
    ReverseInvolution(rows[..i]);
    TakeNewerUnique(rows, t, rows[..i]);
  }

  /** The `created_at__gt` branch returns the ordered-list page. */
  lemma HbaseNewerAgrees(rows: seq<Item>, t: int, pageSize: nat, maxTimestamp: int)
    requires HbaseRows(rows, maxTimestamp)
    ensures HbaseNewerPage(rows, t, maxTimestamp) == PaginateOrderedList(rows, Newer(t), pageSize)
  {
    var i := FirstOlder(rows, t);
    if 0 < i && rows[i - 1].createdAt == t {
      HbaseNewerListed(rows, t, maxTimestamp);
    } else {
      HbaseNewerUnlisted(rows, t, maxTimestamp);
    }
  }

  /** Without a cursor `paginate_hbase` returns the ordered-list page. */
  lemma HbaseFirstAgrees(rows: seq<Item>, pageSize: nat)
    ensures HbaseFirstPage(rows, pageSize) == PaginateOrderedList(rows, FirstPage(), pageSize)
  {
    OrderedListFirst(rows, pageSize);
  }

  /** The `created_at__lt` branch as written returns the ordered-list page
      whenever the cursor row itself is stored. */
  lemma HbaseOlderAgreesWithCursorRow(rows: seq<Item>, t: int, pageSize: nat)
    requires StrictlyNewestFirst(rows) && IsListedTime(rows, t)
    ensures HbaseOlderPage(rows, t, pageSize) == PaginateOrderedList(rows, Older(t), pageSize)
  {
    var i := FirstOlder(rows, t);
    OlderRowsRun(rows, t, pageSize);
    OrderedListOlder(rows, t, pageSize, i);
  }

  /** Without the cursor row, and with at least `pageSize + 2` older rows,
      the `created_at__lt` branch as written returns `pageSize + 1` rows. */
  lemma HbaseOlderOversized(rows: seq<Item>, t: int, pageSize: nat)
    requires StrictlyNewestFirst(rows) && !IsListedTime(rows, t)
    requires |rows| - FirstOlder(rows, t) >= pageSize + 2
    ensures |HbaseOlderPage(rows, t, pageSize).items| == pageSize + 1
    ensures |PaginateOrderedList(rows, Older(t), pageSize).items| == pageSize
  {
    var i := FirstOlder(rows, t);
    OlderRowsRun(rows, t, pageSize);
    OrderedListOlder(rows, t, pageSize, i);
  }

  /** A concrete instance: page size 1, three stored rows, a cursor newer than
      all of them; the page holds two rows. */
  lemma HbaseOlderOversizedExample()
    ensures var rows := [Item(1, 3), Item(2, 2), Item(3, 1)];
      && HbaseOlderPage(rows, 4, 1) == Page([Item(1, 3), Item(2, 2)], true)
      && PaginateOrderedList(rows, Older(4), 1) == Page([Item(1, 3)], true)
  {
    var rows := [Item(1, 3), Item(2, 2), Item(3, 1)];
    assert !IsListedTime(rows, 4);
    FirstOlderUnique(rows, 4, 0);
    OlderRowsRun(rows, 4, 1);
    OrderedListOlder(rows, 4, 1, 0);
  }

  /** The corrected `paginate_hbase` returns the ordered-list page for every
      request. */
  lemma HbaseFixedAgrees(rows: seq<Item>, q: Query, pageSize: nat, maxTimestamp: int)
    requires HbaseRows(rows, maxTimestamp)
    ensures PaginateHbaseFixed(rows, q, pageSize, maxTimestamp) == PaginateOrderedList(rows, q, pageSize)
  {
    if q.createdAtGt.Some? {
      HbaseNewerAgrees(rows, q.createdAtGt.value, pageSize, maxTimestamp);
    } else if q.createdAtLt.Some? {
      assert q == Older(q.createdAtLt.value);
      HbaseOlderFixedAgrees(rows, q.createdAtLt.value, pageSize);
    } else {
      HbaseFirstAgrees(rows, pageSize);
    }
  }

  /** The corrected `created_at__lt` branch returns the ordered-list page. */
  lemma HbaseOlderFixedAgrees(rows: seq<Item>, t: int, pageSize: nat)
    requires StrictlyNewestFirst(rows)
    ensures HbaseOlderPageFixed(rows, t, pageSize) == PaginateOrderedList(rows, Older(t), pageSize)
  {
    var i := FirstOlder(rows, t);
    OlderRowsRun(rows, t, pageSize);
    OrderedListOlder(rows, t, pageSize, i);
    if IsListedTime(rows, t) {
      CutWindow(rows, i, pageSize, 1);
    } else {
      CutWindow(rows, i, pageSize, 2);
    }
  }

  /** A window of more than `pageSize` rows cut to `pageSize` is the
      `pageSize`-row window. */
  lemma CutWindow(rows: seq<Item>, i: nat, pageSize: nat, extra: nat)
    requires i <= |rows| && extra >= 1
    ensures var o := rows[i..Min(i + pageSize + extra, |rows|)];
      && (|o| > pageSize <==> |rows| > i + pageSize)
      && (|o| > pageSize ==> o[..pageSize] == rows[i..Min(i + pageSize, |rows|)])
      && (|o| <= pageSize ==> o == rows[i..Min(i + pageSize, |rows|)])
  {
  }
}
