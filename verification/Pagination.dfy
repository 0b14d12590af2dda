/** Pages of rows, newest first, each request starting below the last row of the page before. */
module Pagination {
  import opened Common

  /** The list's sort key; the rest of a row is up to the table. */
  datatype Cursor = Cursor(at: int, id: string)

  datatype Row<T> = Row(key: Cursor, body: T)

  datatype Page<T> = Page(items: seq<Row<T>>, next: Option<Cursor>)

  const DEFAULT_LIMIT: nat := 25
  const MAX_LIMIT: nat := 100

  // ---------------------------------------------------------------- the order of rows

  /** Text compares character by character, a prefix first. */
  predicate TextLess(a: string, b: string) {
    b != [] && (a == [] || a[0] < b[0] || (a[0] == b[0] && TextLess(a[1..], b[1..])))
  }

  predicate Less(a: Cursor, b: Cursor) {
    a.at < b.at || (a.at == b.at && TextLess(a.id, b.id))
  }

  lemma {:induction false} TextTotal(a: string, b: string)
    ensures a == b || TextLess(a, b) || TextLess(b, a)
    ensures !(TextLess(a, b) && TextLess(b, a)) && !TextLess(a, a)
    decreases |a|
  {
    if a != [] {
      TextTotal(a[1..], a[1..]);
      if b != [] {
        TextTotal(a[1..], b[1..]);
        assert a == [a[0]] + a[1..] && b == [b[0]] + b[1..];
      }
    }
  }

  lemma {:induction false} TextTransitive(a: string, b: string, c: string)
    requires TextLess(a, b) && TextLess(b, c)
    ensures TextLess(a, c)
  {
    if a != [] && a[0] == b[0] && b[0] == c[0] {
      TextTransitive(a[1..], b[1..], c[1..]);
    }
  }

  lemma LessTotal(a: Cursor, b: Cursor)
    ensures a == b || Less(a, b) || Less(b, a)
    ensures !(Less(a, b) && Less(b, a)) && !Less(a, a)
  {
    TextTotal(a.id, b.id);
    TextTotal(a.id, a.id);
  }

  lemma LessTransitive(a: Cursor, b: Cursor, c: Cursor)
    requires Less(a, b) && Less(b, c)
    ensures Less(a, c)
  {
    if a.at == b.at == c.at {
      TextTransitive(a.id, b.id, c.id);
    }
  }

  // ---------------------------------------------------------------- sorted listings

  ghost predicate DistinctKeys<T(!new)>(s: set<Row<T>>) {
    forall r, q :: r in s && q in s && r.key == q.key ==> r == q
  }

  ghost predicate Descending<T>(rows: seq<Row<T>>) {
    forall i, j :: 0 <= i < j < |rows| ==> Less(rows[j].key, rows[i].key)
  }

  ghost predicate Greatest<T(!new)>(r: Row<T>, s: set<Row<T>>) {
    r in s && forall q :: q in s && q != r ==> Less(q.key, r.key)
  }

  lemma {:induction false} GreatestExists<T(!new)>(s: set<Row<T>>)
    requires s != {} && DistinctKeys(s)
    ensures exists r :: Greatest(r, s)
    decreases |s|
  {
    var any :| any in s;
    var rest := s - {any};
    if rest == {} {
      assert s == {any};
      assert Greatest(any, s);
    } else {
      GreatestExists(rest);
      var top :| Greatest(top, rest);
      LessTotal(any.key, top.key);
      if Less(top.key, any.key) {
        forall q | q in rest && q != top
          ensures Less(q.key, any.key)
        {
          LessTransitive(q.key, top.key, any.key);
        }
        assert Greatest(any, s);
      } else {
        assert Greatest(top, s);
      }
    }
  }

  /** The rows of a table, newest first. */
  ghost function Sorted<T(!new)>(s: set<Row<T>>): seq<Row<T>>
    requires DistinctKeys(s)
    decreases |s|
  {
    if s == {} then []
    else
      GreatestExists(s);
      var top :| Greatest(top, s);
      [top] + Sorted(s - {top})
  }

  lemma {:induction false} SortedIsSorted<T(!new)>(s: set<Row<T>>)
    requires DistinctKeys(s)
    ensures Descending(Sorted(s)) && (forall r :: r in Sorted(s) <==> r in s)
    decreases |s|
  {
    if s != {} {
      var top := Sorted(s)[0];
      GreatestExists(s);
      assert Greatest(top, s) && Sorted(s) == [top] + Sorted(s - {top});
      SortedIsSorted(s - {top});
    }
  }

  /** A descending listing of the rows of a set is the sorted one. */
  lemma {:induction false} SortedUnique<T(!new)>(rows: seq<Row<T>>, s: set<Row<T>>)
    requires DistinctKeys(s) && Descending(rows) && forall r :: r in rows <==> r in s
    ensures rows == Sorted(s)
    decreases |s|
  {
    SortedIsSorted(s);
    if rows == [] {
      assert s == {};
    } else {
      assert rows[0] in s;
      var top := Sorted(s)[0];
      assert top in rows;
      var i :| 0 <= i < |rows| && rows[i] == top;
      var k :| 0 <= k < |Sorted(s)| && Sorted(s)[k] == rows[0];
      LessTotal(rows[0].key, top.key);
      assert i == 0;
      forall r
        ensures r in rows[1..] <==> r in s - {top}
      {
        LessTotal(top.key, top.key);
        assert rows == [top] + rows[1..];
      }
      SortedUnique(rows[1..], s - {top});
    }
  }

  // ---------------------------------------------------------------- one request

  ghost predicate Below(key: Cursor, cursor: Option<Cursor>) {
    cursor.Some? ==> Less(key, cursor.value)
  }

  ghost function Under<T(!new)>(s: set<Row<T>>, cursor: Option<Cursor>): set<Row<T>> {
    set r | r in s && Below(r.key, cursor)
  }

  /** The matching rows below the cursor, newest first, one more than a page holds. */
  ghost function Query<T(!new)>(matching: set<Row<T>>, cursor: Option<Cursor>, limit: nat): seq<Row<T>>
    requires DistinctKeys(matching)
  {
    Take(Sorted(Under(matching, cursor)), limit + 1)
  }

  function PageOf<T>(rows: seq<Row<T>>, limit: nat): Page<T> {
    if |rows| <= limit then Page(rows, None)
    else if limit == 0 then Page([], None)
    else Page(rows[..limit], Some(rows[limit - 1].key))
  }

  /** A numeric limit: none or one below 1 is the default, fractions drop, the maximum caps. */
  function ClampLimit(raw: Option<real>): (limit: nat)
    ensures 1 <= limit <= MAX_LIMIT
    ensures raw.None? || raw.value < 1.0 ==> limit == DEFAULT_LIMIT
    ensures raw.Some? && 1.0 <= raw.value < 101.0 ==> limit as real <= raw.value < limit as real + 1.0
    ensures raw.Some? && raw.value >= 100.0 ==> limit == MAX_LIMIT
  {
    if raw.None? || raw.value < 1.0 then DEFAULT_LIMIT
    else if raw.value.Floor < MAX_LIMIT then raw.value.Floor else MAX_LIMIT
  }

  ghost function Request<T(!new)>(matching: set<Row<T>>, cursor: Option<Cursor>, limit: nat): Page<T>
    requires DistinctKeys(matching)
  {
    PageOf(Query(matching, cursor, limit), limit)
  }

  // ---------------------------------------------------------------- what a page covers

  /** From just below the cursor down to the next token; to the bottom when there is none. */
  ghost predicate Covered(key: Cursor, cursor: Option<Cursor>, next: Option<Cursor>) {
    Below(key, cursor) && (next.Some? ==> !Less(key, next.value))
  }

  /** A page is the sorted listing of the matching rows it covers, and a token means it is full with more below. */
  ghost predicate Covers<T(!new)>(page: Page<T>, matching: set<Row<T>>, cursor: Option<Cursor>, limit: nat) {
    && Descending(page.items) && |page.items| <= limit
    && (forall r :: r in page.items <==> r in matching && Covered(r.key, cursor, page.next))
    && (page.next.Some? ==>
         && |page.items| == limit && limit > 0 && page.next.value == page.items[limit - 1].key
         && exists r :: r in matching && Less(r.key, page.next.value))
  }

  lemma PageIsInterval<T(!new)>(matching: set<Row<T>>, cursor: Option<Cursor>, limit: nat)
    requires DistinctKeys(matching) && limit > 0
    ensures Covers(Request(matching, cursor, limit), matching, cursor, limit)
  {
    var all := Sorted(Under(matching, cursor));
    SortedIsSorted(Under(matching, cursor));
    if |all| <= limit {
      assert Request(matching, cursor, limit) == Page(all, None);
    } else {
      assert all[..limit + 1][..limit] == all[..limit];
      FullPage(all, matching, cursor, limit);
    }
  }

  lemma FullPage<T(!new)>(all: seq<Row<T>>, matching: set<Row<T>>, cursor: Option<Cursor>, limit: nat)
    requires 0 < limit < |all| && Descending(all) && forall r :: r in all <==> r in Under(matching, cursor)
    ensures Covers(Page(all[..limit], Some(all[limit - 1].key)), matching, cursor, limit)
  {
    forall r
      ensures r in all[..limit] <==> r in all && !Less(r.key, all[limit - 1].key)
    {
      SplitAt(all, limit, r);
    }
    assert all[limit] in all;
  }

  lemma SplitAt<T(!new)>(all: seq<Row<T>>, limit: nat, r: Row<T>)
    requires Descending(all) && 0 < limit < |all|
    ensures r in all[..limit] <==> r in all && !Less(r.key, all[limit - 1].key)
  {
    if r in all {
      var i :| 0 <= i < |all| && all[i] == r;
      LessTotal(r.key, all[limit - 1].key);
      LessTotal(r.key, r.key);
      if i < limit {
        assert all[..limit][i] == r;
      } else {
        assert forall k :: 0 <= k < limit ==> Less(all[i].key, all[k].key);
      }
    }
  }

  // ---------------------------------------------------------------- following tokens on a fixed table

  /** All pages from a token on, joined. */
  ghost function Walk<T(!new)>(matching: set<Row<T>>, cursor: Option<Cursor>, limit: nat): seq<Row<T>>
    requires DistinctKeys(matching) && limit > 0
    decreases |Under(matching, cursor)|
  {
    var page := Request(matching, cursor, limit);
    if page.next.None? then page.items
    else
      NextIsLower(matching, cursor, limit);
      page.items + Walk(matching, page.next, limit)
  }

  /** The rows left shrink with every token, so the walk ends. */
  lemma NextIsLower<T(!new)>(matching: set<Row<T>>, cursor: Option<Cursor>, limit: nat)
    requires DistinctKeys(matching) && limit > 0 && Request(matching, cursor, limit).next.Some?
    ensures Under(matching, Request(matching, cursor, limit).next) < Under(matching, cursor)
    ensures |Under(matching, Request(matching, cursor, limit).next)| < |Under(matching, cursor)|
  {
    PageIsInterval(matching, cursor, limit);
    var page := Request(matching, cursor, limit);
    var last := page.items[limit - 1];
    assert last in page.items;
    LessTotal(last.key, last.key);
    forall r | r in Under(matching, page.next)
      ensures r in Under(matching, cursor)
    {
      if cursor.Some? {
        LessTransitive(r.key, last.key, cursor.value);
      }
    }
    assert last in Under(matching, cursor) && last !in Under(matching, page.next);
    SmallerSet(Under(matching, page.next), Under(matching, cursor));
  }

  lemma SmallerSet<X>(a: set<X>, b: set<X>)
    requires a < b
    ensures |a| < |b|
  {
    assert b == a + (b - a);
  }

  lemma {:induction false} WalkListsAll<T(!new)>(matching: set<Row<T>>, cursor: Option<Cursor>, limit: nat)
    requires DistinctKeys(matching) && limit > 0
    ensures Descending(Walk(matching, cursor, limit))
    ensures forall r :: r in Walk(matching, cursor, limit) <==> r in Under(matching, cursor)
    decreases |Under(matching, cursor)|
  {
    PageIsInterval(matching, cursor, limit);
    var page := Request(matching, cursor, limit);
    if page.next.Some? {
      NextIsLower(matching, cursor, limit);
      var rest := Walk(matching, page.next, limit);
      WalkListsAll(matching, page.next, limit);
      DescendingJoin(page.items, rest, page.next.value);
      forall r
        ensures r in page.items + rest <==> r in Under(matching, cursor)
      {
        LessTotal(r.key, page.next.value);
      }
    }
  }

  lemma DescendingJoin<T(!new)>(upper: seq<Row<T>>, lower: seq<Row<T>>, at: Cursor)
    requires Descending(upper) && Descending(lower)
    requires forall r :: r in upper ==> !Less(r.key, at)
    requires forall r :: r in lower ==> Less(r.key, at)
    ensures Descending(upper + lower)
  {
    forall i, j | 0 <= i < |upper| && 0 <= j < |lower|
      ensures Less(lower[j].key, upper[i].key)
    {
      assert upper[i] in upper && lower[j] in lower;
      LessTotal(upper[i].key, at);
      if upper[i].key != at {
        LessTransitive(lower[j].key, at, upper[i].key);
      }
    }
  }

  /** On a table that does not change, the pages are the whole sorted table. */
  lemma WalkIsSortedTable<T(!new)>(matching: set<Row<T>>, limit: nat)
    requires DistinctKeys(matching) && limit > 0
    ensures Walk(matching, None, limit) == Sorted(matching)
  {
    WalkListsAll(matching, None, limit);
    assert Under(matching, None) == matching;
    SortedUnique(Walk(matching, None, limit), matching);
  }

  // ---------------------------------------------------------------- following tokens while rows come and go

  /** One table and one limit for each request. */
  ghost predicate Requests<T(!new)>(tables: seq<set<Row<T>>>, limits: seq<nat>) {
    && |limits| == |tables|
    && forall i :: 0 <= i < |tables| ==> DistinctKeys(tables[i]) && limits[i] > 0
  }

  /** The n-th request sees the n-th table and asks for the n-th limit; the visit is over once a page has no token. */
  ghost function Visit<T(!new)>(tables: seq<set<Row<T>>>, cursor: Option<Cursor>, limits: seq<nat>): seq<Row<T>>
    requires Requests(tables, limits)
    decreases |tables|
  {
    if tables == [] then []
    else
      var page := Request(tables[0], cursor, limits[0]);
      page.items + if page.next.None? then [] else Visit(tables[1..], page.next, limits[1..])
  }

  ghost predicate Finished<T(!new)>(tables: seq<set<Row<T>>>, cursor: Option<Cursor>, limits: seq<nat>)
    requires Requests(tables, limits)
    decreases |tables|
  {
    && tables != []
    && var page := Request(tables[0], cursor, limits[0]);
       page.next.None? || Finished(tables[1..], page.next, limits[1..])
  }

  ghost predicate HasKey<T(!new)>(rows: set<Row<T>>, key: Cursor) {
    exists r :: r in rows && r.key == key
  }

  ghost predicate ListedAt<T>(rows: seq<Row<T>>, key: Cursor, i: int) {
    0 <= i < |rows| && rows[i].key == key
  }

  /** No row is repeated, whatever happens between requests: the visit only ever goes down. */
  lemma {:induction false} VisitDescends<T(!new)>(tables: seq<set<Row<T>>>, cursor: Option<Cursor>, limits: seq<nat>)
    requires Requests(tables, limits)
    ensures Descending(Visit(tables, cursor, limits))
    ensures forall r :: r in Visit(tables, cursor, limits) ==> Below(r.key, cursor)
    decreases |tables|
  {
    if tables != [] {
      PageIsInterval(tables[0], cursor, limits[0]);
      var page := Request(tables[0], cursor, limits[0]);
      if page.next.Some? {
        var rest := Visit(tables[1..], page.next, limits[1..]);
        VisitDescends(tables[1..], page.next, limits[1..]);
        DescendingJoin(page.items, rest, page.next.value);
        assert page.items[limits[0] - 1] in page.items;
        forall r | r in rest
          ensures Below(r.key, cursor)
        {
          if cursor.Some? {
            LessTransitive(r.key, page.next.value, cursor.value);
          }
        }
      }
    }
  }

  /** A row the visit has not passed yet and that stays in the table is listed before the visit is over. */
  lemma {:induction false} StayingRowListed<T(!new)>(tables: seq<set<Row<T>>>, cursor: Option<Cursor>, limits: seq<nat>,
                                                     key: Cursor)
    requires Requests(tables, limits)
    requires Finished(tables, cursor, limits) && Below(key, cursor)
    requires forall i :: 0 <= i < |tables| ==> HasKey(tables[i], key)
    ensures exists i :: ListedAt(Visit(tables, cursor, limits), key, i)
    decreases |tables|
  {
    PageIsInterval(tables[0], cursor, limits[0]);
    var page := Request(tables[0], cursor, limits[0]);
    var r :| r in tables[0] && r.key == key;
    if Covered(key, cursor, page.next) {
      var i :| 0 <= i < |page.items| && page.items[i] == r;
      assert ListedAt(Visit(tables, cursor, limits), key, i);
    } else {
      StayingRowListed(tables[1..], page.next, limits[1..], key);
      var i :| ListedAt(Visit(tables[1..], page.next, limits[1..]), key, i);
      assert ListedAt(Visit(tables, cursor, limits), key, |page.items| + i);
    }
  }

  /** Rows come and go between requests, yet a row there throughout is listed exactly once. */
  lemma StayingRowListedOnce<T(!new)>(tables: seq<set<Row<T>>>, limits: seq<nat>, key: Cursor)
    requires Requests(tables, limits)
    requires Finished(tables, None, limits)
    requires forall i :: 0 <= i < |tables| ==> HasKey(tables[i], key)
    ensures exists i :: ListedAt(Visit(tables, None, limits), key, i)
                && forall j :: ListedAt(Visit(tables, None, limits), key, j) ==> j == i
  {
    StayingRowListed(tables, None, limits, key);
    VisitDescends(tables, None, limits);
    var rows := Visit(tables, None, limits);
    var i :| ListedAt(rows, key, i);
    forall j | ListedAt(rows, key, j)
      ensures j == i
    {
      SameKeySamePlace(rows, key, i, j);
    }
  }

  lemma SameKeySamePlace<T>(rows: seq<Row<T>>, key: Cursor, i: int, j: int)
    requires Descending(rows) && ListedAt(rows, key, i) && ListedAt(rows, key, j)
    ensures i == j
  {
    LessTotal(key, key);
  }

  /** Every row listed was in the table when its page was read. */
  lemma {:induction false} ListedWasThere<T(!new)>(tables: seq<set<Row<T>>>, cursor: Option<Cursor>, limits: seq<nat>,
                                                   r: Row<T>)
    requires Requests(tables, limits)
    ensures r in Visit(tables, cursor, limits) ==> exists i :: 0 <= i < |tables| && r in tables[i]
    decreases |tables|
  {
    if r !in Visit(tables, cursor, limits) {
      return;
    }
    PageIsInterval(tables[0], cursor, limits[0]);
    var page := Request(tables[0], cursor, limits[0]);
    if r in page.items {
      assert r in tables[0];
    } else {
      ListedWasThere(tables[1..], page.next, limits[1..], r);
      var i :| 0 <= i < |tables[1..]| && r in tables[1..][i];
      assert r in tables[i + 1];
    }
  }
}
