// The `resources` table and its repository (internal/repository/resource.go).
// The SQL engine's part of each query (WHERE, ORDER BY, LIMIT) is stated as
// functions on the rows; the Go code's part (the scan loop) as methods.
module ResourceRepo {
  import opened Results
  import opened Text
  import opened Clock

  /** One `resources` row: the two content columns may be NULL. */
  datatype Row = Row(
    id: nat, userId: nat, title: string,
    textContent: Option<string>, codeContent: Option<string>,
    author: string, publishTime: DateTime,
    likeCount: nat, viewCount: nat, commentCount: nat)

  /** `model.Resource`: what a scan produces and what an insert takes. */
  datatype Resource = Resource(
    id: nat, userId: nat, title: string,
    textContent: string, codeContent: string,
    author: string, publishTime: DateTime,
    likeCount: nat, viewCount: nat, commentCount: nat)

  datatype RepoError = BadLimit   // a negative `LIMIT ?, ?` argument

  type Table = map<nat, Row>

  /** The ids in use are 1 .. nextId-1, every row carries its own id, and
      every publish time is a calendar date-time (a DATETIME column holds
      nothing else). */
  ghost predicate TableOk(t: Table, nextId: nat) {
    nextId >= 1 && forall i :: i in t ==> 1 <= i < nextId && t[i].id == i && Valid(t[i].publishTime)
  }

  // ---------------------------------------------------------------------
  // Reading and writing one row.

  /** `rows.Scan` into a `model.Resource`: a NULL content column reads as "". */
  function Scan(r: Row): (m: Resource)
    ensures r.textContent.None? ==> m.textContent == ""
    ensures r.codeContent.None? ==> m.codeContent == ""
    ensures r.textContent.Some? ==> m.textContent == r.textContent.value
    ensures r.codeContent.Some? ==> m.codeContent == r.codeContent.value
  {
    Resource(r.id, r.userId, r.title, r.textContent.GetOr(""), r.codeContent.GetOr(""),
             r.author, r.publishTime, r.likeCount, r.viewCount, r.commentCount)
  }

  /** The row `CreateResource` inserts for `res` under auto-increment id
      `id`: the content strings are bound as they are, so never NULL. */
  function Stored(res: Resource, id: nat): Row {
    Row(id, res.userId, res.title, Some(res.textContent), Some(res.codeContent),
        res.author, res.publishTime, res.likeCount, res.viewCount, res.commentCount)
  }

  /** Reading back an inserted row gives every supplied field unchanged,
      counters included; only the id is the table's. */
  lemma ScanStored(res: Resource, id: nat)
    ensures Scan(Stored(res, id)) == res.(id := id)
  {
  }

  // ---------------------------------------------------------------------
  // The keyword filter.

  /** The WHERE clause: none for an empty keyword, otherwise
      `title LIKE %kw% OR IFNULL(text_content,'') LIKE %kw% OR IFNULL(code_content,'') LIKE %kw%`. */
  predicate Selected(r: Row, kw: string) {
    kw == "" ||
    Contains(r.title, kw) || Contains(r.textContent.GetOr(""), kw) || Contains(r.codeContent.GetOr(""), kw)
  }

  /** A row is selected exactly when the keyword occurs in its title, its
      text or its code; so the missing WHERE for "" selects what "" would. */
  lemma SelectedIff(r: Row, kw: string)
    ensures Selected(r, kw) <==>
      (exists i :: OccursAt(r.title, kw, i)) ||
      (exists i :: OccursAt(r.textContent.GetOr(""), kw, i)) ||
      (exists i :: OccursAt(r.codeContent.GetOr(""), kw, i))
  {
    ContainsIff(r.title, kw);
    ContainsIff(r.textContent.GetOr(""), kw);
    ContainsIff(r.codeContent.GetOr(""), kw);
    if kw == "" {
      assert OccursAt(r.title, kw, 0);
    }
  }

  /** The rows with id below `hi`, in id order. */
  function Rows(t: Table, hi: nat): seq<Row> {
    if hi == 0 then []
    else Rows(t, hi - 1) + (if hi - 1 in t then [t[hi - 1]] else [])
  }

  /** The rows of `s` that `kw` selects, in their order. */
  function Filter(s: seq<Row>, kw: string): (r: seq<Row>)
    ensures |r| <= |s|
    ensures forall x :: x in r <==> x in s && Selected(x, kw)
  {
    if s == [] then []
    else (if Selected(s[0], kw) then [s[0]] else []) + Filter(s[1..], kw)
  }

  lemma {:induction false} FilterAppend(a: seq<Row>, b: seq<Row>, kw: string)
    ensures Filter(a + b, kw) == Filter(a, kw) + Filter(b, kw)
  {
    if a == [] {
      assert a + b == b;
    } else {
      assert (a + b)[0] == a[0];
      assert (a + b)[1..] == a[1..] + b;
      FilterAppend(a[1..], b, kw);
    }
  }

  /** The ids below `hi` whose rows `kw` selects. */
  ghost function SelectedIds(t: Table, hi: nat, kw: string): set<nat> {
    set i | i in t && i < hi && Selected(t[i], kw)
  }

  /** Raising the bound by one adds at most the id just below it. */
  lemma SelectedIdsStep(t: Table, hi: nat, kw: string)
    requires hi > 0
    ensures SelectedIds(t, hi, kw) ==
      SelectedIds(t, hi - 1, kw) + (if hi - 1 in t && Selected(t[hi - 1], kw) then {hi - 1} else {})
    ensures hi - 1 !in SelectedIds(t, hi - 1, kw)
  {
  }

  /** Filtering the scan keeps exactly one row per selected id. */
  lemma {:induction false} FilterCount(t: Table, hi: nat, kw: string)
    ensures |Filter(Rows(t, hi), kw)| == |SelectedIds(t, hi, kw)|
  {
    if hi == 0 {
      assert SelectedIds(t, hi, kw) == {};
    } else {
      var tail := if hi - 1 in t then [t[hi - 1]] else [];
      assert Rows(t, hi) == Rows(t, hi - 1) + tail;
      FilterAppend(Rows(t, hi - 1), tail, kw);
      FilterCount(t, hi - 1, kw);
      SelectedIdsStep(t, hi, kw);
      assert |Filter(tail, kw)| == if hi - 1 in t && Selected(t[hi - 1], kw) then 1 else 0;
    }
  }

  // ---------------------------------------------------------------------
  // ORDER BY publish_time DESC.

  /** No row is published before a row that follows it. */
  predicate NewestFirst(s: seq<Row>) {
    forall i, j :: 0 <= i < j < |s| ==> !Before(s[i].publishTime, s[j].publishTime)
  }

  /** `x` placed in front of the first row not newer than it. */
  function Insert(x: Row, s: seq<Row>): seq<Row> {
    if s == [] || !Before(x.publishTime, s[0].publishTime) then [x] + s
    else [s[0]] + Insert(x, s[1..])
  }

  /** Insertion sort, newest first; among equal times the scan order is kept. */
  function SortNewest(s: seq<Row>): seq<Row> {
    if s == [] then [] else Insert(s[0], SortNewest(s[1..]))
  }

  lemma NotBeforeTransitive(a: DateTime, b: DateTime, c: DateTime)
    requires !Before(a, b) && !Before(b, c)
    ensures !Before(a, c)
  {
  }

  /** Inserting adds exactly the one row. */
  lemma {:induction false} InsertPerm(x: Row, s: seq<Row>)
    ensures multiset(Insert(x, s)) == multiset(s) + multiset{x}
  {
    if s != [] && Before(x.publishTime, s[0].publishTime) {
      InsertPerm(x, s[1..]);
      assert s == [s[0]] + s[1..];
    }
  }

  /** Inserting into a newest-first sequence keeps it newest first. */
  lemma {:induction false} InsertSorted(x: Row, s: seq<Row>)
    requires NewestFirst(s)
    ensures NewestFirst(Insert(x, s))
  {
    if s == [] || !Before(x.publishTime, s[0].publishTime) {
      if s != [] {
        forall j | 0 <= j < |s|
          ensures !Before(x.publishTime, s[j].publishTime)
        {
          if j > 0 {
            NotBeforeTransitive(x.publishTime, s[0].publishTime, s[j].publishTime);
          }
        }
      }
    } else {
      var rest := Insert(x, s[1..]);
      InsertSorted(x, s[1..]);
      InsertPerm(x, s[1..]);
      forall y | y in rest
        ensures !Before(s[0].publishTime, y.publishTime)
      {
        assert y in multiset(rest);
        if y != x {
          assert y in multiset(s[1..]);
          var j :| 0 <= j < |s[1..]| && s[1..][j] == y;
          assert s[j + 1] == y;
        }
      }
    }
  }

  /** The sort is a permutation whose result is newest first. */
  lemma {:induction false} SortNewestSpec(s: seq<Row>)
    ensures multiset(SortNewest(s)) == multiset(s)
    ensures NewestFirst(SortNewest(s))
  {
    if s != [] {
      SortNewestSpec(s[1..]);
      InsertPerm(s[0], SortNewest(s[1..]));
      InsertSorted(s[0], SortNewest(s[1..]));
      assert s == [s[0]] + s[1..];
    }
  }

  // ---------------------------------------------------------------------
  // LIMIT offset, limit.

  /** At most `limit` rows, starting after the first `offset`. */
  function Window(s: seq<Row>, offset: nat, limit: nat): (r: seq<Row>)
    ensures |r| == if offset >= |s| then 0 else if |s| - offset < limit then |s| - offset else limit
    ensures forall i :: 0 <= i < |r| ==> r[i] == s[offset + i]
  {
    if offset >= |s| then []
    else if |s| - offset < limit then s[offset..]
    else s[offset..offset + limit]
  }

  /** The whole ordered selection of the list query. */
  function Query(t: Table, hi: nat, kw: string): seq<Row> {
    SortNewest(Filter(Rows(t, hi), kw))
  }

  /** The ordered selection holds exactly the selected rows, newest first,
      and there are as many of them as selected ids. */
  lemma QuerySpec(t: Table, hi: nat, kw: string)
    ensures NewestFirst(Query(t, hi, kw))
    ensures |Query(t, hi, kw)| == |SelectedIds(t, hi, kw)|
    ensures forall x :: x in Query(t, hi, kw) <==> x in Rows(t, hi) && Selected(x, kw)
  {
    var f := Filter(Rows(t, hi), kw);
    SortNewestSpec(f);
    FilterCount(t, hi, kw);
    assert |Query(t, hi, kw)| == |multiset(Query(t, hi, kw))| == |multiset(f)|;
    forall x
      ensures x in Query(t, hi, kw) <==> x in f
    {
      assert x in Query(t, hi, kw) <==> x in multiset(Query(t, hi, kw));
    }
  }

  /** The scan holds the table's rows and nothing else. */
  lemma {:induction false} RowsMembers(t: Table, hi: nat, x: Row)
    ensures x in Rows(t, hi) <==> exists i :: i in t && i < hi && t[i] == x
  {
    if hi > 0 {
      RowsMembers(t, hi - 1, x);
      if x in Rows(t, hi) && x !in Rows(t, hi - 1) {
        assert hi - 1 in t && t[hi - 1] == x;
      }
    }
  }

  /** Every row the list query returns has a calendar publish time. */
  lemma QueryTimesValid(t: Table, n: nat, kw: string)
    requires TableOk(t, n)
    ensures forall x :: x in Query(t, n, kw) ==> Valid(x.publishTime)
  {
    QuerySpec(t, n, kw);
    forall x | x in Query(t, n, kw)
      ensures Valid(x.publishTime)
    {
      RowsMembers(t, n, x);
    }
  }

  // ---------------------------------------------------------------------
  // The three counters.

  datatype Counter = Views | Likes | Comments

  function Count(r: Row, c: Counter): nat {
    match c
    case Views => r.viewCount
    case Likes => r.likeCount
    case Comments => r.commentCount
  }

  /** `SET <counter> = <counter> + 1` on one row. */
  function Bump(r: Row, c: Counter): Row {
    match c
    case Views => r.(viewCount := r.viewCount + 1)
    case Likes => r.(likeCount := r.likeCount + 1)
    case Comments => r.(commentCount := r.commentCount + 1)
  }

  /** The same statement on the table: `WHERE id = ?` matching no row
      updates nothing and is not an error. */
  function Incr(t: Table, id: nat, c: Counter): Table {
    if id in t then t[id := Bump(t[id], c)] else t
  }

  /** A bump adds exactly one to its own counter; the other two counters
      and every other column keep their values. */
  lemma BumpSpec(r: Row, c: Counter)
    ensures forall d :: Count(Bump(r, c), d) == Count(r, d) + (if d == c then 1 else 0)
    ensures Bump(r, c).(likeCount := r.likeCount, viewCount := r.viewCount, commentCount := r.commentCount) == r
  {
  }

  /** An increment touches only the row with that id, and a missing id
      leaves the whole table as it was. */
  lemma IncrSpec(t: Table, id: nat, c: Counter)
    ensures Incr(t, id, c).Keys == t.Keys
    ensures id !in t ==> Incr(t, id, c) == t
    ensures id in t ==> Incr(t, id, c)[id] == Bump(t[id], c)
    ensures forall i :: i in t && i != id ==> Incr(t, id, c)[i] == t[i]
    ensures forall n :: TableOk(t, n) ==> TableOk(Incr(t, id, c), n)
  {
  }

  /** Increments commute: the final counts do not depend on the order in
      which the requests arrive. */
  lemma IncrCommute(t: Table, a: nat, c: Counter, b: nat, d: Counter)
    ensures Incr(Incr(t, a, c), b, d) == Incr(Incr(t, b, d), a, c)
  {
    if a == b && a in t {
      var r := t[a];
      assert Bump(Bump(r, c), d) == Bump(Bump(r, d), c);
    }
  }

  /** `k` increments of one counter. */
  function IncrTimes(t: Table, id: nat, c: Counter, k: nat): Table {
    if k == 0 then t else Incr(IncrTimes(t, id, c, k - 1), id, c)
  }

  /** `k` increments raise that counter by exactly `k`. */
  lemma {:induction false} IncrTimesSpec(t: Table, id: nat, c: Counter, k: nat)
    requires id in t
    ensures id in IncrTimes(t, id, c, k)
    ensures Count(IncrTimes(t, id, c, k)[id], c) == Count(t[id], c) + k
    ensures forall d :: d != c ==> Count(IncrTimes(t, id, c, k)[id], d) == Count(t[id], d)
  {
    if k > 0 {
      IncrTimesSpec(t, id, c, k - 1);
      BumpSpec(IncrTimes(t, id, c, k - 1)[id], c);
    }
  }

  // ---------------------------------------------------------------------
  // The repository: the table, updated in place.

  /** The ids of the rows the keyword selects. */
  function MatchingIds(rows: Table, kw: string): set<nat> {
    set i | i in rows && Selected(rows[i], kw)
  }

  /** The matching ids are some of the table's ids, and there are none
      exactly when no row matches. */
  lemma MatchingIdsBound(rows: Table, kw: string)
    ensures |MatchingIds(rows, kw)| <= |rows|
    ensures |MatchingIds(rows, kw)| == 0 <==> forall i :: i in rows ==> !Selected(rows[i], kw)
  {
    var ids := MatchingIds(rows, kw);
    assert ids <= rows.Keys;
    SubsetCard(ids, rows.Keys);
    assert |rows.Keys| == |rows|;
    if ids == {} {
      forall i | i in rows
        ensures !Selected(rows[i], kw)
      {
        assert Selected(rows[i], kw) ==> i in ids;
      }
    } else {
      var k :| k in ids;
      assert k in rows && Selected(rows[k], kw);
    }
  }

  lemma {:induction false} SubsetCard(a: set<nat>, b: set<nat>)
    requires a <= b
    ensures |a| <= |b|
    decreases a
  {
    if a != {} {
      var x :| x in a;
      SubsetCard(a - {x}, b - {x});
    }
  }

  class ResourceStore {
    var rows: Table
    var nextId: nat

    ghost predicate Valid()
      reads this
    {
      TableOk(rows, nextId)
    }

    constructor ()
      ensures Valid() && rows == map[] && nextId == 1
    {
      rows := map[];
      nextId := 1;
    }

    /** `CreateResource`: inserts every supplied field under the next id;
        the caller's `ID` is ignored. */
    method CreateResource(res: Resource)
      requires Valid() && Clock.Valid(res.publishTime)
      modifies this
      ensures Valid() && nextId == old(nextId) + 1
      ensures rows == old(rows)[old(nextId) := Stored(res, old(nextId))]
    {
      rows := rows[nextId := Stored(res, nextId)];
      nextId := nextId + 1;
    }

    /** `GetResourceByID`: an unknown id is "absent", not an error. */
    function GetResourceByID(id: nat): (r: Option<Resource>)
      requires Valid()
      reads this
      ensures r.None? <==> id !in rows
      ensures r.Some? ==> r.value.id == id && r.value == Scan(rows[id])
    {
      if id in rows then Some(Scan(rows[id])) else None
    }

    /** `CountResources`: `SELECT COUNT(*)` under the keyword filter. */
    function CountResources(kw: string): (r: nat)
      reads this
      ensures r <= |rows|
    {
      MatchingIdsBound(rows, kw);
      |MatchingIds(rows, kw)|
    }

    /** The count is zero exactly when no row matches the keyword. */
    lemma CountZeroIff(kw: string)
      ensures CountResources(kw) == 0 <==> forall i :: i in rows ==> !Selected(rows[i], kw)
    {
      MatchingIdsBound(rows, kw);
    }

    /** The count is the length of the whole ordered selection, so it does
        not depend on the page asked for. */
    lemma CountIsQueryLength(kw: string)
      requires Valid()
      ensures CountResources(kw) == |Query(rows, nextId, kw)|
    {
      QuerySpec(rows, nextId, kw);
      assert MatchingIds(rows, kw) == SelectedIds(rows, nextId, kw);
    }

    /** The scan loop shared by the two list queries: one resource per
        selected row, in the query's order. */
    static method ScanAll(selected: seq<Row>) returns (out: seq<Resource>)
      ensures |out| == |selected|
      ensures forall i :: 0 <= i < |out| ==> out[i] == Scan(selected[i])
    {
      out := [];
      var k := 0;
      while k < |selected|
        invariant 0 <= k <= |selected| && |out| == k
        invariant forall i :: 0 <= i < k ==> out[i] == Scan(selected[i])
      {
        out := out + [Scan(selected[k])];
        k := k + 1;
      }
    }

    /** `GetResourceList`: the filtered rows, newest first, after skipping
        `offset` of them and keeping at most `limit`. */
    method GetResourceList(offset: int, limit: int, kw: string) returns (r: Result<seq<Resource>, RepoError>)
      requires Valid()
      ensures r.Err? <==> offset < 0 || limit < 0
      ensures r.Ok? ==>
        var w := Window(Query(rows, nextId, kw), offset, limit);
        && |r.value| == |w|
        && forall i :: 0 <= i < |w| ==> r.value[i] == Scan(w[i])
    {
      if offset < 0 || limit < 0 {
        return Err(BadLimit);
      }
      var selected := Window(Query(rows, nextId, kw), offset, limit);
      var items := ScanAll(selected);
      r := Ok(items);
    }

    /** `GetByUserID`: the user's rows, newest first. */
    method GetByUserID(userId: nat) returns (out: seq<Resource>)
      requires Valid()
      ensures |out| == |SortNewest(OwnedBy(Rows(rows, nextId), userId))|
      ensures forall i :: 0 <= i < |out| ==> out[i] == Scan(SortNewest(OwnedBy(Rows(rows, nextId), userId))[i])
    {
      out := ScanAll(SortNewest(OwnedBy(Rows(rows, nextId), userId)));
    }

    /** `IncrViewCount`: `view_count + 1` where the id matches. */
    method IncrViewCount(id: nat)
      requires Valid()
      modifies this
      ensures Valid() && nextId == old(nextId)
      ensures rows == Incr(old(rows), id, Views)
    {
      if id in rows {
        var row := rows[id];
        rows := rows[id := row.(viewCount := row.viewCount + 1)];
      }
    }

    /** `IncrLikeCount`: `like_count + 1` where the id matches. */
    method IncrLikeCount(id: nat)
      requires Valid()
      modifies this
      ensures Valid() && nextId == old(nextId)
      ensures rows == Incr(old(rows), id, Likes)
    {
      if id in rows {
        var row := rows[id];
        rows := rows[id := row.(likeCount := row.likeCount + 1)];
      }
    }

    /** `IncrCommentCount`: `comment_count + 1` where the id matches. */
    method IncrCommentCount(id: nat)
      requires Valid()
      modifies this
      ensures Valid() && nextId == old(nextId)
      ensures rows == Incr(old(rows), id, Comments)
    {
      if id in rows {
        var row := rows[id];
        rows := rows[id := row.(commentCount := row.commentCount + 1)];
      }
    }
  }

  /** The rows of `s` owned by `userId` (`WHERE user_id = ?`), in order. */
  function OwnedBy(s: seq<Row>, userId: nat): (r: seq<Row>)
    ensures |r| <= |s|
    ensures forall x :: x in r <==> x in s && x.userId == userId
  {
    if s == [] then []
    else (if s[0].userId == userId then [s[0]] else []) + OwnedBy(s[1..], userId)
  }
}
