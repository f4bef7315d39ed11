/** The xp leaderboard with cursor pagination
    (`TotalRankingService.getRankingScroll`): one row more than the page is
    fetched, and its presence is what `hasNext` reports. */
module Ranking {
  import opened Common
  import opened Users

  /** The two repository queries; `limit` is the page size handed to
      `PageRequest.of(0, limit)`. */
  datatype RankingQuery =
    | FirstRankings(limit: int)
    | NextRankings(lastXp: int, lastUserId: int, limit: int)

  datatype RankingItem = RankingItem(nickname: string, xp: int, level: int)

  datatype RankingCursor = RankingCursor(lastXp: int, lastUserId: int)

  datatype RankingScroll = RankingScroll(items: seq<RankingItem>, nextCursor: Option<RankingCursor>, hasNext: bool)

  function ItemOf(u: User): RankingItem {
    RankingItem(u.nickname, u.xp, u.level)
  }

  function Items(users: seq<User>): (r: seq<RankingItem>)
    ensures |r| == |users|
    ensures forall i :: 0 <= i < |users| ==> r[i] == ItemOf(users[i])
  {
    if users == [] then [] else [ItemOf(users[0])] + Items(users[1..])
  }

  /** The query to run: the first-page query when either cursor part is
      missing, the next-page query otherwise, with `size + 1` computed in
      Java `int` arithmetic. `None` when `PageRequest` rejects the limit
      (below one, which includes the wrap-around of `size + 1` at the top of
      the `int` range). */
  function PlanQuery(lastXp: Option<int>, lastUserId: Option<int>, size: int): (r: Option<RankingQuery>)
    requires IsInt32(size)
    ensures r.None? <==> size < 0 || size == INT_MAX
    ensures r.Some? ==> r.value.limit == size + 1
    ensures r.Some? ==> (r.value.FirstRankings? <==> lastXp.None? || lastUserId.None?)
    ensures r.Some? && r.value.NextRankings? ==> r.value.lastXp == lastXp.value && r.value.lastUserId == lastUserId.value
  {
    var limit := Wrap32(size + 1);
    if limit < 1 then None
    else if lastXp.None? || lastUserId.None? then Some(FirstRankings(limit))
    else Some(NextRankings(lastXp.value, lastUserId.value, limit))
  }

  /** What is made of the fetched rows. */
  function Page(fetched: seq<User>, size: nat): (r: RankingScroll)
    ensures r.hasNext <==> |fetched| > size
    ensures |r.items| == Min(|fetched|, size)
    ensures forall i :: 0 <= i < |r.items| ==> r.items[i] == ItemOf(fetched[i])
    ensures r.nextCursor.None? <==> r.items == []
    ensures r.nextCursor.Some? ==>
      var last := fetched[|r.items| - 1];
      r.nextCursor.value == RankingCursor(last.xp, last.id)
  {
    var hasNext := |fetched| > size;
    var kept := if hasNext then fetched[..size] else fetched;
    var cursor := if kept == [] then None else Some(RankingCursor(kept[|kept| - 1].xp, kept[|kept| - 1].id));
    RankingScroll(Items(kept), cursor, hasNext)
  }

  /** `getRankingScroll`. `run` is the repository: it answers a query with
      the rows in ranking order. */
  function GetRankingScroll(lastXp: Option<int>, lastUserId: Option<int>, size: int, run: RankingQuery -> seq<User>): (r: Option<RankingScroll>)
    requires IsInt32(size)
    ensures r.None? <==> PlanQuery(lastXp, lastUserId, size).None?
    ensures r.Some? ==> size >= 0 && r.value == Page(run(PlanQuery(lastXp, lastUserId, size).value), size)
  {
    var q := PlanQuery(lastXp, lastUserId, size);
    if q.None? then None else Some(Page(run(q.value), size))
  }

  /** A page that reports more rows is full, and its cursor is the last row
      shown: the next request resumes right after it. */
  lemma FullPageWhenMore(fetched: seq<User>, size: nat)
    requires |fetched| > size > 0
    ensures |Page(fetched, size).items| == size
    ensures Page(fetched, size).nextCursor == Some(RankingCursor(fetched[size - 1].xp, fetched[size - 1].id))
  {
  }

  /** The extra row is never shown: it is only the evidence for `hasNext`. */
  lemma ExtraRowNotShown(fetched: seq<User>, size: nat)
    requires |fetched| == size + 1
    ensures Page(fetched, size).items == Items(fetched[..size])
  {
  }

  // ------------------------------------------------------------ scrolling

  /** The first `limit` rows, or all of them when there are fewer. */
  function Take(rows: seq<User>, limit: int): (r: seq<User>)
    ensures limit >= |rows| ==> r == rows
    ensures 0 <= limit < |rows| ==> r == rows[..limit]
  {
    if limit >= |rows| then rows else if limit <= 0 then [] else rows[..limit]
  }

  /** The rows after the first row with this xp and id; none when no row
      has them. */
  function After(ranked: seq<User>, xp: int, id: int): (r: seq<User>)
    ensures |r| < |ranked| || r == []
  {
    if ranked == [] then []
    else if ranked[0].xp == xp && ranked[0].id == id then ranked[1..]
    else After(ranked[1..], xp, id)
  }

  /** The two ranking queries over one ranking, best first: the first-page
      query gives the top `limit` rows, the next-page query the `limit` rows
      after the cursor's row. */
  function Answer(ranked: seq<User>, q: RankingQuery): seq<User> {
    match q
    case FirstRankings(limit) => Take(ranked, limit)
    case NextRankings(xp, id, limit) => Take(After(ranked, xp, id), limit)
  }

  /** `Answer` over one ranking, as the repository the service calls. */
  function Repository(ranked: seq<User>): RankingQuery -> seq<User> {
    q => Answer(ranked, q)
  }

  /** No user is ranked twice. */
  predicate DistinctIds(ranked: seq<User>) {
    forall i, j :: 0 <= i < j < |ranked| ==> ranked[i].id != ranked[j].id
  }

  /** The cursor of a ranked row leads to the rows right after it. */
  lemma {:induction false} AfterRow(ranked: seq<User>, k: nat)
    requires DistinctIds(ranked) && k < |ranked|
    ensures After(ranked, ranked[k].xp, ranked[k].id) == ranked[k + 1..]
    decreases k
  {
    if k > 0 {
      var tail := ranked[1..];
      assert ranked[0].id != ranked[k].id;
      assert tail[k - 1] == ranked[k];
      assert DistinctIds(tail) by {
        forall i, j | 0 <= i < j < |tail|
          ensures tail[i].id != tail[j].id
        {
          assert tail[i] == ranked[i + 1] && tail[j] == ranked[j + 1];
        }
      }
      AfterRow(tail, k - 1);
      assert tail[k..] == ranked[k + 1..];
    }
  }

  /** The cursor a client holds after seeing the first `k` rows. */
  function CursorAt(ranked: seq<User>, k: nat): Option<RankingCursor>
    requires k <= |ranked|
  {
    if k == 0 then None else Some(RankingCursor(ranked[k - 1].xp, ranked[k - 1].id))
  }

  /** One request made with a cursor (absent on the first request). */
  function Request(cursor: Option<RankingCursor>, size: int, run: RankingQuery -> seq<User>): (r: Option<RankingScroll>)
    requires IsInt32(size)
  {
    GetRankingScroll(if cursor.Some? then Some(cursor.value.lastXp) else None,
                     if cursor.Some? then Some(cursor.value.lastUserId) else None, size, run)
  }

  /** The query asked with the cursor held after the first `k` rows. */
  lemma QueryAt(ranked: seq<User>, size: int, k: nat) returns (q: RankingQuery)
    requires 1 <= size < INT_MAX && k <= |ranked|
    ensures q.limit == size + 1
    ensures Request(CursorAt(ranked, k), size, Repository(ranked)) == Some(Page(Repository(ranked)(q), size))
    ensures k == 0 ==> q == FirstRankings(size + 1)
    ensures k > 0 ==> q == NextRankings(ranked[k - 1].xp, ranked[k - 1].id, size + 1)
  {
    var cursor := CursorAt(ranked, k);
    q := PlanQuery(if cursor.Some? then Some(cursor.value.lastXp) else None,
                   if cursor.Some? then Some(cursor.value.lastUserId) else None, size).value;
  }

  /** The page asked for after the first `k` rows is the fetch of the rows
      from `k` on. */
  lemma PageAt(ranked: seq<User>, size: int, k: nat)
    requires DistinctIds(ranked) && 1 <= size < INT_MAX && k <= |ranked|
    ensures Request(CursorAt(ranked, k), size, Repository(ranked)) == Some(Page(Take(ranked[k..], size + 1), size))
  {
    var q := QueryAt(ranked, size, k);
    if k == 0 {
      assert ranked[0..] == ranked;
    } else {
      AfterRow(ranked, k - 1);
    }
  }

  /** A page with more rows after it shows `size` rows from `k` on, and its
      cursor is the one held after `k + size` rows. */
  lemma FullPage(ranked: seq<User>, size: int, k: nat) returns (page: RankingScroll)
    requires 1 <= size && k <= |ranked| && |ranked[k..]| > size
    ensures page == Page(Take(ranked[k..], size + 1), size)
    ensures page.items == Items(ranked[k..][..size]) && page.hasNext
    ensures page.nextCursor == CursorAt(ranked, k + size)
  {
    var rest := ranked[k..];
    var fetched := Take(rest, size + 1);
    page := Page(fetched, size);
    assert |fetched| == size + 1 && fetched == rest[..size + 1];
    ExtraRowNotShown(fetched, size);
    FullPageWhenMore(fetched, size);
    assert fetched[..size] == rest[..size];
    assert fetched[size - 1] == rest[size - 1] == ranked[k + size - 1];
  }

  /** A page that reports no more rows shows the rest of the ranking. */
  lemma LastPage(ranked: seq<User>, size: int, k: nat) returns (page: RankingScroll)
    requires 1 <= size && k <= |ranked| && |ranked[k..]| <= size
    ensures page == Page(Take(ranked[k..], size + 1), size)
    ensures page.items == Items(ranked[k..]) && !page.hasNext
  {
    page := Page(Take(ranked[k..], size + 1), size);
  }

  /** Consecutive pages neither skip nor repeat a row: the page asked for
      after the first `k` rows shows the next `size` rows (or all that are
      left), and when it reports more, its cursor is the one held after
      `k + size` rows, so the following request starts at row `k + size`. */
  lemma PagesFollowRanking(ranked: seq<User>, size: int, k: nat)
    requires DistinctIds(ranked) && 1 <= size < INT_MAX && k <= |ranked|
    ensures Request(CursorAt(ranked, k), size, Repository(ranked)).Some?
    ensures var page := Request(CursorAt(ranked, k), size, Repository(ranked)).value;
      && page.items == Items(Take(ranked[k..], size))
      && (page.hasNext <==> k + size < |ranked|)
      && (page.hasNext ==> page.nextCursor == CursorAt(ranked, k + size))
  {
    PageAt(ranked, size, k);
    if |ranked[k..]| > size {
      var page := FullPage(ranked, size, k);
    } else {
      var page := LastPage(ranked, size, k);
    }
  }
}
