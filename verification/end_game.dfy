/** The end-of-game ranking inside `WebSocketHandler.endGame`: the room's
    rows sorted by score, highest first, keeping the query order among equal
    scores (`Stream.sorted` is stable), and xp awarded to the first four by
    rank. */
module Results {
  import opened Common
  import opened Users
  import opened Store

  /** `xpRewards`: first place 20, second 10, third 5, fourth 2. */
  const XP_REWARDS: seq<int> := [20, 10, 5, 2]

  /** `PlayerRankInfo`. */
  datatype RankInfo = RankInfo(rank: int, nickname: string, level: int, score: int)

  predicate SortedByScore(s: seq<Participant>) {
    forall i, j :: 0 <= i < j < |s| ==> s[i].score >= s[j].score
  }

  /** Rows with score `v`. */
  function HasScore(v: int): Participant -> bool {
    (p: Participant) => p.score == v
  }

  /** Where `p` goes: in front of the first row that does not beat it. */
  function InsertPos(p: Participant, s: seq<Participant>): (k: nat)
    ensures k <= |s|
    ensures forall i :: 0 <= i < k ==> s[i].score > p.score
    ensures k < |s| ==> s[k].score <= p.score
  {
    if s == [] || s[0].score <= p.score then 0
    else 1 + InsertPos(p, s[1..])
  }

  /** One step of the insertion sort. */
  function Insert(p: Participant, s: seq<Participant>): (r: seq<Participant>)
    ensures |r| == |s| + 1
  {
    var k := InsertPos(p, s);
    s[..k] + [p] + s[k..]
  }

  /** Inserting adds exactly `p`. */
  lemma InsertPermutes(p: Participant, s: seq<Participant>)
    ensures multiset(Insert(p, s)) == multiset(s) + multiset{p}
  {
    var k := InsertPos(p, s);
    assert s == s[..k] + s[k..];
  }

  lemma InsertSorted(p: Participant, s: seq<Participant>)
    requires SortedByScore(s)
    ensures SortedByScore(Insert(p, s))
  {
    var r := Insert(p, s);
    var k := InsertPos(p, s);
    forall i, j | 0 <= i < j < |r|
      ensures r[i].score >= r[j].score
    {
      if j == k {
        assert r[i] == s[i];
      } else if i == k {
        assert r[j] == s[j - 1];
      } else {
        var i' := if i < k then i else i - 1;
        var j' := if j < k then j else j - 1;
        assert r[i] == s[i'] && r[j] == s[j'];
      }
    }
  }

  /** `participants.stream().sorted(comparingInt(getBananaScore).reversed())`,
      as an insertion sort. */
  function SortByScore(ps: seq<Participant>): (r: seq<Participant>)
    ensures |r| == |ps|
  {
    if ps == [] then [] else Insert(ps[0], SortByScore(ps[1..]))
  }

  /** The sort orders by score, highest first. */
  lemma {:induction false} SortIsSorted(ps: seq<Participant>)
    ensures SortedByScore(SortByScore(ps))
  {
    if ps != [] {
      SortIsSorted(ps[1..]);
      InsertSorted(ps[0], SortByScore(ps[1..]));
    }
  }

  /** The sort is a permutation of the room's rows. */
  lemma {:induction false} SortPermutes(ps: seq<Participant>)
    ensures multiset(SortByScore(ps)) == multiset(ps)
  {
    if ps != [] {
      SortPermutes(ps[1..]);
      InsertPermutes(ps[0], SortByScore(ps[1..]));
      assert ps == [ps[0]] + ps[1..];
    }
  }

  /** Inserting a row of another score does not change the rows of score
      `v`; inserting one of score `v` puts it first among them. */
  lemma InsertKeepsOrder(p: Participant, s: seq<Participant>, v: int)
    ensures Filter(Insert(p, s), HasScore(v)) == Filter([p] + s, HasScore(v))
  {
    var k := InsertPos(p, s);
    var keep := HasScore(v);
    var front := s[..k];
    if p.score == v {
      forall x | x in front
        ensures !keep(x)
      {
        var i :| 0 <= i < k && front[i] == x;
        assert s[i].score > p.score;
      }
    }
    FilterMove(front, p, s[k..], keep);
    assert front + s[k..] == s;
  }

  /** Moving `x` in front of elements the filter drops, or moving an
      element the filter drops, leaves the filtered sequence as it was. */
  lemma FilterMove<T(!new)>(front: seq<T>, x: T, back: seq<T>, keep: T -> bool)
    requires keep(x) ==> forall y :: y in front ==> !keep(y)
    ensures Filter(front + [x] + back, keep) == Filter([x] + (front + back), keep)
  {
    FilterAppend(front + [x], back, keep);
    FilterAppend([x], front + back, keep);
    FilterSwap(front, x, back, keep);
  }

  /** The kept part of `front`, of `[x]` and of `back`: the first two
      commute when one of them is empty. */
  lemma FilterSwap<T(!new)>(front: seq<T>, x: T, back: seq<T>, keep: T -> bool)
    requires keep(x) ==> forall y :: y in front ==> !keep(y)
    ensures Filter(front + [x], keep) + Filter(back, keep) == Filter([x], keep) + Filter(front + back, keep)
  {
    FilterAppend(front, [x], keep);
    FilterAppend(front, back, keep);
    var f, m, b := Filter(front, keep), Filter([x], keep), Filter(back, keep);
    if keep(x) {
      FilterNone(front, keep);
      assert f + m == m && f + b == b;
    } else {
      FilterDropsOne(x, keep);
      assert f + m == f && m + (f + b) == f + b;
    }
  }

  lemma FilterDropsOne<T(!new)>(x: T, keep: T -> bool)
    requires !keep(x)
    ensures Filter([x], keep) == []
  {
    assert [x][1..] == [];
  }

  /** Stability: among rows of equal score, the sort keeps the query order. */
  lemma {:induction false} SortIsStable(ps: seq<Participant>, v: int)
    ensures Filter(SortByScore(ps), HasScore(v)) == Filter(ps, HasScore(v))
  {
    if ps != [] {
      var rest := SortByScore(ps[1..]);
      SortIsStable(ps[1..], v);
      InsertKeepsOrder(ps[0], rest, v);
      FilterAppend([ps[0]], rest, HasScore(v));
      FilterAppend([ps[0]], ps[1..], HasScore(v));
      assert ps == [ps[0]] + ps[1..];
    }
  }

  /** The users of `top` are all in the store. */
  predicate UsersPresent(db: Db, top: seq<Participant>) {
    forall i :: 0 <= i < |top| ==> top[i].userId in db.users.rows
  }

  /** Some row of `top` belongs to user `id`. */
  predicate Touches(top: seq<Participant>, id: int) {
    top != [] && (top[0].userId == id || Touches(top[1..], id))
  }

  lemma {:induction false} TouchesExactly(top: seq<Participant>, id: int)
    ensures Touches(top, id) <==> exists i :: 0 <= i < |top| && top[i].userId == id
  {
    if top != [] {
      TouchesExactly(top[1..], id);
      if exists i :: 0 <= i < |top| && top[i].userId == id {
        var i :| 0 <= i < |top| && top[i].userId == id;
        if i > 0 {
          assert top[1..][i - 1].userId == id;
        }
      }
      if exists i :: 0 <= i < |top[1..]| && top[1..][i].userId == id {
        var i :| 0 <= i < |top[1..]| && top[1..][i].userId == id;
        assert top[i + 1].userId == id;
      }
    }
  }

  /** The loop of `endGame`: `top[i]`'s user gets `rewards[i]` (added and
      saved one after the other) and the rank entry `rank + i` is made from
      the user as saved. */
  function Award(db: Db, top: seq<Participant>, rewards: seq<int>, rank: int): (r: (Db, seq<RankInfo>))
    requires WellFormed(db) && UsersPresent(db, top)
    requires |top| <= |rewards| && forall i :: 0 <= i < |rewards| ==> IsInt32(rewards[i])
    ensures |r.1| == |top|
    ensures forall i :: 0 <= i < |top| ==> r.1[i].rank == rank + i && r.1[i].score == top[i].score
    ensures r.0 == db.(users := r.0.users)
    ensures r.0.users.rows.Keys == db.users.rows.Keys && r.0.users.nextId == db.users.nextId
    ensures forall id :: id in db.users.rows && !Touches(top, id) ==> r.0.users.rows[id] == db.users.rows[id]
    ensures WellFormed(r.0)
    decreases |top|
  {
    if top == [] then (db, [])
    else
      var p := top[0];
      var before := db.users.rows[p.userId];
      var u := AddXp(before, rewards[0]);
      assert u.id == p.userId;
      var db1 := SaveUser(db, u);
      assert UsersPresent(db1, top[1..]) by {
        forall j | 0 <= j < |top[1..]|
          ensures top[1..][j].userId in db1.users.rows
        {
          assert top[1..][j] == top[j + 1];
        }
      }
      var rest := Award(db1, top[1..], rewards[1..], rank + 1);
      (rest.0, [RankInfo(rank, u.nickname, u.level, p.score)] + rest.1)
  }

  /** What a user of the top gets when the users are distinct: exactly the
      reward of their rank, added once (with Java `int` wrap-around, see
      `AddXp`) and the level recomputed. */
  lemma {:induction false} AwardAddsReward(db: Db, top: seq<Participant>, rewards: seq<int>, rank: int, i: nat)
    requires WellFormed(db) && UsersPresent(db, top)
    requires |top| <= |rewards| && forall k :: 0 <= k < |rewards| ==> IsInt32(rewards[k])
    requires i < |top|
    requires DistinctUsers(top)
    ensures top[i].userId in db.users.rows
    ensures Award(db, top, rewards, rank).0.users.rows[top[i].userId] == AddXp(db.users.rows[top[i].userId], rewards[i])
    decreases |top|, 1
  {
    if i == 0 {
      DistinctTail(top);
      AwardFirst(db, top, rewards, rank);
    } else {
      AwardLater(db, top, rewards, rank, i);
    }
  }

  /** A user past the first: what the rest of the top award them. */
  lemma {:induction false} AwardLater(db: Db, top: seq<Participant>, rewards: seq<int>, rank: int, i: nat)
    requires WellFormed(db) && UsersPresent(db, top)
    requires |top| <= |rewards| && forall k :: 0 <= k < |rewards| ==> IsInt32(rewards[k])
    requires 0 < i < |top|
    requires DistinctUsers(top)
    ensures top[i].userId in db.users.rows
    ensures Award(db, top, rewards, rank).0.users.rows[top[i].userId] == AddXp(db.users.rows[top[i].userId], rewards[i])
    decreases |top|, 0
  {
    DistinctTail(top);
    var db1 := AwardStep(db, top, rewards, rank);
    assert top[1..][i - 1] == top[i];
    assert rewards[1..][i - 1] == rewards[i];
    AwardAddsReward(db1, top[1..], rewards[1..], rank + 1, i - 1);
  }

  /** No user has two rows among `top`. */
  predicate DistinctUsers(top: seq<Participant>) {
    forall a, b :: 0 <= a < b < |top| ==> top[a].userId != top[b].userId
  }

  /** The rows after the first have distinct users, none of them the
      first's. */
  lemma DistinctTail(top: seq<Participant>)
    requires top != [] && DistinctUsers(top)
    ensures DistinctUsers(top[1..]) && !Touches(top[1..], top[0].userId)
  {
    var rest := top[1..];
    TouchesExactly(rest, top[0].userId);
    forall j | 0 <= j < |rest|
      ensures rest[j].userId != top[0].userId
    {
      assert rest[j] == top[j + 1];
    }
    forall a, b | 0 <= a < b < |rest|
      ensures rest[a].userId != rest[b].userId
    {
      assert rest[a] == top[a + 1] && rest[b] == top[b + 1];
    }
  }

  /** The store after the first award, from which the rest continue; other
      users' rows as they were. */
  lemma AwardStep(db: Db, top: seq<Participant>, rewards: seq<int>, rank: int) returns (db1: Db)
    requires WellFormed(db) && UsersPresent(db, top)
    requires |top| <= |rewards| && forall k :: 0 <= k < |rewards| ==> IsInt32(rewards[k])
    requires top != []
    ensures WellFormed(db1) && UsersPresent(db1, top[1..])
    ensures |top[1..]| <= |rewards[1..]| && forall k :: 0 <= k < |rewards[1..]| ==> IsInt32(rewards[1..][k])
    ensures db1.users.rows.Keys == db.users.rows.Keys
    ensures db1.users.rows[top[0].userId] == AddXp(db.users.rows[top[0].userId], rewards[0])
    ensures forall id :: id in db.users.rows && id != top[0].userId ==> id in db1.users.rows && db1.users.rows[id] == db.users.rows[id]
    ensures Award(db, top, rewards, rank).0 == Award(db1, top[1..], rewards[1..], rank + 1).0
  {
    var p := top[0];
    var u := AddXp(db.users.rows[p.userId], rewards[0]);
    assert u.id == p.userId;
    db1 := SaveUser(db, u);
    var rest := top[1..];
    assert UsersPresent(db1, rest) by {
      forall j | 0 <= j < |rest|
        ensures rest[j].userId in db1.users.rows
      {
        assert rest[j] == top[j + 1];
      }
    }
    forall k | 0 <= k < |rewards[1..]|
      ensures IsInt32(rewards[1..][k])
    {
      assert rewards[1..][k] == rewards[k + 1];
    }
  }

  /** The first user of the top, who appears nowhere else in it. */
  lemma AwardFirst(db: Db, top: seq<Participant>, rewards: seq<int>, rank: int)
    requires WellFormed(db) && UsersPresent(db, top)
    requires |top| <= |rewards| && forall k :: 0 <= k < |rewards| ==> IsInt32(rewards[k])
    requires top != [] && !Touches(top[1..], top[0].userId)
    ensures top[0].userId in db.users.rows
    ensures Award(db, top, rewards, rank).0.users.rows[top[0].userId] == AddXp(db.users.rows[top[0].userId], rewards[0])
  {
    var db1 := AwardStep(db, top, rewards, rank);
  }

  /** The ranked rows that get a reward: at most four. */
  function Podium(participants: seq<Participant>): (top: seq<Participant>)
    ensures |top| == Min(|participants|, |XP_REWARDS|)
    ensures top == SortByScore(participants)[..|top|]
  {
    var sorted := SortByScore(participants);
    sorted[..Min(|sorted|, |XP_REWARDS|)]
  }

  /** The podium's users are the room's users. */
  lemma PodiumUsersPresent(db: Db, participants: seq<Participant>)
    requires UsersPresent(db, participants)
    ensures UsersPresent(db, Podium(participants))
  {
    var top := Podium(participants);
    var sorted := SortByScore(participants);
    SortPermutes(participants);
    forall i | 0 <= i < |top|
      ensures top[i].userId in db.users.rows
    {
      var p := top[i];
      assert sorted[i] == p;
      assert p in multiset(participants);
      var j :| 0 <= j < |participants| && participants[j] == p;
    }
  }

  /** The awarding step of `endGame`: ranks 1 to 4 go to the podium in
      order. */
  function RankAndReward(db: Db, participants: seq<Participant>): (r: (Db, seq<RankInfo>))
    requires WellFormed(db) && UsersPresent(db, participants)
    ensures |r.1| == Min(|participants|, |XP_REWARDS|)
    ensures forall i :: 0 <= i < |r.1| ==> r.1[i].rank == i + 1 && r.1[i].score == Podium(participants)[i].score
    ensures r.0 == db.(users := r.0.users) && r.0.users.rows.Keys == db.users.rows.Keys
    ensures forall id :: id in db.users.rows && !Touches(Podium(participants), id) ==> r.0.users.rows[id] == db.users.rows[id]
    ensures WellFormed(r.0)
  {
    var top := Podium(participants);
    PodiumUsersPresent(db, participants);
    Award(db, top, XP_REWARDS[..|top|], 1)
  }

  /** The rank list goes from the highest score down. */
  lemma RanksDescend(db: Db, participants: seq<Participant>)
    requires WellFormed(db) && UsersPresent(db, participants)
    ensures var ranks := RankAndReward(db, participants).1;
      forall i, j :: 0 <= i < j < |ranks| ==> ranks[i].score >= ranks[j].score
  {
    SortIsSorted(participants);
  }

  /** Each podium user gets the reward of their rank: 20, 10, 5 and 2 xp
      for places one to four, when no user holds two podium rows. */
  lemma PodiumRewarded(db: Db, participants: seq<Participant>, i: nat)
    requires WellFormed(db) && UsersPresent(db, participants)
    requires i < |Podium(participants)|
    requires DistinctUsers(Podium(participants))
    ensures Podium(participants)[i].userId in db.users.rows
    ensures var id := Podium(participants)[i].userId;
      RankAndReward(db, participants).0.users.rows[id] == AddXp(db.users.rows[id], XP_REWARDS[i])
  {
    var top := Podium(participants);
    PodiumUsersPresent(db, participants);
    AwardAddsReward(db, top, XP_REWARDS[..|top|], 1, i);
  }

  /** The first-ranked row has the highest score of the room. */
  lemma FirstPlaceHasTopScore(participants: seq<Participant>, p: Participant)
    requires p in participants
    ensures SortByScore(participants) != [] && SortByScore(participants)[0].score >= p.score
  {
    var sorted := SortByScore(participants);
    SortPermutes(participants);
    SortIsSorted(participants);
    assert p in multiset(participants);
    assert p in multiset(sorted);
    var j :| 0 <= j < |sorted| && sorted[j] == p;
  }
}
