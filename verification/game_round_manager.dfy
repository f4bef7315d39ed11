/** Per-room round state (`GameRoundManager`): a game-started flag, the
    cards submitted this turn, and the history of examiners. Each of the
    three Java maps is a Dafny map keyed by room code; an absent key reads
    as the Java `getOrDefault` default. */
module Rounds {
  import opened Common

  type Code = string

  /** `SubmittedCardInfo`: a snapshot taken when the card is submitted. */
  datatype SubmittedCard = SubmittedCard(participantId: int, nickname: string, cardId: int, word: string, meaning: string)

  datatype RoundStore = RoundStore(
    started: map<Code, bool>,
    submitted: map<Code, seq<SubmittedCard>>,
    history: map<Code, seq<int>>)

  const EmptyStore := RoundStore(map[], map[], map[])

  /** `isAllCardsSubmitted` compares against this fixed number, whatever the
      room's participant count. */
  const QUORUM: nat := 3

  /** The raw entries one room code has in the three maps. */
  datatype Cell = Cell(started: Option<bool>, submitted: Option<seq<SubmittedCard>>, history: Option<seq<int>>)

  function CellOf(s: RoundStore, code: Code): Cell {
    Cell(
      if code in s.started then Some(s.started[code]) else None,
      if code in s.submitted then Some(s.submitted[code]) else None,
      if code in s.history then Some(s.history[code]) else None)
  }

  /** No room other than `code` sees any change. */
  ghost predicate OthersUnchanged(s: RoundStore, s': RoundStore, code: Code) {
    forall c :: c != code ==> CellOf(s', c) == CellOf(s, c)
  }

  // ---------------------------------------------------------------- reads

  function IsGameStarted(s: RoundStore, code: Code): bool {
    if code in s.started then s.started[code] else false
  }

  function SubmittedCards(s: RoundStore, code: Code): seq<SubmittedCard> {
    if code in s.submitted then s.submitted[code] else []
  }

  function SubmittedCount(s: RoundStore, code: Code): nat {
    |SubmittedCards(s, code)|
  }

  function ExaminerHistory(s: RoundStore, code: Code): seq<int> {
    if code in s.history then s.history[code] else []
  }

  /** `isAllCardsSubmitted`: the fixed quorum test. What it means for a
      turn is stated by `QuorumAfterSubmissions` and
      `OneSubmitterReachesQuorum`. */
  function IsAllCardsSubmitted(s: RoundStore, code: Code): bool {
    SubmittedCount(s, code) >= 3
  }

  // ------------------------------------------------------------ mutations

  /** `startGame`: the room is started with no submissions and an empty
      history, whatever it held before. */
  function StartGame(s: RoundStore, code: Code): (r: RoundStore)
    ensures IsGameStarted(r, code)
    ensures SubmittedCards(r, code) == [] && ExaminerHistory(r, code) == []
    ensures CellOf(r, code) == Cell(Some(true), Some([]), Some([]))
    ensures OthersUnchanged(s, r, code)
  {
    RoundStore(s.started[code := true], s.submitted[code := []], s.history[code := []])
  }

  /** Starting twice is the same as starting once: the second call only
      resets again. */
  lemma StartGameTwice(s: RoundStore, code: Code)
    ensures StartGame(StartGame(s, code), code) == StartGame(s, code)
  {
  }

  /** `clearSubmittedCards`: the next turn begins with no submissions; the
      flag and the history are untouched. */
  function ClearSubmittedCards(s: RoundStore, code: Code): (r: RoundStore)
    ensures SubmittedCards(r, code) == [] && code in r.submitted
    ensures r.started == s.started && r.history == s.history
    ensures OthersUnchanged(s, r, code)
  {
    s.(submitted := s.submitted[code := []])
  }

  /** `endGame`: the room's three entries are removed. */
  function EndGame(s: RoundStore, code: Code): (r: RoundStore)
    ensures !IsGameStarted(r, code) && SubmittedCount(r, code) == 0 && ExaminerHistory(r, code) == []
    ensures CellOf(r, code) == Cell(None, None, None)
    ensures OthersUnchanged(s, r, code)
  {
    RoundStore(s.started - {code}, s.submitted - {code}, s.history - {code})
  }

  /** `submitCard`: appends at the end (creating the list if absent), with
      no de-duplication; the started flag is not touched even when no game
      exists. */
  function SubmitCard(s: RoundStore, code: Code, card: SubmittedCard): (r: RoundStore)
    ensures SubmittedCards(r, code) == SubmittedCards(s, code) + [card]
    ensures SubmittedCount(r, code) == SubmittedCount(s, code) + 1
    ensures r.started == s.started && r.history == s.history
    ensures OthersUnchanged(s, r, code)
  {
    s.(submitted := s.submitted[code := SubmittedCards(s, code) + [card]])
  }

  /** A turn's submissions, one `submitCard` call per card, in order. */
  function SubmitAll(s: RoundStore, code: Code, cards: seq<SubmittedCard>): (r: RoundStore)
    ensures SubmittedCards(r, code) == SubmittedCards(s, code) + cards
    ensures r.started == s.started && r.history == s.history
    decreases |cards|
  {
    if cards == [] then s
    else
      var r := SubmitAll(SubmitCard(s, code, cards[0]), code, cards[1..]);
      assert SubmittedCards(s, code) + [cards[0]] + cards[1..] == SubmittedCards(s, code) + cards;
      r
  }

  /** After a start (or a cleared turn), the quorum is reached exactly when
      three or more submissions have come in, whoever made them and whatever
      the room's size. */
  lemma QuorumAfterSubmissions(s: RoundStore, code: Code, cards: seq<SubmittedCard>)
    ensures IsAllCardsSubmitted(SubmitAll(StartGame(s, code), code, cards), code) <==> |cards| >= QUORUM
    ensures IsAllCardsSubmitted(SubmitAll(ClearSubmittedCards(s, code), code, cards), code) <==> |cards| >= QUORUM
  {
  }

  /** The quorum counts submissions, not submitters: nothing refuses a
      repeat, so one participant submitting three times completes it. */
  lemma OneSubmitterReachesQuorum(s: RoundStore, code: Code, card: SubmittedCard)
    ensures var s0 := StartGame(s, code);
      && !IsAllCardsSubmitted(SubmitCard(SubmitCard(s0, code, card), code, card), code)
      && IsAllCardsSubmitted(SubmitCard(SubmitCard(SubmitCard(s0, code, card), code, card), code, card), code)
  {
  }

  /** Once reached, the quorum stays reached until the turn is cleared. */
  lemma QuorumStays(s: RoundStore, code: Code, card: SubmittedCard)
    ensures IsAllCardsSubmitted(s, code) ==> IsAllCardsSubmitted(SubmitCard(s, code, card), code)
    ensures !IsAllCardsSubmitted(ClearSubmittedCards(s, code), code)
  {
  }

  /** `addExaminerHistory`: appends at the end. */
  function AddExaminerHistory(s: RoundStore, code: Code, id: int): (r: RoundStore)
    ensures ExaminerHistory(r, code) == ExaminerHistory(s, code) + [id]
    ensures r.started == s.started && r.submitted == s.submitted
    ensures OthersUnchanged(s, r, code)
  {
    s.(history := s.history[code := ExaminerHistory(s, code) + [id]])
  }

  // ---------------------------------------------------- examiner rotation

  /** The ids that have not been examiner yet, in the order given
      (`ids.stream().filter(id -> !history.contains(id)).toList()`). */
  function Candidates(ids: seq<int>, history: seq<int>): (r: seq<int>)
    ensures forall id :: id in r <==> id in ids && id !in history
    ensures |r| <= |ids|
  {
    if ids == [] then []
    else (if ids[0] !in history then [ids[0]] else []) + Candidates(ids[1..], history)
  }

  lemma {:induction false} CandidatesOfCovered(ids: seq<int>, history: seq<int>)
    requires forall id :: id in ids ==> id in history
    ensures Candidates(ids, history) == []
  {
    if ids != [] {
      var head := ids[0];
      assert head in ids;
      assert forall id :: id in ids[1..] ==> id in ids;
      CandidatesOfCovered(ids[1..], history);
      assert Candidates(ids, history) == [] + Candidates(ids[1..], history);
    }
  }

  /** `selectNextExaminer`. `draw` is the random source's output. The
      result is `None` exactly when the id list is empty: there the Java code
      has already reset the history and `nextInt(0)` throws. */
  function SelectNextExaminer(s: RoundStore, code: Code, ids: seq<int>, draw: nat): (r: (Option<int>, RoundStore))
    ensures r.0.None? <==> ids == []
    ensures r.0.Some? ==> r.0.value in ids
    ensures (exists id :: id in ids && id !in ExaminerHistory(s, code)) ==>
      r.1 == s && r.0.Some? && r.0.value !in ExaminerHistory(s, code)
    ensures (forall id :: id in ids ==> id in ExaminerHistory(s, code)) ==>
      ExaminerHistory(r.1, code) == [] && code in r.1.history
      && r.1.started == s.started && r.1.submitted == s.submitted
    ensures OthersUnchanged(s, r.1, code)
  {
    var history := ExaminerHistory(s, code);
    var available := Candidates(ids, history);
    if available != [] then
      var first := available[0];
      assert first in available;
      assert first in ids && first !in history;
      (Some(available[NextInt(draw, |available|)]), s)
    else
      var s' := s.(history := s.history[code := []]);
      if ids == [] then (None, s')
      else (Some(ids[NextInt(draw, |ids|)]), s')
  }

  /** Which one is picked is left to the random source: every id that has
      not been examiner yet can come out. */
  lemma AnyCandidateCanBeSelected(s: RoundStore, code: Code, ids: seq<int>, id: int)
    requires id in ids && id !in ExaminerHistory(s, code)
    ensures exists draw: nat :: SelectNextExaminer(s, code, ids, draw).0 == Some(id)
  {
    var available := Candidates(ids, ExaminerHistory(s, code));
    assert id in available;
    var k :| 0 <= k < |available| && available[k] == id;
    assert SelectNextExaminer(s, code, ids, k).0 == Some(id);
  }

  /** After a full cycle the history is reset and any id can come out. */
  lemma AnyIdCanBeSelectedAfterReset(s: RoundStore, code: Code, ids: seq<int>, id: int)
    requires forall x :: x in ids ==> x in ExaminerHistory(s, code)
    requires id in ids
    ensures exists draw: nat :: SelectNextExaminer(s, code, ids, draw).0 == Some(id)
  {
    var k :| 0 <= k < |ids| && ids[k] == id;
    var available := Candidates(ids, ExaminerHistory(s, code));
    CandidatesOfCovered(ids, ExaminerHistory(s, code));
    assert SelectNextExaminer(s, code, ids, k).0 == Some(id);
  }

  /** One turn of the coordinator's rotation: select, then record. */
  function RotateOnce(s: RoundStore, code: Code, ids: seq<int>, draw: nat): (r: (Option<int>, RoundStore)) {
    var (pick, s1) := SelectNextExaminer(s, code, ids, draw);
    if pick.Some? then (pick, AddExaminerHistory(s1, code, pick.value)) else (pick, s1)
  }

  /** The outcome of several turns: the ids picked, in order, and the store. */
  datatype Turns = Turns(picks: seq<int>, store: RoundStore)

  /** `|draws|` turns of the rotation. */
  function Rotate(s: RoundStore, code: Code, ids: seq<int>, draws: seq<nat>): (r: Turns)
    requires ids != []
    ensures |r.picks| == |draws|
    decreases |draws|
  {
    if draws == [] then Turns([], s)
    else
      var one := RotateOnce(s, code, ids, draws[0]);
      var rest := Rotate(one.1, code, ids, draws[1..]);
      Turns([one.0.value] + rest.picks, rest.store)
  }

  lemma {:induction false} DistinctCard(xs: seq<int>)
    requires NoDup(xs)
    ensures |set x | x in xs| == |xs|
  {
    if xs != [] {
      var tail := xs[1..];
      DistinctCard(tail);
      assert (set x | x in xs) == {xs[0]} + (set x | x in tail);
      assert xs[0] !in (set x | x in tail);
    }
  }

  lemma SubsetCard(a: set<int>, b: set<int>)
    requires a <= b
    ensures |a| <= |b|
  {
    assert b == a + (b - a);
  }

  /** Pigeonhole: a duplicate-free list of ids all contained in a shorter
      list cannot exist. */
  lemma CoveredIsNotLonger(ids: seq<int>, history: seq<int>)
    requires NoDup(ids) && NoDup(history)
    requires forall id :: id in ids ==> id in history
    ensures |ids| <= |history|
  {
    DistinctCard(ids);
    DistinctCard(history);
    SubsetCard(set x | x in ids, set x | x in history);
  }

  lemma NoDupSnoc(h: seq<int>, v: int)
    requires NoDup(h) && v !in h
    ensures NoDup(h + [v])
  {
    forall i, j | 0 <= i < j < |h + [v]|
      ensures (h + [v])[i] != (h + [v])[j]
    {
      if j == |h| {
        assert (h + [v])[i] == h[i];
        assert h[i] in h;
      }
    }
  }

  /** One turn while some id has not been examiner: the pick is fresh and is
      appended to the history. */
  lemma RotateOnceFresh(s: RoundStore, code: Code, ids: seq<int>, draw: nat)
    requires ids != [] && NoDup(ids)
    requires NoDup(ExaminerHistory(s, code))
    requires forall id :: id in ExaminerHistory(s, code) ==> id in ids
    requires |ExaminerHistory(s, code)| < |ids|
    ensures var one := RotateOnce(s, code, ids, draw);
      && one.0.Some? && one.0.value in ids && one.0.value !in ExaminerHistory(s, code)
      && ExaminerHistory(one.1, code) == ExaminerHistory(s, code) + [one.0.value]
      && NoDup(ExaminerHistory(one.1, code))
  {
    var history := ExaminerHistory(s, code);
    if forall id :: id in ids ==> id in history {
      CoveredIsNotLonger(ids, history);
      assert false;
    }
    var one := RotateOnce(s, code, ids, draw);
    NoDupSnoc(history, one.0.value);
  }

  /** `Rotate` on a non-empty list of draws: one turn, then the rest. */
  lemma RotateStep(s: RoundStore, code: Code, ids: seq<int>, draws: seq<nat>)
    requires ids != [] && draws != []
    ensures var one := RotateOnce(s, code, ids, draws[0]);
      var rest := Rotate(one.1, code, ids, draws[1..]);
      Rotate(s, code, ids, draws) == Turns([one.0.value] + rest.picks, rest.store)
  {
  }

  lemma PrependPick(history: seq<int>, v: int, picks: seq<int>, ids: seq<int>)
    requires v in ids && forall id :: id in picks ==> id in ids
    ensures (history + [v]) + picks == history + ([v] + picks)
    ensures forall id :: id in [v] + picks ==> id in ids
  {
  }

  /** The rotation never repeats an id before the cycle is complete: starting
      from a duplicate-free history drawn from `ids`, as long as the turns do
      not exceed the ids left, each turn picks a fresh id and the history is
      exactly the old history followed by the picks. */
  lemma {:induction false} RotationPicksFresh(s: RoundStore, code: Code, ids: seq<int>, draws: seq<nat>)
    requires ids != [] && NoDup(ids)
    requires NoDup(ExaminerHistory(s, code))
    requires forall id :: id in ExaminerHistory(s, code) ==> id in ids
    requires |ExaminerHistory(s, code)| + |draws| <= |ids|
    ensures var t := Rotate(s, code, ids, draws);
      && ExaminerHistory(t.store, code) == ExaminerHistory(s, code) + t.picks
      && NoDup(ExaminerHistory(t.store, code))
      && forall id :: id in t.picks ==> id in ids
    decreases |draws|
  {
    var history := ExaminerHistory(s, code);
    if draws == [] {
      assert history + [] == history;
    } else {
      RotateOnceFresh(s, code, ids, draws[0]);
      var one := RotateOnce(s, code, ids, draws[0]);
      var v := one.0.value;
      var h1 := ExaminerHistory(one.1, code);
      assert h1 == history + [v];
      assert forall id :: id in h1 ==> id in ids;
      RotationPicksFresh(one.1, code, ids, draws[1..]);
      var rest := Rotate(one.1, code, ids, draws[1..]);
      RotateStep(s, code, ids, draws);
      var t := Rotate(s, code, ids, draws);
      assert t.picks == [v] + rest.picks && t.store == rest.store;
      PrependPick(history, v, rest.picks, ids);
    }
  }

  /** Pigeonhole again: a duplicate-free list drawn from `ids` and as long
      as `ids` contains every id of it. */
  lemma FullLengthCovers(picks: seq<int>, ids: seq<int>)
    requires NoDup(picks) && NoDup(ids) && |picks| == |ids|
    requires forall x :: x in picks ==> x in ids
    ensures forall x :: x in ids ==> x in picks
  {
    forall x | x in ids
      ensures x in picks
    {
      if x !in picks {
        DistinctCard(picks);
        DistinctCard(ids);
        SubsetCard(set y | y in picks, (set y | y in ids) - {x});
        assert false;
      }
    }
  }

  /** Rotation fairness: from an empty history, as many turns as there are
      (distinct) ids pick every id exactly once. */
  lemma RotationCoversEveryIdOnce(s: RoundStore, code: Code, ids: seq<int>, draws: seq<nat>)
    requires ids != [] && NoDup(ids)
    requires ExaminerHistory(s, code) == []
    requires |draws| == |ids|
    ensures var picks := Rotate(s, code, ids, draws).picks;
      && |picks| == |ids| && NoDup(picks)
      && forall id :: id in ids <==> id in picks
  {
    RotationPicksFresh(s, code, ids, draws);
    var t := Rotate(s, code, ids, draws);
    assert [] + t.picks == t.picks;
    FullLengthCovers(t.picks, ids);
  }

}
