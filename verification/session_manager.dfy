/** The per-room connection registry (`WebSocketSessionManager`): a map from
    room code to the set of sessions in it. A `CopyOnWriteArraySet` iterates
    in insertion order, so each set is a duplicate-free sequence. The
    coordinator keeps two of these registries, one for lobby connections and
    one for game connections. */
module Sessions {
  import opened Common

  type Code = string

  type Registry<S> = map<Code, seq<S>>

  /** No room maps to an empty set, and no set holds a session twice. */
  predicate Valid<S(==)>(reg: Registry<S>) {
    forall c :: c in reg ==> reg[c] != [] && NoDup(reg[c])
  }

  /** `getSessionsByRoom`: an unknown room reads as the empty set. */
  function SessionsOf<S>(reg: Registry<S>, code: Code): seq<S> {
    if code in reg then reg[code] else []
  }

  /** Every room other than `code` keeps exactly the entry it had. */
  predicate SameElsewhere<S(==)>(reg: Registry<S>, reg': Registry<S>, code: Code) {
    && reg'.Keys - {code} == reg.Keys - {code}
    && forall c :: c in reg && c != code ==> c in reg' && reg'[c] == reg[c]
  }

  /** `addSession`: create the room's set if absent, then add. */
  function AddSession<S(==)>(reg: Registry<S>, code: Code, s: S): (r: Registry<S>)
    ensures s in SessionsOf(r, code)
    ensures s in SessionsOf(reg, code) ==> r == reg
    ensures s !in SessionsOf(reg, code) ==> SessionsOf(r, code) == SessionsOf(reg, code) + [s]
    ensures code in r && SameElsewhere(reg, r, code)
    ensures Valid(reg) ==> Valid(r)
  {
    var current := SessionsOf(reg, code);
    if s in current then reg
    else
      var added := current + [s];
      assert Valid(reg) ==> NoDup(added) by {
        if Valid(reg) {
          forall i, j | 0 <= i < j < |added|
            ensures added[i] != added[j]
          {
            if j == |current| {
              var x := current[i];
              assert x in current;
            }
          }
        }
      }
      reg[code := added]
  }

  /** Adding the same session twice is the same as adding it once. */
  lemma AddSessionIdempotent<S>(reg: Registry<S>, code: Code, s: S)
    ensures AddSession(AddSession(reg, code, s), code, s) == AddSession(reg, code, s)
  {
  }

  /** The set without `s`, in the same order. */
  function Without<S(==,!new)>(xs: seq<S>, s: S): (r: seq<S>)
    ensures forall x :: x in r <==> x in xs && x != s
    ensures NoDup(xs) ==> NoDup(r)
    ensures s !in xs ==> r == xs
    ensures |r| <= |xs|
  {
    if xs == [] then []
    else
      var rest := Without(xs[1..], s);
      assert NoDup(xs) ==> NoDup(xs[1..]);
      if xs[0] == s then rest
      else
        var head := xs[0];
        assert NoDup(xs) ==> head !in xs[1..] by {
          if NoDup(xs) {
            forall k | 0 <= k < |xs[1..]|
              ensures xs[1..][k] != head
            {
              assert xs[1..][k] == xs[k + 1];
            }
          }
        }
        [head] + rest
  }

  /** `removeSession`: a no-op for an unknown room; otherwise the session
      leaves the room's set and, if the set becomes empty, the room's entry
      is dropped. */
  function RemoveSession<S(==,!new)>(reg: Registry<S>, code: Code, s: S): (r: Registry<S>)
    ensures code !in reg ==> r == reg
    ensures s !in SessionsOf(r, code)
    ensures forall x :: x in SessionsOf(r, code) <==> x in SessionsOf(reg, code) && x != s
    ensures code in reg && SessionsOf(r, code) == [] ==> code !in r
    ensures SameElsewhere(reg, r, code)
    ensures Valid(reg) ==> Valid(r)
  {
    if code !in reg then reg
    else
      var rest := Without(reg[code], s);
      if rest == [] then reg - {code} else reg[code := rest]
  }

  /** Round trip: removing a session that was just added to a room it was
      not in restores the registry exactly. */
  lemma RemoveUndoesAdd<S(!new)>(reg: Registry<S>, code: Code, s: S)
    requires Valid(reg) && s !in SessionsOf(reg, code)
    ensures RemoveSession(AddSession(reg, code, s), code, s) == reg
  {
    var current := SessionsOf(reg, code);
    WithoutLast(current, s);
    if code !in reg {
      assert current + [s] == [s];
      assert AddSession(reg, code, s) == reg[code := [s]];
      assert reg[code := [s]] - {code} == reg;
    } else {
      assert reg[code := reg[code]] == reg;
    }
  }

  lemma {:induction false} WithoutLast<S(!new)>(xs: seq<S>, s: S)
    requires s !in xs
    ensures Without(xs + [s], s) == xs
  {
    if xs == [] {
      assert [] + [s] == [s];
      assert Without([s], s) == Without([s][1..], s);
    } else {
      assert (xs + [s])[1..] == xs[1..] + [s];
      var tail := xs[1..];
      assert forall x :: x in tail ==> x in xs;
      WithoutLast(tail, s);
      assert xs == [xs[0]] + tail;
    }
  }

  /** The room order a `ConcurrentHashMap` iteration visits: any sequence
      that lists every room of the registry. */
  predicate Covers<S>(order: seq<Code>, reg: Registry<S>) {
    forall c :: c in reg ==> c in order
  }

  /** `getRoomCodeBySession`: the first room, in iteration order, whose set
      contains the session; `None` for the Java `null`. */
  function RoomCodeOf<S(==)>(reg: Registry<S>, s: S, order: seq<Code>): (r: Option<Code>)
    requires Covers(order, reg)
    ensures r.Some? ==> r.value in reg && s in reg[r.value]
    ensures r.None? <==> forall c :: c in reg ==> s !in reg[c]
  {
    var found := FindFirst(order, c => c in reg && s in reg[c]);
    if found.None? then
      assert forall c :: c in reg ==> s !in reg[c] by {
        forall c | c in reg
          ensures s !in reg[c]
        {
          assert c in order;
        }
      }
      found
    else found
  }

  /** Which room is reported is left to the map's iteration order: every
      room that holds the session can come first. */
  lemma AnyContainingRoomCanBeReported<S>(reg: Registry<S>, s: S, code: Code, order: seq<Code>)
    requires Covers(order, reg)
    requires code in reg && s in reg[code]
    ensures Covers([code] + order, reg)
    ensures RoomCodeOf(reg, s, [code] + order) == Some(code)
  {
    assert ([code] + order)[0] == code;
  }
}
