/** The user record (`User`) with its experience/level rule, and sign-up
    (`SignUpService.execute`) over an in-memory user table. */
module Users {
  import opened Common
  import opened Errors

  /** A row of `tbl_user`. `xp` is the Java `Integer bananaxp`. */
  datatype User = User(id: int, email: string, nickname: string, password: string, level: int, xp: int)

  /** Level boundaries: a user moves up one level each time xp passes one. */
  const LEVEL_STEPS: seq<int> := [10, 20, 30]

  /** `User.updateLevel`: the level for an xp total. */
  function LevelFor(xp: int): (level: int)
    ensures 1 <= level <= 4
  {
    if xp <= 10 then 1
    else if xp <= 20 then 2
    else if xp <= 30 then 3
    else 4
  }

  /** How many of the boundaries `steps` lie strictly below `xp`. */
  function StepsPassed(steps: seq<int>, xp: int): (n: nat)
    ensures n <= |steps|
  {
    if steps == [] then 0
    else (if steps[0] < xp then 1 else 0) + StepsPassed(steps[1..], xp)
  }

  /** The level is one plus the number of boundaries the xp has passed:
      an independent reading of the if-chain. */
  lemma LevelCountsStepsPassed(xp: int)
    ensures LevelFor(xp) == 1 + StepsPassed(LEVEL_STEPS, xp)
  {
    var s := LEVEL_STEPS;
    assert s[1..] == [20, 30] && s[1..][1..] == [30] && s[1..][1..][1..] == [];
    assert StepsPassed([30], xp) == (if 30 < xp then 1 else 0);
    assert StepsPassed([20, 30], xp) == (if 20 < xp then 1 else 0) + StepsPassed([30], xp);
    assert StepsPassed(s, xp) == (if 10 < xp then 1 else 0) + StepsPassed([20, 30], xp);
  }

  /** More xp never means a lower level. */
  lemma LevelMonotone(a: int, b: int)
    requires a <= b
    ensures LevelFor(a) <= LevelFor(b)
  {
  }

  /** `User.addXp`: Java `int` addition (wrapping at 2^31), then
      `updateLevel`. */
  function AddXp(u: User, reward: int): (r: User)
    requires IsInt32(u.xp) && IsInt32(reward)
    ensures r == u.(xp := r.xp, level := r.level)
    ensures IsInt32(u.xp + reward) ==> r.xp == u.xp + reward
    ensures !IsInt32(u.xp + reward) ==> r.xp == u.xp + reward - 0x1_0000_0000 || r.xp == u.xp + reward + 0x1_0000_0000
    ensures r.level == LevelFor(r.xp) && 1 <= r.level <= 4
    ensures IsInt32(r.xp)
  {
    var xp := Wrap32(u.xp + reward);
    u.(xp := xp, level := LevelFor(xp))
  }

  /** A non-negative reward that does not overflow never lowers the level of
      a user whose stored level agrees with its xp. */
  lemma AddXpNeverLowersLevel(u: User, reward: int)
    requires IsInt32(u.xp) && IsInt32(reward)
    requires 0 <= reward && u.xp + reward <= INT_MAX
    requires u.level == LevelFor(u.xp)
    ensures AddXp(u, reward).level >= u.level
    ensures AddXp(u, reward).xp == u.xp + reward
  {
    LevelMonotone(u.xp, u.xp + reward);
  }

  /** At the top of the `int` range the addition wraps and the level falls
      back to 1: the code as written has no guard against it. */
  lemma AddXpOverflowResetsLevel(u: User)
    requires u.xp == INT_MAX && u.level == 4
    ensures AddXp(u, 20).xp == INT_MIN + 19
    ensures AddXp(u, 20).level == 1
  {
  }

  /** The user table: rows by id and the next identity value. */
  datatype UserStore = UserStore(rows: map<int, User>, nextId: int)

  predicate EmailTaken(us: UserStore, email: string) {
    exists id :: id in us.rows && us.rows[id].email == email
  }

  predicate NicknameTaken(us: UserStore, nickname: string) {
    exists id :: id in us.rows && us.rows[id].nickname == nickname
  }

  /** Row keys are the rows' ids and lie below the identity counter; emails
      and nicknames are unique (the `unique = true` columns). */
  predicate Valid(us: UserStore) {
    && (forall id :: id in us.rows ==> us.rows[id].id == id && id < us.nextId)
    && (forall a, b :: a in us.rows && b in us.rows && a != b ==> us.rows[a].email != us.rows[b].email)
    && (forall a, b :: a in us.rows && b in us.rows && a != b ==> us.rows[a].nickname != us.rows[b].nickname)
  }

  datatype SignUpRequest = SignUpRequest(email: string, nickname: string, password: string)

  /** What the sign-up returns: a token issued for `subject`. */
  datatype IssuedToken = IssuedToken(subject: string)

  /** `SignUpService.execute`. `encode` is the password encoder. */
  function SignUp(us: UserStore, req: SignUpRequest, encode: string -> string): (r: Result<(UserStore, IssuedToken), ErrorCode>)
    ensures r.Failure? <==> EmailTaken(us, req.email) || NicknameTaken(us, req.nickname)
    ensures r.Failure? ==> r.error == USER_EXISTS
    ensures r.Success? ==>
      var (us', token) := r.value;
      && us'.rows.Keys == us.rows.Keys + {us.nextId}
      && (us.nextId !in us.rows ==> forall id :: id in us.rows ==> us'.rows[id] == us.rows[id])
    ensures r.Success? ==>
      var (us', token) := r.value;
      us.nextId in us'.rows &&
      var u := us'.rows[us.nextId];
      && u.email == req.email && u.nickname == req.nickname
      && u.password == encode(req.password)
      && u.xp == 0 && u.level == 1 && u.level == LevelFor(u.xp)
      && token.subject == req.email
    ensures r.Success? && Valid(us) ==> Valid(r.value.0)
  {
    if EmailTaken(us, req.email) then Failure(USER_EXISTS)
    else if NicknameTaken(us, req.nickname) then Failure(USER_EXISTS)
    else
      var u := User(us.nextId, req.email, req.nickname, encode(req.password), 1, 0);
      Success((UserStore(us.rows[us.nextId := u], us.nextId + 1), IssuedToken(req.email)))
  }
}
