/**
 * `claimUnitContentMilestoneXP`: the XP a learner claims for finishing
 * every unit of one `unit_content` group of a course. The enrollment row
 * and the XP ledger are the state the claim reads and writes; the answers
 * of the completion RPC and the failures of the other database calls are
 * inputs.
 */
module UnitContentMilestone {
  import opened Wrappers
  import Lists
  import Text

  /** `UNIT_CONTENT_XP_REWARDS`: the first, second, third and every later group. */
  const Rewards: seq<nat> := [30, 50, 70, 100]

  /** The reward for the next group when `claimedCount` groups are claimed:
      the entry at `min(claimedCount, 3)`. */
  function Reward(claimedCount: nat): nat {
    Rewards[if claimedCount < |Rewards| - 1 then claimedCount else |Rewards| - 1]
  }

  /** The tiers: 30, 50 and 70 XP for the first three groups, 100 XP from
      the fourth group on. */
  lemma RewardTiers(claimedCount: nat)
    ensures claimedCount == 0 ==> Reward(claimedCount) == 30
    ensures claimedCount == 1 ==> Reward(claimedCount) == 50
    ensures claimedCount == 2 ==> Reward(claimedCount) == 70
    ensures claimedCount >= 3 <==> Reward(claimedCount) == 100
  {
  }

  /** A later group is never worth less, and no group is worth more than 100 XP. */
  lemma RewardMonotone(a: nat, b: nat)
    requires a <= b
    ensures 30 <= Reward(a) <= Reward(b) <= 100
  {
  }

  const SourceType: string := "unit_content_milestone"

  /** The ledger key of a claim: `<enrollmentId>-<unitContent>`. */
  function SourceId(enrollmentId: string, unitContent: string): string {
    enrollmentId + "-" + unitContent
  }

  /** Enrollment ids of one length (the database's UUIDs) give every
      group of every enrollment its own ledger key. */
  lemma SourceIdInjective(e1: string, u1: string, e2: string, u2: string)
    requires |e1| == |e2|
    requires SourceId(e1, u1) == SourceId(e2, u2)
    ensures e1 == e2 && u1 == u2
  {
    var k := SourceId(e1, u1);
    assert e1 == k[..|e1|] == e2;
    assert u1 == k[|e1| + 1..] == u2;
  }

  /** One row of `xp_transactions`, without its description and metadata. */
  datatype Transaction = Transaction(userId: string, amount: nat, sourceType: string, sourceId: string)

  function Matches(userId: string, sourceType: string, sourceId: string): Transaction -> bool {
    (t: Transaction) => t.userId == userId && t.sourceType == sourceType && t.sourceId == sourceId
  }

  /** `hasXPBeenAwarded`: a `.single()` read, which yields a row only when
      exactly one row matches. */
  predicate HasBeenAwarded(ledger: seq<Transaction>, userId: string, sourceType: string, sourceId: string) {
    Lists.Count(ledger, Matches(userId, sourceType, sourceId)) == 1
  }

  /** The learner's enrollment in the course: its id and the
      `unit_content_completed` column, which may be null. */
  datatype Enrollment = Enrollment(id: string, claimed: Option<seq<string>>)

  /** `claimedGroups`: the column, or the empty list for null. */
  function Claimed(e: Enrollment): seq<string> {
    e.claimed.GetOr([])
  }

  datatype State = State(enrollment: Option<Enrollment>, ledger: seq<Transaction>)

  /** A call that fails with an error message or returns data, which may be null. */
  datatype Fetch<+T> = Failed(message: string) | Fetched(data: Option<T>)

  /** The answers of the calls around the state: the error of the
      enrollment read, the completion RPC, and whether the ledger insert
      and the enrollment update fail. */
  datatype Env = Env(enrollmentError: Option<string>, groupComplete: Fetch<bool>,
                     insertFails: bool, updateFails: bool)

  datatype ClaimResult = ClaimResult(success: bool, xpAwarded: nat, message: string)

  datatype Outcome = Outcome(state: State, result: ClaimResult)

  function Refuse(s: State, message: string): Outcome {
    Outcome(s, ClaimResult(false, 0, message))
  }

  /** `claimUnitContentMilestoneXP` for the signed-in `user`. */
  function Claim(user: Option<string>, unitContent: string, s: State, env: Env): (o: Outcome)
    ensures !o.result.success ==> o.result.xpAwarded == 0 && o.state == s
    ensures o.result.success ==>
      && user.Some? && s.enrollment.Some?
      && var e := s.enrollment.value;
      && unitContent !in Claimed(e)
      && o.result.xpAwarded == Reward(|Claimed(e)|)
      && o.state.ledger == s.ledger + [Transaction(user.value, Reward(|Claimed(e)|), SourceType, SourceId(e.id, unitContent))]
      && o.state.enrollment.Some?
      && o.state.enrollment.value.id == e.id
      && Claimed(o.state.enrollment.value) == (if env.updateFails then Claimed(e) else Claimed(e) + [unitContent])
  {
    if user.None? then Refuse(s, "Нэвтрээгүй байна")
    else if env.enrollmentError.Some? then Refuse(s, "Бүртгэл олдсонгүй: " + env.enrollmentError.value)
    else if s.enrollment.None? then Refuse(s, "Бүртгэл олдсонгүй")
    else
      var e := s.enrollment.value;
      var claimed := Claimed(e);
      if unitContent in claimed then Refuse(s, "Аль хэдийн авсан")
      else
        match env.groupComplete
        case Failed(m) => Refuse(s, "Алдаа гарлаа: " + m)
        case Fetched(done) =>
          if done != Some(true) then Refuse(s, "Бүх хичээлүүдийг дуусгаагүй байна")
          else
            var xp := Reward(|claimed|);
            var sourceId := SourceId(e.id, unitContent);
            if HasBeenAwarded(s.ledger, user.value, SourceType, sourceId) then Refuse(s, "Аль хэдийн авсан")
            else if env.insertFails then Refuse(s, "XP олгоход алдаа гарлаа (insertXPTransaction failed)")
            else
              var ledger := s.ledger + [Transaction(user.value, xp, SourceType, sourceId)];
              // A failed update is logged and the claim still succeeds.
              var enrollment := if env.updateFails then e else e.(claimed := Some(claimed + [unitContent]));
              Outcome(State(Some(enrollment), ledger), ClaimResult(true, xp, Text.NatToString(xp) + " XP авлаа!"))
  }

  /** Exactly when a claim pays: a signed-in learner with an enrollment, a
      group not yet claimed and reported complete, no ledger row for it,
      and a ledger insert that goes through. */
  lemma ClaimSucceedsIff(user: Option<string>, unitContent: string, s: State, env: Env)
    ensures Claim(user, unitContent, s, env).result.success <==>
      && user.Some? && env.enrollmentError.None? && s.enrollment.Some?
      && unitContent !in Claimed(s.enrollment.value)
      && env.groupComplete == Fetched(Some(true))
      && !HasBeenAwarded(s.ledger, user.value, SourceType, SourceId(s.enrollment.value.id, unitContent))
      && !env.insertFails
  {
  }

  /** A group already on the claimed list is refused as already claimed,
      whatever the rest of the world says. */
  lemma AlreadyClaimedRefused(user: string, unitContent: string, s: State, env: Env)
    requires env.enrollmentError.None? && s.enrollment.Some?
    requires unitContent in Claimed(s.enrollment.value)
    ensures Claim(Some(user), unitContent, s, env) == Refuse(s, "Аль хэдийн авсан")
  {
  }

  /** A group the RPC does not report complete is refused. */
  lemma IncompleteRefused(user: string, unitContent: string, s: State, env: Env)
    requires env.enrollmentError.None? && s.enrollment.Some?
    requires unitContent !in Claimed(s.enrollment.value)
    requires env.groupComplete.Fetched? && env.groupComplete.data != Some(true)
    ensures Claim(Some(user), unitContent, s, env) == Refuse(s, "Бүх хичээлүүдийг дуусгаагүй байна")
  {
  }

  /** Appending one transaction adds one to the count of the rows it matches. */
  lemma CountPush(ledger: seq<Transaction>, t: Transaction, p: Transaction -> bool)
    ensures Lists.Count(ledger + [t], p) == Lists.Count(ledger, p) + (if p(t) then 1 else 0)
  {
    Lists.CountAppend(ledger, [t], p);
    Lists.CountSingle(t, p);
  }

  /** Claims keep the ledger free of duplicate rows: a key with at most one
      row before has at most one after. */
  lemma ClaimKeepsRowsSingle(user: Option<string>, unitContent: string, s: State, env: Env,
                             userId: string, sourceType: string, sourceId: string)
    requires Lists.Count(s.ledger, Matches(userId, sourceType, sourceId)) <= 1
    ensures Lists.Count(Claim(user, unitContent, s, env).state.ledger, Matches(userId, sourceType, sourceId)) <= 1
  {
    var o := Claim(user, unitContent, s, env);
    if o.result.success {
      var e := s.enrollment.value;
      var t := Transaction(user.value, Reward(|Claimed(e)|), SourceType, SourceId(e.id, unitContent));
      ClaimSucceedsIff(user, unitContent, s, env);
      CountPush(s.ledger, t, Matches(userId, sourceType, sourceId));
    }
  }

  /** A group pays at most once: after a successful claim, claiming the
      same group again is refused with no XP and records nothing, even
      when the enrollment update of the first claim failed, provided the
      ledger held at most one row for the group to begin with. */
  lemma ClaimAtMostOnce(user: Option<string>, unitContent: string, s: State, first: Env, second: Env)
    requires s.enrollment.Some? && user.Some?
    requires Lists.Count(s.ledger, Matches(user.value, SourceType, SourceId(s.enrollment.value.id, unitContent))) <= 1
    requires Claim(user, unitContent, s, first).result.success
    ensures var s' := Claim(user, unitContent, s, first).state;
      && !Claim(user, unitContent, s', second).result.success
      && Claim(user, unitContent, s', second).state == s'
  {
    var e := s.enrollment.value;
    var p := Matches(user.value, SourceType, SourceId(e.id, unitContent));
    var t := Transaction(user.value, Reward(|Claimed(e)|), SourceType, SourceId(e.id, unitContent));
    var s' := Claim(user, unitContent, s, first).state;
    ClaimSucceedsIff(user, unitContent, s, first);
    CountPush(s.ledger, t, p);
    assert p(t);
    assert HasBeenAwarded(s'.ledger, user.value, SourceType, SourceId(s'.enrollment.value.id, unitContent));
    ClaimSucceedsIff(user, unitContent, s', second);
  }
}
