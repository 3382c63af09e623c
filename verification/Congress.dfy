/**
 The capped reduction of a congress vote and the policies it is registered under
 (crates/fa-reference/src/reducer.rs, crates/fa-reference/src/round/review.rs): member
 weights are clipped, over-cap cohorts are scaled down proportionally, and what is left
 is added up for and against.
 */
module Congress {
  import Andon
  import opened Bytes
  import opened FramedLog
  import opened Order

  datatype Caps = Caps(perMember: U64, perCohort: U64)
  datatype Member = Member(cohort: Utf8, weight: U64)
  datatype Requirements = Requirements(
    caps: Caps, minPermitWeight: U64, maxHoldWeight: U64, minPermitCohorts: nat)
  datatype Policy = Policy(members: map<Utf8, Member>, requirements: Requirements)
  datatype Tally = Tally(permit: U64, hold: U64)

  // ---- sums over members ---------------------------------------------------------------

  function Sum(names: seq<Utf8>, weights: map<Utf8, nat>): nat
    requires forall n :: n in names ==> n in weights
  {
    if names == [] then 0 else weights[names[0]] + Sum(names[1..], weights)
  }

  function Over(weights: map<Utf8, nat>): nat {
    NameBeforeIsTotal();
    Sum(Ascending(NameBefore, weights.Keys), weights)
  }

  lemma {:induction false} SumAdds(
    names: seq<Utf8>, whole: map<Utf8, nat>, a: map<Utf8, nat>, b: map<Utf8, nat>)
    requires forall n :: n in names ==> n in whole && n in a && n in b && whole[n] == a[n] + b[n]
    ensures Sum(names, whole) == Sum(names, a) + Sum(names, b)
  {
    if names == [] {
    } else {
      SumAdds(names[1..], whole, a, b);
    }
  }

  lemma OverAdds(whole: map<Utf8, nat>, a: map<Utf8, nat>, b: map<Utf8, nat>)
    requires whole.Keys == a.Keys == b.Keys && forall n :: n in whole ==> whole[n] == a[n] + b[n]
    ensures Over(whole) == Over(a) + Over(b)
  {
    NameBeforeIsTotal();
    SumAdds(Ascending(NameBefore, whole.Keys), whole, a, b);
  }

  // Pointwise parts of at most c / s leave at most c / s of the whole.
  lemma {:induction false} SumScales(
    names: seq<Utf8>, parts: map<Utf8, nat>, weights: map<Utf8, nat>, c: nat, s: nat)
    requires forall n :: n in names ==> n in parts && n in weights && parts[n] * s <= weights[n] * c
    ensures Sum(names, parts) * s <= Sum(names, weights) * c
  {
    if names == [] {
    } else {
      SumScales(names[1..], parts, weights, c, s);
      Distribute(parts[names[0]], Sum(names[1..], parts), s);
      Distribute(weights[names[0]], Sum(names[1..], weights), c);
      assert names[0] in names;
    }
  }

  lemma Distribute(a: nat, b: nat, c: nat)
    ensures (a + b) * c == a * c + b * c
  {
  }

  // ---- the reduction -------------------------------------------------------------------

  function Clip(member: Member, caps: Caps): nat {
    Min(member.weight, caps.perMember)
  }

  // The clipped weights of one cohort.
  function Clips(members: map<Utf8, Member>, caps: Caps, cohort: Utf8): map<Utf8, nat> {
    map n | n in members :: if members[n].cohort == cohort then Clip(members[n], caps) else 0
  }

  function Share(weight: nat, cohortSum: nat, cap: nat): nat {
    if cohortSum > cap then weight * cap / cohortSum else weight
  }

  function Admitted(members: map<Utf8, Member>, caps: Caps): map<Utf8, nat> {
    map n | n in members ::
      Share(Clip(members[n], caps), Over(Clips(members, caps, members[n].cohort)), caps.perCohort)
  }

  function Among(weights: map<Utf8, nat>, who: set<Utf8>): map<Utf8, nat> {
    map n | n in weights :: if n in who then weights[n] else 0
  }

  function Cohort(members: map<Utf8, Member>, cohort: Utf8): set<Utf8> {
    set n | n in members && members[n].cohort == cohort
  }

  // Every member votes: those in `permits` for, the others against. Only the two tallies
  // can overflow.
  function Reduce(members: map<Utf8, Member>, caps: Caps, permits: set<Utf8>): Result<Tally, ModelError> {
    var admitted := Admitted(members, caps);
    var permit, hold := Over(Among(admitted, permits)), Over(Among(admitted, members.Keys - permits));
    if permit > U64_MAX || hold > U64_MAX then Err(Overflow) else Ok(Tally(permit, hold))
  }

  // The cohorts with some admitted weight among these members.
  function Cohorts(members: map<Utf8, Member>, caps: Caps, who: set<Utf8>): set<Utf8> {
    var admitted := Admitted(members, caps);
    set n | n in members && n in who && admitted[n] > 0 :: members[n].cohort
  }

  // `ReviewPolicy::new`: a policy it accepts can be met, and its tallies fit their words.
  predicate Admissible(policy: Policy) {
    var members, needs := policy.members, policy.requirements;
    && 0 < |members| <= Andon.MAX_VOTES
    && needs.caps.perMember > 0 && needs.caps.perCohort > 0
    && needs.minPermitWeight > 0 && needs.minPermitCohorts > 0
    && (forall n :: n in members ==>
      && 0 < |n| <= Andon.MAX_IDENTIFIER_BYTES && 0 < |members[n].cohort| <= Andon.MAX_IDENTIFIER_BYTES)
    && var all := Reduce(members, needs.caps, members.Keys);
    && all.Ok?
    && needs.minPermitWeight <= all.value.permit
    && needs.minPermitCohorts <= |Cohorts(members, needs.caps, members.Keys)|
  }

  // ---- what the caps guarantee ---------------------------------------------------------

  lemma ShareBounds(weight: nat, cohortSum: nat, cap: nat)
    requires weight <= cohortSum
    ensures Share(weight, cohortSum, cap) <= weight
    ensures cohortSum > cap ==> Share(weight, cohortSum, cap) * cohortSum <= weight * cap
  {
    if cohortSum > cap {
      var v := weight * cap;
      Quotient(v, cohortSum);
      assert v <= weight * cohortSum;
      Cancel(v / cohortSum, weight, cohortSum);
    }
  }

  lemma Quotient(a: nat, b: nat)
    requires b > 0
    ensures a / b * b <= a
  {
    assert a == a / b * b + a % b;
  }

  lemma {:induction false} PartOfSum(names: seq<Utf8>, weights: map<Utf8, nat>, n: Utf8)
    requires (forall m :: m in names ==> m in weights) && n in names
    ensures weights[n] <= Sum(names, weights)
  {
    if names[0] == n {
    } else {
      assert n in names[1..];
      PartOfSum(names[1..], weights, n);
    }
  }

  lemma ClipIsInCohort(members: map<Utf8, Member>, caps: Caps, n: Utf8)
    requires n in members
    ensures Clip(members[n], caps) <= Over(Clips(members, caps, members[n].cohort))
  {
    NameBeforeIsTotal();
    var clips := Clips(members, caps, members[n].cohort);
    PartOfSum(Ascending(NameBefore, clips.Keys), clips, n);
  }

  // No member has more influence than its weight or the member cap.
  lemma MemberCapHolds(members: map<Utf8, Member>, caps: Caps, n: Utf8)
    requires n in members
    ensures Admitted(members, caps)[n] <= members[n].weight
    ensures Admitted(members, caps)[n] <= caps.perMember
  {
    hide Over, Share;
    ClipIsInCohort(members, caps, n);
    ShareBounds(Clip(members[n], caps), Over(Clips(members, caps, members[n].cohort)), caps.perCohort);
  }

  // No cohort has more influence than the cohort cap, however the floors fall.
  lemma CohortCapHolds(members: map<Utf8, Member>, caps: Caps, cohort: Utf8)
    ensures Over(Among(Admitted(members, caps), Cohort(members, cohort))) <= caps.perCohort
  {
    hide Over, Among, Admitted, Clips, Cohort;
    var clips, parts := Clips(members, caps, cohort), Among(Admitted(members, caps), Cohort(members, cohort));
    var s := Over(clips);
    forall n | n in members
      ensures n in parts && n in clips && parts[n] <= clips[n]
      ensures s > caps.perCohort ==> parts[n] * s <= clips[n] * caps.perCohort
    {
      PartBounds(members, caps, cohort, n);
    }
    PartKeys(members, caps, cohort);
    if s > caps.perCohort {
      OverScales(parts, clips, caps.perCohort, s);
      Cancel(Over(parts), caps.perCohort, s);
    } else {
      OverScales(parts, clips, 1, 1);
    }
  }

  lemma PartKeys(members: map<Utf8, Member>, caps: Caps, cohort: Utf8)
    ensures Among(Admitted(members, caps), Cohort(members, cohort)).Keys == members.Keys
    ensures Clips(members, caps, cohort).Keys == members.Keys
  {
    hide Over;
  }

  lemma PartBounds(members: map<Utf8, Member>, caps: Caps, cohort: Utf8, n: Utf8)
    requires n in members
    ensures
      var clips, parts := Clips(members, caps, cohort), Among(Admitted(members, caps), Cohort(members, cohort));
      && n in parts && n in clips && parts[n] <= clips[n]
      && (Over(clips) > caps.perCohort ==> parts[n] * Over(clips) <= clips[n] * caps.perCohort)
  {
    hide Over, Share, Clip;
    if members[n].cohort == cohort {
      ClipIsInCohort(members, caps, n);
      ShareBounds(Clip(members[n], caps), Over(Clips(members, caps, cohort)), caps.perCohort);
    }
  }

  lemma OverScales(parts: map<Utf8, nat>, weights: map<Utf8, nat>, c: nat, s: nat)
    requires parts.Keys == weights.Keys && forall n :: n in weights ==> parts[n] * s <= weights[n] * c
    ensures Over(parts) * s <= Over(weights) * c
  {
    hide Ascending, StrictTotal;
    NameBeforeIsTotal();
    SumScales(Ascending(NameBefore, weights.Keys), parts, weights, c, s);
  }

  lemma Cancel(a: nat, b: nat, s: nat)
    requires s > 0 && a * s <= s * b
    ensures a <= b
  {
    Distribute(b, 1, s);
    assert a >= b + 1 ==> a * s >= (b + 1) * s;
  }

  // Admitted influence does not depend on how anyone votes.
  lemma VotesSplitTheWhole(members: map<Utf8, Member>, caps: Caps, permits: set<Utf8>)
    ensures Over(Among(Admitted(members, caps), permits)) + Over(Among(Admitted(members, caps), members.Keys - permits))
      == Over(Admitted(members, caps))
  {
    hide Over, Admitted;
    var admitted := Admitted(members, caps);
    assert admitted.Keys == members.Keys by { AdmittedKeys(members, caps); }
    OverAdds(admitted, Among(admitted, permits), Among(admitted, members.Keys - permits));
  }

  lemma AdmittedKeys(members: map<Utf8, Member>, caps: Caps)
    ensures Admitted(members, caps).Keys == members.Keys
  {
  }

  lemma AllPermitsAreTheWhole(members: map<Utf8, Member>, caps: Caps)
    ensures Among(Admitted(members, caps), members.Keys) == Admitted(members, caps)
    ensures Over(Among(Admitted(members, caps), members.Keys - members.Keys)) == 0
  {
    hide Over, Admitted, Among;
    AdmittedKeys(members, caps);
    AmongAll(Admitted(members, caps));
    VotesSplitTheWhole(members, caps, members.Keys);
  }

  lemma AmongAll(weights: map<Utf8, nat>)
    ensures Among(weights, weights.Keys) == weights
  {
  }

  // So no vote under an admissible policy can overflow a tally, and for and against
  // together make up the whole admitted influence.
  lemma AdmissibleNeverOverflows(policy: Policy, permits: set<Utf8>)
    requires Admissible(policy)
    ensures
      var caps := policy.requirements.caps;
      var vote, all := Reduce(policy.members, caps, permits), Reduce(policy.members, caps, policy.members.Keys);
      vote.Ok? && all.Ok? && vote.value.permit + vote.value.hold == all.value.permit
  {
    hide Over, Admitted, Cohorts, Among;
    VotesSplitTheWhole(policy.members, policy.requirements.caps, permits);
    AllPermitsAreTheWhole(policy.members, policy.requirements.caps);
  }

  // ---- what the caps leave --------------------------------------------------------------------

  // A member's share, from both sides: its clipped weight, or with an over-cap cohort the
  // cap's fraction of it rounded down.
  lemma ShareIsExact(members: map<Utf8, Member>, caps: Caps, n: Utf8)
    requires n in members
    ensures
      var clipped, s := Min(members[n].weight, caps.perMember), Over(Clips(members, caps, members[n].cohort));
      var share := Admitted(members, caps)[n];
      if s <= caps.perCohort then share == clipped
      else share * s <= clipped * caps.perCohort < (share + 1) * s
  {
    hide Over;
    var s := Over(Clips(members, caps, members[n].cohort));
    if s > caps.perCohort {
      RoundsDown(Clip(members[n], caps) * caps.perCohort, s);
    }
  }

  lemma RoundsDown(a: nat, b: nat)
    requires b > 0
    ensures a / b * b <= a < (a / b + 1) * b
  {
    Distribute(a / b, 1, b);
    assert a == a / b * b + a % b;
  }

  lemma {:induction false} SumLoses(
    names: seq<Utf8>, weights: map<Utf8, nat>, parts: map<Utf8, nat>, ones: map<Utf8, nat>, c: nat, s: nat)
    requires s > 0
    requires forall n :: n in names ==>
      n in weights && n in parts && n in ones && weights[n] * c <= parts[n] * s + ones[n] * (s - 1)
    ensures Sum(names, weights) * c <= Sum(names, parts) * s + Sum(names, ones) * (s - 1)
  {
    if names == [] {
    } else {
      SumLoses(names[1..], weights, parts, ones, c, s);
      Distribute(weights[names[0]], Sum(names[1..], weights), c);
      Distribute(parts[names[0]], Sum(names[1..], parts), s);
      Distribute(ones[names[0]], Sum(names[1..], ones), s - 1);
      assert names[0] in names;
    }
  }

  function Ones(members: map<Utf8, Member>, who: set<Utf8>): map<Utf8, nat> {
    map n | n in members :: if n in who then 1 else 0
  }

  lemma {:induction false} SumCounts(names: seq<Utf8>, members: map<Utf8, Member>, who: set<Utf8>)
    requires Distinct(names) && forall n :: n in names ==> n in members
    ensures Sum(names, Ones(members, who)) == |Picked(names, who)|
  {
    hide Picked, Ones;
    if names == [] {
      NonePicked(who);
    } else {
      SumCounts(names[1..], members, who);
      OnePicked(names, who);
      OneEntry(members, who, names[0]);
    }
  }

  function Picked(names: seq<Utf8>, who: set<Utf8>): set<Utf8> {
    set n | n in names && n in who
  }

  lemma NonePicked(who: set<Utf8>)
    ensures Picked([], who) == {}
  {
  }

  lemma OnePicked(names: seq<Utf8>, who: set<Utf8>)
    requires names != [] && Distinct(names)
    ensures |Picked(names, who)| == |Picked(names[1..], who)| + if names[0] in who then 1 else 0
  {
    var rest := Picked(names[1..], who);
    assert names == [names[0]] + names[1..];
    assert names[0] !in names[1..];
    assert Picked(names, who) == if names[0] in who then rest + {names[0]} else rest;
  }

  lemma OnesCount(members: map<Utf8, Member>, who: set<Utf8>)
    requires who <= members.Keys
    ensures Over(Ones(members, who)) == |who|
  {
    hide Ascending, StrictTotal, Increasing, NameBefore;
    NameBeforeIsTotal();
    var names := Ascending(NameBefore, members.Keys);
    IncreasingIsDistinct(NameBefore, names);
    SumCounts(names, members, who);
    assert Ones(members, who).Keys == members.Keys;
    assert Picked(names, who) == who;
  }

  lemma LossBounds(members: map<Utf8, Member>, caps: Caps, cohort: Utf8, n: Utf8)
    requires n in members && Over(Clips(members, caps, cohort)) > caps.perCohort
    ensures
      var clips, parts := Clips(members, caps, cohort), Among(Admitted(members, caps), Cohort(members, cohort));
      var s, ones := Over(clips), Ones(members, Cohort(members, cohort));
      && n in clips && n in parts && n in ones
      && clips[n] * caps.perCohort <= parts[n] * s + ones[n] * (s - 1)
  {
    hide Over, Admitted, Among, Clips, Cohort, Ones;
    AdmittedKeys(members, caps);
    ClipEntry(members, caps, cohort, n);
    CohortEntry(members, cohort, n);
    AmongEntry(Admitted(members, caps), Cohort(members, cohort), n);
    OneEntry(members, Cohort(members, cohort), n);
    if members[n].cohort == cohort {
      ShareIsExact(members, caps, n);
      Distribute(Admitted(members, caps)[n], 1, Over(Clips(members, caps, cohort)));
    }
  }

  // The entries of the maps summed over a cohort.
  lemma ClipEntry(members: map<Utf8, Member>, caps: Caps, cohort: Utf8, n: Utf8)
    requires n in members
    ensures n in Clips(members, caps, cohort)
    ensures Clips(members, caps, cohort)[n] ==
      if members[n].cohort == cohort then Min(members[n].weight, caps.perMember) else 0
  {
  }

  lemma AmongEntry(weights: map<Utf8, nat>, who: set<Utf8>, n: Utf8)
    requires n in weights
    ensures n in Among(weights, who) && Among(weights, who)[n] == if n in who then weights[n] else 0
  {
  }

  lemma OneEntry(members: map<Utf8, Member>, who: set<Utf8>, n: Utf8)
    requires n in members
    ensures n in Ones(members, who) && Ones(members, who)[n] == if n in who then 1 else 0
  {
  }

  lemma CohortEntry(members: map<Utf8, Member>, cohort: Utf8, n: Utf8)
    requires n in members
    ensures n in Cohort(members, cohort) <==> members[n].cohort == cohort
  {
  }

  // Rounding loses less than one unit per member: an over-cap cohort keeps more than the
  // cap less its member count, any other cohort keeps all its clipped weight.
  lemma CohortKeeps(members: map<Utf8, Member>, caps: Caps, cohort: Utf8)
    ensures
      var kept := Over(Among(Admitted(members, caps), Cohort(members, cohort)));
      var asked := Over(Clips(members, caps, cohort));
      if asked <= caps.perCohort then kept == asked else kept + |Cohort(members, cohort)| > caps.perCohort
  {
    hide Over, Admitted, Among, Clips, Cohort, Ones;
    var clips, parts := Clips(members, caps, cohort), Among(Admitted(members, caps), Cohort(members, cohort));
    var s, ones := Over(clips), Ones(members, Cohort(members, cohort));
    PartKeys(members, caps, cohort);
    CohortIsOfMembers(members, cohort);
    if s > caps.perCohort {
      forall n | n in members
        ensures n in clips && n in parts && n in ones
        ensures clips[n] * caps.perCohort <= parts[n] * s + ones[n] * (s - 1)
      {
        LossBounds(members, caps, cohort, n);
      }
      OverLoses(members, clips, parts, ones, caps.perCohort, s);
      OnesCount(members, Cohort(members, cohort));
      SomeoneAsks(members, caps, cohort);
      KeepsMost(Over(parts), |Cohort(members, cohort)|, caps.perCohort, s);
    } else {
      forall n | n in members ensures parts[n] == clips[n] {
        UncappedKeeps(members, caps, cohort, n);
      }
      assert parts == clips;
    }
  }

  lemma SomeoneAsks(members: map<Utf8, Member>, caps: Caps, cohort: Utf8)
    requires Over(Clips(members, caps, cohort)) > 0
    ensures Cohort(members, cohort) != {}
  {
    hide Ascending, StrictTotal, Clip;
    NameBeforeIsTotal();
    var clips := Clips(members, caps, cohort);
    PositiveSum(Ascending(NameBefore, clips.Keys), clips);
    var n :| n in clips && clips[n] > 0;
    assert n in Cohort(members, cohort);
  }

  lemma CohortIsOfMembers(members: map<Utf8, Member>, cohort: Utf8)
    ensures Cohort(members, cohort) <= members.Keys
    ensures Ones(members, Cohort(members, cohort)).Keys == members.Keys
  {
  }

  lemma UncappedKeeps(members: map<Utf8, Member>, caps: Caps, cohort: Utf8, n: Utf8)
    requires n in members && Over(Clips(members, caps, cohort)) <= caps.perCohort
    ensures
      var clips, parts := Clips(members, caps, cohort), Among(Admitted(members, caps), Cohort(members, cohort));
      n in clips && n in parts && parts[n] == clips[n]
  {
    hide Over;
  }

  lemma OverLoses(
    members: map<Utf8, Member>, weights: map<Utf8, nat>, parts: map<Utf8, nat>, ones: map<Utf8, nat>, c: nat, s: nat)
    requires s > 0 && weights.Keys == parts.Keys == ones.Keys == members.Keys
    requires forall n :: n in members ==> weights[n] * c <= parts[n] * s + ones[n] * (s - 1)
    ensures Over(weights) * c <= Over(parts) * s + Over(ones) * (s - 1)
  {
    hide Ascending, StrictTotal;
    NameBeforeIsTotal();
    SumLoses(Ascending(NameBefore, members.Keys), weights, parts, ones, c, s);
  }

  lemma KeepsMost(kept: nat, count: nat, c: nat, s: nat)
    requires s > c && count > 0 && s * c <= kept * s + count * (s - 1)
    ensures kept + count > c
  {
    Distribute(kept, count, s);
    Distribute(count, 1, s);
    assert count * (s - 1) == count * s - count;
    assert kept + count <= c ==> (kept + count) * s <= c * s;
  }

  // ---- which cohorts count --------------------------------------------------------------------

  lemma {:induction false} PositiveSum(names: seq<Utf8>, weights: map<Utf8, nat>)
    requires forall n :: n in names ==> n in weights
    ensures Sum(names, weights) > 0 <==> exists n :: n in names && weights[n] > 0
  {
    if names == [] {
    } else {
      PositiveSum(names[1..], weights);
      assert forall n :: n in names <==> n == names[0] || n in names[1..];
    }
  }

  // A cohort counts for these members iff they bring it some admitted weight.
  lemma CountsIff(members: map<Utf8, Member>, caps: Caps, who: set<Utf8>, cohort: Utf8)
    ensures cohort in Cohorts(members, caps, who) <==>
      Over(Among(Admitted(members, caps), Cohort(members, cohort) * who)) > 0
  {
    hide Admitted, Ascending, StrictTotal;
    AdmittedKeys(members, caps);
    NameBeforeIsTotal();
    var weights := Among(Admitted(members, caps), Cohort(members, cohort) * who);
    assert weights.Keys == members.Keys;
    PositiveSum(Ascending(NameBefore, members.Keys), weights);
  }
}
