/**
 When a congress review confirms a false hold (crates/fa-reference/src/round/review.rs,
 `CongressReview::evaluate` and `AndonLedger::record_review`).
 */
module AndonReview {
  import opened Andon
  import opened Bytes
  import opened Congress
  import opened FramedLog
  import opened Order

  datatype Verdict = Allow | Hold | Deny | Abstain
  datatype MemberOutcome = Missing | Revealed(verdict: Verdict)
  datatype ExactStatus = Clear | Disqualified | Unknown
  datatype Shortfall = InsufficientPermitWeight | ExcessHoldWeight | InsufficientPermitCohorts
  datatype Decision = Ready | Rejected | Unfinished | Short(why: Shortfall)

  // A policy and the transcript of its members.
  datatype Review = Review(
    policy: Policy, round: U64, evidenceRoot: seq<Byte>, revealing: bool, outcomes: map<Utf8, MemberOutcome>)

  // As constructed: under an admissible policy, with a slot for each of its members.
  predicate Opened(review: Review) {
    Admissible(review.policy) && review.outcomes.Keys == review.policy.members.Keys
  }

  function Who(review: Review, verdicts: set<Verdict>): set<Utf8> {
    set m | m in review.outcomes && review.outcomes[m].Revealed? && review.outcomes[m].verdict in verdicts
  }

  // The thresholds, in the order in which they are reported.
  function Judge(policy: Policy, permits: set<Utf8>): Result<Decision, ModelError> {
    var needs := policy.requirements;
    var tally :- Reduce(policy.members, needs.caps, permits);
    if tally.permit < needs.minPermitWeight then Ok(Short(InsufficientPermitWeight))
    else if tally.hold > needs.maxHoldWeight then Ok(Short(ExcessHoldWeight))
    else if |Cohorts(policy.members, needs.caps, permits)| < needs.minPermitCohorts then
      Ok(Short(InsufficientPermitCohorts))
    else Ok(Ready)
  }

  // `evaluate`: exact evidence first, then completeness, then the tallies.
  function Evaluate(review: Review, exact: ExactStatus): Result<Decision, ModelError> {
    if exact == Disqualified then Ok(Rejected)
    else if exact == Unknown || !review.revealing then Ok(Unfinished)
    else if exists m :: m in review.outcomes && review.outcomes[m].Missing? then Ok(Unfinished)
    else if Who(review, {Abstain}) != {} then Ok(Unfinished)
    else Judge(review.policy, Who(review, {Allow}))
  }

  // Why a review does not confirm the false hold, if it does not.
  function Unconfirmed(review: Review, exact: ExactStatus, fact: FalseHold): Option<ModelError> {
    if review.round != fact.round || review.evidenceRoot != fact.evidenceRoot then Some(Mismatch)
    else
      match Evaluate(review, exact)
      case Err(reason) => Some(reason)
      case Ok(Unfinished) => Some(Incomplete)
      case Ok(Short(_)) => if Who(review, {Hold, Deny}) == fact.helpers.Keys then None else Some(Mismatch)
      case Ok(_) => Some(Mismatch)
  }

  // Every member spoke, the helpers against and everyone else for.
  predicate Names(review: Review, fact: FalseHold) {
    && fact.helpers.Keys <= review.outcomes.Keys
    && forall m :: m in review.outcomes ==>
      review.outcomes[m] in if m in fact.helpers then {Revealed(Hold), Revealed(Deny)} else {Revealed(Allow)}
  }

  lemma NamesIff(review: Review, fact: FalseHold)
    ensures Names(review, fact) <==>
      && (forall m :: m in review.outcomes ==> review.outcomes[m].Revealed?)
      && Who(review, {Abstain}) == {}
      && Who(review, {Hold, Deny}) == fact.helpers.Keys
    ensures Names(review, fact) ==> Who(review, {Allow}) == review.outcomes.Keys - fact.helpers.Keys
  {
    var abstained, against := Who(review, {Abstain}), Who(review, {Hold, Deny});
    if Names(review, fact) {
      assert abstained == {} && against == fact.helpers.Keys;
    }
    if
      && abstained == {} && against == fact.helpers.Keys
      && forall m :: m in review.outcomes ==> review.outcomes[m].Revealed?
    {
      assert forall m :: m in against ==> m in review.outcomes;
      forall m | m in review.outcomes
        ensures review.outcomes[m] in if m in fact.helpers then {Revealed(Hold), Revealed(Deny)} else {Revealed(Allow)}
      {
        assert m !in abstained && (m in fact.helpers <==> m in against);
        match review.outcomes[m] {
          case Revealed(Allow) =>
          case Revealed(Hold) =>
          case Revealed(Deny) =>
          case Revealed(Abstain) =>
        }
      }
    }
  }

  // The vote of everyone but the helpers misses some threshold of the policy.
  predicate FallsShort(policy: Policy, against: set<Utf8>)
    requires Admissible(policy)
  {
    var needs, permits := policy.requirements, policy.members.Keys - against;
    AdmissibleNeverOverflows(policy, permits);
    var tally := Reduce(policy.members, needs.caps, permits).value;
    || tally.permit < needs.minPermitWeight
    || tally.hold > needs.maxHoldWeight
    || |Cohorts(policy.members, needs.caps, permits)| < needs.minPermitCohorts
  }

  // A review confirms a false hold exactly when exact evidence is clear, the reveals are
  // complete, the fact is about this very round and evidence and names precisely those who
  // were against, and with them against the vote misses a threshold.
  lemma ConfirmedIff(review: Review, exact: ExactStatus, fact: FalseHold)
    requires Opened(review)
    ensures Unconfirmed(review, exact, fact).None? <==>
      && exact == Clear && review.revealing && Names(review, fact)
      && fact.round == review.round && fact.evidenceRoot == review.evidenceRoot
      && FallsShort(review.policy, fact.helpers.Keys)
  {
    hide Who, Names, Reduce, Cohorts, Admissible;
    NamesIff(review, fact);
    AdmissibleNeverOverflows(review.policy, Who(review, {Allow}));
  }

  lemma WhoWhenUnanimous(review: Review)
    requires forall m :: m in review.outcomes ==> review.outcomes[m] == Revealed(Allow)
    ensures Who(review, {Allow}) == review.outcomes.Keys && Who(review, {Abstain}) == {}
  {
  }

  // An admissible policy can be met: if everyone allows, nothing is held.
  lemma UnanimityIsReady(review: Review)
    requires Opened(review) && review.revealing
    requires forall m :: m in review.outcomes ==> review.outcomes[m] == Revealed(Allow)
    ensures Evaluate(review, Clear) == Ok(Ready)
  {
    hide Over, Admitted, Cohorts, Among, Who;
    var members := review.policy.members;
    WhoWhenUnanimous(review);
    AllPermitsAreTheWhole(members, review.policy.requirements.caps);
  }

  predicate Silent(outcome: MemberOutcome) {
    outcome.Missing? || outcome == Revealed(Abstain)
  }

  // What a review comes to, and why: exact evidence decides first, silence and abstention
  // keep it unfinished, and only a complete vote is ever ready or short.
  lemma DecidedIff(review: Review, exact: ExactStatus)
    requires Opened(review)
    ensures Evaluate(review, exact).Ok?
    ensures Evaluate(review, exact) == Ok(Rejected) <==> exact == Disqualified
    ensures Evaluate(review, exact) == Ok(Unfinished) <==>
      && exact != Disqualified
      && (exact == Unknown || !review.revealing
          || exists m :: m in review.outcomes && Silent(review.outcomes[m]))
    ensures Evaluate(review, exact) == Ok(Ready) <==>
      && exact == Clear && review.revealing
      && (forall m :: m in review.outcomes ==>
        review.outcomes[m] in {Revealed(Allow), Revealed(Hold), Revealed(Deny)})
      && !FallsShort(review.policy, Who(review, {Hold, Deny}))
  {
    hide Reduce, Cohorts, Admissible, Who;
    var abstained, against, permits := Who(review, {Abstain}), Who(review, {Hold, Deny}), Who(review, {Allow});
    AdmissibleNeverOverflows(review.policy, permits);
    forall m | m in review.outcomes
      ensures m in abstained <==> review.outcomes[m] == Revealed(Abstain)
      ensures m in against <==> review.outcomes[m] in {Revealed(Hold), Revealed(Deny)}
      ensures m in permits <==> review.outcomes[m] == Revealed(Allow)
      ensures Silent(review.outcomes[m]) || review.outcomes[m] in {Revealed(Allow), Revealed(Hold), Revealed(Deny)}
    {
      WhoSaid(review, m);
    }
    WhoIsOfMembers(review);
    assert abstained == {} <==> forall m :: m in review.outcomes ==> m !in abstained;
    if
      && abstained == {}
      && forall m :: m in review.outcomes ==> review.outcomes[m].Revealed?
    {
      assert permits == review.policy.members.Keys - against;
    }
  }

  lemma WhoSaid(review: Review, m: Utf8)
    requires m in review.outcomes
    ensures m in Who(review, {Abstain}) <==> review.outcomes[m] == Revealed(Abstain)
    ensures m in Who(review, {Hold, Deny}) <==> review.outcomes[m] in {Revealed(Hold), Revealed(Deny)}
    ensures m in Who(review, {Allow}) <==> review.outcomes[m] == Revealed(Allow)
    ensures Silent(review.outcomes[m]) || review.outcomes[m] in {Revealed(Allow), Revealed(Hold), Revealed(Deny)}
  {
    match review.outcomes[m] {
      case Missing =>
      case Revealed(Allow) =>
      case Revealed(Hold) =>
      case Revealed(Deny) =>
      case Revealed(Abstain) =>
    }
  }

  lemma WhoIsOfMembers(review: Review)
    ensures forall verdicts :: Who(review, verdicts) <= review.outcomes.Keys
  {
  }

  // How an unconfirmed fact is refused: as incomplete only for want of a finished review of
  // the right round and evidence, as a mismatch otherwise.
  lemma RefusedAsIncompleteIff(review: Review, exact: ExactStatus, fact: FalseHold)
    requires Opened(review)
    ensures Unconfirmed(review, exact, fact) == Some(Incomplete) <==>
      && fact.round == review.round && fact.evidenceRoot == review.evidenceRoot
      && exact != Disqualified
      && (exact == Unknown || !review.revealing
          || exists m :: m in review.outcomes && Silent(review.outcomes[m]))
    ensures Unconfirmed(review, exact, fact) in {None, Some(Incomplete), Some(Mismatch)}
  {
    hide Evaluate, Who;
    DecidedIff(review, exact);
  }
}
