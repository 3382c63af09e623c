/**
 False-stop accounting (crates/fa-reference/src/round/review.rs, module `andon`):
 immutable, disjoint occurrence windows and confirmed false holds charged to them. The
 ledger invariant says what each window's counters mean in terms of the confirmations.
 */
module Andon {
  import opened Bytes
  import opened FramedLog
  import opened Order

  const MAX_WINDOWS: nat := 128
  const MAX_FALSE_HOLDS: nat := 4096
  const MAX_VOTES: nat := 128
  const MAX_FIELD_LEN: nat := 4096
  const MAX_IDENTIFIER_BYTES: nat := 128
  const U128_MAX: nat := 0xFFFF_FFFF_FFFF_FFFF_FFFF_FFFF_FFFF_FFFF

  datatype LedgerIdentity = LedgerIdentity(deployment: U64, evaluator: U64)

  datatype AndonBudget = AndonBudget(window: U64, start: U64, end: U64, falseStopsAllowed: U64, costPerStop: U64)

  datatype FalseHold = FalseHold(
    identity: LedgerIdentity, report: U64, round: U64, occurredAt: U64, confirmedAt: U64,
    evidenceRoot: seq<Byte>, helpers: map<Utf8, U64>)

  datatype Incident = Incident(window: U64, openedBy: U64, rounds: set<U64>)

  datatype WindowState = WindowState(
    budget: AndonBudget, falseStops: nat, totalCost: nat, incident: Option<Incident>, rounds: set<U64>)

  datatype Confirmation = Confirmation(window: U64, fact: FalseHold)

  datatype RecordResult = Recorded(window: U64, incidentOpened: bool) | AlreadyRecorded(window: U64)

  datatype RawLedger = RawLedger(
    identity: LedgerIdentity, windows: map<U64, WindowState>, confirmations: map<U64, Confirmation>)

  datatype Registered = Registered(inserted: bool, ledger: Ledger)
  datatype Outcome = Outcome(result: RecordResult, ledger: Ledger)

  // ---- what a ledger's contents mean ----------------------------------------------

  predicate Covers(budget: AndonBudget, time: U64) {
    budget.start <= time < budget.end
  }

  predicate Overlap(a: AndonBudget, b: AndonBudget) {
    a.start < b.end && b.start < a.end
  }

  predicate WellShaped(budget: AndonBudget) {
    budget.window != 0 && budget.start < budget.end
  }

  // Complete enough to be recorded: InvalidInput otherwise.
  predicate Complete(fact: FalseHold) {
    && fact.report != 0 && fact.round != 0
    && fact.occurredAt <= fact.confirmedAt
    && fact.helpers != map[] && fact.evidenceRoot != []
  }

  predicate Bounded(fact: FalseHold) {
    && |fact.helpers| <= MAX_VOTES
    && |fact.evidenceRoot| <= MAX_FIELD_LEN
    && forall name :: name in fact.helpers ==> |name| <= MAX_IDENTIFIER_BYTES
  }

  predicate Attributed(fact: FalseHold) {
    forall name :: name in fact.helpers ==> name != [] && fact.helpers[name] != 0
  }

  ghost function ChargedTo(confirmations: map<U64, Confirmation>, window: U64): set<U64> {
    set round | round in confirmations && confirmations[round].window == window
  }

  // One window's books, given the rounds charged to it.
  ghost predicate Balanced(state: WindowState, charged: set<U64>) {
    && state.rounds == charged
    && state.falseStops == |charged|
    && state.totalCost == state.falseStops * state.budget.costPerStop
    && (state.incident.Some? <==> 0 < state.falseStops && state.budget.falseStopsAllowed <= state.falseStops)
    && (state.incident.Some? ==>
      && state.incident.value.window == state.budget.window
      && state.incident.value.rounds == charged
      && state.incident.value.openedBy in charged)
  }

  ghost predicate WindowsOk(windows: map<U64, WindowState>) {
    && |windows| <= MAX_WINDOWS
    && (forall w :: w in windows ==> windows[w].budget.window == w && WellShaped(windows[w].budget))
    && (forall a, b :: a in windows && b in windows && a != b ==> !Overlap(windows[a].budget, windows[b].budget))
  }

  ghost predicate ConfirmationsOk(l: RawLedger) {
    && |l.confirmations| <= MAX_FALSE_HOLDS
    && forall round :: round in l.confirmations ==>
      var c := l.confirmations[round];
      && c.fact.round == round && c.fact.identity == l.identity
      && Complete(c.fact) && Bounded(c.fact) && Attributed(c.fact)
      && c.window in l.windows && Covers(l.windows[c.window].budget, c.fact.occurredAt)
  }

  ghost predicate LedgerInv(l: RawLedger) {
    && WindowsOk(l.windows)
    && ConfirmationsOk(l)
    && forall w :: w in l.windows ==> Balanced(l.windows[w], ChargedTo(l.confirmations, w))
  }

  type Ledger = l: RawLedger | LedgerInv(l) ghost witness RawLedger(LedgerIdentity(1, 1), map[], map[])

  // ---- operations -------------------------------------------------------------------

  function New(identity: LedgerIdentity): Result<Ledger, ModelError> {
    if identity.deployment == 0 || identity.evaluator == 0 then Err(BadInput)
    else Ok(RawLedger(identity, map[], map[]))
  }

  function Opened(budget: AndonBudget): WindowState {
    WindowState(budget, 0, 0, None, {})
  }

  lemma WindowAdded(windows: map<U64, WindowState>, budget: AndonBudget)
    requires WindowsOk(windows) && budget.window !in windows && WellShaped(budget) && |windows| < MAX_WINDOWS
    requires forall w :: w in windows ==> !Overlap(budget, windows[w].budget)
    ensures WindowsOk(windows[budget.window := Opened(budget)])
  {
    var after := windows[budget.window := Opened(budget)];
    assert |after| == |windows| + 1;
    forall a, b | a in after && b in after && a != b ensures !Overlap(after[a].budget, after[b].budget) {
      if a != budget.window && b != budget.window {
        assert a in windows && b in windows;
      }
    }
  }

  lemma RegisterKeepsConfirmations(l: Ledger, budget: AndonBudget)
    requires budget.window !in l.windows
    ensures ConfirmationsOk(l.(windows := l.windows[budget.window := Opened(budget)]))
  {
    hide WindowsOk, Complete, Bounded, Attributed, Balanced, Overlap;
  }

  lemma RegisterBalances(l: Ledger, budget: AndonBudget, w: U64)
    requires budget.window !in l.windows && w in l.windows[budget.window := Opened(budget)]
    ensures Balanced(l.windows[budget.window := Opened(budget)][w], ChargedTo(l.confirmations, w))
  {
    hide WindowsOk, Complete, Bounded, Attributed, Overlap;
    if w == budget.window {
      assert ChargedTo(l.confirmations, w) == {};
    }
  }

  lemma RegisterKeepsInv(l: Ledger, budget: AndonBudget)
    requires budget.window !in l.windows && WellShaped(budget) && |l.windows| < MAX_WINDOWS
    requires forall w :: w in l.windows ==> !Overlap(budget, l.windows[w].budget)
    ensures LedgerInv(l.(windows := l.windows[budget.window := Opened(budget)]))
  {
    hide WindowsOk, ConfirmationsOk, Balanced;
    WindowAdded(l.windows, budget);
    RegisterKeepsConfirmations(l, budget);
    var after := l.windows[budget.window := Opened(budget)];
    forall w | w in after ensures Balanced(after[w], ChargedTo(l.confirmations, w)) {
      RegisterBalances(l, budget, w);
    }
  }

  function Register(l: Ledger, budget: AndonBudget): Result<Registered, ModelError> {
    if budget.window in l.windows then
      if l.windows[budget.window].budget == budget then Ok(Registered(false, l)) else Err(Mismatch)
    else if !WellShaped(budget) then Err(BadInput)
    else if |l.windows| >= MAX_WINDOWS then Err(OverLimit)
    else if exists w :: w in l.windows && Overlap(budget, l.windows[w].budget) then Err(Mismatch)
    else
      RegisterKeepsInv(l, budget);
      Ok(Registered(true, l.(windows := l.windows[budget.window := Opened(budget)])))
  }

  lemma CoveringIsUnique(l: Ledger, time: U64, a: U64, b: U64)
    requires a in l.windows && Covers(l.windows[a].budget, time)
    requires b in l.windows && Covers(l.windows[b].budget, time)
    ensures a == b
  {
    hide ConfirmationsOk, Balanced;
    assert Overlap(l.windows[a].budget, l.windows[b].budget);
  }

  // The one window that covers a time, if any: windows are disjoint.
  function Covering(l: Ledger, time: U64): (found: Option<U64>)
    ensures found.Some? ==> found.value in l.windows && Covers(l.windows[found.value].budget, time)
    ensures found.None? ==> forall w :: w in l.windows ==> !Covers(l.windows[w].budget, time)
  {
    hide LedgerInv, Covers;
    if exists w :: w in l.windows && Covers(l.windows[w].budget, time) then
      assert forall a, b ::
        a in l.windows && Covers(l.windows[a].budget, time) && b in l.windows && Covers(l.windows[b].budget, time)
        ==> a == b by {
        forall a, b |
          a in l.windows && Covers(l.windows[a].budget, time) && b in l.windows && Covers(l.windows[b].budget, time)
          ensures a == b
        {
          CoveringIsUnique(l, time, a, b);
        }
      }
      var w :| w in l.windows && Covers(l.windows[w].budget, time);
      Some(w)
    else None
  }

  predicate OpensIncident(state: WindowState) {
    state.incident.None? && state.falseStops + 1 >= state.budget.falseStopsAllowed
  }

  function Charge(state: WindowState, round: U64): WindowState {
    var rounds := state.rounds + {round};
    state.(
      falseStops := state.falseStops + 1,
      totalCost := state.totalCost + state.budget.costPerStop,
      rounds := rounds,
      incident :=
        if OpensIncident(state) then Some(Incident(state.budget.window, round, rounds))
        else if state.incident.Some? then Some(state.incident.value.(rounds := state.incident.value.rounds + {round}))
        else None)
  }

  function Charged(l: Ledger, window: U64, fact: FalseHold): RawLedger
    requires window in l.windows
  {
    RawLedger(
      l.identity,
      l.windows[window := Charge(l.windows[window], fact.round)],
      l.confirmations[fact.round := Confirmation(window, fact)])
  }

  lemma ChargeBalances(state: WindowState, charged: set<U64>, round: U64)
    requires Balanced(state, charged) && round !in charged
    ensures Balanced(Charge(state, round), charged + {round})
  {
    var n, c := state.falseStops, state.budget.costPerStop;
    assert (n + 1) * c == n * c + c;
    assert |charged + {round}| == |charged| + 1;
  }

  lemma ChargeKeepsWindows(l: Ledger, window: U64, fact: FalseHold)
    requires window in l.windows
    ensures WindowsOk(Charged(l, window, fact).windows)
  {
    hide Balanced, ConfirmationsOk, Overlap, WellShaped, Charge;
    ChargeKeepsBudget(l.windows[window], fact.round);
    var after := Charged(l, window, fact);
    assert after.windows.Keys == l.windows.Keys;
    assert |after.windows| == |after.windows.Keys| == |l.windows|;
  }

  lemma ChargeKeepsConfirmations(l: Ledger, window: U64, fact: FalseHold)
    requires window in l.windows && Covers(l.windows[window].budget, fact.occurredAt)
    requires fact.identity == l.identity && fact.round !in l.confirmations && |l.confirmations| < MAX_FALSE_HOLDS
    requires Complete(fact) && Bounded(fact) && Attributed(fact)
    ensures ConfirmationsOk(Charged(l, window, fact))
  {
    hide Balanced, WindowsOk, Complete, Bounded, Attributed, Covers, Charge;
    ChargeKeepsBudget(l.windows[window], fact.round);
    assert |Charged(l, window, fact).confirmations| == |l.confirmations| + 1;
  }

  lemma ChargeKeepsInv(l: Ledger, window: U64, fact: FalseHold)
    requires window in l.windows && Covers(l.windows[window].budget, fact.occurredAt)
    requires fact.identity == l.identity && fact.round !in l.confirmations && |l.confirmations| < MAX_FALSE_HOLDS
    requires Complete(fact) && Bounded(fact) && Attributed(fact)
    ensures LedgerInv(Charged(l, window, fact))
  {
    hide WindowsOk, ConfirmationsOk, Balanced, Complete, Bounded, Attributed, Covers, Charge;
    ChargeKeepsWindows(l, window, fact);
    ChargeKeepsConfirmations(l, window, fact);
    var after := Charged(l, window, fact);
    forall w | w in after.windows ensures Balanced(after.windows[w], ChargedTo(after.confirmations, w)) {
      ChargeRebalances(l, window, fact, w);
    }
  }

  lemma ChargeKeepsBudget(state: WindowState, round: U64)
    ensures Charge(state, round).budget == state.budget
  {
  }

  lemma ChargeRebalances(l: Ledger, window: U64, fact: FalseHold, w: U64)
    requires window in l.windows && w in l.windows && fact.round !in l.confirmations
    ensures Balanced(Charged(l, window, fact).windows[w], ChargedTo(Charged(l, window, fact).confirmations, w))
  {
    hide WindowsOk, ConfirmationsOk, Balanced, Charge;
    var after := Charged(l, window, fact);
    var before := ChargedTo(l.confirmations, w);
    if w == window {
      assert ChargedTo(after.confirmations, w) == before + {fact.round};
      ChargeBalances(l.windows[w], before, fact.round);
    } else {
      assert ChargedTo(after.confirmations, w) == before;
    }
  }

  function Record(l: Ledger, fact: FalseHold): Result<Outcome, ModelError> {
    if fact.identity != l.identity then Err(Mismatch)
    else if fact.round in l.confirmations then
      var known := l.confirmations[fact.round];
      if known.fact == fact then Ok(Outcome(AlreadyRecorded(known.window), l)) else Err(Mismatch)
    else if !Complete(fact) then Err(BadInput)
    else if |l.confirmations| >= MAX_FALSE_HOLDS || !Bounded(fact) then Err(OverLimit)
    else if !Attributed(fact) then Err(BadInput)
    else
      match Covering(l, fact.occurredAt)
      case None => Err(Missing)
      case Some(window) =>
        var state := l.windows[window];
        if state.falseStops + 1 > U64_MAX || state.totalCost + state.budget.costPerStop > U128_MAX then Err(Overflow)
        else
          ChargeKeepsInv(l, window, fact);
          Ok(Outcome(Recorded(window, OpensIncident(state)), Charged(l, window, fact)))
  }

  // ---- what the accounting guarantees -------------------------------------------------

  // A window's counters are bounded by the confirmations, so no sum can overflow.
  lemma RecordNeverOverflows(l: Ledger, fact: FalseHold)
    ensures Record(l, fact) != Err(Overflow)
  {
    hide WindowsOk, Complete, Bounded, Attributed, LedgerInv;
    var found := Covering(l, fact.occurredAt);
    if found.Some? {
      CountersAreSmall(l, found.value);
    }
  }

  lemma CountersAreSmall(l: Ledger, window: U64)
    requires window in l.windows
    ensures l.windows[window].falseStops <= MAX_FALSE_HOLDS
    ensures l.windows[window].totalCost <= MAX_FALSE_HOLDS * U64_MAX
  {
    hide WindowsOk, Complete, Bounded, Attributed;
    var state := l.windows[window];
    var charged := ChargedTo(l.confirmations, window);
    assert charged <= l.confirmations.Keys;
    SubsetCounts(charged, l.confirmations.Keys);
    assert Balanced(state, charged);
    ProductBound(state.falseStops, state.budget.costPerStop, MAX_FALSE_HOLDS, U64_MAX);
  }

  lemma ProductBound(a: nat, b: nat, m: nat, n: nat)
    requires a <= m && b <= n
    ensures a * b <= m * n
  {
    assert a * b <= m * b <= m * n;
  }

  // What a recording does: the fact is on the books, everything already there stays, and
  // exactly the one covering window is charged, once.
  lemma RecordEffect(l: Ledger, fact: FalseHold)
    requires Record(l, fact).Ok?
    ensures
      var o := Record(l, fact).value;
      && o.ledger.identity == l.identity
      && fact.round in o.ledger.confirmations
      && o.ledger.confirmations[fact.round] == Confirmation(o.result.window, fact)
      && (forall round :: round in l.confirmations ==>
        round in o.ledger.confirmations && o.ledger.confirmations[round] == l.confirmations[round])
      && (o.result.AlreadyRecorded? <==> fact.round in l.confirmations)
      && (o.result.AlreadyRecorded? ==> o.ledger == l)
      && (o.result.Recorded? ==>
        && |o.ledger.confirmations| == |l.confirmations| + 1
        && |o.ledger.windows| == |l.windows|
        && Complete(fact) && Bounded(fact) && Attributed(fact))
  {
    hide LedgerInv, Complete, Bounded, Attributed, Charge;
    var after := Record(l, fact).value.ledger;
    if fact.round !in l.confirmations {
      assert after.windows.Keys == l.windows.Keys;
      assert |after.windows| == |after.windows.Keys|;
    } else {
      KnownFact(l, fact.round);
    }
  }

  lemma KnownFact(l: Ledger, round: U64)
    requires round in l.confirmations
    ensures l.confirmations[round].fact.round == round && l.confirmations[round].fact.identity == l.identity
  {
    hide WindowsOk, Complete, Bounded, Attributed, Balanced;
  }

  // An exact retry is free, now and at any later point.
  lemma RetryIsFree(l: Ledger, fact: FalseHold)
    requires fact.round in l.confirmations && l.confirmations[fact.round].fact == fact
    ensures Record(l, fact) == Ok(Outcome(AlreadyRecorded(l.confirmations[fact.round].window), l))
  {
    hide WindowsOk, Complete, Bounded, Attributed, Balanced;
    KnownFact(l, fact.round);
  }

  // Registration inserts at most the one window and touches nothing else.
  lemma RegisterEffect(l: Ledger, budget: AndonBudget)
    requires Register(l, budget).Ok?
    ensures
      var r := Register(l, budget).value;
      && r.ledger.identity == l.identity
      && r.ledger.confirmations == l.confirmations
      && (!r.inserted ==> r.ledger == l)
      && (r.inserted ==> |r.ledger.windows| == |l.windows| + 1)
      && Register(r.ledger, budget) == Ok(Registered(false, r.ledger))
  {
    hide WindowsOk, ConfirmationsOk, Balanced, LedgerInv;
  }

  // A new fact is recorded exactly when it is this ledger's, complete, within bounds and
  // attributed, there is room, and some registered window covers its time.
  lemma RecordedIff(l: Ledger, fact: FalseHold)
    requires fact.round !in l.confirmations
    ensures Record(l, fact).Ok? <==>
      && fact.identity == l.identity
      && fact.report != 0 && fact.round != 0 && fact.occurredAt <= fact.confirmedAt
      && 0 < |fact.evidenceRoot| <= 4096 && 0 < |fact.helpers| <= 128
      && (forall name :: name in fact.helpers ==> 0 < |name| <= 128 && fact.helpers[name] != 0)
      && |l.confirmations| < 4096
      && exists w :: w in l.windows && l.windows[w].budget.start <= fact.occurredAt < l.windows[w].budget.end
  {
    hide LedgerInv, Charge;
    RecordNeverOverflows(l, fact);
    assert forall w :: w in l.windows ==>
      (Covers(l.windows[w].budget, fact.occurredAt) <==>
        l.windows[w].budget.start <= fact.occurredAt < l.windows[w].budget.end);
  }

  // What a recorded fact does to the windows: exactly the one that covers it is charged, and
  // the report says whether this charge opened its incident. An open incident keeps the
  // round that opened it.
  lemma ChargeEffect(l: Ledger, fact: FalseHold)
    requires Record(l, fact).Ok? && Record(l, fact).value.result.Recorded?
    ensures
      var o := Record(l, fact).value;
      var w := o.result.window;
      && w in l.windows && w in o.ledger.windows
      && var was, now := l.windows[w], o.ledger.windows[w];
      && was.budget.start <= fact.occurredAt < was.budget.end
      && o.ledger.windows == l.windows[w := now] && now.budget == was.budget
      && now.falseStops == was.falseStops + 1
      && now.totalCost == was.totalCost + was.budget.costPerStop
      && now.rounds == was.rounds + {fact.round}
      && (o.result.incidentOpened <==> was.incident.None? && now.incident.Some?)
      && (o.result.incidentOpened ==> now.incident.value.openedBy == fact.round)
      && (was.incident.Some? ==> now.incident.Some? && now.incident.value.openedBy == was.incident.value.openedBy)
  {
    hide LedgerInv, Complete, Bounded, Attributed;
  }

  // An incident opens with the stop that first reaches the window's allowance, the first
  // stop of all when nothing is allowed.
  lemma IncidentOpensOnce(l: Ledger, fact: FalseHold)
    requires Record(l, fact).Ok? && Record(l, fact).value.result.Recorded?
    ensures
      var o := Record(l, fact).value;
      && o.result.window in l.windows
      && var was := l.windows[o.result.window];
      o.result.incidentOpened <==>
        was.falseStops + 1 == (if was.budget.falseStopsAllowed == 0 then 1 else was.budget.falseStopsAllowed)
  {
    hide WindowsOk, ConfirmationsOk, Complete, Bounded, Attributed;
    ChargeEffect(l, fact);
    var w := Record(l, fact).value.result.window;
    assert Balanced(l.windows[w], ChargedTo(l.confirmations, w));
  }

  // Some time is covered by both.
  ghost predicate ShareTime(a: AndonBudget, b: AndonBudget) {
    exists t: U64 :: Covers(a, t) && Covers(b, t)
  }

  lemma OverlapIff(a: AndonBudget, b: AndonBudget)
    requires WellShaped(a) && WellShaped(b)
    ensures Overlap(a, b) <==> ShareTime(a, b)
  {
    if Overlap(a, b) {
      var t: U64 := if a.start >= b.start then a.start else b.start;
      assert Covers(a, t) && Covers(b, t);
    }
  }

  // A new window is registered exactly when it is well shaped, there is room, and it shares
  // no time with a registered one.
  lemma RegisteredIff(l: Ledger, budget: AndonBudget)
    requires budget.window !in l.windows
    ensures Register(l, budget).Ok? <==>
      && budget.window != 0 && budget.start < budget.end
      && |l.windows| < MAX_WINDOWS
      && forall w :: w in l.windows ==> !ShareTime(budget, l.windows[w].budget)
    ensures Register(l, budget).Ok? ==>
      Register(l, budget).value.ledger.windows ==
        l.windows[budget.window := WindowState(budget, 0, 0, None, {})]
  {
    hide ConfirmationsOk, Balanced, ShareTime, Overlap;
    if WellShaped(budget) {
      forall w | w in l.windows
        ensures Overlap(budget, l.windows[w].budget) <==> ShareTime(budget, l.windows[w].budget)
      {
        OverlapIff(budget, l.windows[w].budget);
      }
    }
  }

  // What is registered or recorded is fixed: the same again is accepted and changes
  // nothing, anything else under that name is refused.
  lemma KnownIsFixed(l: Ledger, budget: AndonBudget, fact: FalseHold)
    ensures budget.window in l.windows ==>
      Register(l, budget) ==
        if l.windows[budget.window].budget == budget then Ok(Registered(false, l)) else Err(Mismatch)
    ensures fact.round in l.confirmations ==>
      Record(l, fact) ==
        if l.confirmations[fact.round].fact == fact
        then Ok(Outcome(AlreadyRecorded(l.confirmations[fact.round].window), l)) else Err(Mismatch)
  {
    hide WindowsOk, Complete, Bounded, Attributed, Balanced;
    if fact.round in l.confirmations {
      KnownFact(l, fact.round);
    }
  }

  // Why a new fact or window is refused, the first cause that applies.
  lemma RefusedBecause(l: Ledger, budget: AndonBudget, fact: FalseHold)
    ensures budget.window !in l.windows && Register(l, budget).Err? ==>
      Register(l, budget).error ==
        if budget.window == 0 || budget.start >= budget.end then BadInput
        else if |l.windows| >= MAX_WINDOWS then OverLimit
        else Mismatch
    ensures fact.round !in l.confirmations && Record(l, fact).Err? ==>
      Record(l, fact).error ==
        if fact.identity != l.identity then Mismatch
        else if !Complete(fact) then BadInput
        else if |l.confirmations| >= MAX_FALSE_HOLDS || !Bounded(fact) then OverLimit
        else if !Attributed(fact) then BadInput
        else Missing
  {
    hide LedgerInv, Complete, Bounded, Attributed, Overlap;
    RecordNeverOverflows(l, fact);
  }
}
