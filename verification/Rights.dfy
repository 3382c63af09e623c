/**
 The consumable-rights ledger (crates/fa-reference/src/logical_core.rs) and the
 event reducer of journal_core.rs. Units are only ever moved between the available
 balance, held reservations and the spent total.
 */
module RightsLedger {
  import opened Bytes
  import opened FramedLog
  import opened Order

  datatype Effect = Effect(principal: Utf8, target: Utf8, payload: seq<Byte>, units: U64)

  datatype Stage = Reserved | Dispatched | Unknown | Committed | Aborted

  datatype Reservation = Reservation(effect: Effect, epoch: U64, stage: Stage)

  datatype Event =
    | Reserve(id: U64, effect: Effect)
    | Dispatch(id: U64, effect: Effect)
    | MarkUnknown(id: U64)
    | AbortBeforeDispatch(id: U64)
    | Reconcile(id: U64, occurred: bool)
    | RevokeEpoch
    | ResetToCheckpoint(keep: set<U64>)

  datatype Rights = Rights(
    total: U64, available: U64, spent: U64, epoch: U64, incidents: U64,
    reservations: map<U64, Reservation>)

  predicate IsHeld(stage: Stage) {
    stage.Reserved? || stage.Dispatched? || stage.Unknown?
  }

  function HeldUnits(reservations: map<U64, Reservation>): map<U64, nat> {
    map id | id in reservations :: if IsHeld(reservations[id].stage) then reservations[id].effect.units else 0
  }

  // Reserved but not retained by the checkpoint: the units a reset refunds.
  function Refundable(reservations: map<U64, Reservation>, keep: set<U64>): map<U64, nat> {
    map id | id in reservations ::
      if id !in keep && reservations[id].stage.Reserved? then reservations[id].effect.units else 0
  }

  // A checked sum equals `total` exactly when the true sum does, since every partial
  // sum of non-negative terms is at most the whole and `total` fits its width.
  predicate Conserved(r: Rights) {
    Total(HeldUnits(r.reservations)) + r.available + r.spent == r.total
  }

  function Fresh(total: U64): Rights {
    Rights(total, total, 0, 0, 0, map[])
  }

  function Add(a: U64, b: nat): Result<U64, ModelError> {
    if a + b <= U64_MAX then Ok(a + b) else Err(Overflow)
  }

  function WithStage(r: Rights, id: U64, stage: Stage): Rights
    requires id in r.reservations
  {
    r.(reservations := r.reservations[id := r.reservations[id].(stage := stage)])
  }

  function DoReserve(r: Rights, id: U64, effect: Effect): Result<Rights, ModelError> {
    if id in r.reservations then Err(Duplicate)
    else if effect.units == 0 || effect.principal == [] || effect.target == [] then Err(BadInput)
    else if effect.units > r.available then Err(OverLimit)
    else Ok(r.(available := r.available - effect.units,
               reservations := r.reservations[id := Reservation(effect, r.epoch, Reserved)]))
  }

  function DoDispatch(r: Rights, id: U64, effect: Effect): Result<Rights, ModelError> {
    if id !in r.reservations then Err(Missing)
    else if !r.reservations[id].stage.Reserved? then Err(WrongState)
    else if r.reservations[id].epoch != r.epoch then Err(Stale)
    else if r.reservations[id].effect != effect then Err(Mismatch)
    else Ok(WithStage(r, id, Dispatched))
  }

  function DoMarkUnknown(r: Rights, id: U64): Result<Rights, ModelError> {
    if id !in r.reservations then Err(Missing)
    else if !r.reservations[id].stage.Dispatched? then Err(WrongState)
    else Ok(WithStage(r, id, Unknown))
  }

  function DoAbort(r: Rights, id: U64): Result<Rights, ModelError> {
    if id !in r.reservations then Err(Missing)
    else if !r.reservations[id].stage.Reserved? then Err(WrongState)
    else
      var available :- Add(r.available, r.reservations[id].effect.units);
      Ok(WithStage(r, id, Aborted).(available := available))
  }

  function DoReconcile(r: Rights, id: U64, occurred: bool): Result<Rights, ModelError> {
    if id !in r.reservations then Err(Missing)
    else if !r.reservations[id].stage.Dispatched? && !r.reservations[id].stage.Unknown? then Err(WrongState)
    else if occurred then
      var spent :- Add(r.spent, r.reservations[id].effect.units);
      Ok(WithStage(r, id, Committed).(spent := spent))
    else
      var available :- Add(r.available, r.reservations[id].effect.units);
      Ok(WithStage(r, id, Aborted).(available := available))
  }

  function DoRevoke(r: Rights): Result<Rights, ModelError> {
    var epoch :- Add(r.epoch, 1);
    Ok(r.(epoch := epoch))
  }

  function AbortUnkept(reservations: map<U64, Reservation>, keep: set<U64>): map<U64, Reservation> {
    map id | id in reservations ::
      if id !in keep && reservations[id].stage.Reserved?
      then reservations[id].(stage := Aborted) else reservations[id]
  }

  function DoReset(r: Rights, keep: set<U64>): Result<Rights, ModelError> {
    if !Conserved(r) then Err(WrongState)
    else
      var refund :- Add(0, Total(Refundable(r.reservations, keep)));
      var available :- Add(r.available, refund);
      var incidents :- Add(r.incidents, 1);
      var after := r.(available := available, incidents := incidents,
                      reservations := AbortUnkept(r.reservations, keep));
      if Conserved(after) then Ok(after) else Err(WrongState)
  }

  function Reduce(r: Rights, event: Event): Result<Rights, ModelError> {
    match event
    case Reserve(id, effect) => DoReserve(r, id, effect)
    case Dispatch(id, effect) => DoDispatch(r, id, effect)
    case MarkUnknown(id) => DoMarkUnknown(r, id)
    case AbortBeforeDispatch(id) => DoAbort(r, id)
    case Reconcile(id, occurred) => DoReconcile(r, id, occurred)
    case RevokeEpoch => DoRevoke(r)
    case ResetToCheckpoint(keep) => if keep <= r.reservations.Keys then DoReset(r, keep) else Err(Missing)
  }

  // `apply_event`: the reducer, then the conservation check on its result.
  function Apply(r: Rights, event: Event): Result<Rights, Error> {
    match Reduce(r, event)
    case Err(reason) => Err(Model(reason))
    case Ok(after) => if Conserved(after) then Ok(after) else Err(Corrupt)
  }

  lemma AppliedIsConserved(r: Rights, event: Event)
    ensures Apply(r, event).Ok? ==> Conserved(Apply(r, event).value)
  {
  }

  // ---- conservation ------------------------------------------------------------

  lemma FreshIsConserved(total: U64)
    ensures Conserved(Fresh(total))
  {
  }

  lemma HeldAfterUpdate(reservations: map<U64, Reservation>, id: U64, next: Reservation)
    ensures Total(HeldUnits(reservations[id := next])) ==
      Total(HeldUnits(reservations))
      - (if id in reservations && IsHeld(reservations[id].stage) then reservations[id].effect.units else 0)
      + (if IsHeld(next.stage) then next.effect.units else 0)
  {
    var n: nat := if IsHeld(next.stage) then next.effect.units else 0;
    assert HeldUnits(reservations[id := next]) == HeldUnits(reservations)[id := n];
    TotalOfUpdate(HeldUnits(reservations), id, n);
  }

  lemma ResetMovesUnits(reservations: map<U64, Reservation>, keep: set<U64>)
    ensures Total(HeldUnits(reservations)) ==
      Total(HeldUnits(AbortUnkept(reservations, keep))) + Total(Refundable(reservations, keep))
  {
    TotalAdds(HeldUnits(reservations), HeldUnits(AbortUnkept(reservations, keep)), Refundable(reservations, keep));
  }

  lemma HeldBounds(r: Rights, id: U64)
    requires Conserved(r) && id in r.reservations && IsHeld(r.reservations[id].stage)
    ensures r.reservations[id].effect.units + r.available + r.spent <= r.total
  {
    TotalWithout(HeldUnits(r.reservations), id);
  }

  ghost predicate Keeps(r: Rights, after: Result<Rights, ModelError>) {
    after.Ok? ==> Conserved(after.value) && after.value.total == r.total
  }

  lemma ReserveConserves(r: Rights, id: U64, effect: Effect)
    requires Conserved(r)
    ensures Keeps(r, DoReserve(r, id, effect)) && DoReserve(r, id, effect) != Err(Overflow)
  {
    HeldAfterUpdate(r.reservations, id, Reservation(effect, r.epoch, Reserved));
  }

  lemma AbortConserves(r: Rights, id: U64)
    requires Conserved(r)
    ensures Keeps(r, DoAbort(r, id)) && DoAbort(r, id) != Err(Overflow)
  {
    StageConserves(r, id, Aborted);
  }

  lemma ReconcileConserves(r: Rights, id: U64, occurred: bool)
    requires Conserved(r)
    ensures Keeps(r, DoReconcile(r, id, occurred)) && DoReconcile(r, id, occurred) != Err(Overflow)
  {
    StageConserves(r, id, if occurred then Committed else Aborted);
  }

  lemma ResetConserves(r: Rights, keep: set<U64>)
    requires Conserved(r)
    ensures Keeps(r, DoReset(r, keep)) && DoReset(r, keep) != Err(WrongState)
    ensures DoReset(r, keep) == Err(Overflow) <==> r.incidents == U64_MAX
    ensures DoReset(r, keep).Ok? ==>
      DoReset(r, keep).value.available == r.available + Total(Refundable(r.reservations, keep))
  {
    ResetMovesUnits(r.reservations, keep);
  }

  // From a conserved ledger the reducer always yields a conserved one, so the final
  // check never fires; no unit count overflows; only the two event counters can.
  lemma ReduceConserves(r: Rights, event: Event)
    requires Conserved(r)
    ensures Keeps(r, Reduce(r, event))
    ensures Reduce(r, event) == Err(Overflow) ==>
      || (event.RevokeEpoch? && r.epoch == U64_MAX)
      || (event.ResetToCheckpoint? && r.incidents == U64_MAX)
    ensures event.ResetToCheckpoint? ==> Reduce(r, event) != Err(WrongState)
  {
    match event
    case Reserve(id, effect) => ReserveConserves(r, id, effect);
    case Dispatch(id, _) => StageConserves(r, id, Dispatched);
    case MarkUnknown(id) => StageConserves(r, id, Unknown);
    case AbortBeforeDispatch(id) => AbortConserves(r, id);
    case Reconcile(id, occurred) => ReconcileConserves(r, id, occurred);
    case RevokeEpoch =>
    case ResetToCheckpoint(keep) => ResetConserves(r, keep);
  }

  lemma StageConserves(r: Rights, id: U64, stage: Stage)
    requires Conserved(r)
    ensures id in r.reservations && IsHeld(r.reservations[id].stage) ==>
      && r.reservations[id].effect.units + r.available + r.spent <= r.total
      && Total(HeldUnits(WithStage(r, id, stage).reservations)) ==
         Total(HeldUnits(r.reservations)) - (if IsHeld(stage) then 0 else r.reservations[id].effect.units)
  {
    if id in r.reservations && IsHeld(r.reservations[id].stage) {
      HeldBounds(r, id);
      HeldAfterUpdate(r.reservations, id, r.reservations[id].(stage := stage));
    }
  }

  lemma ApplyConserves(r: Rights, event: Event)
    requires Conserved(r)
    ensures Apply(r, event) != Err(Corrupt)
    ensures Apply(r, event).Ok? <==> Reduce(r, event).Ok?
    ensures Apply(r, event).Ok? ==> Conserved(Apply(r, event).value) && Apply(r, event).value.total == r.total
  {
    ReduceConserves(r, event);
  }

  // A dispatched or uncertain effect stays on the books through revocation and reset:
  // only its own reconciliation can return or spend its units.
  lemma LiabilityPersists(r: Rights, event: Event, id: U64)
    requires Conserved(r) && id in r.reservations
    requires r.reservations[id].stage.Dispatched? || r.reservations[id].stage.Unknown?
    requires Apply(r, event).Ok? && !(event.Reconcile? && event.id == id)
    ensures id in Apply(r, event).value.reservations
    ensures Apply(r, event).value.reservations[id].effect == r.reservations[id].effect
    ensures
      var stage := Apply(r, event).value.reservations[id].stage;
      stage.Dispatched? || stage.Unknown?
  {
    hide Conserved, Total, HeldUnits, Refundable;
  }
}
