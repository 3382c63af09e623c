/**
 The rights ledger over whole runs (crates/fa-reference/src/logical_core.rs): what every
 field of it says about the events that were accepted, and which events come next.
 */
module RightsHistory {
  import opened Bytes
  import opened FramedLog
  import opened Order
  import opened RightsLedger

  // The ledger after these events, if it accepts all of them in turn.
  function Played(r: Rights, events: seq<Event>): Result<Rights, Error> {
    if events == [] then Ok(r)
    else
      var before :- Played(r, events[..|events| - 1]);
      Apply(before, events[|events| - 1])
  }

  // A prefix of an accepted run is an accepted run.
  lemma {:induction false} PlayedPrefix(r: Rights, events: seq<Event>, k: nat)
    requires Played(r, events).Ok? && k <= |events|
    ensures Played(r, events[..k]).Ok?
    decreases |events|
  {
    hide Apply;
    if k == |events| {
      assert events[..k] == events;
    } else {
      var front := events[..|events| - 1];
      PlayedPrefix(r, front, k);
      assert front[..k] == events[..k];
    }
  }

  lemma {:induction false} PlayedIsConserved(total: U64, events: seq<Event>)
    requires Played(Fresh(total), events).Ok?
    ensures Conserved(Played(Fresh(total), events).value) && Played(Fresh(total), events).value.total == total
    decreases |events|
  {
    hide Apply, Conserved;
    if events == [] {
      FreshIsConserved(total);
    } else {
      PlayedIsConserved(total, events[..|events| - 1]);
      ApplyConserves(Played(Fresh(total), events[..|events| - 1]).value, events[|events| - 1]);
    }
  }

  // ---- stages, told by the events --------------------------------------------------------

  ghost predicate Made(events: seq<Event>, id: U64) {
    exists effect :: Reserve(id, effect) in events
  }

  ghost predicate Sent(events: seq<Event>, id: U64) {
    exists effect :: Dispatch(id, effect) in events
  }

  ghost predicate Settled(events: seq<Event>, id: U64) {
    Reconcile(id, true) in events || Reconcile(id, false) in events
  }

  predicate IsAt(r: Rights, id: U64, stage: Stage) {
    id in r.reservations && r.reservations[id].stage == stage
  }

  // The k-th event is a reset that met this reservation undispatched and did not keep it.
  predicate Drops(total: U64, events: seq<Event>, k: nat, id: U64)
    requires k < |events|
  {
    && events[k].ResetToCheckpoint? && id !in events[k].keep
    && Played(Fresh(total), events[..k]).Ok?
    && IsAt(Played(Fresh(total), events[..k]).value, id, Reserved)
  }

  ghost predicate Dropped(total: U64, events: seq<Event>, id: U64) {
    exists k: nat :: k < |events| && Drops(total, events, k, id)
  }

  // A reservation is there iff it was made, with the effect of everything said about it.
  ghost predicate TellsEffect(events: seq<Event>, r: Rights, id: U64) {
    && (id in r.reservations <==> Made(events, id))
    && (MarkUnknown(id) in events || Settled(events, id) ==> Sent(events, id))
    && (forall effect :: Reserve(id, effect) in events || Dispatch(id, effect) in events ==>
      id in r.reservations && r.reservations[id].effect == effect)
  }

  // It is closed iff it was settled, cancelled or dropped.
  ghost predicate TellsClosed(total: U64, events: seq<Event>, r: Rights, id: U64) {
    && (IsAt(r, id, Committed) <==> Reconcile(id, true) in events)
    && (IsAt(r, id, Aborted) <==>
      AbortBeforeDispatch(id) in events || Reconcile(id, false) in events || Dropped(total, events, id))
  }

  // It is open iff it was not, and then as far as it was sent or doubted.
  ghost predicate TellsOpen(total: U64, events: seq<Event>, r: Rights, id: U64) {
    && (IsAt(r, id, Unknown) <==> MarkUnknown(id) in events && !Settled(events, id))
    && (IsAt(r, id, Dispatched) <==> Sent(events, id) && MarkUnknown(id) !in events && !Settled(events, id))
    && (IsAt(r, id, Reserved) <==>
      && Made(events, id) && !Sent(events, id)
      && AbortBeforeDispatch(id) !in events && !Dropped(total, events, id))
  }

  // Where a reservation stands, by what was said about it.
  ghost predicate Tells(total: U64, events: seq<Event>, r: Rights, id: U64) {
    TellsEffect(events, r, id) && TellsClosed(total, events, r, id) && TellsOpen(total, events, r, id)
  }

  lemma DroppedAppend(total: U64, front: seq<Event>, last: Event, id: U64)
    requires Played(Fresh(total), front).Ok?
    ensures Dropped(total, front + [last], id) <==>
      || Dropped(total, front, id)
      || (last.ResetToCheckpoint? && id !in last.keep && IsAt(Played(Fresh(total), front).value, id, Reserved))
  {
    hide Played;
    var all := front + [last];
    assert all[..|front|] == front && all[|front|] == last;
    forall k: nat | k < |front| ensures Drops(total, all, k, id) <==> Drops(total, front, k, id) {
      assert all[..k] == front[..k] && all[k] == front[k];
    }
    if last.ResetToCheckpoint? && id !in last.keep && IsAt(Played(Fresh(total), front).value, id, Reserved) {
      assert Drops(total, all, |front|, id);
    }
    if Dropped(total, front, id) {
      var k: nat :| k < |front| && Drops(total, front, k, id);
      assert Drops(total, all, k, id);
    }
  }

  // How one accepted event moves one reservation.
  lemma OneMove(r: Rights, event: Event, id: U64)
    requires Apply(r, event).Ok?
    ensures
      var after := Apply(r, event).value;
      && (id in r.reservations ==>
        && id in after.reservations
        && after.reservations[id].(stage := Reserved) == r.reservations[id].(stage := Reserved))
      && match event
         case Reserve(n, effect) =>
           && n !in r.reservations && IsAt(after, n, Reserved)
           && after.reservations[n].effect == effect && after.reservations[n].epoch == r.epoch
           && (id != n ==> Unmoved(r, after, id))
         case Dispatch(n, effect) =>
           && IsAt(r, n, Reserved) && IsAt(after, n, Dispatched)
           && r.reservations[n].effect == effect && r.reservations[n].epoch == r.epoch
           && (id != n ==> Unmoved(r, after, id))
         case MarkUnknown(n) =>
           IsAt(r, n, Dispatched) && IsAt(after, n, Unknown) && (id != n ==> Unmoved(r, after, id))
         case AbortBeforeDispatch(n) =>
           IsAt(r, n, Reserved) && IsAt(after, n, Aborted) && (id != n ==> Unmoved(r, after, id))
         case Reconcile(n, occurred) =>
           && (IsAt(r, n, Dispatched) || IsAt(r, n, Unknown))
           && IsAt(after, n, if occurred then Committed else Aborted)
           && (id != n ==> Unmoved(r, after, id))
         case RevokeEpoch => Unmoved(r, after, id)
         case ResetToCheckpoint(keep) =>
           if id !in keep && IsAt(r, id, Reserved) then IsAt(after, id, Aborted) else Unmoved(r, after, id)
  {
    hide Conserved, Total, HeldUnits, Refundable;
  }

  predicate Unmoved(r: Rights, after: Rights, id: U64) {
    && (id in r.reservations <==> id in after.reservations)
    && (id in r.reservations ==> after.reservations[id] == r.reservations[id])
  }

  lemma Said(front: seq<Event>, last: Event, id: U64)
    ensures forall e: Event :: e in front + [last] <==> e in front || e == last
    ensures Made(front + [last], id) <==> Made(front, id) || (last.Reserve? && last.id == id)
    ensures Sent(front + [last], id) <==> Sent(front, id) || (last.Dispatch? && last.id == id)
  {
    var events := front + [last];
    if last.Reserve? && last.id == id {
      assert Reserve(id, last.effect) in events;
    }
    if last.Dispatch? && last.id == id {
      assert Dispatch(id, last.effect) in events;
    }
    assert forall e: Event :: e in events <==> e in front || e == last;
  }

  lemma TellsEffectStep(total: U64, front: seq<Event>, last: Event, id: U64)
    requires Played(Fresh(total), front).Ok? && Apply(Played(Fresh(total), front).value, last).Ok?
    requires Tells(total, front, Played(Fresh(total), front).value, id)
    ensures TellsEffect(front + [last], Apply(Played(Fresh(total), front).value, last).value, id)
  {
    hide Played, Apply, Dropped, Made, Sent;
    var r, events := Played(Fresh(total), front).value, front + [last];
    OneMove(r, last, id);
    DroppedAppend(total, front, last, id);
    Said(front, last, id);
  }

  lemma TellsClosedStep(total: U64, front: seq<Event>, last: Event, id: U64)
    requires Played(Fresh(total), front).Ok? && Apply(Played(Fresh(total), front).value, last).Ok?
    requires Tells(total, front, Played(Fresh(total), front).value, id)
    ensures TellsClosed(total, front + [last], Apply(Played(Fresh(total), front).value, last).value, id)
  {
    hide Played, Apply, Dropped, Made, Sent;
    var r, events := Played(Fresh(total), front).value, front + [last];
    OneMove(r, last, id);
    DroppedAppend(total, front, last, id);
    Said(front, last, id);
  }

  lemma TellsOpenStep(total: U64, front: seq<Event>, last: Event, id: U64)
    requires Played(Fresh(total), front).Ok? && Apply(Played(Fresh(total), front).value, last).Ok?
    requires Tells(total, front, Played(Fresh(total), front).value, id)
    ensures TellsOpen(total, front + [last], Apply(Played(Fresh(total), front).value, last).value, id)
  {
    hide Played, Apply, Dropped, Made, Sent;
    var r, events := Played(Fresh(total), front).value, front + [last];
    OneMove(r, last, id);
    DroppedAppend(total, front, last, id);
    Said(front, last, id);
  }

  lemma NothingTold(total: U64, id: U64)
    ensures Tells(total, [], Fresh(total), id)
  {
  }

  // In every accepted run, every reservation stands exactly where its events put it.
  lemma {:induction false} StagesAreTold(total: U64, events: seq<Event>, id: U64)
    requires Played(Fresh(total), events).Ok?
    ensures Tells(total, events, Played(Fresh(total), events).value, id)
    decreases |events|
  {
    hide Apply, TellsEffect, TellsClosed, TellsOpen;
    if events == [] {
      NothingTold(total, id);
    } else {
      var front, last := events[..|events| - 1], events[|events| - 1];
      assert events == front + [last];
      StagesAreTold(total, front, id);
      TellsEffectStep(total, front, last, id);
      TellsClosedStep(total, front, last, id);
      TellsOpenStep(total, front, last, id);
    }
  }

  // ---- epochs ------------------------------------------------------------------------------

  function Revocations(events: seq<Event>): nat {
    if events == [] then 0
    else Revocations(events[..|events| - 1]) + if events[|events| - 1].RevokeEpoch? then 1 else 0
  }

  function Resets(events: seq<Event>): nat {
    if events == [] then 0
    else Resets(events[..|events| - 1]) + if events[|events| - 1].ResetToCheckpoint? then 1 else 0
  }

  lemma OneCount(r: Rights, event: Event)
    requires Apply(r, event).Ok?
    ensures Apply(r, event).value.epoch == r.epoch + if event.RevokeEpoch? then 1 else 0
    ensures Apply(r, event).value.incidents == r.incidents + if event.ResetToCheckpoint? then 1 else 0
  {
    hide Conserved, Total, HeldUnits, Refundable;
  }

  lemma {:induction false} CountersAreTold(total: U64, events: seq<Event>)
    requires Played(Fresh(total), events).Ok?
    ensures Played(Fresh(total), events).value.epoch == Revocations(events)
    ensures Played(Fresh(total), events).value.incidents == Resets(events)
    decreases |events|
  {
    hide Apply;
    if events == [] {
    } else {
      CountersAreTold(total, events[..|events| - 1]);
      OneCount(Played(Fresh(total), events[..|events| - 1]).value, events[|events| - 1]);
    }
  }

  // A reservation carries the epoch in force when it was made.
  lemma {:induction false} EpochIsTold(total: U64, events: seq<Event>, i: nat)
    requires Played(Fresh(total), events).Ok? && i < |events| && events[i].Reserve?
    ensures
      var r := Played(Fresh(total), events).value;
      events[i].id in r.reservations && r.reservations[events[i].id].epoch == Revocations(events[..i])
    decreases |events|
  {
    hide Apply;
    var front, last := events[..|events| - 1], events[|events| - 1];
    OneMove(Played(Fresh(total), front).value, last, events[i].id);
    if i == |events| - 1 {
      CountersAreTold(total, front);
    } else {
      assert front[..i] == events[..i];
      EpochIsTold(total, front, i);
    }
  }

  lemma {:induction false} RevocationsBetween(events: seq<Event>, i: nat, k: nat, j: nat)
    requires i <= k < j <= |events| && events[k].RevokeEpoch?
    ensures Revocations(events[..i]) < Revocations(events[..j])
    decreases j
  {
    assert events[..j][..j - 1] == events[..j - 1] && events[..j][j - 1] == events[j - 1];
    if k == j - 1 {
      RevocationsGrow(events, i, j - 1);
    } else {
      RevocationsBetween(events, i, k, j - 1);
    }
  }

  lemma {:induction false} RevocationsGrow(events: seq<Event>, i: nat, j: nat)
    requires i <= j <= |events|
    ensures Revocations(events[..i]) <= Revocations(events[..j])
    decreases j
  {
    if i == j {
    } else {
      assert events[..j][..j - 1] == events[..j - 1];
      RevocationsGrow(events, i, j - 1);
    }
  }

  // No revocation lies between a reservation and its dispatch.
  lemma DispatchIsFresh(total: U64, events: seq<Event>, i: nat, k: nat, j: nat)
    requires Played(Fresh(total), events).Ok? && i < k < j < |events|
    requires events[i].Reserve? && events[j].Dispatch? && events[i].id == events[j].id
    ensures !events[k].RevokeEpoch?
  {
    hide Apply, Played;
    var before := events[..j];
    PlayedPrefix(Fresh(total), events, j);
    PlayedPrefix(Fresh(total), events, j + 1);
    PlayedLast(Fresh(total), events[..j + 1]);
    assert events[..j + 1][..j] == before;
    OneMove(Played(Fresh(total), before).value, events[j], events[j].id);
    EpochIsTold(total, before, i);
    CountersAreTold(total, before);
    assert before[..i] == events[..i];
    if events[k].RevokeEpoch? {
      RevocationsBetween(events, i, k, j);
    }
  }

  lemma PlayedLast(r: Rights, events: seq<Event>)
    requires events != [] && Played(r, events).Ok?
    ensures Played(r, events[..|events| - 1]).Ok?
    ensures Played(r, events) == Apply(Played(r, events[..|events| - 1]).value, events[|events| - 1])
  {
    hide Apply;
  }

  // ---- units -------------------------------------------------------------------------------

  function UnitsAt(r: Rights, stage: Stage): map<U64, nat> {
    map id | id in r.reservations :: if r.reservations[id].stage == stage then r.reservations[id].effect.units else 0
  }

  lemma SpentMoves(r: Rights, event: Event)
    requires Apply(r, event).Ok?
    ensures event.Reconcile? && event.occurred ==>
      event.id in r.reservations && Apply(r, event).value.spent == r.spent + r.reservations[event.id].effect.units
    ensures !(event.Reconcile? && event.occurred) ==> Apply(r, event).value.spent == r.spent
  {
    hide Conserved, Total, HeldUnits, Refundable;
  }

  lemma OneSpend(r: Rights, event: Event)
    requires Apply(r, event).Ok? && r.spent == Total(UnitsAt(r, Committed))
    ensures Apply(r, event).value.spent == Total(UnitsAt(Apply(r, event).value, Committed))
  {
    hide Apply, Total;
    var after := Apply(r, event).value;
    var was, now := UnitsAt(r, Committed), UnitsAt(after, Committed);
    SpentMoves(r, event);
    forall n: U64 ensures n in now <==> n in was || (event.Reserve? && event.id == n) {
      CommittedMoves(r, event, n);
    }
    forall n: U64 | n in was && event != Reconcile(n, true) ensures now[n] == was[n] {
      CommittedMoves(r, event, n);
    }
    if event.RevokeEpoch? || event.ResetToCheckpoint? {
      assert now == was;
    } else {
      OneMove(r, event, event.id);
      assert now.Keys == was.Keys + {event.id};
      OneEntry(was, now, event.id);
    }
  }

  // What one event does to the committed units of one reservation.
  lemma CommittedMoves(r: Rights, event: Event, n: U64)
    requires Apply(r, event).Ok?
    ensures
      var was, now := UnitsAt(r, Committed), UnitsAt(Apply(r, event).value, Committed);
      && (n in now <==> n in was || (event.Reserve? && event.id == n))
      && (n in was && event != Reconcile(n, true) ==> now[n] == was[n])
  {
    hide Apply;
    OneMove(r, event, n);
  }

  lemma OneEntry(was: map<U64, nat>, now: map<U64, nat>, id: U64)
    requires id in now && now.Keys == was.Keys + {id}
    requires forall n :: n in was && n != id ==> now[n] == was[n]
    ensures Total(now) == Total(was) - (if id in was then was[id] else 0) + now[id]
  {
    hide Total;
    assert now == was[id := now[id]];
    TotalOfUpdate(was, id, now[id]);
  }

  // What is spent is exactly what committed reservations cost.
  lemma {:induction false} SpentIsCommitted(total: U64, events: seq<Event>)
    requires Played(Fresh(total), events).Ok?
    ensures Played(Fresh(total), events).value.spent == Total(UnitsAt(Played(Fresh(total), events).value, Committed))
    decreases |events|
  {
    hide Apply;
    if events == [] {
      assert UnitsAt(Fresh(total), Committed) == map[];
    } else {
      SpentIsCommitted(total, events[..|events| - 1]);
      OneSpend(Played(Fresh(total), events[..|events| - 1]).value, events[|events| - 1]);
    }
  }

  // What is available is what no reservation holds or has spent: everything but the units
  // of the reservations that are not aborted.
  lemma AvailableIsTheRest(total: U64, events: seq<Event>)
    requires Played(Fresh(total), events).Ok?
    ensures
      var r := Played(Fresh(total), events).value;
      r.available + Total(Claims(r)) == total
  {
    hide Total, Played;
    PlayedIsConserved(total, events);
    SpentIsCommitted(total, events);
    var r := Played(Fresh(total), events).value;
    TotalAdds(Claims(r), HeldUnits(r.reservations), UnitsAt(r, Committed));
  }

  function Claims(r: Rights): map<U64, nat> {
    map id | id in r.reservations :: if r.reservations[id].stage == Aborted then 0 else r.reservations[id].effect.units
  }

  // ---- what comes next ---------------------------------------------------------------------

  // Which event an accepted run that led to r may be continued with.
  ghost predicate Lawful(total: U64, events: seq<Event>, r: Rights, event: Event) {
    match event
    case Reserve(id, effect) =>
      && !Made(events, id)
      && effect.units > 0 && effect.principal != [] && effect.target != []
      && Total(Claims(r)) + effect.units <= total
    case Dispatch(id, effect) =>
      && IsAt(r, id, Reserved) && Reserve(id, effect) in events
      && r.reservations[id].epoch == Revocations(events)
    case MarkUnknown(id) => IsAt(r, id, Dispatched)
    case AbortBeforeDispatch(id) => IsAt(r, id, Reserved)
    case Reconcile(id, _) => IsAt(r, id, Dispatched) || IsAt(r, id, Unknown)
    case RevokeEpoch => Revocations(events) < U64_MAX
    case ResetToCheckpoint(keep) => (forall id :: id in keep ==> Made(events, id)) && Resets(events) < U64_MAX
  }

  lemma NextAcceptedIff(total: U64, events: seq<Event>, event: Event)
    requires Played(Fresh(total), events).Ok?
    ensures
      var r := Played(Fresh(total), events).value;
      Apply(r, event).Ok? <==> Lawful(total, events, r, event)
  {
    hide Apply, Total, Played, Dropped, Conserved, Claims, Sent, Settled;
    var r := Played(Fresh(total), events).value;
    PlayedIsConserved(total, events);
    CountersAreTold(total, events);
    AvailableIsTheRest(total, events);
    forall id: U64 ensures id in r.reservations <==> Made(events, id) {
      StagesAreTold(total, events, id);
    }
    ApplyConserves(r, event);
    ReducedIff(r, event);
    if event.Dispatch? {
      StagesAreTold(total, events, event.id);
      if IsAt(r, event.id, Reserved) {
        var effect :| Reserve(event.id, effect) in events;
      }
    }
  }

  predicate Reducible(r: Rights, event: Event) {
    match event
    case Reserve(id, effect) =>
      && id !in r.reservations
      && effect.units > 0 && effect.principal != [] && effect.target != [] && effect.units <= r.available
    case Dispatch(id, effect) =>
      IsAt(r, id, Reserved) && r.reservations[id].effect == effect && r.reservations[id].epoch == r.epoch
    case MarkUnknown(id) => IsAt(r, id, Dispatched)
    case AbortBeforeDispatch(id) => IsAt(r, id, Reserved)
    case Reconcile(id, _) => IsAt(r, id, Dispatched) || IsAt(r, id, Unknown)
    case RevokeEpoch => r.epoch < U64_MAX
    case ResetToCheckpoint(keep) => keep <= r.reservations.Keys && r.incidents < U64_MAX
  }

  // Why the ledger refuses an event, the first cause that applies.
  lemma RefusedBecause(r: Rights, event: Event)
    requires Conserved(r) && Reduce(r, event).Err?
    ensures
      var why := Reduce(r, event).error;
      var known := (event.RevokeEpoch? || event.ResetToCheckpoint?) || event.id in r.reservations;
      if event.Reserve? then
        if known then why == Duplicate
        else if event.effect.units > 0 && event.effect.principal != [] && event.effect.target != [] then
          why == OverLimit && event.effect.units > r.available
        else why == BadInput
      else if event.RevokeEpoch? then why == Overflow
      else if event.ResetToCheckpoint? then
        why == if event.keep <= r.reservations.Keys then Overflow else Missing
      else if !known then why == Missing
      else if event.Dispatch? && IsAt(r, event.id, Reserved) then
        why == if r.reservations[event.id].epoch != r.epoch then Stale else Mismatch
      else why == WrongState
  {
    hide Total, HeldUnits, Refundable, Conserved;
    ReduceConserves(r, event);
    match event
    case AbortBeforeDispatch(id) => AbortConserves(r, id);
    case Reconcile(id, occurred) => ReconcileConserves(r, id, occurred);
    case ResetToCheckpoint(keep) => ResetConserves(r, keep);
    case _ =>
  }

  lemma ReducedIff(r: Rights, event: Event)
    requires Conserved(r)
    ensures Reduce(r, event).Ok? <==> Reducible(r, event)
  {
    hide Total, HeldUnits, Refundable, Conserved;
    ReduceConserves(r, event);
    match event
    case AbortBeforeDispatch(id) => AbortConserves(r, id);
    case Reconcile(id, occurred) => ReconcileConserves(r, id, occurred);
    case ResetToCheckpoint(keep) => ResetConserves(r, keep);
    case _ =>
  }
}
