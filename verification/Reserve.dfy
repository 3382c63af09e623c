/**
 What the recovery reserve is for (crates/fa-journal/src/reserve.rs): which events may
 use the space it keeps, that ordinary events never do, and that it is enough for the
 recovery events it was provisioned for.
 */
module Reserve {
  import opened Batch
  import opened Bytes
  import opened Crc
  import opened EventCodec
  import opened FramedLog
  import opened RightsHistory
  import opened RightsJournal
  import opened RightsLedger

  // What a journal may be configured with.
  lemma ConfiguredIff(identity: Identity, limits: Limits, reserve: Option<RecoveryReserve>)
    ensures Configured(identity, limits, reserve).Ok? <==>
      && (exists i :: 0 <= i < 32 && identity.run[i] != 0) && (exists i :: 0 <= i < 32 && identity.policy[i] != 0)
      && 13 <= limits.maxFrameBytes <= 1_048_576
      && 1 <= limits.maxRecords <= 1_000_000
      && 84 <= limits.maxTotalBytes
      && (reserve.Some? ==>
        && 1 <= reserve.value.records <= limits.maxRecords
        && 21 * reserve.value.records <= reserve.value.bytes
        && 120 + reserve.value.bytes <= limits.maxTotalBytes)
  {
  }

  // What this journal keeps back: nothing without a reserve.
  function Kept(s: State): (kept: RecoveryReserve)
    ensures kept.records <= s.limits.maxRecords && kept.bytes <= s.limits.maxTotalBytes
  {
    match s.reserve
    case Some(reserve) => reserve
    case None => RecoveryReserve(0, 0)
  }

  // The event's frame fits the frame limit, and leaves this much of the file.
  predicate Fits(s: State, event: Event, records: nat, bytes: nat) {
    && 12 + |EventBytes(event)| <= s.limits.maxFrameBytes
    && s.head.sequence + 1 + records <= s.limits.maxRecords
    && s.encodedLen + 20 + |EventBytes(event)| + bytes <= s.limits.maxTotalBytes
  }

  // Revocation, uncertainty, cancellation and settlement are accepted whatever the reserve,
  // as long as the ledger takes them and the whole remaining file holds them.
  lemma RecoveryAcceptedIff(s: State, event: Event)
    requires event.RevokeEpoch? || event.MarkUnknown? || event.AbortBeforeDispatch? || event.Reconcile?
    ensures AppendStep(s, event).Ok? <==> Apply(s.rights, event).Ok? && Fits(s, event, 0, 0)
    ensures AppendStep(s, event).Err? ==>
      AppendStep(s, event).error == if Fits(s, event, 0, 0) then Apply(s.rights, event).error else Limit
  {
    hide Crc32, Apply, BodyBytes, Conserved, IsZero;
  }

  // Reservation, dispatch and reset have to leave the reserve.
  lemma OrdinaryAcceptedIff(s: State, event: Event)
    requires event.Reserve? || event.Dispatch? || event.ResetToCheckpoint?
    ensures AppendStep(s, event).Ok? <==>
      Apply(s.rights, event).Ok? && Fits(s, event, Kept(s).records, Kept(s).bytes)
    ensures AppendStep(s, event).Err? ==>
      AppendStep(s, event).error ==
        if Fits(s, event, Kept(s).records, Kept(s).bytes) then Apply(s.rights, event).error else Limit
  {
    hide Crc32, Apply, BodyBytes, Conserved, IsZero;
  }

  predicate Intact(s: State) {
    s.head.sequence + Kept(s).records <= s.limits.maxRecords && s.encodedLen + Kept(s).bytes <= s.limits.maxTotalBytes
  }

  // After any ordinary event the whole reserve is still there, whatever came before it.
  lemma OrdinaryLeavesReserve(s: State, events: seq<Event>, event: Event)
    requires event.Reserve? || event.Dispatch? || event.ResetToCheckpoint?
    requires Run(JournalLog(), s, events + [event]).Ok?
    ensures Intact(Run(JournalLog(), s, events + [event]).value.state)
  {
    hide AppendStep, EventBytes, Conserved, Run;
    RunConcat(JournalLog(), s, events, [event]);
    RunOne(s, events, event);
    var before := Run(JournalLog(), s, events).value.state;
    OrdinaryAcceptedIff(before, event);
    StepGrowth(before, event);
    StepCounts(before, event);
  }

  // A fresh journal has its reserve, and keeps it at least until the first recovery event.
  lemma {:induction false} ReserveAwaitsRecovery(
    identity: Identity, limits: Limits, reserve: Option<RecoveryReserve>, events: seq<Event>)
    requires Configured(identity, limits, reserve).Ok?
    requires Run(JournalLog(), Configured(identity, limits, reserve).value, events).Ok?
    requires forall i :: 0 <= i < |events| ==>
      events[i].Reserve? || events[i].Dispatch? || events[i].ResetToCheckpoint?
    ensures Intact(Run(JournalLog(), Configured(identity, limits, reserve).value, events).value.state)
  {
    hide AppendStep, EventBytes, Conserved, Run;
    if events == [] {
      NothingRun(Configured(identity, limits, reserve).value);
    } else {
      assert events == events[..|events| - 1] + [events[|events| - 1]];
      OrdinaryLeavesReserve(Configured(identity, limits, reserve).value, events[..|events| - 1], events[|events| - 1]);
    }
  }

  lemma NothingRun(s: State)
    ensures Run(JournalLog(), s, []) == Ok(Emitted(s, []))
  {
  }

  // The ledger a journal holds is the one its accepted events lead to.
  lemma {:induction false} RunPlays(s: State, events: seq<Event>)
    requires Run(JournalLog(), s, events).Ok?
    ensures Played(s.rights, events) == Ok(Run(JournalLog(), s, events).value.state.rights)
    decreases |events|
  {
    hide AppendStep, EventBytes, Conserved, Apply, Run;
    if events == [] {
      NothingRun(s);
    } else {
      var front, last := events[..|events| - 1], events[|events| - 1];
      assert events == front + [last];
      RunConcat(JournalLog(), s, front, [last]);
      RunPlays(s, front);
      RunOne(s, front, last);
      StepApplies(Run(JournalLog(), s, front).value.state, last);
    }
  }

  // Bytes of these events' frames.
  function Size(events: seq<Event>): nat {
    if events == [] then 0 else Size(events[..|events| - 1]) + 20 + |EventBytes(events[|events| - 1])|
  }

  // A run of recovery events is accepted iff the ledger takes them in turn and they fit.
  lemma {:induction false} RecoveryRunAcceptedIff(s: State, events: seq<Event>)
    requires forall i :: 0 <= i < |events| ==>
      events[i].RevokeEpoch? || events[i].MarkUnknown? || events[i].AbortBeforeDispatch? || events[i].Reconcile?
    ensures Run(JournalLog(), s, events).Ok? <==>
      && Played(s.rights, events).Ok?
      && (forall i :: 0 <= i < |events| ==> 12 + |EventBytes(events[i])| <= s.limits.maxFrameBytes)
      && s.head.sequence + |events| <= s.limits.maxRecords
      && s.encodedLen + Size(events) <= s.limits.maxTotalBytes
    ensures Run(JournalLog(), s, events).Ok? ==>
      var e := Run(JournalLog(), s, events).value;
      && Played(s.rights, events) == Ok(e.state.rights)
      && e.state.encodedLen == s.encodedLen + Size(events)
    decreases |events|
  {
    hide AppendStep, EventBytes, Conserved, Apply, Run;
    if events == [] {
      NothingRun(s);
    } else {
      var front, last := events[..|events| - 1], events[|events| - 1];
      assert events == front + [last];
      RecoveryRunAcceptedIff(s, front);
      RunConcat(JournalLog(), s, front, [last]);
      if Run(JournalLog(), s, front).Ok? {
        RunOne(s, front, last);
        RunGrowth(s, front);
        var before := Run(JournalLog(), s, front).value.state;
        RecoveryAcceptedIff(before, last);
        if AppendStep(before, last).Ok? {
          StepGrowth(before, last);
          StepApplies(before, last);
        }
      }
    }
  }

  lemma StepApplies(s: State, event: Event)
    requires AppendStep(s, event).Ok?
    ensures Apply(s.rights, event) == Ok(AppendStep(s, event).value.state.rights)
  {
    hide Crc32, Apply, EventBytes, CheckEventGrowth, RemainingFor;
  }

  // An intact reserve serves any recovery events the ledger takes, up to its records and
  // its bytes.
  lemma ReserveServes(s: State, events: seq<Event>)
    requires Intact(s) && |events| <= Kept(s).records && Size(events) <= Kept(s).bytes
    requires forall i :: 0 <= i < |events| ==>
      && (events[i].RevokeEpoch? || events[i].MarkUnknown? || events[i].AbortBeforeDispatch? || events[i].Reconcile?)
      && 12 + |EventBytes(events[i])| <= s.limits.maxFrameBytes
    requires Played(s.rights, events).Ok?
    ensures Run(JournalLog(), s, events).Ok?
  {
    hide Run, EventBytes;
    RecoveryRunAcceptedIff(s, events);
  }

  lemma {:induction false} RevocationsSize(n: nat)
    ensures Size(seq(n, _ => RevokeEpoch)) == 21 * n
    decreases n
  {
    if n == 0 {
    } else {
      var events := seq(n, _ => RevokeEpoch);
      assert events[..n - 1] == seq(n - 1, _ => RevokeEpoch) && events[n - 1] == RevokeEpoch;
      RevocationsSize(n - 1);
      assert |EventBytes(RevokeEpoch)| == 1;
    }
  }

  // Any reserve that may be configured is big enough for as many revocations as it has
  // records.
  lemma ReserveHoldsRevocations(s: State)
    ensures Size(seq(Kept(s).records, _ => RevokeEpoch)) <= Kept(s).bytes
  {
    RevocationsSize(Kept(s).records);
  }
}
