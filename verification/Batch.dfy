/**
 Grouped append (crates/fa-journal/src/batch.rs): one private candidate journal, one
 output buffer, per-call ceilings and cheap refusals up front. It is proved to be
 repeated append and nothing else.
 */
module Batch {
  import opened Bytes
  import opened Crc
  import opened EventCodec
  import opened FramedLog
  import opened RightsJournal
  import opened RightsLedger

  const MAX_BATCH_RECORDS: nat := 1_024
  const MAX_BATCH_ENCODED_BYTES: nat := 8 * 1024 * 1024

  datatype BatchLimits = BatchLimits(maxRecords: nat, maxEncodedBytes: nat)

  const DEFAULT_LIMITS := BatchLimits(MAX_BATCH_RECORDS, MAX_BATCH_ENCODED_BYTES)

  predicate CeilingsOk(limits: BatchLimits) {
    1 <= limits.maxRecords <= MAX_BATCH_RECORDS && 1 <= limits.maxEncodedBytes <= MAX_BATCH_ENCODED_BYTES
  }

  // The whole group fits the ceilings and repeated append would accept it.
  ghost predicate Acceptable(s: State, events: seq<Event>, limits: BatchLimits) {
    && events != []
    && CeilingsOk(limits)
    && |events| <= limits.maxRecords
    && Run(JournalLog(), s, events).Ok?
    && |Run(JournalLog(), s, events).value.frame| <= limits.maxEncodedBytes
  }

  lemma StepGrowth(s: State, event: Event)
    requires AppendStep(s, event).Ok?
    ensures
      var e := AppendStep(s, event).value;
      && |e.frame| == 20 + |EventBytes(event)| >= 21
      && e.state.encodedLen == s.encodedLen + |e.frame|
      && e.state.limits == s.limits && e.state.identity == s.identity && e.state.reserve == s.reserve
  {
    hide Crc32, Apply, BodyBytes;
  }

  lemma {:induction false} RunGrowth(s: State, events: seq<Event>)
    requires Run(JournalLog(), s, events).Ok?
    ensures
      var e := Run(JournalLog(), s, events).value;
      && |e.frame| >= 21 * |events|
      && e.state.encodedLen == s.encodedLen + |e.frame|
      && e.state.head.sequence == s.head.sequence + |events|
      && e.state.limits == s.limits && e.state.identity == s.identity && e.state.reserve == s.reserve
    decreases |events|
  {
    if events == [] {
    } else {
      StepGrowth(s, events[0]);
      StepCounts(s, events[0]);
      hide AppendStep;
      RunGrowth(JournalLog().emit(s, events[0]).value.state, events[1..]);
    }
  }

  lemma StepCounts(s: State, event: Event)
    requires AppendStep(s, event).Ok?
    ensures AppendStep(s, event).value.state.head.sequence == s.head.sequence + 1
  {
    hide Crc32, Apply, EventBytes;
  }

  lemma RunOne(s: State, events: seq<Event>, event: Event)
    requires Run(JournalLog(), s, events).Ok?
    ensures
      var e := Run(JournalLog(), s, events).value;
      Run(JournalLog(), s, events + [event]) == match AppendStep(e.state, event)
        case Ok(step) => Ok(Emitted(step.state, e.frame + step.frame))
        case Err(error) => Err(error)
  {
    hide AppendStep;
    var e := Run(JournalLog(), s, events).value;
    RunConcat(JournalLog(), s, events, [event]);
    assert [event][1..] == [];
    assert Run(JournalLog(), e.state, [event]) == match JournalLog().emit(e.state, event)
      case Ok(step) => Ok(Emitted(step.state, step.frame + []))
      case Err(error) => Err(error);
    if JournalLog().emit(e.state, event).Ok? {
      var frame := JournalLog().emit(e.state, event).value.frame;
      assert frame + [] == frame;
    }
  }

  // One push, on values: the ceiling's remainder narrows the payload limit, and the
  // record is built before the reducer is asked.
  function PushStep(s: State, used: nat, ceiling: nat, event: Event): Result<Emitted<State>, Error>
    requires used <= ceiling
  {
    var capacity := RemainingFor(s, event);
    var remaining := Min(ceiling - used, capacity.bytes);
    if capacity.records == 0 || remaining < 21 then Err(Limit)
    else if |EventBytes(event)| > Min(remaining - 20, s.limits.maxFrameBytes - 12) then Err(Limit)
    else
      var encodedLen :- CheckEventGrowth(s, event, 12 + |EventBytes(event)|);
      var body := Body(s.head.sequence + 1, s.head.checksum, EventBytes(event));
      var rights :- Apply(s.rights, event);
      Ok(Emitted(Advanced(s, rights, Crc32(Sized(body)), encodedLen), Frame(body)))
  }

  // A push is an append that also has to fit the ceiling.
  lemma PushIsBoundedAppend(s: State, used: nat, ceiling: nat, event: Event)
    requires used <= ceiling
    ensures PushStep(s, used, ceiling, event).Ok? <==>
      AppendStep(s, event).Ok? && used + |AppendStep(s, event).value.frame| <= ceiling
    ensures PushStep(s, used, ceiling, event).Ok? ==> PushStep(s, used, ceiling, event) == AppendStep(s, event)
  {
    hide Crc32, Apply, Tag, BodyBytes, Conserved, IsZero;
  }

  class Encoder {
    var candidate: Journal
    var bytes: seq<Byte>
    const limits: BatchLimits
    ghost const start: State
    ghost var done: seq<Event>

    ghost predicate IsValid()
      reads this, candidate
    {
      && candidate.IsValid()
      && Run(JournalLog(), start, done) == Ok(Emitted(candidate.Snapshot(), bytes))
      && |bytes| <= limits.maxEncodedBytes
    }

    constructor (s: State, limits: BatchLimits)
      ensures IsValid() && fresh(candidate)
      ensures start == s && done == [] && this.limits == limits
    {
      candidate := new Journal(s);
      bytes := [];
      this.limits := limits;
      start := s;
      done := [];
    }

    // Succeeds exactly when append would on the candidate and the frame still fits the
    // ceiling; the ceiling is never exceeded, so the remainder below never underflows.
    method Push(event: Event) returns (r: Result<(), Error>)
      requires IsValid()
      modifies this, candidate
      ensures candidate == old(candidate)
      ensures r.Ok? <==>
        && AppendStep(old(candidate.Snapshot()), event).Ok?
        && |old(bytes)| + |AppendStep(old(candidate.Snapshot()), event).value.frame| <= limits.maxEncodedBytes
      ensures r.Ok? ==> IsValid() && done == old(done) + [event]
    {
      hide AppendStep, JournalLog, Run;
      PushIsBoundedAppend(candidate.Snapshot(), |bytes|, limits.maxEncodedBytes, event);
      RunOne(start, done, event);
      var pushed := PushOnto(event);
      if pushed.Err? {
        return Err(pushed.error);
      }
      done := done + [event];
      return Ok(());
    }

    method PushOnto(event: Event) returns (r: Result<(), Error>)
      requires candidate.IsValid() && |bytes| <= limits.maxEncodedBytes
      modifies this`bytes, candidate
      ensures match PushStep(old(candidate.Snapshot()), |old(bytes)|, limits.maxEncodedBytes, event)
              case Ok(e) => r.Ok? && bytes == old(bytes) + e.frame && candidate.Snapshot() == e.state
              case Err(error) => r == Err(error)
    {
      hide EventBytes, Crc32, Apply, DecodeEvent, Frame, Body, Sized, Conserved, IsZero, CheckEventGrowth, FromLE, LE;
      var capacity := RemainingFor(candidate.Snapshot(), event);
      if capacity.records == 0 {
        return Err(Limit);
      }
      var remaining := Min(limits.maxEncodedBytes - |bytes|, capacity.bytes);
      if remaining < 21 {
        return Err(Limit);
      }
      var payload :- EncodeEvent(event, Min(remaining - 20, candidate.limits.maxFrameBytes - 12));
      var grown :- CheckEventGrowth(candidate.Snapshot(), event, 12 + |payload|);
      var sequence := candidate.head.sequence + 1;
      var record, checksum := Seal(sequence, candidate.head.checksum, payload);
      bytes := bytes + record;
      var rights :- Apply(candidate.rights, event);
      candidate.rights := rights;
      candidate.head := Head(sequence, checksum);
      candidate.encodedLen := grown;
      return Ok(());
    }
  }

  // The cheap refusals: none of them turns away an acceptable group of this size.
  method Begin(journal: Journal, count: nat, limits: BatchLimits) returns (r: Result<Encoder, Error>)
    requires journal.IsValid()
    ensures count == 0 ==> r == Err(InvalidInput)
    ensures r.Ok? ==>
      && fresh(r.value) && fresh(r.value.candidate) && r.value.IsValid()
      && r.value.start == journal.Snapshot() && r.value.done == [] && r.value.limits == limits
      && 0 < count <= limits.maxRecords && CeilingsOk(limits)
    ensures r.Err? ==>
      forall events: seq<Event> :: |events| == count ==> !Acceptable(journal.Snapshot(), events, limits)
  {
    hide AppendStep, Run;
    var s := journal.Snapshot();
    forall events: seq<Event> | |events| == count && Acceptable(s, events, limits)
      ensures 0 < count <= limits.maxRecords && CeilingsOk(limits)
      ensures s.head.sequence + count <= s.limits.maxRecords
      ensures count * 21 <= limits.maxEncodedBytes && s.encodedLen + count * 21 <= s.limits.maxTotalBytes
    {
      RunGrowth(s, events);
    }
    if count == 0 {
      return Err(InvalidInput);
    }
    if !CeilingsOk(limits) || count > limits.maxRecords {
      return Err(Limit);
    }
    if journal.head.sequence + count > journal.limits.maxRecords {
      return Err(Limit);
    }
    var minimum := count * 21;
    if minimum > limits.maxEncodedBytes || journal.encodedLen + minimum > journal.limits.maxTotalBytes {
      return Err(Limit);
    }
    var encoder := new Encoder(s, limits);
    return Ok(encoder);
  }

  lemma RefusedPrefix(s: State, events: seq<Event>, i: nat, limits: BatchLimits)
    requires i < |events| && Run(JournalLog(), s, events[..i]).Ok?
    requires
      var e := Run(JournalLog(), s, events[..i]).value;
      AppendStep(e.state, events[i]).Err?
      || |e.frame| + |AppendStep(e.state, events[i]).value.frame| > limits.maxEncodedBytes
    ensures !Acceptable(s, events, limits)
  {
    hide AppendStep, Run;
    RunOne(s, events[..i], events[i]);
    assert events[..i] + [events[i]] == events[..i + 1];
    if Run(JournalLog(), s, events).Ok? {
      RunPrefix(JournalLog(), s, events, i + 1);
    }
  }

  // The group is accepted exactly when it is acceptable, and then its bytes and final
  // state are those of repeated append. The journal itself is not touched.
  method PrepareBatch(journal: Journal, events: seq<Event>, limits: BatchLimits)
    returns (r: Result<(Journal, seq<Byte>), Error>)
    requires journal.IsValid()
    ensures r.Ok? <==> Acceptable(journal.Snapshot(), events, limits)
    ensures r.Ok? ==>
      && fresh(r.value.0) && r.value.0.IsValid()
      && Run(JournalLog(), journal.Snapshot(), events) == Ok(Emitted(r.value.0.Snapshot(), r.value.1))
    ensures events == [] ==> r == Err(InvalidInput)
  {
    hide AppendStep, Run, Valid, Conserved, TakeStep, RightsJournal.Valid;
    ghost var s := journal.Snapshot();
    var encoder :- Begin(journal, |events|, limits);
    for i := 0 to |events|
      invariant fresh(encoder) && fresh(encoder.candidate) && encoder.IsValid()
      invariant encoder.start == s && encoder.limits == limits && encoder.done == events[..i]
    {
      assert events[..i] + [events[i]] == events[..i + 1];
      var pushed := encoder.Push(events[i]);
      if pushed.Err? {
        RefusedPrefix(s, events, i, limits);
        return Err(pushed.error);
      }
    }
    assert events[..|events|] == events;
    return Ok((encoder.candidate, encoder.bytes));
  }

  method AppendBatch(journal: Journal, events: seq<Event>, limits: BatchLimits)
    returns (r: Result<seq<Byte>, Error>)
    requires journal.IsValid()
    modifies journal
    ensures journal.IsValid()
    ensures r.Ok? <==> Acceptable(old(journal.Snapshot()), events, limits)
    ensures r.Ok? ==> Run(JournalLog(), old(journal.Snapshot()), events) == Ok(Emitted(journal.Snapshot(), r.value))
    ensures r.Err? ==> unchanged(journal)
  {
    var prepared :- PrepareBatch(journal, events, limits);
    RunGrowth(journal.Snapshot(), events);
    journal.head := prepared.0.head;
    journal.encodedLen := prepared.0.encodedLen;
    journal.rights := prepared.0.rights;
    return Ok(prepared.1);
  }
}
