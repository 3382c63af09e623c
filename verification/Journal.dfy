/**
 The in-memory rights journal (crates/fa-journal/src/journal_core.rs, reserve.rs):
 framing, limits, the recovery reserve, append and strict replay. `AppendStep` and
 `TakeStep` are the writer's and the reader's step; together they are a faithful
 log, which hands this format everything proved in FramedLog.
 */
module RightsJournal {
  import opened Bytes
  import opened Crc
  import opened EventCodec
  import opened FramedLog
  import opened RightsLedger

  const HARD_FRAME_LIMIT: U32 := 1_048_576
  const MAGIC_V1: seq<Byte> := [0x46, 0x41, 0x52, 0x4A, 0, 0, 0, 1]
  const MAGIC_V2: seq<Byte> := [0x46, 0x41, 0x52, 0x4A, 0, 0, 0, 2]

  type Digest = d: seq<Byte> | |d| == 32 witness seq(32, _ => 0)

  datatype Identity = Identity(run: Digest, policy: Digest, totalUnits: U64)
  datatype Limits = Limits(maxFrameBytes: U32, maxRecords: U64, maxTotalBytes: U64)
  datatype RecoveryReserve = RecoveryReserve(records: U64, bytes: U64)
  datatype Remaining = Remaining(records: nat, bytes: nat)

  datatype JournalState = JournalState(
    identity: Identity, limits: Limits, reserve: Option<RecoveryReserve>,
    head: Head, encodedLen: U64, rights: Rights)

  // ---- configuration -------------------------------------------------------------

  predicate IsZero(d: Digest) {
    forall i :: 0 <= i < 32 ==> d[i] == 0
  }

  function HeaderLen(reserve: Option<RecoveryReserve>): nat {
    if reserve.Some? then 120 else 84
  }

  predicate LimitsOk(limits: Limits) {
    && 13 <= limits.maxFrameBytes <= HARD_FRAME_LIMIT
    && 1 <= limits.maxRecords <= 1_000_000
    && 84 <= limits.maxTotalBytes
  }

  // The checked products and sums overflow only when the bound fails anyway.
  predicate ReserveOk(reserve: RecoveryReserve, limits: Limits) {
    && 1 <= reserve.records <= limits.maxRecords
    && reserve.records * 21 <= reserve.bytes
    && 120 + reserve.bytes <= limits.maxTotalBytes
  }

  predicate Configurable(identity: Identity, limits: Limits, reserve: Option<RecoveryReserve>) {
    && !IsZero(identity.run)
    && !IsZero(identity.policy)
    && LimitsOk(limits)
    && (reserve.Some? ==> ReserveOk(reserve.value, limits))
  }

  function Prologue(identity: Identity, limits: Limits, reserve: Option<RecoveryReserve>): (b: seq<Byte>)
    ensures |b| == HeaderLen(reserve) - 4
  {
    (if reserve.Some? then MAGIC_V2 else MAGIC_V1)
    + identity.run + identity.policy + LE(identity.totalUnits, 8)
    + match reserve
      case None => []
      case Some(kept) =>
        LE(limits.maxFrameBytes, 4) + LE(limits.maxRecords, 8) + LE(limits.maxTotalBytes, 8)
        + LE(kept.records, 8) + LE(kept.bytes, 8)
  }

  function HeaderBytes(identity: Identity, limits: Limits, reserve: Option<RecoveryReserve>): (b: seq<Byte>)
    ensures |b| == HeaderLen(reserve)
  {
    Prologue(identity, limits, reserve) + LE(Crc32(Prologue(identity, limits, reserve)), 4)
  }

  predicate Valid(s: JournalState) {
    && Configurable(s.identity, s.limits, s.reserve)
    && s.head.sequence <= s.limits.maxRecords
    && s.encodedLen <= s.limits.maxTotalBytes
    && Conserved(s.rights)
  }

  function Initial(identity: Identity, limits: Limits, reserve: Option<RecoveryReserve>): (s: JournalState)
    requires Configurable(identity, limits, reserve)
    ensures Valid(s)
  {
    FreshIsConserved(identity.totalUnits);
    JournalState(
      identity, limits, reserve, Head(0, Crc32(Prologue(identity, limits, reserve))),
      HeaderLen(reserve), Fresh(identity.totalUnits))
  }

  function Sample(id: Digest, units: U64): (s: JournalState)
    requires !IsZero(id)
    ensures Valid(s)
  {
    FreshIsConserved(units);
    JournalState(Identity(id, id, units), Limits(13, 1, 84), None, Head(0, 0), 84, Fresh(units))
  }

  const ONES_DIGEST: Digest := seq(32, _ => 1)

  lemma OnesAreNotZero()
    ensures !IsZero(ONES_DIGEST)
  {
    assert ONES_DIGEST[0] == 1;
  }

  type State = s: JournalState | Valid(s) witness (OnesAreNotZero(); Sample(ONES_DIGEST, 0))

  function Configured(identity: Identity, limits: Limits, reserve: Option<RecoveryReserve>): Result<State, Error> {
    if IsZero(identity.run) || IsZero(identity.policy) then Err(InvalidInput)
    else if !LimitsOk(limits) then Err(Limit)
    else if reserve.Some? && !ReserveOk(reserve.value, limits) then Err(Limit)
    else Ok(Initial(identity, limits, reserve))
  }

  function Header(s: State): seq<Byte> {
    HeaderBytes(s.identity, s.limits, s.reserve)
  }

  // ---- growth ----------------------------------------------------------------------

  function SaturatingSub(a: nat, b: nat): nat {
    if a >= b then a - b else 0
  }

  predicate MayUseReserve(event: Event) {
    event.RevokeEpoch? || event.MarkUnknown? || event.AbortBeforeDispatch? || event.Reconcile?
  }

  function RemainingFor(s: State, event: Event): Remaining {
    if MayUseReserve(event) || s.reserve.None? then
      Remaining(s.limits.maxRecords - s.head.sequence, s.limits.maxTotalBytes - s.encodedLen)
    else
      Remaining(
        SaturatingSub(s.limits.maxRecords - s.reserve.value.records, s.head.sequence),
        SaturatingSub(s.limits.maxTotalBytes - s.reserve.value.bytes, s.encodedLen))
  }

  function CheckGrowth(s: State, bodyLen: nat): Result<U64, Error> {
    if bodyLen < 13 || bodyLen > s.limits.maxFrameBytes || s.head.sequence >= s.limits.maxRecords then Err(Limit)
    else if s.encodedLen + bodyLen + 8 > s.limits.maxTotalBytes then Err(Limit)
    else Ok(s.encodedLen + bodyLen + 8)
  }

  function CheckEventGrowth(s: State, event: Event, bodyLen: nat): Result<U64, Error> {
    var encodedLen :- CheckGrowth(s, bodyLen);
    var remaining := RemainingFor(s, event);
    if remaining.records == 0 || encodedLen - s.encodedLen > remaining.bytes then Err(Limit)
    else Ok(encodedLen)
  }

  // ---- frames ----------------------------------------------------------------------

  function Sized(body: seq<Byte>): seq<Byte> {
    LE(|body|, 4) + body
  }

  function Frame(body: seq<Byte>): (b: seq<Byte>)
    ensures |b| == |body| + 8
  {
    Sized(body) + LE(Crc32(Sized(body)), 4)
  }

  function Body(sequence: U64, previous: U32, payload: seq<Byte>): (b: seq<Byte>)
    ensures |b| == 12 + |payload|
  {
    LE(sequence, 8) + LE(previous, 4) + payload
  }

  function Advanced(s: State, rights: Rights, checksum: U32, encodedLen: U64): (n: State)
    requires s.head.sequence < s.limits.maxRecords && encodedLen <= s.limits.maxTotalBytes && Conserved(rights)
  {
    s.(rights := rights, head := Head(s.head.sequence + 1, checksum), encodedLen := encodedLen)
  }

  function AppendStep(s: State, event: Event): Result<Emitted<State>, Error> {
    var remaining := RemainingFor(s, event);
    if remaining.records == 0 || remaining.bytes < 21 then Err(Limit)
    else if |EventBytes(event)| > Min(remaining.bytes - 20, s.limits.maxFrameBytes - 12) then Err(Limit)
    else
      var payload := EventBytes(event);
      var encodedLen :- CheckEventGrowth(s, event, 12 + |payload|);
      var body := Body(s.head.sequence + 1, s.head.checksum, payload);
      var rights :- Apply(s.rights, event);
      Ok(Emitted(Advanced(s, rights, Crc32(Sized(body)), encodedLen), Frame(body)))
  }

  function TakeStep(s: State, b: seq<Byte>): Result<Taken<State, Event>, Error> {
    if |b| < 4 then Err(Io)
    else
      var bodyLen := FromLE(b[..4]);
      var encodedLen :- CheckGrowth(s, bodyLen);
      if |b| < bodyLen + 8 then Err(Io)
      else
        var body := b[4..4 + bodyLen];
        var checksum := Crc32(b[..4] + body);
        if FromLE(b[4 + bodyLen..8 + bodyLen]) != checksum then Err(Corrupt)
        else if FromLE(body[..8]) != s.head.sequence + 1 || FromLE(body[8..12]) != s.head.checksum then Err(Corrupt)
        else
          var event :- DecodeEvent(body[12..]);
          var _ :- CheckEventGrowth(s, event, bodyLen);
          var rights :- Apply(s.rights, event);
          Ok(Taken(Advanced(s, rights, checksum, encodedLen), event, b[8 + bodyLen..]))
  }

  function HeadOf(s: State): Head {
    s.head
  }

  ghost function JournalLog(): Log<State, Event> {
    Log(AppendStep, TakeStep, HeadOf)
  }

  lemma LogHead(s: State)
    ensures JournalLog().head(s) == s.head
  {
  }

  // ---- the two steps agree -----------------------------------------------------------

  lemma FrameSplits(body: seq<Byte>, rest: seq<Byte>)
    requires |body| < 0x1_0000_0000
    ensures
      var b := Frame(body) + rest;
      && b[..4] == LE(|body|, 4)
      && FromLE(b[..4]) == |body|
      && b[4..4 + |body|] == body
      && b[..4] + body == Sized(body)
      && FromLE(b[4 + |body|..8 + |body|]) == Crc32(Sized(body))
      && b[8 + |body|..] == rest
  {
    var b := Frame(body) + rest;
    Widths();
    FromLEOfLE(|body|, 4);
    FromLEOfLE(Crc32(Sized(body)), 4);
    assert b[..4] == LE(|body|, 4);
    assert b[4..4 + |body|] == body;
    assert b[4 + |body|..8 + |body|] == LE(Crc32(Sized(body)), 4);
    assert b[8 + |body|..] == rest;
  }

  lemma BodySplits(sequence: U64, previous: U32, payload: seq<Byte>)
    ensures
      var body := Body(sequence, previous, payload);
      && FromLE(body[..8]) == sequence
      && FromLE(body[8..12]) == previous
      && body[12..] == payload
  {
    var body := Body(sequence, previous, payload);
    Widths();
    FromLEOfLE(sequence, 8);
    FromLEOfLE(previous, 4);
    assert body[..8] == LE(sequence, 8);
    assert body[8..12] == LE(previous, 4);
    assert body[12..] == payload;
  }

  lemma FrameRebuilds(b: seq<Byte>, bodyLen: nat)
    requires |b| >= 8 + bodyLen && FromLE(b[..4]) == bodyLen
    requires FromLE(b[4 + bodyLen..8 + bodyLen]) == Crc32(b[..4] + b[4..4 + bodyLen])
    ensures b[..4] + b[4..4 + bodyLen] == Sized(b[4..4 + bodyLen])
    ensures b == Frame(b[4..4 + bodyLen]) + b[8 + bodyLen..]
  {
    var body, trailer := b[4..4 + bodyLen], b[4 + bodyLen..8 + bodyLen];
    LEOfFromLE(b[..4]);
    LEOfFromLE(trailer);
    assert b[..4] + body == Sized(body);
    assert b == b[..4] + body + trailer + b[8 + bodyLen..];
  }

  lemma BodyRebuilds(body: seq<Byte>)
    requires |body| >= 12
    ensures FromLE(body[..8]) <= U64_MAX && FromLE(body[8..12]) < 0x1_0000_0000
    ensures body == Body(FromLE(body[..8]), FromLE(body[8..12]), body[12..])
  {
    Widths();
    LEOfFromLE(body[..8]);
    LEOfFromLE(body[8..12]);
    assert body == body[..8] + body[8..12] + body[12..];
  }

  // What append writes, replay reads back: same event, same next state, same rest.
  lemma AppendedIsTaken(s: State, event: Event, rest: seq<Byte>)
    requires AppendStep(s, event).Ok?
    ensures
      var e := AppendStep(s, event).value;
      TakeStep(s, e.frame + rest) == Ok(Taken(e.state, event, rest))
  {
    hide DecodeEvent, EventBytes, Crc32, Apply, Frame, Body, Sized, Header, FromLE;
    var payload := EventBytes(event);
    var body := Body(s.head.sequence + 1, s.head.checksum, payload);
    FrameSplits(body, rest);
    BodySplits(s.head.sequence + 1, s.head.checksum, payload);
    EncodedDecodes(event);
  }

  // What replay reads, append writes: byte for byte, under the same limits.
  lemma TakenIsAppended(s: State, b: seq<Byte>)
    requires TakeStep(s, b).Ok?
    ensures
      var t := TakeStep(s, b).value;
      && AppendStep(s, t.record).Ok?
      && AppendStep(s, t.record).value.state == t.state
      && b == AppendStep(s, t.record).value.frame + t.rest
  {
    hide DecodeEvent, EventBytes, Crc32, Apply, FromLE;
    var bodyLen := FromLE(b[..4]);
    var body := b[4..4 + bodyLen];
    FrameRebuilds(b, bodyLen);
    BodyRebuilds(body);
    DecodedReencodes(body[12..]);
  }

  // What an accepted event adds: a length, the next sequence, the last checksum, the event,
  // and the checksum of all that, which becomes the next link.
  lemma AppendedRecord(s: State, event: Event)
    requires AppendStep(s, event).Ok?
    ensures
      var e, payload := AppendStep(s, event).value, EventBytes(event);
      var message := LE(12 + |payload|, 4) + (LE(s.head.sequence + 1, 8) + LE(s.head.checksum, 4) + payload);
      && e.frame == message + LE(Crc32(message), 4)
      && e.state.head == Head(s.head.sequence + 1, Crc32(message))
      && e.state.encodedLen == s.encodedLen + |e.frame|
      && Apply(s.rights, event) == Ok(e.state.rights)
      && (e.state.identity, e.state.limits, e.state.reserve) == (s.identity, s.limits, s.reserve)
  {
    hide Crc32, Apply, EventBytes, RemainingFor;
  }

  lemma AppendedCounts(s: State, event: Event)
    requires AppendStep(s, event).Ok?
    ensures AppendStep(s, event).value.frame != []
    ensures AppendStep(s, event).value.state.head.sequence == s.head.sequence + 1
  {
    hide Crc32, Apply, EventBytes, CheckEventGrowth, RemainingFor;
  }

  lemma LogIsFaithful()
    ensures Faithful(JournalLog())
  {
    hide AppendStep, TakeStep;
    forall s: State, event: Event, rest: seq<Byte> | AppendStep(s, event).Ok?
      ensures
        var e := AppendStep(s, event).value;
        TakeStep(s, e.frame + rest) == Ok(Taken(e.state, event, rest))
    {
      AppendedIsTaken(s, event, rest);
    }
    forall s: State, b: seq<Byte> | TakeStep(s, b).Ok?
      ensures
        var t := TakeStep(s, b).value;
        && AppendStep(s, t.record).Ok?
        && AppendStep(s, t.record).value.state == t.state
        && b == AppendStep(s, t.record).value.frame + t.rest
    {
      TakenIsAppended(s, b);
    }
    forall s: State, event: Event | AppendStep(s, event).Ok?
      ensures
        var e := AppendStep(s, event).value;
        e.frame != [] && HeadOf(e.state).sequence == HeadOf(s).sequence + 1
    {
      AppendedCounts(s, event);
    }
  }

  // ---- the theorems of FramedLog, for this journal ------------------------------------

  // Replay accepts exactly the byte language append writes.
  lemma ReplayLanguage(
    identity: Identity, limits: Limits, reserve: Option<RecoveryReserve>, image: seq<Byte>, minimum: Head, s: State)
    requires Configured(identity, limits, reserve).Ok?
    ensures Faithful(JournalLog())
    ensures
      var s0 := Configured(identity, limits, reserve).value;
      Open(JournalLog(), s0, Header(s0), image, minimum) == Ok(s) <==>
        exists events: seq<Event>, k: nat :: WrittenBy(JournalLog(), s0, Header(s0), image, minimum, s, events, k)
  {
    LogIsFaithful();
    InitialHead(identity, limits, reserve);
    var s0 := Configured(identity, limits, reserve).value;
    OpenLanguage(JournalLog(), s0, Header(s0), image, minimum, s);
  }

  // A canonical stream cut anywhere is read as a shorter canonical stream or refused.
  lemma TruncationNeverMisread(s0: State, events: seq<Event>, k: nat, minimum: Head, cut: nat, s: State)
    requires s0.head.sequence == 0
    requires Run(JournalLog(), s0, events).Ok? && HeadAt(JournalLog(), s0, events, k, minimum)
    requires cut <= |Header(s0) + Run(JournalLog(), s0, events).value.frame|
    ensures Faithful(JournalLog())
    ensures
      var whole := Header(s0) + Run(JournalLog(), s0, events).value.frame;
      Open(JournalLog(), s0, Header(s0), whole[..cut], minimum) == Ok(s) <==>
        exists m: nat :: k <= m && CutAfter(JournalLog(), s0, Header(s0), events, cut, s, m)
  {
    LogIsFaithful();
    CutOpens(JournalLog(), s0, Header(s0), events, k, minimum, cut, s);
  }

  // Bytes that pass a record's length and checksum tests are a codeword.
  lemma TakenIsCodeword(s: State, b: seq<Byte>)
    requires TakeStep(s, b).Ok?
    ensures
      var n := FromLE(b[..4]) + 8;
      n <= |b| && IsCodeword(b[..n])
  {
    hide DecodeEvent, Crc32, Apply, IsCodeword;
    var bodyLen := FromLE(b[..4]);
    assert b[..4] + b[4..4 + bodyLen] == b[..4 + bodyLen];
    CodewordIffChecksum(b[..4 + bodyLen], b[4 + bodyLen..8 + bodyLen]);
    assert b[..4 + bodyLen] + b[4 + bodyLen..8 + bodyLen] == b[..bodyLen + 8];
  }

  // Damage confined to four consecutive bytes of a record's body and checksum is
  // never read as a record.
  lemma DamagedRecordRefused(s: State, b: seq<Byte>, at: nat, damage: seq<Byte>)
    requires TakeStep(s, b).Ok?
    requires |damage| <= 4 <= at && at + |damage| <= FromLE(b[..4]) + 8 <= |b|
    requires damage != b[at..at + |damage|]
    ensures TakeStep(s, Patched(b, at, damage)).Err?
  {
    hide TakeStep, IsCodeword, FromLE;
    var end, n := at + |damage|, FromLE(b[..4]) + 8;
    var d := Patched(b, at, damage);
    assert d[..4] == b[..4];
    if TakeStep(s, d).Ok? {
      TakenIsCodeword(s, b);
      TakenIsCodeword(s, d);
      assert b[..n] == b[..at] + b[at..end] + b[end..n];
      assert d[..n] == b[..at] + damage + b[end..n];
      BurstBreaksCodeword(b[..at], b[at..end], damage, b[end..n]);
    }
  }

  // Overwriting up to four consecutive bytes of record k, its length word excepted,
  // makes replay refuse under every retained head.
  lemma DamageRefused(s0: State, events: seq<Event>, k: nat, at: nat, damage: seq<Byte>, minimum: Head)
    requires k < |events| && Run(JournalLog(), s0, events).Ok?
    requires Run(JournalLog(), s0, events[..k]).Ok? && Run(JournalLog(), s0, events[..k + 1]).Ok?
    requires
      && |damage| <= 4
      && |Run(JournalLog(), s0, events[..k]).value.frame| + 4 <= at
      && at + |damage| <= |Run(JournalLog(), s0, events[..k + 1]).value.frame|
      && at + |damage| <= |Run(JournalLog(), s0, events).value.frame|
      && damage != Run(JournalLog(), s0, events).value.frame[at..at + |damage|]
    ensures Faithful(JournalLog())
    ensures
      var frames := Run(JournalLog(), s0, events).value.frame;
      Open(JournalLog(), s0, Header(s0), Header(s0) + Patched(frames, at, damage), minimum).Err?
  {
    hide Header, AppendStep, TakeStep, Faithful, IsCodeword, FromLE, Run, Replay, Open;
    LogIsFaithful();
    RunNext(JournalLog(), s0, events, k);
    var before := Run(JournalLog(), s0, events[..k]).value;
    var frame, from := AppendStep(before.state, events[k]).value.frame, at - |before.frame|;
    assert Run(JournalLog(), s0, events).value.frame[at..at + |damage|] == frame[from..from + |damage|];
    forall rest: seq<Byte> ensures TakeStep(before.state, Patched(frame + rest, from, damage)).Err? {
      AppendedIsTaken(before.state, events[k], rest);
      AppendedLength(before.state, events[k], rest);
      SliceOfFront(frame, rest, from, from + |damage|);
      DamagedRecordRefused(before.state, frame + rest, from, damage);
    }
    DamageIsMet(JournalLog(), s0, Header(s0), events, k, at, damage, minimum);
  }

  lemma AppendedLength(s: State, event: Event, rest: seq<Byte>)
    requires AppendStep(s, event).Ok?
    ensures
      var frame := AppendStep(s, event).value.frame;
      |frame| >= 8 && FromLE((frame + rest)[..4]) + 8 == |frame|
  {
    hide EventBytes, Crc32, Apply, FromLE;
    FrameSplits(Body(s.head.sequence + 1, s.head.checksum, EventBytes(event)), rest);
  }

  lemma InitialHead(identity: Identity, limits: Limits, reserve: Option<RecoveryReserve>)
    requires Configured(identity, limits, reserve).Ok?
    ensures JournalLog().head(Configured(identity, limits, reserve).value).sequence == 0
  {
  }

  // ---- the journal object --------------------------------------------------------------

  lemma JoinedOne(bytes: seq<Byte>)
    ensures Joined([bytes]) == bytes
  {
    assert [bytes][..0] == [];
    assert [] + bytes == bytes;
  }

  lemma JoinedTwo(a: seq<Byte>, b: seq<Byte>)
    ensures Joined([a, b]) == a + b
  {
    assert [a, b][..1] == [a];
    JoinedOne(a);
  }

  lemma BodyReadsOff(body: seq<Byte>)
    requires |body| >= 12
    ensures FromLE(body[..8]) <= U64_MAX && FromLE(body[8..12]) < 0x1_0000_0000
    ensures GetU64(body) == Ok(Parsed(FromLE(body[..8]), body[8..]))
    ensures GetU32(body[8..]) == Ok(Parsed(FromLE(body[8..12]), body[12..]))
  {
    Widths();
    assert body[8..][..4] == body[8..12];
    assert body[8..][4..] == body[12..];
  }

  // A complete record: length, sequence, chain, payload, checksum.
  method Seal(sequence: U64, previous: U32, payload: seq<Byte>) returns (record: seq<Byte>, checksum: U32)
    ensures checksum == Crc32(Sized(Body(sequence, previous, payload)))
    ensures record == Frame(Body(sequence, previous, payload))
  {
    hide Crc32;
    record := LE(12 + |payload|, 4) + LE(sequence, 8) + LE(previous, 4) + payload;
    assert record == Sized(Body(sequence, previous, payload)) by {
      Glue(LE(12 + |payload|, 4), LE(sequence, 8), LE(previous, 4));
      Glue(LE(12 + |payload|, 4), LE(sequence, 8) + LE(previous, 4), payload);
    }
    checksum := Crc32Parts([record]);
    JoinedOne(record);
    record := record + LE(checksum, 4);
  }

  class Journal {
    const identity: Identity
    const limits: Limits
    const reserve: Option<RecoveryReserve>
    var head: Head
    var encodedLen: U64
    var rights: Rights

    function Snapshot(): JournalState
      reads this
    {
      JournalState(identity, limits, reserve, head, encodedLen, rights)
    }

    ghost predicate IsValid()
      reads this
    {
      Valid(Snapshot())
    }

    // A fresh journal, or a clone of one.
    constructor (s: State)
      ensures IsValid() && Snapshot() == s
    {
      identity, limits, reserve := s.identity, s.limits, s.reserve;
      head, encodedLen, rights := s.head, s.encodedLen, s.rights;
    }

    method Append(event: Event) returns (r: Result<seq<Byte>, Error>)
      requires IsValid()
      modifies this
      ensures IsValid()
      ensures match AppendStep(old(Snapshot()), event)
              case Ok(e) => r == Ok(e.frame) && Snapshot() == e.state
              case Err(error) => r == Err(error) && unchanged(this)
    {
      hide EventBytes, Crc32, Apply, DecodeEvent, Frame, Body, Sized;
      var remaining := RemainingFor(Snapshot(), event);
      if remaining.records == 0 || remaining.bytes < 21 {
        return Err(Limit);
      }
      var payload :- EncodeEvent(event, Min(remaining.bytes - 20, limits.maxFrameBytes - 12));
      var sequence := head.sequence + 1;
      var grown :- CheckEventGrowth(Snapshot(), event, 12 + |payload|);
      var frame, checksum := Seal(sequence, head.checksum, payload);
      var candidate :- Apply(rights, event);
      AppliedIsConserved(rights, event);
      rights := candidate;
      head := Head(sequence, checksum);
      encodedLen := grown;
      return Ok(frame);
    }

    // One turn of the replay loop, after the first byte of a record was seen.
    method ReadRecord(input: seq<Byte>) returns (r: Result<seq<Byte>, Error>)
      requires IsValid()
      modifies this
      ensures IsValid()
      ensures match TakeStep(old(Snapshot()), input)
              case Ok(t) => r == Ok(t.rest) && Snapshot() == t.state
              case Err(error) => r == Err(error) && unchanged(this)
    {
      hide EventBytes, Crc32, Apply, DecodeEvent, GetU64, GetU32, CheckEventGrowth, FromLE, Joined, Conserved, IsZero;
      if |input| < 4 {
        return Err(Io);
      }
      var length := input[..4];
      var bodyLen := FromLE(length);
      var grown :- CheckGrowth(Snapshot(), bodyLen);
      if |input| < bodyLen + 8 {
        return Err(Io);
      }
      var body := input[4..4 + bodyLen];
      var checksum := FromLE(input[4 + bodyLen..8 + bodyLen]);
      var actual := Crc32Parts([length, body]);
      JoinedTwo(length, body);
      if checksum != actual {
        return Err(Corrupt);
      }
      var cursor := new Cursor(body);
      BodyReadsOff(body);
      var sequence := cursor.U64();
      var previous := cursor.U32();
      if sequence != Ok(head.sequence + 1) || previous != Ok(head.checksum) {
        return Err(Corrupt);
      }
      var event :- Decode(cursor.rest);
      var _ :- CheckEventGrowth(Snapshot(), event, bodyLen);
      var after :- Apply(rights, event);
      AppliedIsConserved(rights, event);
      rights := after;
      head := Head(sequence.value, checksum);
      encodedLen := grown;
      return Ok(input[8 + bodyLen..]);
    }

    // Strict replay of a complete stream under an independently retained head.
    static method ReplayAll(
      input: seq<Byte>, identity: Identity, limits: Limits, reserve: Option<RecoveryReserve>, minimum: Head)
      returns (r: Result<Journal, Error>)
      ensures Faithful(JournalLog())
      ensures match Configured(identity, limits, reserve)
              case Err(error) => r == Err(error)
              case Ok(s0) =>
                match Open(JournalLog(), s0, Header(s0), input, minimum)
                case Err(error) => r == Err(error)
                case Ok(s) => r.Ok? && r.value.IsValid() && r.value.Snapshot() == s && fresh(r.value)
    {
      hide AppendStep, TakeStep, Header, HeaderBytes, Faithful, Crc32;
      LogIsFaithful();
      var s0 :- Configured(identity, limits, reserve);
      var journal := new Journal(s0);
      var header := Header(s0);
      if |input| < |header| {
        return Err(Io);
      }
      if input[..|header|] != header {
        return Err(Binding);
      }
      var anchorSeen := minimum == journal.head;
      if minimum.sequence == 0 && !anchorSeen {
        return Err(Binding);
      }
      var rest := input[|header|..];
      while rest != []
        invariant fresh(journal) && journal.IsValid()
        invariant Replay(JournalLog(), s0, input[|header|..], minimum) ==
          Replay(JournalLog(), journal.Snapshot(), rest, minimum)
        invariant anchorSeen <==> minimum.sequence <= journal.head.sequence
        decreases |rest|
      {
        ghost var before, unread := journal.Snapshot(), rest;
        TakenShrinks(before, unread);
        rest :- journal.ReadRecord(rest);
        if journal.head.sequence == minimum.sequence {
          if journal.head != minimum {
            return Err(Binding);
          }
          anchorSeen := true;
        }
      }
      if !anchorSeen {
        return Err(BehindAnchor);
      }
      return Ok(journal);
    }
  }

  lemma TakenShrinks(s: State, b: seq<Byte>)
    ensures TakeStep(s, b).Ok? ==>
      |TakeStep(s, b).value.rest| < |b| && TakeStep(s, b).value.state.head.sequence == s.head.sequence + 1
  {
    hide DecodeEvent, Crc32, Apply;
  }
}
