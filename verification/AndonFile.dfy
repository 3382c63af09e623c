/**
 The durable Andon ledger (crates/fa-journal/src/file.rs, module `andon`): its own
 header and chained frames around the false-stop ledger. Writer and reader form a
 faithful log, and the ledger's own bounds keep every storage limit out of reach.
 */
module AndonFile {
  import opened Andon
  import opened AndonCodec
  import opened Bytes
  import opened Crc
  import opened EventCodec
  import opened FramedLog

  const MAGIC: seq<Byte> := [0x46, 0x41, 0x41, 0x4C, 0, 0, 0, 1]
  const HEADER_BYTES: nat := 28
  const MAX_FRAME_BYTES: nat := 32_768
  const MAX_RECORDS: nat := 4224
  const MAX_FILE_BYTES: nat := 128 * 1024 * 1024

  // Sequence word, tag, six words, evidence, helper count and helpers, all at their limits.
  const MAX_BODY: nat := 8 + 1 + 48 + (4 + 4096) + 4 + 128 * (4 + 128 + 8)

  datatype AndonState = AndonState(ledger: Ledger, head: Head, encodedLen: nat)

  // One record per window and per confirmation, none longer than the largest body.
  ghost predicate Valid(s: AndonState) {
    && s.head.sequence == |s.ledger.windows| + |s.ledger.confirmations|
    && s.encodedLen <= HEADER_BYTES + s.head.sequence * (MAX_BODY + 8)
  }

  lemma SampleIsValid()
    ensures LedgerInv(RawLedger(LedgerIdentity(1, 1), map[], map[]))
    ensures Valid(AndonState(RawLedger(LedgerIdentity(1, 1), map[], map[]), Head(0, 0), 0))
  {
  }

  type State = s: AndonState | Valid(s)
    ghost witness (SampleIsValid(); AndonState(RawLedger(LedgerIdentity(1, 1), map[], map[]), Head(0, 0), 0))

  function Prologue(identity: LedgerIdentity): (b: seq<Byte>)
    ensures |b| == 24
  {
    MAGIC + LE(identity.deployment, 8) + LE(identity.evaluator, 8)
  }

  function Header(identity: LedgerIdentity): (b: seq<Byte>)
    ensures |b| == HEADER_BYTES
  {
    Prologue(identity) + LE(Crc32(Prologue(identity)), 4)
  }

  function Initial(identity: LedgerIdentity): (s: Result<State, ModelError>)
    ensures s.Ok? ==> s.value.head.sequence == 0 && s.value.encodedLen == HEADER_BYTES
    ensures s.Ok? ==> s.value.ledger.identity == identity
  {
    var ledger :- New(identity);
    Ok(AndonState(ledger, Head(0, Crc32(Prologue(identity))), HEADER_BYTES))
  }

  // ---- frames -----------------------------------------------------------------------

  function Body(sequence: U64, entry: Entry): seq<Byte> {
    LE(sequence, 8) + EntryBytes(entry)
  }

  // The chain runs through the checksum, not the body.
  function Checksum(previous: U32, body: seq<Byte>): U32 {
    Crc32(LE(previous, 4) + body)
  }

  function Frame(previous: U32, body: seq<Byte>): (b: seq<Byte>)
    ensures |b| == |body| + 8
  {
    LE(|body|, 4) + body + LE(Checksum(previous, body), 4)
  }

  // The ledger transition behind a record; a repetition is not a record.
  function ApplyEntry(ledger: Ledger, entry: Entry): Result<Ledger, Error> {
    match entry
    case Window(budget) =>
      (match Register(ledger, budget)
       case Err(reason) => Err(Model(reason))
       case Ok(r) => if r.inserted then Ok(r.ledger) else Err(Corrupt))
    case Hold(fact) =>
      (match Record(ledger, fact)
       case Err(reason) => Err(Model(reason))
       case Ok(o) => if o.result.Recorded? then Ok(o.ledger) else Err(Corrupt))
  }

  lemma ApplyCounts(ledger: Ledger, entry: Entry)
    requires ApplyEntry(ledger, entry).Ok?
    ensures
      var after := ApplyEntry(ledger, entry).value;
      && |after.windows| + |after.confirmations| == |ledger.windows| + |ledger.confirmations| + 1 <= MAX_RECORDS
      && after.identity == ledger.identity
    ensures Decodable(entry)
  {
    match entry
    case Window(budget) =>
      RegisterEffect(ledger, budget);
      LedgerIsSmall(ApplyEntry(ledger, entry).value);
    case Hold(fact) =>
      RecordEffect(ledger, fact);
      LedgerIsSmall(ApplyEntry(ledger, entry).value);
  }

  lemma LedgerIsSmall(ledger: Ledger)
    ensures |ledger.windows| <= MAX_WINDOWS && |ledger.confirmations| <= MAX_FALSE_HOLDS
  {
  }

  lemma {:induction false} HelpersSize(hs: seq<Helper>)
    requires ShortNames(hs)
    ensures |HelperBytes(hs)| <= |hs| * 140
    decreases |hs|
  {
    if hs == [] {
    } else {
      assert hs[0] in hs;
      assert |OneHelper(hs[0])| == 4 + |hs[0].name| + 8;
      HelpersSize(hs[1..]);
    }
  }

  lemma EntrySize(sequence: U64, entry: Entry)
    requires Decodable(entry)
    ensures 9 <= |Body(sequence, entry)| <= MAX_BODY
  {
    hide HelperBytes, Listed;
    match entry
    case Window(budget) =>
    case Hold(fact) =>
      HelpersSize(Listed(fact.helpers));
  }

  lemma StateIsSmall(s: State)
    ensures s.head.sequence <= MAX_RECORDS
  {
    LedgerIsSmall(s.ledger);
  }

  // The bounds keep every limit away.
  lemma GrowthFits(s: State, entry: Entry)
    requires ApplyEntry(s.ledger, entry).Ok?
    ensures s.head.sequence + 1 <= MAX_RECORDS
    ensures 9 <= |Body(s.head.sequence + 1, entry)| <= MAX_BODY <= MAX_FRAME_BYTES
    ensures s.encodedLen + |Body(s.head.sequence + 1, entry)| + 8 <= MAX_FILE_BYTES
  {
    hide LedgerInv, Register, Record, Body, Decodable, Complete, Bounded, Attributed;
    ApplyCounts(s.ledger, entry);
    EntrySize(s.head.sequence + 1, entry);
  }

  lemma GrowthKeepsValid(s: State, entry: Entry, checksum: U32)
    requires ApplyEntry(s.ledger, entry).Ok?
    ensures s.head.sequence + 1 <= MAX_RECORDS
    ensures Valid(AndonState(ApplyEntry(s.ledger, entry).value, Head(s.head.sequence + 1, checksum),
                             s.encodedLen + |Body(s.head.sequence + 1, entry)| + 8))
  {
    hide LedgerInv, Register, Record, Body, Decodable, Complete, Bounded, Attributed;
    ApplyCounts(s.ledger, entry);
    GrowthFits(s, entry);
    assert (s.head.sequence + 1) * (MAX_BODY + 8) == s.head.sequence * (MAX_BODY + 8) + (MAX_BODY + 8);
  }

  function Advanced(s: State, entry: Entry, checksum: U32, length: nat): State
    requires ApplyEntry(s.ledger, entry).Ok? && length == |Body(s.head.sequence + 1, entry)|
  {
    hide LedgerInv, Register, Record, Body;
    GrowthKeepsValid(s, entry, checksum);
    AndonState(ApplyEntry(s.ledger, entry).value, Head(s.head.sequence + 1, checksum), s.encodedLen + length + 8)
  }

  // `publish_with` up to the first byte of I/O, on values.
  function Publish(s: State, entry: Entry): Result<Emitted<State>, Error> {
    var _ :- ApplyEntry(s.ledger, entry);
    StateIsSmall(s);
    var body := Body(s.head.sequence + 1, entry);
    if s.head.sequence + 1 > MAX_RECORDS || |body| > MAX_FRAME_BYTES then Err(Limit)
    else if s.encodedLen + |body| + 8 > MAX_FILE_BYTES then Err(Limit)
    else
      Ok(Emitted(Advanced(s, entry, Checksum(s.head.checksum, body), |body|), Frame(s.head.checksum, body)))
  }

  // No storage limit ever refuses a transition the ledger accepts.
  lemma PublishNeverLimited(s: State, entry: Entry)
    ensures Publish(s, entry).Ok? <==> ApplyEntry(s.ledger, entry).Ok?
    ensures Publish(s, entry).Err? ==> Publish(s, entry).error == ApplyEntry(s.ledger, entry).error
    ensures Publish(s, entry).Ok? ==> Publish(s, entry).value.state.ledger == ApplyEntry(s.ledger, entry).value
  {
    hide ApplyEntry, Checksum, Frame, Body, LedgerInv;
    if ApplyEntry(s.ledger, entry).Ok? {
      GrowthFits(s, entry);
    }
  }

  // One turn of the reading loop in `open`.
  function TakeEntry(s: State, b: seq<Byte>): Result<Taken<State, Entry>, Error> {
    if s.head.sequence >= MAX_RECORDS || |b| < 8 then Err(Corrupt)
    else
      var length := FromLE(b[..4]);
      if length < 9 || length > MAX_FRAME_BYTES || |b| < length + 8 then Err(Corrupt)
      else
        var body := b[4..4 + length];
        var checksum := Checksum(s.head.checksum, body);
        if FromLE(body[..8]) != s.head.sequence + 1 || checksum != FromLE(b[4 + length..8 + length]) then Err(Corrupt)
        else
          hide FromLE, Checksum, ApplyEntry, LedgerInv, DecodeEntry;
          var entry :- DecodeEntry(body[8..]);
          var _ :- ApplyEntry(s.ledger, entry);
          DecodedBody(body);
          Ok(Taken(Advanced(s, entry, checksum, length), entry, b[8 + length..]))
  }

  lemma DecodedBody(body: seq<Byte>)
    requires |body| >= 9 && DecodeEntry(body[8..]).Ok?
    ensures FromLE(body[..8]) <= U64_MAX
    ensures body == Body(FromLE(body[..8]), DecodeEntry(body[8..]).value)
  {
    hide DecodeEntry, EntryBytes;
    Widths();
    LEOfFromLE(body[..8]);
    DecodedEntryReencodes(body[8..]);
    assert body == body[..8] + body[8..];
  }

  function HeadOf(s: State): Head {
    s.head
  }

  ghost function AndonLog(): Log<State, Entry> {
    Log(Publish, TakeEntry, HeadOf)
  }

  // ---- the two steps agree ------------------------------------------------------------

  lemma FrameSplits(previous: U32, body: seq<Byte>, rest: seq<Byte>)
    requires |body| < 0x1_0000_0000
    ensures
      var b := Frame(previous, body) + rest;
      && FromLE(b[..4]) == |body|
      && b[4..4 + |body|] == body
      && FromLE(b[4 + |body|..8 + |body|]) == Checksum(previous, body)
      && b[8 + |body|..] == rest
  {
    hide Checksum;
    var b := Frame(previous, body) + rest;
    Widths();
    FromLEOfLE(|body|, 4);
    FromLEOfLE(Checksum(previous, body), 4);
    assert b[..4] == LE(|body|, 4);
    assert b[4..4 + |body|] == body;
    assert b[4 + |body|..8 + |body|] == LE(Checksum(previous, body), 4);
    assert b[8 + |body|..] == rest;
  }

  lemma FrameRebuilds(previous: U32, b: seq<Byte>, length: nat)
    requires |b| >= 8 + length && FromLE(b[..4]) == length
    requires FromLE(b[4 + length..8 + length]) == Checksum(previous, b[4..4 + length])
    ensures b == Frame(previous, b[4..4 + length]) + b[8 + length..]
  {
    hide Checksum;
    var body, trailer := b[4..4 + length], b[4 + length..8 + length];
    LEOfFromLE(b[..4]);
    LEOfFromLE(trailer);
    assert b == b[..4] + body + trailer + b[8 + length..];
  }

  lemma PublishedIsTaken(s: State, entry: Entry, rest: seq<Byte>)
    requires Publish(s, entry).Ok?
    ensures
      var e := Publish(s, entry).value;
      TakeEntry(s, e.frame + rest) == Ok(Taken(e.state, entry, rest))
  {
    hide ApplyEntry, Checksum, Frame, Body, DecodeEntry, EntryBytes, FromLE, Decodable, LedgerInv;
    var body := Body(s.head.sequence + 1, entry);
    GrowthFits(s, entry);
    ApplyCounts(s.ledger, entry);
    FrameSplits(s.head.checksum, body, rest);
    BodySplits(s.head.sequence + 1, entry);
    EncodedEntryDecodes(entry);
  }

  lemma BodySplits(sequence: U64, entry: Entry)
    ensures
      var body := Body(sequence, entry);
      |body| >= 8 && FromLE(body[..8]) == sequence && body[8..] == EntryBytes(entry)
  {
    hide EntryBytes;
    Widths();
    FromLEOfLE(sequence, 8);
    assert Body(sequence, entry)[..8] == LE(sequence, 8) && Body(sequence, entry)[8..] == EntryBytes(entry);
  }

  lemma TakenIsPublished(s: State, b: seq<Byte>)
    requires TakeEntry(s, b).Ok?
    ensures
      var t := TakeEntry(s, b).value;
      && Publish(s, t.record).Ok?
      && Publish(s, t.record).value.state == t.state
      && b == Publish(s, t.record).value.frame + t.rest
  {
    hide ApplyEntry, Checksum, DecodeEntry, FromLE, EntryBytes, LedgerInv, Body, Frame;
    var length := FromLE(b[..4]);
    var body := b[4..4 + length];
    FrameRebuilds(s.head.checksum, b, length);
    DecodedBody(body);
    GrowthFits(s, TakeEntry(s, b).value.record);
  }

  // What an accepted record adds: a length, the next sequence, the record, and a checksum
  // chained to the last one.
  lemma PublishedRecord(s: State, entry: Entry)
    requires Publish(s, entry).Ok?
    ensures s.head.sequence + 1 <= MAX_RECORDS
    ensures
      var e, body := Publish(s, entry).value, LE(s.head.sequence + 1, 8) + EntryBytes(entry);
      var checksum := Crc32(LE(s.head.checksum, 4) + body);
      && e.frame == LE(|body|, 4) + body + LE(checksum, 4)
      && e.state.head == Head(s.head.sequence + 1, checksum)
      && e.state.encodedLen == s.encodedLen + |e.frame|
      && ApplyEntry(s.ledger, entry) == Ok(e.state.ledger)
  {
    hide ApplyEntry, LedgerInv, EntryBytes, Crc32;
    GrowthFits(s, entry);
  }

  lemma PublishedCounts(s: State, entry: Entry)
    requires Publish(s, entry).Ok?
    ensures Publish(s, entry).value.frame != []
    ensures Publish(s, entry).value.state.head.sequence == s.head.sequence + 1
  {
    hide ApplyEntry, Checksum, Body, Valid, LedgerInv;
  }

  lemma LogIsFaithful()
    ensures Faithful(AndonLog())
  {
    hide Publish, TakeEntry, Valid;
    forall s: State, entry: Entry, rest: seq<Byte> | Publish(s, entry).Ok?
      ensures
        var e := Publish(s, entry).value;
        TakeEntry(s, e.frame + rest) == Ok(Taken(e.state, entry, rest))
    {
      PublishedIsTaken(s, entry, rest);
    }
    forall s: State, b: seq<Byte> | TakeEntry(s, b).Ok?
      ensures
        var t := TakeEntry(s, b).value;
        && Publish(s, t.record).Ok?
        && Publish(s, t.record).value.state == t.state
        && b == Publish(s, t.record).value.frame + t.rest
    {
      TakenIsPublished(s, b);
    }
    forall s: State, entry: Entry | Publish(s, entry).Ok?
      ensures
        var e := Publish(s, entry).value;
        e.frame != [] && HeadOf(e.state).sequence == HeadOf(s).sequence + 1
    {
      PublishedCounts(s, entry);
    }
  }

  // ---- damage ----------------------------------------------------------------------------

  // Bytes that pass a frame's checksum are, behind the chain word, a codeword.
  lemma TakenIsCodeword(s: State, b: seq<Byte>)
    requires TakeEntry(s, b).Ok?
    ensures
      var n := FromLE(b[..4]) + 8;
      n <= |b| && IsCodeword(LE(s.head.checksum, 4) + b[4..n])
  {
    hide DecodeEntry, ApplyEntry, Crc32, IsCodeword, LedgerInv, Body;
    var length := FromLE(b[..4]);
    var chained := LE(s.head.checksum, 4) + b[4..4 + length];
    CodewordIffChecksum(chained, b[4 + length..8 + length]);
    assert chained + b[4 + length..8 + length] == LE(s.head.checksum, 4) + b[4..8 + length];
  }

  lemma DamagedEntryRefused(s: State, b: seq<Byte>, at: nat, damage: seq<Byte>)
    requires TakeEntry(s, b).Ok?
    requires |damage| <= 4 <= at && at + |damage| <= FromLE(b[..4]) + 8 <= |b|
    requires damage != b[at..at + |damage|]
    ensures TakeEntry(s, Patched(b, at, damage)).Err?
  {
    hide TakeEntry, IsCodeword, FromLE, LE, LedgerInv;
    var end, n := at + |damage|, FromLE(b[..4]) + 8;
    var d, chain := Patched(b, at, damage), LE(s.head.checksum, 4);
    assert d[..4] == b[..4];
    if TakeEntry(s, d).Ok? {
      TakenIsCodeword(s, b);
      TakenIsCodeword(s, d);
      assert chain + b[4..n] == (chain + b[4..at]) + b[at..end] + b[end..n];
      assert chain + d[4..n] == (chain + b[4..at]) + damage + b[end..n];
      BurstBreaksCodeword(chain + b[4..at], b[at..end], damage, b[end..n]);
    }
  }

  lemma PublishedLength(s: State, entry: Entry, rest: seq<Byte>)
    requires Publish(s, entry).Ok?
    ensures
      var frame := Publish(s, entry).value.frame;
      |frame| >= 8 && FromLE((frame + rest)[..4]) + 8 == |frame|
  {
    hide ApplyEntry, Checksum, FromLE, LedgerInv, Body;
    FrameSplits(s.head.checksum, Body(s.head.sequence + 1, entry), rest);
  }

  // Overwriting up to four consecutive bytes of record k, its length word excepted, makes
  // opening refuse under every retained head.
  lemma DamageRefused(s0: State, entries: seq<Entry>, k: nat, at: nat, damage: seq<Byte>, minimum: Head)
    requires k < |entries| && Run(AndonLog(), s0, entries).Ok?
    requires Run(AndonLog(), s0, entries[..k]).Ok? && Run(AndonLog(), s0, entries[..k + 1]).Ok?
    requires
      && |damage| <= 4
      && |Run(AndonLog(), s0, entries[..k]).value.frame| + 4 <= at
      && at + |damage| <= |Run(AndonLog(), s0, entries[..k + 1]).value.frame|
      && at + |damage| <= |Run(AndonLog(), s0, entries).value.frame|
      && damage != Run(AndonLog(), s0, entries).value.frame[at..at + |damage|]
    ensures Faithful(AndonLog())
    ensures
      var header, frames := Header(s0.ledger.identity), Run(AndonLog(), s0, entries).value.frame;
      Open(AndonLog(), s0, header, header + Patched(frames, at, damage), minimum).Err?
  {
    hide Header, Publish, TakeEntry, Faithful, IsCodeword, FromLE, Run, Replay, Open, LedgerInv, Valid;
    LogIsFaithful();
    RunNext(AndonLog(), s0, entries, k);
    var before := Run(AndonLog(), s0, entries[..k]).value;
    var frame, from := Publish(before.state, entries[k]).value.frame, at - |before.frame|;
    assert Run(AndonLog(), s0, entries).value.frame[at..at + |damage|] == frame[from..from + |damage|];
    forall rest: seq<Byte> ensures TakeEntry(before.state, Patched(frame + rest, from, damage)).Err? {
      PublishedIsTaken(before.state, entries[k], rest);
      PublishedLength(before.state, entries[k], rest);
      SliceOfFront(frame, rest, from, from + |damage|);
      DamagedEntryRefused(before.state, frame + rest, from, damage);
    }
    DamageIsMet(AndonLog(), s0, Header(s0.ledger.identity), entries, k, at, damage, minimum);
  }
}
