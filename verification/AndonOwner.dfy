/**
 The exclusively locked owner of an Andon file: `FileAndonLedger` in
 crates/fa-journal/src/file.rs. Same crash discipline as the rights journal: poison
 before the first byte, publish after the sync, recover only by strict replay.
 */
module AndonOwner {
  import opened Andon
  import opened AndonCodec
  import opened AndonFile
  import AndonReview
  import opened Bytes
  import opened Crc
  import opened EventCodec
  import opened FramedLog
  import opened Order
  import RightsFile

  type FileError = RightsFile.FileError
  type Persist = RightsFile.Persist

  // ---- encoding a record, as the source fills its buffer --------------------------------

  lemma {:induction false} HelperBytesAppend(hs: seq<Helper>, h: Helper)
    ensures HelperBytes(hs + [h]) == HelperBytes(hs) + OneHelper(h)
    decreases |hs|
  {
    hide OneHelper;
    if hs == [] {
      assert [h][1..] == [];
    } else {
      assert (hs + [h])[1..] == hs[1..] + [h];
      HelperBytesAppend(hs[1..], h);
      Glue(OneHelper(hs[0]), HelperBytes(hs[1..]), OneHelper(h));
    }
  }

  method PutHelpers(out: seq<Byte>, hs: seq<Helper>) returns (r: seq<Byte>)
    ensures r == out + HelperBytes(hs)
  {
    r := out;
    for i := 0 to |hs|
      invariant r == out + HelperBytes(hs[..i])
    {
      r := r + Blob(hs[i].name) + LE(hs[i].generation, 8);
      assert r == out + HelperBytes(hs[..i]) + OneHelper(hs[i]) by {
        Glue(out + HelperBytes(hs[..i]), Blob(hs[i].name), LE(hs[i].generation, 8));
      }
      hide OneHelper, HelperBytes;
      Glue(out, HelperBytes(hs[..i]), OneHelper(hs[i]));
      HelperBytesAppend(hs[..i], hs[i]);
      assert hs[..i + 1] == hs[..i] + [hs[i]];
    }
    assert hs[..|hs|] == hs;
  }

  method EncodeEntry(sequence: U64, entry: Entry) returns (body: seq<Byte>)
    ensures body == Body(sequence, entry)
  {
    hide IdBytes, HelperBytes, Blob, Listed;
    match entry {
      case Window(budget) =>
        body := PutIds(LE(sequence, 8) + [1], BudgetWords(budget));
        Glue(LE(sequence, 8), [1], IdBytes(BudgetWords(budget)));
      case Hold(fact) =>
        body := PutIds(LE(sequence, 8) + [2], FactWords(fact));
        var count := LE(|fact.helpers|, 4);
        ghost var start := body;
        body := PutHelpers(body + Blob(fact.evidenceRoot) + count, Listed(fact.helpers));
        assert body == start + (Blob(fact.evidenceRoot) + TeamBytes(fact.helpers)) by {
          var a, b, c := Blob(fact.evidenceRoot), count, HelperBytes(Listed(fact.helpers));
          Glue(start, a, b);
          Glue(start, a + b, c);
          Glue(a, b, c);
        }
        Glue(LE(sequence, 8), [2], IdBytes(FactWords(fact)));
        Glue(LE(sequence, 8) + [2], IdBytes(FactWords(fact)), Blob(fact.evidenceRoot) + TeamBytes(fact.helpers));
        Glue(LE(sequence, 8), [2], FactBytes(fact));
    }
  }

  // `frame`: refuses past the record count or the frame size.
  method FrameEntry(head: Head, entry: Entry) returns (r: Result<(seq<Byte>, Head), Error>)
    ensures head.sequence >= MAX_RECORDS ==> r == Err(Limit)
    ensures head.sequence < MAX_RECORDS ==>
      var body := Body(head.sequence + 1, entry);
      r == if |body| > MAX_FRAME_BYTES then Err(Limit)
        else Ok((Frame(head.checksum, body), Head(head.sequence + 1, Checksum(head.checksum, body))))
  {
    hide Body, Crc32;
    if head.sequence == U64_MAX {
      return Err(Limit);
    }
    var sequence := head.sequence + 1;
    if sequence > MAX_RECORDS {
      return Err(Limit);
    }
    var body := EncodeEntry(sequence, entry);
    if |body| > MAX_FRAME_BYTES {
      return Err(Limit);
    }
    var checksum := ChainChecksum(head.checksum, body);
    return Ok((LE(|body|, 4) + body + LE(checksum, 4), Head(sequence, checksum)));
  }

  method ChainChecksum(previous: U32, body: seq<Byte>) returns (c: U32)
    ensures c == Checksum(previous, body)
  {
    hide Crc32;
    c := Crc32Parts([LE(previous, 4) + body]);
    assert [LE(previous, 4) + body][..0] == [];
    assert [] + (LE(previous, 4) + body) == LE(previous, 4) + body;
  }

  // One turn of the reading loop.
  method ReadEntry(s: State, b: seq<Byte>) returns (r: Result<Taken<State, Entry>, Error>)
    ensures r == TakeEntry(s, b)
  {
    hide ApplyEntry, LedgerInv, DecodeEntry, Checksum, Body, FromLE;
    if s.head.sequence >= MAX_RECORDS || |b| < 8 {
      return Err(Corrupt);
    }
    var length := FromLE(b[..4]);
    if length < 9 || length > MAX_FRAME_BYTES {
      return Err(Corrupt);
    }
    if |b| < length + 8 {
      return Err(Corrupt);
    }
    var body := b[4..4 + length];
    var checksum := ChainChecksum(s.head.checksum, body);
    if FromLE(body[..8]) != s.head.sequence + 1 || checksum != FromLE(b[4 + length..8 + length]) {
      return Err(Corrupt);
    }
    var entry :- AndonCodec.Decode(body[8..]);
    var _ :- ApplyEntry(s.ledger, entry);
    DecodedBody(body);
    return Ok(Taken(Advanced(s, entry, checksum, length), entry, b[8 + length..]));
  }

  // ---- sizes ---------------------------------------------------------------------------

  lemma {:induction false} RunGrowth(s: State, entries: seq<Entry>)
    requires Run(AndonLog(), s, entries).Ok?
    ensures
      var e := Run(AndonLog(), s, entries).value;
      && e.state.encodedLen == s.encodedLen + |e.frame|
      && e.state.ledger.identity == s.ledger.identity
    decreases |entries|
  {
    hide LedgerInv, Checksum, Body;
    if entries == [] {
    } else {
      PublishGrowth(s, entries[0]);
      hide Publish;
      RunGrowth(AndonLog().emit(s, entries[0]).value.state, entries[1..]);
    }
  }

  lemma PublishGrowth(s: State, entry: Entry)
    requires Publish(s, entry).Ok?
    ensures
      var e := Publish(s, entry).value;
      e.state.encodedLen == s.encodedLen + |e.frame| && e.state.ledger.identity == s.ledger.identity
  {
    hide LedgerInv, Checksum, Body, ApplyEntry;
    ApplyCounts(s.ledger, entry);
  }

  lemma FileIsSmall(s: State)
    ensures s.encodedLen <= MAX_FILE_BYTES && s.head.sequence <= MAX_RECORDS
  {
    hide LedgerInv;
    StateIsSmall(s);
  }

  ghost predicate IsInitial(s: State) {
    Initial(s.ledger.identity) == Ok(s)
  }

  // The records behind an accepted image, and the bounds they imply.
  lemma OpenedHistory(s0: State, image: seq<Byte>, minimum: Head) returns (entries: seq<Entry>)
    requires Faithful(AndonLog()) && IsInitial(s0)
    requires Open(AndonLog(), s0, Header(s0.ledger.identity), image, minimum).Ok?
    ensures Run(AndonLog(), s0, entries).Ok?
    ensures image == Header(s0.ledger.identity) + Run(AndonLog(), s0, entries).value.frame
    ensures Run(AndonLog(), s0, entries).value.state ==
      Open(AndonLog(), s0, Header(s0.ledger.identity), image, minimum).value
    ensures |image| == Run(AndonLog(), s0, entries).value.state.encodedLen <= MAX_FILE_BYTES
    ensures minimum.sequence <= MAX_RECORDS
  {
    hide Publish, TakeEntry, LedgerInv, Valid, Initial, Header, Replay, Faithful, Open;
    assert AndonLog().head(s0).sequence == 0;
    var h := Header(s0.ledger.identity);
    var s := Open(AndonLog(), s0, h, image, minimum).value;
    OpenLanguage(AndonLog(), s0, h, image, minimum, s);
    var k: nat;
    entries, k :| WrittenBy(AndonLog(), s0, h, image, minimum, s, entries, k);
    RunGrowth(s0, entries);
    InitialLength(s0);
    FileIsSmall(s);
    FileIsSmall(Run(AndonLog(), s0, entries[..k]).value.state);
  }

  lemma InitialLength(s0: State)
    requires IsInitial(s0)
    ensures s0.encodedLen == |Header(s0.ledger.identity)| && s0.head.sequence == 0
  {
    hide LedgerInv, New;
  }

  class FileAndonLedger {
    var disk: seq<Byte>
    var ledger: Ledger
    var head: Head
    var encodedLen: nat
    var poisoned: bool
    ghost const s0: State
    ghost var acked: seq<Entry>
    ghost var pending: seq<Entry>
    ghost var offered: set<Entry>

    function Snapshot(): AndonState
      reads this
    {
      AndonState(ledger, head, encodedLen)
    }

    // Only a poisoned owner can have a record in flight.
    ghost predicate IsValid()
      reads this
    {
      Valid(Snapshot()) && (poisoned || pending == [])
    }

    ghost function AsWorld(): World<State, Entry>
      requires IsValid()
      reads this
    {
      World(disk, if poisoned then Poisoned else Live(Snapshot()), acked, pending, offered)
    }

    // Nobody else has written to the file, and the in-memory head is the acknowledged one.
    ghost predicate Consistent()
      reads this
    {
      && IsValid()
      && IsInitial(s0)
      && Durable(AndonLog(), s0, Header(s0.ledger.identity), AsWorld())
      && Snapshot() == Run(AndonLog(), s0, acked).value.state
      && |pending| <= 1
    }

    constructor (s: State)
      requires IsInitial(s)
      ensures Consistent() && s0 == s
      ensures AsWorld() == Created(s, Header(s.ledger.identity))
    {
      hide Publish, TakeEntry, LedgerInv, Header, AndonLog;
      disk := Header(s.ledger.identity);
      ledger, head, encodedLen := s.ledger, s.head, s.encodedLen;
      poisoned := false;
      s0 := s;
      acked, pending, offered := [], [], {};
      new;
      assert acked + pending == [];
      assert disk == Header(s.ledger.identity) + [];
    }

    constructor Adopt(disk: seq<Byte>, s: State, ghost s0: State, ghost acked: seq<Entry>, ghost offered: set<Entry>)
      ensures this.disk == disk && Snapshot() == s && IsValid() && !poisoned
      ensures this.s0 == s0 && this.acked == acked && pending == [] && this.offered == offered
    {
      hide LedgerInv;
      this.disk := disk;
      ledger, head, encodedLen := s.ledger, s.head, s.encodedLen;
      poisoned := false;
      this.s0, this.acked, pending, this.offered := s0, acked, [], offered;
    }

    // What persisting an accepted transition leaves behind, given the state, the image and
    // the acknowledged history before it.
    ghost predicate Published(
      before: State, image: seq<Byte>, history: seq<Entry>, entry: Entry, persist: Persist, ok: bool)
      reads this
    {
      hide AndonFile.Publish;
      && AndonFile.Publish(before, entry).Ok?
      && var e := AndonFile.Publish(before, entry).value;
      if |image| != before.encodedLen then
        && !ok && poisoned && disk == image
        && Snapshot() == before && acked == history && pending == []
      else
        match persist
        case Synced =>
          && ok && !poisoned && disk == image + e.frame
          && Snapshot() == e.state && acked == history + [entry] && pending == []
        case Stopped(written) =>
          && !ok && poisoned && disk == image + e.frame[..Min(written, |e.frame|)]
          && Snapshot() == before && acked == history && pending == [entry]
    }

    // Validation first; then poison, compare the extent, write and sync, publish.
    method PublishWith(candidate: Ledger, entry: Entry, persist: Persist) returns (r: Result<Head, FileError>)
      requires IsValid() && ApplyEntry(ledger, entry) == Ok(candidate)
      modifies this
      ensures IsValid()
      ensures old(poisoned) ==> r == Err(RightsFile.IsPoisoned) && unchanged(this)
      ensures !old(poisoned) && AndonFile.Publish(old(Snapshot()), entry).Err? ==>
        r == Err(RightsFile.Refused(AndonFile.Publish(old(Snapshot()), entry).error)) && unchanged(this)
      ensures !old(poisoned) && AndonFile.Publish(old(Snapshot()), entry).Ok? ==>
        && Published(old(Snapshot()), old(disk), old(acked), entry, persist, r.Ok?)
        && r == (if r.Ok? then Ok(head) else Err(WriteError(old(disk), old(encodedLen))))
        && (r.Ok? ==> ledger == candidate)
      ensures old(Consistent()) ==>
        Consistent() && Step(AndonLog(), s0, Header(s0.ledger.identity), old(AsWorld()), AsWorld())
      ensures old(Consistent()) && r.Ok? ==> Commits(AndonLog(), old(AsWorld()), AsWorld(), [entry])
      ensures old(Consistent()) && !old(poisoned) && r.Err? && poisoned ==>
        exists n: nat :: Tears(AndonLog(), old(AsWorld()), AsWorld(), [entry], n)
    {
      hide LedgerInv, Body, Checksum, ApplyEntry, Header, AndonLog, Run, Frame, Durable, IsInitial, Published;
      if poisoned {
        return Err(RightsFile.IsPoisoned);
      }
      StateIsSmall(Snapshot());
      var framed := FrameEntry(head, entry);
      if framed.Err? {
        return Err(RightsFile.Refused(framed.error));
      }
      var bytes, next := framed.value.0, framed.value.1;
      if encodedLen + |bytes| > MAX_FILE_BYTES {
        return Err(RightsFile.Refused(Limit));
      }
      GrowthKeepsValid(Snapshot(), entry, next.checksum);
      r := WriteOut(candidate, entry, bytes, next, persist);
    }

    // All I/O, beginning with the extent check, happens while poisoned.
    method WriteOut(candidate: Ledger, entry: Entry, bytes: seq<Byte>, next: Head, persist: Persist)
      returns (r: Result<Head, FileError>)
      requires IsValid() && !poisoned
      requires Valid(AndonState(candidate, next, encodedLen + |bytes|))
      requires
        AndonFile.Publish(Snapshot(), entry) == Ok(Emitted(AndonState(candidate, next, encodedLen + |bytes|), bytes))
      modifies this
      ensures IsValid()
      ensures Published(old(Snapshot()), old(disk), old(acked), entry, persist, r.Ok?)
      ensures r == if r.Ok? then Ok(head) else Err(WriteError(old(disk), old(encodedLen)))
      ensures r.Ok? ==> ledger == candidate
      ensures old(Consistent()) ==>
        Consistent() && Step(AndonLog(), s0, Header(s0.ledger.identity), old(AsWorld()), AsWorld())
      ensures old(Consistent()) && r.Ok? ==> Commits(AndonLog(), old(AsWorld()), AsWorld(), [entry])
      ensures old(Consistent()) && r.Err? ==>
        exists n: nat :: Tears(AndonLog(), old(AsWorld()), AsWorld(), [entry], n)
    {
      hide LedgerInv, Header, AndonLog, Run, AndonFile.Publish, TakeEntry, Valid, IsInitial, Durable, Step,
        Tears, Commits;
      ghost var before, s := AsWorld(), Snapshot();
      poisoned := true;
      if |disk| != encodedLen {
        ExtentMatches(s0, before);
        return Err(RightsFile.Refused(Corrupt));
      }
      match persist {
        case Stopped(written) =>
          var n := Min(written, |bytes|);
          disk := disk + bytes[..n];
          pending, offered := [entry], offered + Members([entry]);
          if old(Consistent()) {
            TearIsStep(s0, before, s, entry, n, AsWorld());
          }
          return Err(RightsFile.IoFailed);
        case Synced =>
          disk := disk + bytes;
          ledger, head, encodedLen := candidate, next, encodedLen + |bytes|;
          poisoned := false;
          acked, pending, offered := acked + [entry], [], offered + Members([entry]);
          if old(Consistent()) {
            SettleIsStep(s0, before, s, entry, AsWorld());
          }
          return Ok(head);
      }
    }

    // Exact registration retries return the head without any I/O.
    method RegisterWindow(budget: AndonBudget, persist: Persist) returns (r: Result<Head, FileError>)
      requires IsValid()
      modifies this
      ensures IsValid()
      ensures old(poisoned) ==> r == Err(RightsFile.IsPoisoned) && unchanged(this)
      ensures !old(poisoned) && Register(old(ledger), budget).Err? ==>
        r == Err(RightsFile.Refused(Model(Register(old(ledger), budget).error))) && unchanged(this)
      ensures !old(poisoned) && Register(old(ledger), budget).Ok? && !Register(old(ledger), budget).value.inserted ==>
        r == Ok(head) && unchanged(this)
      ensures !old(poisoned) && Register(old(ledger), budget).Ok? && Register(old(ledger), budget).value.inserted ==>
        && Published(old(Snapshot()), old(disk), old(acked), Window(budget), persist, r.Ok?)
        && r == (if r.Ok? then Ok(head) else Err(WriteError(old(disk), old(encodedLen))))
        && (r.Ok? ==> ledger == Register(old(ledger), budget).value.ledger)
      ensures old(Consistent()) ==>
        Consistent() && Step(AndonLog(), s0, Header(s0.ledger.identity), old(AsWorld()), AsWorld())
    {
      hide LedgerInv, Header, AndonLog, Run, AndonFile.Publish, TakeEntry, Valid, IsInitial, Durable, Register, Record,
        Published;
      if poisoned {
        return Err(RightsFile.IsPoisoned);
      }
      var candidate := Register(ledger, budget);
      if candidate.Err? {
        return Err(RightsFile.Refused(Model(candidate.error)));
      }
      if !candidate.value.inserted {
        return Ok(head);
      }
      PublishNeverLimited(Snapshot(), Window(budget));
      r := PublishWith(candidate.value.ledger, Window(budget), persist);
    }

    // What the trusted entry point does on an owner that is not poisoned.
    ghost predicate Trusted(
      before: State, image: seq<Byte>, history: seq<Entry>, fact: FalseHold, persist: Persist,
      r: Result<(RecordResult, Head), FileError>)
      reads this
    {
      var untouched := Snapshot() == before && disk == image && acked == history && !poisoned;
      match Record(before.ledger, fact)
      case Err(reason) => untouched && r == Err(RightsFile.Refused(Model(reason)))
      case Ok(outcome) =>
        if outcome.result.AlreadyRecorded? then
          untouched && r == Ok((outcome.result, head))
        else
          && Published(before, image, history, Hold(fact), persist, r.Ok?)
          && r == (if r.Ok? then Ok((outcome.result, head)) else Err(WriteError(image, before.encodedLen)))
          && (r.Ok? ==> ledger == outcome.ledger)
    }

    // A refusal of the ledger and an exact retry touch nothing; a new fact is persisted
    // first. No storage limit can come in between.
    method RecordTrusted(fact: FalseHold, persist: Persist) returns (r: Result<(RecordResult, Head), FileError>)
      requires IsValid()
      modifies this
      ensures IsValid()
      ensures old(poisoned) ==> r == Err(RightsFile.IsPoisoned) && unchanged(this)
      ensures !old(poisoned) ==> Trusted(old(Snapshot()), old(disk), old(acked), fact, persist, r)
      ensures old(Consistent()) ==>
        Consistent() && Step(AndonLog(), s0, Header(s0.ledger.identity), old(AsWorld()), AsWorld())
    {
      hide LedgerInv, Header, AndonLog, Run, AndonFile.Publish, TakeEntry, Valid, IsInitial, Durable, Register, Record,
        Published;
      if poisoned {
        return Err(RightsFile.IsPoisoned);
      }
      var candidate := Record(ledger, fact);
      if candidate.Err? {
        return Err(RightsFile.Refused(Model(candidate.error)));
      }
      var result := candidate.value.result;
      RetryLeavesLedger(ledger, fact);
      if result.AlreadyRecorded? {
        return Ok((result, head));
      }
      PublishNeverLimited(Snapshot(), Hold(fact));
      var published := PublishWith(candidate.value.ledger, Hold(fact), persist);
      if published.Err? {
        return Err(published.error);
      }
      return Ok((result, published.value));
    }

    // The review's own checks come first; past them this is the trusted entry point.
    method RecordReview(review: AndonReview.Review, exact: AndonReview.ExactStatus, fact: FalseHold, persist: Persist)
      returns (r: Result<(RecordResult, Head), FileError>)
      requires IsValid()
      modifies this
      ensures IsValid()
      ensures old(poisoned) ==> r == Err(RightsFile.IsPoisoned) && unchanged(this)
      ensures !old(poisoned) && AndonReview.Unconfirmed(review, exact, fact).Some? ==>
        r == Err(RightsFile.Refused(Model(AndonReview.Unconfirmed(review, exact, fact).value))) && unchanged(this)
      ensures !old(poisoned) && AndonReview.Unconfirmed(review, exact, fact).None? ==>
        Trusted(old(Snapshot()), old(disk), old(acked), fact, persist, r)
      ensures old(Consistent()) ==>
        Consistent() && Step(AndonLog(), s0, Header(s0.ledger.identity), old(AsWorld()), AsWorld())
    {
      hide LedgerInv, Header, AndonLog, Run, AndonFile.Publish, TakeEntry, Valid, IsInitial, Durable, Register, Record,
        Published, AndonReview.Unconfirmed, Trusted;
      if poisoned {
        return Err(RightsFile.IsPoisoned);
      }
      var refused := AndonReview.Unconfirmed(review, exact, fact);
      if refused.Some? {
        return Err(RightsFile.Refused(Model(refused.value)));
      }
      r := RecordTrusted(fact, persist);
    }

    // A live owner of exactly the given bytes, holding the state their records produce.
    ghost predicate Recovered(s: State, image: seq<Byte>, state: State, names: set<Entry>)
      reads this
    {
      && s0 == s && IsInitial(s0) && disk == image && offered == names && pending == [] && !poisoned
      && IsValid() && Snapshot() == state
      && |disk| == encodedLen
      && Run(AndonLog(), s0, acked).Ok?
      && Run(AndonLog(), s0, acked).value.state == state
      && disk == Header(s0.ledger.identity) + Run(AndonLog(), s0, acked).value.frame
    }

    // Strict bounded replay: no repair, no skipped record, nothing exposed before the end and
    // the recovery sync.
    static method Reopen(
      disk: seq<Byte>, identity: LedgerIdentity, minimum: Head, synced: bool, ghost offered: set<Entry>)
      returns (r: Result<FileAndonLedger, FileError>)
      ensures Faithful(AndonLog())
      ensures Initial(identity).Err? ==> r == Err(RightsFile.Refused(Model(Initial(identity).error)))
      ensures Initial(identity).Ok? ==>
        var s0 := Initial(identity).value;
        var found := Open(AndonLog(), s0, Header(identity), disk, minimum);
        && (r.Ok? <==> found.Ok? && synced)
        && (r.Err? ==> if found.Ok? then r.error == RightsFile.IoFailed else r.error.Refused?)
        && (r.Ok? ==> fresh(r.value) && r.value.Recovered(s0, disk, found.value, offered))
    {
      hide LedgerInv, Header, Run, AndonFile.Publish, TakeEntry, Valid, Faithful, New;
      LogIsFaithful();
      var fresh0 := Initial(identity);
      if fresh0.Err? {
        return Err(RightsFile.Refused(Model(fresh0.error)));
      }
      var s0 := fresh0.value;
      ghost var history: seq<Entry> := [];
      if Open(AndonLog(), s0, Header(identity), disk, minimum).Ok? {
        history := OpenedHistory(s0, disk, minimum);
      }
      if minimum.sequence > MAX_RECORDS {
        return Err(RightsFile.Refused(BehindAnchor));
      }
      if |disk| < HEADER_BYTES || |disk| > MAX_FILE_BYTES {
        return Err(RightsFile.Refused(Limit));
      }
      if disk[..HEADER_BYTES] != Header(identity) {
        return Err(RightsFile.Refused(Binding));
      }
      if minimum.sequence == 0 && minimum != s0.head {
        return Err(RightsFile.Refused(Binding));
      }
      var s, rest := s0, disk[HEADER_BYTES..];
      while rest != []
        invariant Replay(AndonLog(), s0, disk[HEADER_BYTES..], minimum) == Replay(AndonLog(), s, rest, minimum)
        decreases |rest|
      {
        TakenShrinks(s, rest);
        var taken := ReadEntry(s, rest);
        if taken.Err? {
          return Err(RightsFile.Refused(taken.error));
        }
        s, rest := taken.value.state, taken.value.rest;
        if s.head.sequence == minimum.sequence && s.head != minimum {
          return Err(RightsFile.Refused(Binding));
        }
      }
      if s.head.sequence < minimum.sequence {
        return Err(RightsFile.Refused(BehindAnchor));
      }
      if !synced {
        return Err(RightsFile.IoFailed);
      }
      var owner := new FileAndonLedger.Adopt(disk, s, s0, history, offered);
      return Ok(owner);
    }

    // However the last persist went, reopening under any acknowledged head refuses or finds
    // the acknowledged history, followed at most by the one record in flight.
    lemma ReopenAfterCrash(k: nat, minimum: Head, s: State) returns (history: seq<Entry>)
      requires Faithful(AndonLog()) && Consistent() && HeadAt(AndonLog(), s0, acked, k, minimum)
      requires Open(AndonLog(), s0, Header(s0.ledger.identity), disk, minimum) == Ok(s)
      ensures Run(AndonLog(), s0, history).Ok? && Run(AndonLog(), s0, history).value.state == s
      ensures disk == Header(s0.ledger.identity) + Run(AndonLog(), s0, history).value.frame
      ensures history == acked || (poisoned && |pending| == 1 && history == acked + pending)
    {
      hide LedgerInv, Header, Run, AndonFile.Publish, TakeEntry, Valid, Faithful, Open, AndonLog, Replay;
      InitialLength(s0);
      LogHead(s0);
      history := RecoveryIsExact(AndonLog(), s0, Header(s0.ledger.identity), AsWorld(), k, minimum, s);
      assert |acked| <= |history| <= |acked| + 1;
    }

    // Recovery of a world whose owner is gone is a step of the crash machine, and the
    // recovered history is the acknowledged one plus at most the record in flight.
    lemma RecoveredIsConsistent(w: World<State, Entry>, k: nat, minimum: Head)
      requires Faithful(AndonLog()) && IsInitial(s0) && w.owner.Absent?
      requires Durable(AndonLog(), s0, Header(s0.ledger.identity), w) && HeadAt(AndonLog(), s0, w.acked, k, minimum)
      requires Open(AndonLog(), s0, Header(s0.ledger.identity), w.disk, minimum).Ok?
      requires Recovered(s0, w.disk, Open(AndonLog(), s0, Header(s0.ledger.identity), w.disk, minimum).value, w.offered)
      ensures Consistent() && w.acked <= acked <= w.acked + w.pending
      ensures Reopens(AndonLog(), s0, Header(s0.ledger.identity), w, AsWorld(), k, minimum)
    {
      hide LedgerInv, Header, Run, AndonFile.Publish, TakeEntry, Valid, Faithful, Open, AndonLog, Replay, IsInitial;
      InitialLength(s0);
      LogHead(s0);
      ReopenKeepsDurable(AndonLog(), s0, Header(s0.ledger.identity), w, AsWorld(), k, minimum);
    }
  }

  // Every run of every Andon file is safe.
  lemma AndonRunsAreSafe(
    identity: LedgerIdentity, worlds: seq<World<State, Entry>>, i: nat, j: nat, k: nat, minimum: Head)
    requires Initial(identity).Ok?
    requires
      var s0 := Initial(identity).value;
      && History(AndonLog(), s0, Header(identity), worlds) && i <= j < |worlds|
      && HeadAt(AndonLog(), s0, worlds[i].acked, k, minimum)
    ensures Faithful(AndonLog())
    ensures SafeAfter(AndonLog(), Initial(identity).value, Header(identity), worlds[i], worlds[j], minimum)
  {
    hide LedgerInv, Header, Run, AndonFile.Publish, TakeEntry, Valid, Faithful, History, SafeAfter, New;
    LogIsFaithful();
    var s0 := Initial(identity).value;
    LogHead(s0);
    EveryRunIsSafe(AndonLog(), s0, Header(identity), worlds, i, j, k, minimum);
  }

  lemma LogHead(s: State)
    ensures AndonLog().head(s) == s.head
  {
  }

  lemma TakenShrinks(s: State, b: seq<Byte>)
    ensures TakeEntry(s, b).Ok? ==> |TakeEntry(s, b).value.rest| < |b|
  {
    hide DecodeEntry, ApplyEntry, Checksum, FromLE, LedgerInv;
  }

  lemma RetryLeavesLedger(l: Ledger, fact: FalseHold)
    ensures Record(l, fact).Ok? && Record(l, fact).value.result.AlreadyRecorded? ==> Record(l, fact).value.ledger == l
  {
    if Record(l, fact).Ok? {
      RecordEffect(l, fact);
    }
  }

  // A changed extent is reported as damage, a stopped write as an I/O failure.
  function WriteError(image: seq<Byte>, encodedLen: nat): FileError {
    if |image| == encodedLen then RightsFile.IoFailed else RightsFile.Refused(Corrupt)
  }

  lemma TearIsStep(s0: State, w: World<State, Entry>, s: State, entry: Entry, n: nat, w': World<State, Entry>)
    requires Durable(AndonLog(), s0, Header(s0.ledger.identity), w) && w.owner == Live(s)
    requires AndonFile.Publish(s, entry).Ok? && n <= |AndonFile.Publish(s, entry).value.frame|
    requires w' == World(
      w.disk + AndonFile.Publish(s, entry).value.frame[..n], Poisoned, w.acked, [entry], w.offered + Members([entry]))
    ensures Durable(AndonLog(), s0, Header(s0.ledger.identity), w')
    ensures Step(AndonLog(), s0, Header(s0.ledger.identity), w, w') && Tears(AndonLog(), w, w', [entry], n)
  {
    hide LedgerInv, Header, AndonLog, Run, AndonFile.Publish, TakeEntry, Valid, Faithful, Open, Replay, Durable;
    RunOneEntry(s, entry);
    assert Tears(AndonLog(), w, w', [entry], n);
    TearKeepsDurable(AndonLog(), s0, Header(s0.ledger.identity), w, w', [entry], n);
  }

  lemma SettleIsStep(s0: State, w: World<State, Entry>, s: State, entry: Entry, w': World<State, Entry>)
    requires Durable(AndonLog(), s0, Header(s0.ledger.identity), w) && w.owner == Live(s)
    requires s == Run(AndonLog(), s0, w.acked).value.state
    requires AndonFile.Publish(s, entry).Ok?
    requires
      var e := AndonFile.Publish(s, entry).value;
      w' == World(w.disk + e.frame, Live(e.state), w.acked + [entry], [], w.offered + Members([entry]))
    ensures Durable(AndonLog(), s0, Header(s0.ledger.identity), w')
    ensures Step(AndonLog(), s0, Header(s0.ledger.identity), w, w') && Commits(AndonLog(), w, w', [entry])
    ensures Run(AndonLog(), s0, w'.acked).Ok?
    ensures Run(AndonLog(), s0, w'.acked).value.state == AndonFile.Publish(s, entry).value.state
  {
    hide LedgerInv, Header, AndonLog, Run, AndonFile.Publish, TakeEntry, Valid, Faithful, Open, Replay;
    RunOneEntry(s, entry);
    RunConcat(AndonLog(), s0, w.acked, [entry]);
    assert Commits(AndonLog(), w, w', [entry]);
    CommitKeepsDurable(AndonLog(), s0, Header(s0.ledger.identity), w, w', [entry]);
  }

  lemma RunOneEntry(s: State, entry: Entry)
    ensures Run(AndonLog(), s, [entry]) == AndonFile.Publish(s, entry)
  {
    hide LedgerInv, Body, Checksum, ApplyEntry, AndonFile.Publish;
    assert [entry][1..] == [];
    if AndonLog().emit(s, entry).Ok? {
      var e := AndonLog().emit(s, entry).value;
      assert e.frame + [] == e.frame;
    }
  }

  lemma ExtentMatches(s0: State, w: World<State, Entry>)
    requires w.owner.Live?
    ensures IsInitial(s0) && Durable(AndonLog(), s0, Header(s0.ledger.identity), w) ==>
      |w.disk| == w.owner.state.encodedLen
  {
    hide AndonFile.Publish, TakeEntry, LedgerInv, Initial, Header;
    if IsInitial(s0) && Durable(AndonLog(), s0, Header(s0.ledger.identity), w) {
      assert w.acked + w.pending == w.acked;
      RunGrowth(s0, w.acked);
      InitialLength(s0);
    }
  }
}
