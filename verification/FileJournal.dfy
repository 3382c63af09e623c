/**
 The locked rights-journal file (crates/fa-journal/src/file.rs, file/recovery.rs). The
 disk is the byte content of one exclusively owned file. Persisting a group either
 completes or stops after some prefix of its bytes; the owner is poisoned before the
 first byte and publishes its new state only after the sync. Each method is shown to
 take a step of the crash machine in FramedLog, so its whole-run safety applies.
 */
module RightsFile {
  import opened Batch
  import opened Bytes
  import opened Crc
  import opened EventCodec
  import opened FramedLog
  import opened Order
  import opened ReplayCursor
  import opened RightsJournal
  import opened RightsLedger

  datatype FileError = Refused(error: Error) | IoFailed | IsPoisoned

  // How a write-and-sync ends: durable, or stopped after this many bytes.
  datatype Persist = Synced | Stopped(written: nat)

  // A freshly created file's state: nothing recorded, length of the header.
  ghost predicate IsInitial(s: State) {
    s.head.sequence == 0 && s.encodedLen == |Header(s)|
  }

  lemma ConfiguredIsInitial(identity: Identity, limits: Limits, reserve: Option<RecoveryReserve>)
    requires Configured(identity, limits, reserve).Ok?
    ensures IsInitial(Configured(identity, limits, reserve).value)
  {
    hide Crc32, Prologue, Conserved;
  }

  class FileJournal {
    var disk: seq<Byte>
    var journal: Journal
    var poisoned: bool
    ghost const s0: State
    ghost var acked: seq<Event>
    ghost var pending: seq<Event>
    ghost var offered: set<Event>

    ghost function AsWorld(): World<State, Event>
      reads this, journal
      requires journal.IsValid()
    {
      World(disk, if poisoned then Poisoned else Live(journal.Snapshot()), acked, pending, offered)
    }

    // Only a poisoned owner can have a group in flight.
    ghost predicate IsValid()
      reads this, journal
    {
      journal.IsValid() && (poisoned || pending == [])
    }

    // Nobody else has written to the file, and the in-memory head is the acknowledged one.
    ghost predicate Consistent()
      reads this, journal
    {
      && IsValid()
      && IsInitial(s0)
      && Durable(JournalLog(), s0, Header(s0), AsWorld())
      && journal.Snapshot() == Run(JournalLog(), s0, acked).value.state
    }

    constructor (s: State)
      requires IsInitial(s)
      ensures Consistent() && fresh(journal) && s0 == s
      ensures AsWorld() == Created(s, Header(s))
    {
      hide AppendStep, TakeStep, Header, HeaderBytes, JournalLog;
      disk := Header(s);
      journal := new Journal(s);
      poisoned := false;
      s0 := s;
      acked, pending, offered := [], [], {};
      new;
      assert acked + pending == [];
      assert disk == Header(s) + [];
    }

    // What persisting a validated group leaves behind, given the state, the image and the
    // acknowledged history before it.
    ghost predicate Persisted(
      before: State, image: seq<Byte>, history: seq<Event>, group: seq<Event>, persist: Persist, ok: bool)
      requires journal.IsValid() && Run(JournalLog(), before, group).Ok?
      reads this, journal
    {
      var e := Run(JournalLog(), before, group).value;
      if |image| != before.encodedLen then
        && !ok && poisoned && disk == image
        && journal.Snapshot() == before && acked == history && pending == []
      else
        match persist
        case Synced =>
          && ok && !poisoned && disk == image + e.frame
          && journal.Snapshot() == e.state && acked == history + group && pending == []
        case Stopped(written) =>
          && !ok && poisoned && disk == image + e.frame[..Min(written, |e.frame|)]
          && journal.Snapshot() == before && acked == history && pending == group
    }

    // Everything is validated before the first byte. Then the owner is poisoned, the
    // file's extent is compared with the state, and only a completed sync publishes.
    method CommitBatch(events: seq<Event>, limits: BatchLimits, persist: Persist) returns (r: Result<Head, FileError>)
      requires IsValid()
      modifies this
      ensures IsValid()
      ensures old(poisoned) ==> r == Err(IsPoisoned) && unchanged(this)
      ensures !old(poisoned) && !old(Acceptable(journal.Snapshot(), events, limits)) ==>
        r.Err? && r.error.Refused? && unchanged(this)
      ensures !old(poisoned) && old(Acceptable(journal.Snapshot(), events, limits)) ==>
        && Persisted(old(journal.Snapshot()), old(disk), old(acked), events, persist, r.Ok?)
        && r == if r.Ok? then Ok(journal.head) else Err(IoFailed)
      ensures old(Consistent()) ==>
        Consistent() && Faithful(JournalLog()) && Step(JournalLog(), s0, Header(s0), old(AsWorld()), AsWorld())
      ensures old(Consistent()) && r.Ok? ==> Commits(JournalLog(), old(AsWorld()), AsWorld(), events)
      ensures old(Consistent()) && r == Err(IoFailed) ==>
        exists n: nat :: Tears(JournalLog(), old(AsWorld()), AsWorld(), events, n)
    {
      hide AppendStep, TakeStep, Header, HeaderBytes, JournalLog, Run, Faithful, Open, Replay, Durable, IsInitial;
      LogIsFaithful();
      if poisoned {
        return Err(IsPoisoned);
      }
      ghost var s, before := journal.Snapshot(), AsWorld();
      var prepared := PrepareBatch(journal, events, limits);
      if prepared.Err? {
        return Err(Refused(prepared.error));
      }
      var candidate, record := prepared.value.0, prepared.value.1;
      poisoned := true;
      if |disk| != journal.encodedLen {
        ExtentMatches(s0, before);
        return Err(IoFailed);
      }
      match persist {
        case Stopped(written) =>
          var n := Min(written, |record|);
          disk := disk + record[..n];
          pending, offered := events, offered + Members(events);
          if old(Consistent()) {
            assert Tears(JournalLog(), before, AsWorld(), events, n);
            TearKeepsDurable(JournalLog(), s0, Header(s0), before, AsWorld(), events, n);
          }
          return Err(IoFailed);
        case Synced =>
          disk := disk + record;
          journal := candidate;
          poisoned := false;
          acked, pending, offered := acked + events, [], offered + Members(events);
          if old(Consistent()) {
            assert Commits(JournalLog(), before, AsWorld(), events);
            CommitKeepsDurable(JournalLog(), s0, Header(s0), before, AsWorld(), events);
          }
          return Ok(journal.head);
      }
    }

    // One event, under the default ceilings, which refuse nothing that append accepts.
    method Commit(event: Event, persist: Persist) returns (r: Result<Head, FileError>)
      requires IsValid()
      modifies this
      ensures IsValid()
      ensures old(poisoned) ==> r == Err(IsPoisoned) && unchanged(this)
      ensures !old(poisoned) && AppendStep(old(journal.Snapshot()), event).Err? ==>
        r.Err? && r.error.Refused? && unchanged(this)
      ensures !old(poisoned) && AppendStep(old(journal.Snapshot()), event).Ok? ==>
        && Run(JournalLog(), old(journal.Snapshot()), [event]) == AppendStep(old(journal.Snapshot()), event)
        && Persisted(old(journal.Snapshot()), old(disk), old(acked), [event], persist, r.Ok?)
        && r == if r.Ok? then Ok(journal.head) else Err(IoFailed)
      ensures old(Consistent()) ==>
        Consistent() && Faithful(JournalLog()) && Step(JournalLog(), s0, Header(s0), old(AsWorld()), AsWorld())
      ensures old(Consistent()) && r.Ok? ==> Commits(JournalLog(), old(AsWorld()), AsWorld(), [event])
      ensures old(Consistent()) && r == Err(IoFailed) ==>
        exists n: nat :: Tears(JournalLog(), old(AsWorld()), AsWorld(), [event], n)
    {
      hide AppendStep, TakeStep, Header, HeaderBytes, JournalLog, Run, Faithful, Open, Replay;
      OneAlwaysFits(journal.Snapshot(), event);
      r := CommitBatch([event], DEFAULT_LIMITS, persist);
    }

    // Reopening never creates, repairs or truncates. It polls the incremental replay to its
    // end and needs the recovery syncs to complete.
    static method Reopen(
      disk: seq<Byte>, identity: Identity, limits: Limits, reserve: Option<RecoveryReserve>, minimum: Head,
      reader: Reader, synced: bool, ghost offered: set<Event>)
      returns (r: Result<FileJournal, FileError>, polls: nat)
      ensures Faithful(JournalLog())
      ensures Configured(identity, limits, reserve).Err? ==>
        r == Err(Refused(Configured(identity, limits, reserve).error))
      ensures Configured(identity, limits, reserve).Ok? ==>
        var s0 := Configured(identity, limits, reserve).value;
        var found := Open(JournalLog(), s0, Header(s0), disk, minimum);
        && (r.Ok? ==> synced && found.Ok? && fresh(r.value) && r.value.Recovered(s0, disk, found.value, offered))
        && (r.Err? ==> Unopened(found, disk, limits, reader, synced, polls, r.error))
    {
      hide AppendStep, TakeStep, HeaderBytes, Header, JournalLog, Open, Replay, Run, Faithful, Valid, Stalls;
      LogIsFaithful();
      polls := 0;
      var s0 := Configured(identity, limits, reserve);
      if s0.Err? {
        return Err(Refused(s0.error)), polls;
      }
      ConfiguredIsInitial(identity, limits, reserve);
      ghost var history: seq<Event> := [];
      if Open(JournalLog(), s0.value, Header(s0.value), disk, minimum).Ok? {
        history := OpenedHistory(s0.value, disk, minimum);
      }
      if |disk| > limits.maxTotalBytes {
        return Err(Refused(Limit)), polls;
      }
      var replayed;
      replayed, polls := ReplayToEnd(s0.value, disk, minimum, reader);
      if replayed.Err? {
        return Err(Refused(replayed.error)), polls;
      }
      assert |disk| == replayed.value.encodedLen; // so the extent checks around the syncs pass
      if !synced {
        return Err(IoFailed), polls;
      }
      var owner := new FileJournal.Adopt(disk, replayed.value, s0.value, history, offered);
      return Ok(owner), polls;
    }

    // A live owner of exactly the given bytes, holding the state their records produce.
    ghost predicate Recovered(s: State, image: seq<Byte>, state: State, names: set<Event>)
      reads this, journal
    {
      && s0 == s && IsInitial(s0) && disk == image && offered == names && pending == [] && !poisoned
      && journal.IsValid() && journal.Snapshot() == state
      && |disk| == journal.encodedLen
      && Run(JournalLog(), s0, acked).Ok?
      && Run(JournalLog(), s0, acked).value.state == state
      && disk == Header(s0) + Run(JournalLog(), s0, acked).value.frame
    }

    // However the last persist went, reopening under any acknowledged head refuses or finds
    // the acknowledged history, followed by whole records of the batch in flight.
    lemma ReopenAfterCrash(k: nat, minimum: Head, s: State) returns (j: nat)
      requires Faithful(JournalLog()) && Consistent() && HeadAt(JournalLog(), s0, acked, k, minimum)
      requires Open(JournalLog(), s0, Header(s0), disk, minimum) == Ok(s)
      ensures j <= |pending| && (!poisoned ==> j == 0)
      ensures Run(JournalLog(), s0, acked + pending[..j]).Ok?
      ensures Run(JournalLog(), s0, acked + pending[..j]).value.state == s
      ensures disk == Header(s0) + Run(JournalLog(), s0, acked + pending[..j]).value.frame
    {
      hide AppendStep, TakeStep, HeaderBytes, Header, JournalLog, Replay, Run, Faithful, Valid, Open;
      LogHead(s0);
      var history := RecoveryIsExact(JournalLog(), s0, Header(s0), AsWorld(), k, minimum, s);
      j := |history| - |acked|;
      assert history == acked + pending[..j];
    }

    // Recovery of a world whose owner is gone is a step of the crash machine, and the
    // recovered history is the acknowledged one plus whole records of the group in flight.
    lemma RecoveredIsConsistent(w: World<State, Event>, k: nat, minimum: Head)
      requires Faithful(JournalLog()) && IsInitial(s0) && w.owner.Absent?
      requires Durable(JournalLog(), s0, Header(s0), w) && HeadAt(JournalLog(), s0, w.acked, k, minimum)
      requires Open(JournalLog(), s0, Header(s0), w.disk, minimum).Ok?
      requires Recovered(s0, w.disk, Open(JournalLog(), s0, Header(s0), w.disk, minimum).value, w.offered)
      ensures Consistent() && w.acked <= acked <= w.acked + w.pending
      ensures Reopens(JournalLog(), s0, Header(s0), w, AsWorld(), k, minimum)
    {
      hide AppendStep, TakeStep, HeaderBytes, Header, JournalLog, Replay, Run, Faithful, Valid, Open;
      LogHead(s0);
      ReopenKeepsDurable(JournalLog(), s0, Header(s0), w, AsWorld(), k, minimum);
    }

    constructor Adopt(
      disk: seq<Byte>, journal: Journal, ghost s0: State, ghost acked: seq<Event>, ghost offered: set<Event>)
      ensures this.disk == disk && this.journal == journal && !poisoned
      ensures this.s0 == s0 && this.acked == acked && pending == [] && this.offered == offered
    {
      this.disk, this.journal, poisoned := disk, journal, false;
      this.s0, this.acked, pending, this.offered := s0, acked, [], offered;
    }
  }

  // Every run of every configured rights file is safe.
  lemma RightsRunsAreSafe(
    identity: Identity, limits: Limits, reserve: Option<RecoveryReserve>, worlds: seq<World<State, Event>>,
    i: nat, j: nat, k: nat, minimum: Head)
    requires Configured(identity, limits, reserve).Ok?
    requires
      var s0 := Configured(identity, limits, reserve).value;
      && History(JournalLog(), s0, Header(s0), worlds) && i <= j < |worlds|
      && HeadAt(JournalLog(), s0, worlds[i].acked, k, minimum)
    ensures Faithful(JournalLog())
    ensures
      var s0 := Configured(identity, limits, reserve).value;
      SafeAfter(JournalLog(), s0, Header(s0), worlds[i], worlds[j], minimum)
  {
    hide AppendStep, TakeStep, HeaderBytes, Header, Run, Faithful, History, SafeAfter;
    LogIsFaithful();
    ConfiguredIsInitial(identity, limits, reserve);
    var s0 := Configured(identity, limits, reserve).value;
    LogHead(s0);
    EveryRunIsSafe(JournalLog(), s0, Header(s0), worlds, i, j, k, minimum);
  }

  // Why an image was not opened: it is too long, replay refused it or its reader failed, or
  // a recovery sync did not complete.
  ghost predicate Unopened(
    found: Result<State, Error>, disk: seq<Byte>, limits: Limits, reader: Reader, synced: bool, polls: nat,
    error: FileError)
  {
    || (error == Refused(Limit) && |disk| > limits.maxTotalBytes && found.Err?)
    || (&& error.Refused? && |disk| <= limits.maxTotalBytes && polls <= 4
        && Explained(found, |disk|, Unlimited, reader, polls, Err(Journal(error.error))))
    || (error == IoFailed && found.Ok? && !synced)
  }

  // Under a steady reader and completed syncs, an image opens unless replay refuses it.
  lemma SteadyReopenIsExact(
    found: Result<State, Error>, disk: seq<Byte>, limits: Limits, reader: Reader, polls: nat, error: FileError)
    requires Unopened(found, disk, limits, reader, true, polls, error)
    requires Steady(reader) && |disk| + 1 < U64_MAX
    ensures found.Err? && error == Refused(if |disk| > limits.maxTotalBytes then Limit else found.error)
  {
    if error.Refused? && Explained(found, |disk|, Unlimited, reader, polls, Err(Journal(error.error))) {
      SteadyReplayIsExact(found, |disk|, Unlimited, reader, polls, Err(Journal(error.error)));
    }
  }

  // The records behind an accepted image, and the length they imply.
  lemma OpenedHistory(s0: State, image: seq<Byte>, minimum: Head) returns (events: seq<Event>)
    requires Faithful(JournalLog()) && IsInitial(s0)
    requires Open(JournalLog(), s0, Header(s0), image, minimum).Ok?
    ensures Run(JournalLog(), s0, events).Ok?
    ensures image == Header(s0) + Run(JournalLog(), s0, events).value.frame
    ensures Run(JournalLog(), s0, events).value.state == Open(JournalLog(), s0, Header(s0), image, minimum).value
    ensures |image| == Open(JournalLog(), s0, Header(s0), image, minimum).value.encodedLen <= s0.limits.maxTotalBytes
  {
    hide AppendStep, TakeStep, HeaderBytes, Open, Replay;
    var s := Open(JournalLog(), s0, Header(s0), image, minimum).value;
    OpenLanguage(JournalLog(), s0, Header(s0), image, minimum, s);
    var k: nat;
    events, k :| WrittenBy(JournalLog(), s0, Header(s0), image, minimum, s, events, k);
    RunGrowth(s0, events);
  }

  lemma OneAlwaysFits(s: State, event: Event)
    ensures Acceptable(s, [event], DEFAULT_LIMITS) <==> AppendStep(s, event).Ok?
    ensures Run(JournalLog(), s, [event]) == AppendStep(s, event)
  {
    hide TakeStep, Crc32, Apply, Conserved, Tag, BodyBytes;
    RunOne(s, [], event);
    assert [] + [event] == [event];
    if AppendStep(s, event).Ok? {
      StepGrowth(s, event);
      assert [] + AppendStep(s, event).value.frame == AppendStep(s, event).value.frame;
    }
  }

  // With the file untouched by others, its length is the one the journal believes in.
  lemma ExtentMatches(s0: State, w: World<State, Event>)
    requires w.owner.Live?
    ensures IsInitial(s0) && Durable(JournalLog(), s0, Header(s0), w) ==> |w.disk| == w.owner.state.encodedLen
  {
    hide AppendStep, TakeStep, HeaderBytes;
    if IsInitial(s0) && Durable(JournalLog(), s0, Header(s0), w) {
      assert w.acked + w.pending == w.acked;
      RunGrowth(s0, w.acked);
    }
  }
}
