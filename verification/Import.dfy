/**
 The resumable import of evaluated false holds into an Andon file
 (crates/fa-journal/src/evaluated_andon.rs). Preflight folds the receipts over a copy
 of the ledger; `Advance` then replays the same fold one durable record at a time.
 */
module Import {
  import opened Andon
  import opened AndonCodec
  import opened AndonFile
  import opened AndonOwner
  import opened Bytes
  import opened FramedLog
  import RightsFile

  const MAX_CASES: nat := 4096

  // All receipts in order, on a copy.
  function Fold(l: Ledger, facts: seq<FalseHold>): Result<Ledger, ModelError>
    decreases |facts|
  {
    if facts == [] then Ok(l)
    else
      var o :- Record(l, facts[0]);
      Fold(o.ledger, facts[1..])
  }

  ghost predicate OnBooks(l: Ledger, fact: FalseHold) {
    fact.round in l.confirmations && l.confirmations[fact.round].fact == fact
  }

  lemma {:induction false} FoldConcat(l: Ledger, a: seq<FalseHold>, b: seq<FalseHold>)
    ensures Fold(l, a + b) == if Fold(l, a).Ok? then Fold(Fold(l, a).value, b) else Fold(l, a)
    decreases |a|
  {
    hide Record;
    if a == [] {
      assert a + b == b;
    } else {
      assert (a + b)[0] == a[0] && (a + b)[1..] == a[1..] + b;
      if Record(l, a[0]).Ok? {
        FoldConcat(Record(l, a[0]).value.ledger, a[1..], b);
      }
    }
  }

  // The ledger only grows along a fold, and ends up with every receipt on its books.
  lemma {:induction false} FoldRecords(l: Ledger, facts: seq<FalseHold>)
    requires Fold(l, facts).Ok?
    ensures forall fact :: OnBooks(l, fact) || fact in facts ==> OnBooks(Fold(l, facts).value, fact)
    ensures |l.confirmations| <= |Fold(l, facts).value.confirmations|
    decreases |facts|
  {
    hide Record, LedgerInv;
    if facts == [] {
    } else {
      var next := Record(l, facts[0]).value.ledger;
      RecordEffect(l, facts[0]);
      FoldRecords(next, facts[1..]);
      assert forall fact :: OnBooks(l, fact) ==> OnBooks(next, fact);
    }
  }

  // Facts already on the books change nothing.
  lemma {:induction false} FoldOfKnown(l: Ledger, facts: seq<FalseHold>)
    requires forall fact :: fact in facts ==> OnBooks(l, fact)
    ensures Fold(l, facts) == Ok(l)
    decreases |facts|
  {
    hide Record, LedgerInv;
    if facts == [] {
    } else {
      assert OnBooks(l, facts[0]);
      RetryIsFree(l, facts[0]);
      FoldOfKnown(l, facts[1..]);
    }
  }

  // However much of an import has been done, doing all of it again is accepted and ends
  // where the uninterrupted import does.
  lemma RestartEndsTheSame(l: Ledger, facts: seq<FalseHold>, k: nat)
    requires Fold(l, facts).Ok? && k <= |facts|
    ensures Fold(l, facts[..k]).Ok?
    ensures Fold(Fold(l, facts[..k]).value, facts) == Fold(l, facts)
  {
    hide Record, LedgerInv, Fold;
    assert facts[..k] + facts[k..] == facts;
    FoldConcat(l, facts[..k], facts[k..]);
    var middle := Fold(l, facts[..k]).value;
    FoldRecords(l, facts[..k]);
    FoldOfKnown(middle, facts[..k]);
    FoldConcat(middle, facts[..k], facts[k..]);
  }

  // How many receipts a fold newly records.
  ghost function Newly(l: Ledger, facts: seq<FalseHold>): nat
    requires Fold(l, facts).Ok?
    decreases |facts|
  {
    if facts == [] then 0
    else
      var o := Record(l, facts[0]).value;
      (if o.result.Recorded? then 1 else 0) + Newly(o.ledger, facts[1..])
  }

  // Each new record is one new confirmation: nothing is charged twice.
  lemma {:induction false} NewlyCounts(l: Ledger, facts: seq<FalseHold>)
    requires Fold(l, facts).Ok?
    ensures Newly(l, facts) == |Fold(l, facts).value.confirmations| - |l.confirmations|
    decreases |facts|
  {
    hide Record, LedgerInv;
    if facts == [] {
    } else {
      RecordEffect(l, facts[0]);
      NewlyCounts(Record(l, facts[0]).value.ledger, facts[1..]);
    }
  }

  lemma RestartChargesOnce(l: Ledger, facts: seq<FalseHold>, k: nat)
    requires Fold(l, facts).Ok? && k <= |facts|
    ensures Fold(l, facts[..k]).Ok? && Fold(Fold(l, facts[..k]).value, facts).Ok?
    ensures Newly(l, facts[..k]) + Newly(Fold(l, facts[..k]).value, facts) == Newly(l, facts)
  {
    hide Record, LedgerInv, Fold, Newly;
    RestartEndsTheSame(l, facts, k);
    NewlyCounts(l, facts);
    NewlyCounts(l, facts[..k]);
    NewlyCounts(Fold(l, facts[..k]).value, facts);
  }

  lemma FoldOne(l: Ledger, facts: seq<FalseHold>, k: nat)
    requires k < |facts| && Fold(l, facts[..k]).Ok?
    ensures
      var middle := Fold(l, facts[..k]).value;
      Fold(l, facts[..k + 1]) ==
        if Record(middle, facts[k]).Ok? then Ok(Record(middle, facts[k]).value.ledger)
        else Err(Record(middle, facts[k]).error)
  {
    hide Record, LedgerInv;
    assert facts[..k + 1] == facts[..k] + [facts[k]];
    FoldConcat(l, facts[..k], [facts[k]]);
    assert [facts[k]][1..] == [];
  }

  lemma FoldPrefix(l: Ledger, facts: seq<FalseHold>, k: nat)
    requires Fold(l, facts).Ok? && k <= |facts|
    ensures Fold(l, facts[..k]).Ok?
  {
    hide Record, LedgerInv, Fold;
    assert facts[..k] + facts[k..] == facts;
    FoldConcat(l, facts[..k], facts[k..]);
  }

  datatype ImportStatus = Pending | Done | Failed

  datatype Progress = Progress(
    total: nat, completed: nat, newlyRecorded: nat, alreadyRecorded: nat, head: Head, status: ImportStatus)

  datatype ImportFailure = ImportFailure(error: RightsFile.FileError, progress: Progress)

  class EvaluatedAndonImport {
    const journal: FileAndonLedger
    const receipts: seq<FalseHold>
    var progress: Progress
    ghost const start: Ledger

    // The cursor's counters describe exactly the receipts already acknowledged, and the
    // journal holds the fold of those; the fold of all of them is known to succeed.
    ghost predicate IsValid()
      reads this, journal
    {
      && journal.IsValid()
      && progress.total == |receipts|
      && progress.completed <= progress.total
      && progress.completed == progress.newlyRecorded + progress.alreadyRecorded
      && Fold(start, receipts).Ok?
      && Fold(start, receipts[..progress.completed]) == Ok(journal.ledger)
      && progress.newlyRecorded == |journal.ledger.confirmations| - |start.confirmations|
      && progress.head == journal.head
      && (progress.status == Failed <==> journal.poisoned)
      && (progress.status == Done ==> progress.completed == progress.total)
      && (progress.status != Done ==> progress.completed < progress.total)
      && (progress.status == Failed ==>
        journal.pending == [] || journal.pending == [Hold(receipts[progress.completed])])
    }

    constructor (journal: FileAndonLedger, receipts: seq<FalseHold>)
      requires journal.IsValid() && !journal.poisoned && Fold(journal.ledger, receipts).Ok?
      ensures IsValid() && this.journal == journal && this.receipts == receipts && start == journal.ledger
      ensures progress == Progress(|receipts|, 0, 0, 0, journal.head, if receipts == [] then Done else Pending)
    {
      hide Record, LedgerInv;
      this.journal, this.receipts := journal, receipts;
      start := journal.ledger;
      progress := Progress(|receipts|, 0, 0, 0, journal.head, if receipts == [] then Done else Pending);
      new;
      assert receipts[..0] == [];
    }

    // One original call. The cursor is latched as failed before entry.
    method Import(persist: Persist) returns (r: Result<(), RightsFile.FileError>)
      requires IsValid() && progress.status == Pending
      modifies this, journal
      ensures journal.IsValid() && IsValid()
      ensures r.Ok? ==>
        && progress.completed == old(progress.completed) + 1
        && progress.status == (if progress.completed == progress.total then Done else Pending)
      ensures r.Err? ==>
        && r.error == WriteError(old(journal.disk), old(journal.encodedLen))
        && progress == old(progress).(status := Failed)
        && (persist.Stopped? || old(|journal.disk| != journal.encodedLen))
      ensures old(journal.Consistent()) ==> journal.Consistent()
    {
      hide Record, LedgerInv, Fold, Valid, IsInitial, Durable, AndonLog, Header, Run, AndonFile.Publish, Step,
        Complete, Bounded, Attributed, ApplyEntry, TakeEntry, FileAndonLedger.Consistent;
      var k := progress.completed;
      var fact := receipts[k];
      FoldOne(start, receipts, k);
      FoldPrefix(start, receipts, k + 1);
      RecordEffect(journal.ledger, fact);
      progress := progress.(status := Failed);
      var recorded := journal.RecordTrusted(fact, persist);
      if recorded.Err? {
        return Err(recorded.error);
      }
      progress := progress.(completed := progress.completed + 1, head := recorded.value.1);
      match recorded.value.0 {
        case Recorded(_, _) => progress := progress.(newlyRecorded := progress.newlyRecorded + 1);
        case AlreadyRecorded(_) => progress := progress.(alreadyRecorded := progress.alreadyRecorded + 1);
      }
      progress := progress.(status := if progress.completed == |receipts| then Done else Pending);
      return Ok(());
    }

    // At most `maxRecords` original calls. After a successful preflight only I/O can stop
    // it: no refusal of the ledger or of a storage limit is possible any more.
    method Advance(maxRecords: nat, persists: nat -> Persist) returns (r: Result<Progress, ImportFailure>)
      requires IsValid()
      modifies this, journal
      ensures IsValid()
      ensures old(progress.status) == Failed ==>
        r == Err(ImportFailure(RightsFile.Refused(Model(WrongState)), progress)) && progress == old(progress)
      ensures old(progress.status) != Failed && r.Ok? ==>
        && r.value == progress
        && progress.completed == Min(old(progress.completed) + maxRecords, progress.total)
        && progress.status == (if progress.completed == progress.total then Done else Pending)
      ensures old(progress.status) != Failed && r.Err? ==>
        && r.error.progress == progress && progress.status == Failed
        && r.error.error in {RightsFile.IoFailed, RightsFile.Refused(Corrupt)}
        && (old(journal.Consistent()) ==> r.error.error == RightsFile.IoFailed)
        && progress.completed < Min(old(progress.completed) + maxRecords, progress.total)
      ensures old(journal.Consistent()) ==> journal.Consistent()
      ensures old(progress.status) != Failed && old(journal.Consistent()) && (forall i :: persists(i).Synced?) ==> r.Ok?
    {
      hide Record, LedgerInv, Fold, Valid, IsInitial, Durable, AndonLog, Header, Run, AndonFile.Publish, Step;
      if progress.status == Failed {
        return Err(ImportFailure(RightsFile.Refused(Model(WrongState)), progress));
      }
      ghost var first := progress.completed;
      var steps := Min(maxRecords, |receipts| - progress.completed);
      for i := 0 to steps
        invariant IsValid() && progress.status != Failed && progress.completed == first + i
        invariant old(journal.Consistent()) ==> journal.Consistent()
      {
        if journal.Consistent() {
          ExtentMatches(journal.s0, journal.AsWorld());
        }
        var done := Import(persists(i));
        if done.Err? {
          return Err(ImportFailure(done.error, progress));
        }
      }
      return Ok(progress);
    }

    // An unfinished or failed import cannot be turned into success; a finished one leaves
    // exactly the ledger preflight computed.
    method Finish() returns (r: Result<Progress, ImportFailure>)
      requires IsValid()
      ensures r.Ok? <==> progress.status == Done
      ensures r.Ok? ==> r.value == progress && Fold(start, receipts) == Ok(journal.ledger)
      ensures r.Err? ==> r == Err(ImportFailure(RightsFile.Refused(Model(Incomplete)), progress))
    {
      hide Record, LedgerInv, Fold, Valid;
      if progress.status != Done {
        return Err(ImportFailure(RightsFile.Refused(Model(Incomplete)), progress));
      }
      assert receipts[..progress.completed] == receipts;
      return Ok(progress);
    }

    // Dropping the cursor at any point, after any failure, and importing the same receipts
    // into whatever can be reopened is accepted, ends in the ledger preflight computed, and
    // charges each receipt once over both attempts.
    lemma DropThenRestart(k: nat, minimum: Head, s: State)
      requires Faithful(AndonLog()) && IsValid() && journal.Consistent()
      requires HeadAt(AndonLog(), journal.s0, journal.acked, k, minimum)
      requires Open(AndonLog(), journal.s0, Header(journal.s0.ledger.identity), journal.disk, minimum) == Ok(s)
      ensures Fold(s.ledger, receipts) == Fold(start, receipts)
      ensures |s.ledger.confirmations| + Newly(s.ledger, receipts) == |start.confirmations| + Newly(start, receipts)
    {
      hide Record, LedgerInv, Fold, Valid, IsInitial, AndonLog, Header, Run, AndonFile.Publish, Step, Open, Newly,
        Faithful;
      var history := journal.ReopenAfterCrash(k, minimum, s);
      if history == journal.acked {
        RestartEndsTheSame(start, receipts, progress.completed);
      } else {
        assert journal.pending == [Hold(receipts[progress.completed])];
        InFlightReceipt(start, receipts, progress.completed, journal.s0, journal.acked);
      }
      NewlyCounts(s.ledger, receipts);
      NewlyCounts(start, receipts);
    }
  }

  // Preflight: no I/O and no change; a bad last receipt refuses before the first write.
  method Begin(journal: FileAndonLedger, receipts: seq<FalseHold>)
    returns (r: Result<EvaluatedAndonImport, RightsFile.FileError>)
    requires journal.IsValid()
    ensures r.Ok? <==> |receipts| <= MAX_CASES && !journal.poisoned && Fold(journal.ledger, receipts).Ok?
    ensures r.Ok? ==>
      && fresh(r.value) && r.value.IsValid() && r.value.journal == journal && r.value.receipts == receipts
      && r.value.start == journal.ledger && r.value.progress.completed == 0
  {
    hide Record, LedgerInv, Valid;
    if |receipts| > MAX_CASES {
      return Err(RightsFile.Refused(Limit));
    }
    if journal.poisoned {
      return Err(RightsFile.IsPoisoned);
    }
    var candidate := journal.ledger;
    for i := 0 to |receipts|
      invariant Fold(journal.ledger, receipts[..i]) == Ok(candidate)
    {
      FoldOne(journal.ledger, receipts, i);
      var recorded := Record(candidate, receipts[i]);
      if recorded.Err? {
        if Fold(journal.ledger, receipts).Ok? {
          FoldPrefix(journal.ledger, receipts, i + 1);
        }
        return Err(RightsFile.Refused(Model(recorded.error)));
      }
      candidate := recorded.value.ledger;
    }
    assert receipts[..|receipts|] == receipts;
    var cursor := new EvaluatedAndonImport(journal, receipts);
    return Ok(cursor);
  }

  // The record in flight was receipt k: the ledger with it is the fold of k + 1 receipts.
  lemma InFlightReceipt(l: Ledger, facts: seq<FalseHold>, k: nat, s0: State, acked: seq<Entry>)
    requires Fold(l, facts).Ok? && k < |facts|
    requires Run(AndonLog(), s0, acked).Ok? && Run(AndonLog(), s0, acked + [Hold(facts[k])]).Ok?
    requires Fold(l, facts[..k]) == Ok(Run(AndonLog(), s0, acked).value.state.ledger)
    ensures Fold(Run(AndonLog(), s0, acked + [Hold(facts[k])]).value.state.ledger, facts) == Fold(l, facts)
  {
    hide Record, LedgerInv, Fold, Valid, AndonFile.Publish, Run, AndonLog;
    var s := Run(AndonLog(), s0, acked).value.state;
    RunConcat(AndonLog(), s0, acked, [Hold(facts[k])]);
    RunOneEntry(s, Hold(facts[k]));
    PublishNeverLimited(s, Hold(facts[k]));
    FoldOne(l, facts, k);
    RestartEndsTheSame(l, facts, k + 1);
  }
}
