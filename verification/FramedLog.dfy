/**
 What both durable files of the journal crate share: a fixed header, then frames
 written one record at a time by a deterministic writer and read back by a strict
 reader. A `Log` names the two halves; `Faithful` is what a concrete format has to
 establish, and everything below follows from it for every such format: the
 accepted byte language, truncation, torn writes, and whole runs of an owner that
 crashes and reopens.
 */
module FramedLog {
  import opened Bytes
  import opened Order

  // An acknowledged position: how many records, and the last record's checksum.
  datatype Head = Head(sequence: U64, checksum: U32)

  datatype Error =
    | Io
    | Model(reason: ModelError)
    | InvalidInput
    | Limit
    | Corrupt
    | Binding
    | BehindAnchor

  // The reference model's own refusals.
  datatype ModelError =
    | BadInput
    | Incomplete
    | OverLimit
    | Overflow
    | Duplicate
    | Missing
    | WrongState
    | Stale
    | Mismatch

  datatype Emitted<+S> = Emitted(state: S, frame: seq<Byte>)
  datatype Taken<+S, +R> = Taken(state: S, record: R, rest: seq<Byte>)

  // `emit` applies one record and yields its frame; `take` reads one frame off the
  // front of a byte string.
  datatype Log<!S, !R> = Log(
    emit: (S, R) -> Result<Emitted<S>, Error>,
    take: (S, seq<Byte>) -> Result<Taken<S, R>, Error>,
    head: S -> Head)

  ghost predicate EmitThenTake<S(!new), R(!new)>(log: Log<S, R>) {
    forall s: S, r: R, rest: seq<Byte> {:trigger log.take(s, log.emit(s, r).value.frame + rest)} ::
      log.emit(s, r).Ok? ==>
        var e := log.emit(s, r).value;
        log.take(s, e.frame + rest) == Ok(Taken(e.state, r, rest))
  }

  ghost predicate TakeThenEmit<S(!new), R(!new)>(log: Log<S, R>) {
    forall s: S, b: seq<Byte> {:trigger log.take(s, b)} ::
      log.take(s, b).Ok? ==>
        var t := log.take(s, b).value;
        && log.emit(s, t.record).Ok?
        && log.emit(s, t.record).value.state == t.state
        && b == log.emit(s, t.record).value.frame + t.rest
  }

  ghost predicate Counts<S(!new), R(!new)>(log: Log<S, R>) {
    forall s: S, r: R {:trigger log.emit(s, r)} ::
      log.emit(s, r).Ok? ==>
        var e := log.emit(s, r).value;
        && e.frame != []
        && log.head(e.state).sequence == log.head(s).sequence + 1
  }

  ghost predicate Faithful<S(!new), R(!new)>(log: Log<S, R>) {
    EmitThenTake(log) && TakeThenEmit(log) && Counts(log)
  }

  // Repeated emission: the final state and all the frames, in order.
  ghost function Run<S, R>(log: Log<S, R>, s: S, records: seq<R>): Result<Emitted<S>, Error> {
    if records == [] then Ok(Emitted(s, []))
    else
      var first :- log.emit(s, records[0]);
      var others :- Run(log, first.state, records[1..]);
      Ok(Emitted(others.state, first.frame + others.frame))
  }

  // Strict replay of everything after the header. `minimum` is the retained head.
  ghost function Replay<S(!new), R(!new)>(log: Log<S, R>, s: S, b: seq<Byte>, minimum: Head): Result<S, Error>
    requires Faithful(log)
    decreases |b|
  {
    if b == [] then
      if log.head(s).sequence < minimum.sequence then Err(BehindAnchor) else Ok(s)
    else
      var t :- log.take(s, b);
      if log.head(t.state).sequence == minimum.sequence && log.head(t.state) != minimum then Err(Binding)
      else Replay(log, t.state, t.rest, minimum)
  }

  // Replay of a whole file image under a given header and s0 state.
  ghost function Open<S(!new), R(!new)>(
    log: Log<S, R>, s0: S, header: seq<Byte>, image: seq<Byte>, minimum: Head): Result<S, Error>
    requires Faithful(log)
  {
    if |image| < |header| then Err(Io)
    else if image[..|header|] != header then Err(Binding)
    else if minimum.sequence == 0 && minimum != log.head(s0) then Err(Binding)
    else Replay(log, s0, image[|header|..], minimum)
  }

  // The head after the first k records of a successful run.
  ghost predicate HeadAt<S, R>(log: Log<S, R>, s: S, records: seq<R>, k: nat, minimum: Head) {
    && k <= |records|
    && Run(log, s, records[..k]).Ok?
    && log.head(Run(log, s, records[..k]).value.state) == minimum
  }

  // ---- runs -------------------------------------------------------------------

  lemma {:induction false} RunConcat<S, R>(log: Log<S, R>, s: S, a: seq<R>, b: seq<R>)
    ensures Run(log, s, a).Err? ==> Run(log, s, a + b) == Run(log, s, a)
    ensures Run(log, s, a).Ok? ==>
      var left := Run(log, s, a).value;
      var right := Run(log, left.state, b);
      Run(log, s, a + b) ==
        if right.Ok? then Ok(Emitted(right.value.state, left.frame + right.value.frame)) else right
    decreases |a|
  {
    if a == [] {
      assert a + b == b;
      if Run(log, s, b).Ok? {
        assert [] + Run(log, s, b).value.frame == Run(log, s, b).value.frame;
      }
    } else if log.emit(s, a[0]).Ok? {
      var first := log.emit(s, a[0]).value;
      RunConcat(log, first.state, a[1..], b);
      assert (a + b)[0] == a[0] && (a + b)[1..] == a[1..] + b;
      if Run(log, s, a + b).Ok? {
        var middle := Run(log, first.state, a[1..]).value;
        var last := Run(log, middle.state, b).value;
        assert first.frame + (middle.frame + last.frame) == (first.frame + middle.frame) + last.frame;
      }
    } else {
      assert (a + b)[0] == a[0];
    }
  }

  lemma RunPrefix<S, R>(log: Log<S, R>, s: S, records: seq<R>, k: nat)
    requires Run(log, s, records).Ok? && k <= |records|
    ensures Run(log, s, records[..k]).Ok?
    ensures Run(log, Run(log, s, records[..k]).value.state, records[k..]).Ok?
    ensures Run(log, s, records).value ==
      var left := Run(log, s, records[..k]).value;
      var right := Run(log, left.state, records[k..]).value;
      Emitted(right.state, left.frame + right.frame)
  {
    assert records[..k] + records[k..] == records;
    RunConcat(log, s, records[..k], records[k..]);
  }

  lemma {:induction false} RunCounts<S(!new), R(!new)>(log: Log<S, R>, s: S, records: seq<R>)
    requires Faithful(log) && Run(log, s, records).Ok?
    ensures log.head(Run(log, s, records).value.state).sequence == log.head(s).sequence + |records|
    ensures records == [] <==> Run(log, s, records).value.frame == []
    decreases |records|
  {
    if records == [] {
    } else {
      RunCounts(log, log.emit(s, records[0]).value.state, records[1..]);
    }
  }

  // ---- one frame at a time ----------------------------------------------------

  // No frame, nor anything that continues it, can be read as another record.
  lemma TakeFrame<S(!new), R(!new)>(log: Log<S, R>, s: S, r: R, rest: seq<Byte>)
    requires Faithful(log) && log.emit(s, r).Ok?
    ensures log.take(s, log.emit(s, r).value.frame + rest) == Ok(Taken(log.emit(s, r).value.state, r, rest))
  {
  }

  // A frame cut short is refused.
  lemma TornFrameRefused<S(!new), R(!new)>(log: Log<S, R>, s: S, r: R, n: nat)
    requires Faithful(log) && log.emit(s, r).Ok? && n < |log.emit(s, r).value.frame|
    ensures log.take(s, log.emit(s, r).value.frame[..n]).Err?
  {
    var frame := log.emit(s, r).value.frame;
    TakeFrame(log, s, r, []);
    assert frame + [] == frame;
    if log.take(s, frame[..n]).Ok? {
      var t := log.take(s, frame[..n]).value;
      var short := log.emit(s, t.record).value.frame;
      assert frame == short + (t.rest + frame[n..]);
      TakeFrame(log, s, t.record, t.rest + frame[n..]);
    }
  }

  // ---- the accepted language ---------------------------------------------------

  // Everything replay accepts was emitted by some run, and passes the anchor.
  lemma {:induction false} ReplayedWasEmitted<S(!new), R(!new)>(log: Log<S, R>, s: S, b: seq<Byte>, minimum: Head)
    returns (records: seq<R>)
    requires Faithful(log) && Replay(log, s, b, minimum).Ok?
    ensures Run(log, s, records) == Ok(Emitted(Replay(log, s, b, minimum).value, b))
    ensures log.head(s).sequence < minimum.sequence ==>
      exists k: nat :: 0 < k && HeadAt(log, s, records, k, minimum)
    decreases |b|
  {
    if b == [] {
      records := [];
    } else {
      var t := log.take(s, b).value;
      var others := ReplayedWasEmitted(log, t.state, t.rest, minimum);
      records := [t.record] + others;
      assert records[1..] == others;
      if log.head(s).sequence < minimum.sequence {
        var k := AnchorBehind(log, s, t, others, minimum);
      }
    }
  }

  // Step of the anchor search: the head sits on this record or later.
  lemma AnchorBehind<S(!new), R(!new)>(log: Log<S, R>, s: S, t: Taken<S, R>, others: seq<R>, minimum: Head)
    returns (k: nat)
    requires Faithful(log)
    requires log.emit(s, t.record).Ok? && log.emit(s, t.record).value.state == t.state
    requires log.head(s).sequence < minimum.sequence
    requires log.head(t.state).sequence == minimum.sequence ==> log.head(t.state) == minimum
    requires log.head(t.state).sequence < minimum.sequence ==>
      exists j: nat :: 0 < j && HeadAt(log, t.state, others, j, minimum)
    ensures 0 < k && HeadAt(log, s, [t.record] + others, k, minimum)
  {
    var records := [t.record] + others;
    if log.head(t.state).sequence == minimum.sequence {
      k := 1;
      assert records[..1] == [t.record];
      assert [t.record][1..] == [];
    } else {
      var j: nat :| 0 < j && HeadAt(log, t.state, others, j, minimum);
      k := j + 1;
      assert records[..k] == [t.record] + others[..j];
      assert records[..k][1..] == others[..j];
    }
  }

  // Replay passes over a run's frames to whatever follows, unless the anchor stops it.
  lemma {:induction false} ReplaySkipsRun<S(!new), R(!new)>(
    log: Log<S, R>, s: S, records: seq<R>, rest: seq<Byte>, minimum: Head)
    requires Faithful(log) && Run(log, s, records).Ok?
    requires log.take(Run(log, s, records).value.state, rest).Err? && rest != []
    ensures Replay(log, s, Run(log, s, records).value.frame + rest, minimum).Err?
    decreases |records|
  {
    if records == [] {
      assert [] + rest == rest;
    } else {
      var first := log.emit(s, records[0]).value;
      var others := Run(log, first.state, records[1..]).value.frame;
      Glue(first.frame, others, rest);
      TakeFrame(log, s, records[0], others + rest);
      ReplaySkipsRun(log, first.state, records[1..], rest, minimum);
    }
  }

  // `image` is the header and then exactly the frames of a successful run of
  // `records`, which ends in `s` and has the retained head after its k-th record.
  ghost predicate WrittenBy<S, R>(
    log: Log<S, R>, s0: S, header: seq<Byte>, image: seq<Byte>, minimum: Head, s: S, records: seq<R>, k: nat)
  {
    && Run(log, s0, records).Ok?
    && Run(log, s0, records).value.state == s
    && image == header + Run(log, s0, records).value.frame
    && HeadAt(log, s0, records, k, minimum)
  }

  // A file opens to a state exactly when some run wrote it and the anchor is on that run.
  lemma OpenLanguage<S(!new), R(!new)>(
    log: Log<S, R>, s0: S, header: seq<Byte>, image: seq<Byte>, minimum: Head, s: S)
    requires Faithful(log) && log.head(s0).sequence == 0
    ensures Open(log, s0, header, image, minimum) == Ok(s) <==>
      exists records: seq<R>, k: nat :: WrittenBy(log, s0, header, image, minimum, s, records, k)
  {
    if Open(log, s0, header, image, minimum) == Ok(s) {
      var records := ReplayedWasEmitted(log, s0, image[|header|..], minimum);
      var k: nat := 0;
      assert records[..0] == [];
      if minimum.sequence > 0 {
        k :| HeadAt(log, s0, records, k, minimum);
      }
      assert WrittenBy(log, s0, header, image, minimum, s, records, k);
    }
    if records: seq<R>, k: nat :| WrittenBy(log, s0, header, image, minimum, s, records, k) {
      WrittenOpens(log, s0, header, image, minimum, s, records, k);
    }
  }

  lemma WrittenOpens<S(!new), R(!new)>(
    log: Log<S, R>, s0: S, header: seq<Byte>, image: seq<Byte>, minimum: Head, s: S, records: seq<R>, k: nat)
    requires Faithful(log) && log.head(s0).sequence == 0
    requires WrittenBy(log, s0, header, image, minimum, s, records, k)
    ensures Open(log, s0, header, image, minimum) == Ok(s)
  {
    RunCounts(log, s0, records[..k]);
    OpenUnderHead(log, s0, header, records, minimum);
  }

  // ---- the retained head -------------------------------------------------------

  // How a run's own frames replay under any head: it may lie behind, on the run, beside
  // it, or ahead.
  lemma {:induction false} ReplayUnderHead<S(!new), R(!new)>(log: Log<S, R>, s: S, records: seq<R>, minimum: Head)
    requires Faithful(log) && Run(log, s, records).Ok?
    ensures
      var e, from := Run(log, s, records).value, log.head(s).sequence;
      Replay(log, s, e.frame, minimum) ==
        if minimum.sequence <= from then Ok(e.state)
        else if minimum.sequence > from + |records| then Err(BehindAnchor)
        else if HeadAt(log, s, records, minimum.sequence - from, minimum) then Ok(e.state)
        else Err(Binding)
    decreases |records|
  {
    hide Faithful;
    if records == [] {
    } else {
      var first := log.emit(s, records[0]).value;
      var others := Run(log, first.state, records[1..]).value;
      RunCounts(log, s, records);
      OneStep(log, s, records[0]);
      TakeFrame(log, s, records[0], others.frame);
      ReplayUnderHead(log, first.state, records[1..], minimum);
      var k := minimum.sequence - log.head(s).sequence;
      if 0 < k <= |records| {
        HeadMoves(log, s, records, k, minimum);
      }
    }
  }

  lemma OneStep<S(!new), R(!new)>(log: Log<S, R>, s: S, r: R)
    requires Faithful(log) && log.emit(s, r).Ok?
    ensures log.emit(s, r).value.frame != []
    ensures log.head(log.emit(s, r).value.state).sequence == log.head(s).sequence + 1
  {
  }

  lemma HeadMoves<S(!new), R(!new)>(log: Log<S, R>, s: S, records: seq<R>, k: nat, minimum: Head)
    requires Faithful(log) && Run(log, s, records).Ok? && 0 < k <= |records|
    ensures log.emit(s, records[0]).Ok?
    ensures
      var first := log.emit(s, records[0]).value.state;
      HeadAt(log, s, records, k, minimum) <==>
        if k == 1 then log.head(first) == minimum else HeadAt(log, first, records[1..], k - 1, minimum)
  {
    hide Faithful;
    RunPrefix(log, s, records, k);
    assert records[..k][1..] == records[1..][..k - 1];
    if k == 1 {
      assert records[..1][1..] == [];
    }
  }

  // Opening a run's own file: refused as stale beyond its end, as bound to something else
  // when the head was never on it, and opened otherwise.
  lemma OpenUnderHead<S(!new), R(!new)>(
    log: Log<S, R>, s0: S, header: seq<Byte>, records: seq<R>, minimum: Head)
    requires Faithful(log) && log.head(s0).sequence == 0 && Run(log, s0, records).Ok?
    ensures
      var e := Run(log, s0, records).value;
      Open(log, s0, header, header + e.frame, minimum) ==
        if minimum.sequence > |records| then Err(BehindAnchor)
        else if HeadAt(log, s0, records, minimum.sequence, minimum) then Ok(e.state)
        else Err(Binding)
  {
    hide Faithful, Replay;
    var frame := Run(log, s0, records).value.frame;
    assert (header + frame)[..|header|] == header && (header + frame)[|header|..] == frame;
    ReplayUnderHead(log, s0, records, minimum);
    assert records[..0] == [];
  }

  // ---- truncation --------------------------------------------------------------

  // Two runs whose bytes agree as far as the shorter goes wrote the same records.
  lemma {:induction false} RunBytesDetermineRecords<S(!new), R(!new)>(log: Log<S, R>, s: S, a: seq<R>, b: seq<R>)
    requires Faithful(log) && Run(log, s, a).Ok? && Run(log, s, b).Ok?
    requires Run(log, s, a).value.frame <= Run(log, s, b).value.frame
    ensures a <= b
    decreases |a|
  {
    if a == [] {
    } else {
      RunCounts(log, s, a);
      RunCounts(log, s, b);
      var left, right := Run(log, s, a).value.frame, Run(log, s, b).value.frame;
      var first := log.emit(s, a[0]).value;
      var tail := Run(log, first.state, a[1..]).value.frame;
      assert right == first.frame + (tail + right[|left|..]);
      TakeFrame(log, s, a[0], tail + right[|left|..]);
      TakeFrame(log, s, b[0], Run(log, log.emit(s, b[0]).value.state, b[1..]).value.frame);
      RunBytesDetermineRecords(log, first.state, a[1..], b[1..]);
      assert a == [a[0]] + a[1..] && b == [b[0]] + b[1..];
    }
  }

  lemma RunGrows<S(!new), R(!new)>(log: Log<S, R>, s: S, records: seq<R>, j: nat, k: nat)
    requires Faithful(log) && Run(log, s, records).Ok? && j < k <= |records|
    ensures Run(log, s, records[..j]).Ok? && Run(log, s, records[..k]).Ok?
    ensures |Run(log, s, records[..j]).value.frame| < |Run(log, s, records[..k]).value.frame|
  {
    RunPrefix(log, s, records, k);
    RunPrefix(log, s, records[..k], j);
    assert records[..k][..j] == records[..j];
    RunCounts(log, Run(log, s, records[..j]).value.state, records[..k][j..]);
  }

  // The cut leaves exactly the header and the first m records, which end in `s`.
  ghost predicate CutAfter<S, R>(
    log: Log<S, R>, s0: S, header: seq<Byte>, records: seq<R>, cut: nat, s: S, m: nat)
  {
    && m <= |records|
    && Run(log, s0, records[..m]).Ok?
    && Run(log, s0, records[..m]).value.state == s
    && cut == |header| + |Run(log, s0, records[..m]).value.frame|
  }

  // A canonical file cut at any byte opens, under the head of record k, exactly when
  // the cut is a record boundary at or after k, and then to the state there.
  lemma CutOpens<S(!new), R(!new)>(
    log: Log<S, R>, s0: S, header: seq<Byte>, records: seq<R>, k: nat, minimum: Head, cut: nat, s: S)
    requires Faithful(log) && log.head(s0).sequence == 0
    requires Run(log, s0, records).Ok? && HeadAt(log, s0, records, k, minimum)
    requires cut <= |header + Run(log, s0, records).value.frame|
    ensures Open(log, s0, header, (header + Run(log, s0, records).value.frame)[..cut], minimum) == Ok(s) <==>
      exists m: nat :: k <= m && CutAfter(log, s0, header, records, cut, s, m)
  {
    hide Run, Replay, Faithful, Open;
    var whole := Run(log, s0, records).value.frame;
    var image := (header + whole)[..cut];
    OpenLanguage(log, s0, header, image, minimum, s);
    if Open(log, s0, header, image, minimum) == Ok(s) {
      var found: seq<R>, j: nat :| WrittenBy(log, s0, header, image, minimum, s, found, j);
      var part := Run(log, s0, found).value.frame;
      assert part == image[|header|..] == whole[..|part|];
      RunBytesDetermineRecords(log, s0, found, records);
      RunCounts(log, s0, records[..k]);
      RunCounts(log, s0, found[..j]);
      assert records[..|found|] == found;
      assert CutAfter(log, s0, header, records, cut, s, |found|);
    }
    if m: nat :| k <= m && CutAfter(log, s0, header, records, cut, s, m) {
      RunPrefix(log, s0, records, m);
      var part := Run(log, s0, records[..m]).value.frame;
      assert whole[..|part|] == part;
      assert image == header + part;
      assert records[..m][..k] == records[..k];
      assert WrittenBy(log, s0, header, image, minimum, s, records[..m], k);
    }
  }

  // ---- damage ------------------------------------------------------------------

  function Patched(b: seq<Byte>, at: nat, damage: seq<Byte>): (d: seq<Byte>)
    requires at + |damage| <= |b|
    ensures |d| == |b|
  {
    b[..at] + damage + b[at + |damage|..]
  }

  // The frame of record k comes right after those before it.
  lemma RunNext<S, R>(log: Log<S, R>, s0: S, records: seq<R>, k: nat)
    requires k < |records| && Run(log, s0, records).Ok?
    ensures Run(log, s0, records[..k]).Ok? && Run(log, s0, records[..k + 1]).Ok?
    ensures log.emit(Run(log, s0, records[..k]).value.state, records[k]).Ok?
    ensures
      var before := Run(log, s0, records[..k]).value;
      var e := log.emit(before.state, records[k]).value;
      && Run(log, s0, records[..k + 1]).value == Emitted(e.state, before.frame + e.frame)
      && before.frame + e.frame <= Run(log, s0, records).value.frame
  {
    RunPrefix(log, s0, records, k);
    RunPrefix(log, s0, records, k + 1);
    var before := Run(log, s0, records[..k]).value;
    assert records[..k + 1] == records[..k] + [records[k]];
    RunConcat(log, s0, records[..k], [records[k]]);
    assert [records[k]][1..] == [];
    var e := log.emit(before.state, records[k]).value;
    assert e.frame + [] == e.frame;
  }

  lemma FrameIsNotEmpty<S(!new), R(!new)>(log: Log<S, R>, s: S, r: R)
    requires Faithful(log) && log.emit(s, r).Ok?
    ensures log.emit(s, r).value.frame != []
  {
  }

  // If the reader refuses record k's frame with these bytes overwritten, whatever follows
  // it, then the file with them overwritten does not open under any head.
  lemma DamageIsMet<S(!new), R(!new)>(
    log: Log<S, R>, s0: S, header: seq<Byte>, records: seq<R>, k: nat, at: nat, damage: seq<Byte>, minimum: Head)
    requires Faithful(log) && k < |records| && Run(log, s0, records).Ok? && Run(log, s0, records[..k]).Ok?
    requires
      var before := Run(log, s0, records[..k]).value;
      var start := |before.frame|;
      && log.emit(before.state, records[k]).Ok?
      && start <= at && at + |damage| <= start + |log.emit(before.state, records[k]).value.frame|
      && forall rest: seq<Byte> ::
        log.take(before.state, Patched(log.emit(before.state, records[k]).value.frame + rest, at - start, damage)).Err?
    ensures at + |damage| <= |Run(log, s0, records).value.frame|
    ensures Open(log, s0, header, header + Patched(Run(log, s0, records).value.frame, at, damage), minimum).Err?
  {
    hide Run, Replay, Faithful;
    RunNext(log, s0, records, k);
    var before := Run(log, s0, records[..k]).value;
    var frame := log.emit(before.state, records[k]).value.frame;
    var whole := Run(log, s0, records).value.frame;
    FrameIsNotEmpty(log, before.state, records[k]);
    var rest := whole[|before.frame| + |frame|..];
    assert whole == before.frame + (frame + rest);
    var d := Patched(frame + rest, at - |before.frame|, damage);
    assert Patched(whole, at, damage) == before.frame + d;
    ReplaySkipsRun(log, s0, records[..k], d, minimum);
    var image := header + (before.frame + d);
    assert image[|header|..] == before.frame + d && image[..|header|] == header;
  }

  // ---- whole runs of an owner that can crash -----------------------------------

  datatype Owner<+S> = Absent | Poisoned | Live(state: S)

  // `acked` is the history acknowledged to callers, `pending` the group whose
  // persistence is unknown, `offered` every record any caller ever submitted.
  datatype World<+S, +R> = World(
    disk: seq<Byte>, owner: Owner<S>, acked: seq<R>, pending: seq<R>, offered: set<R>)

  ghost function Created<S, R>(s0: S, header: seq<Byte>): World<S, R> {
    World(header, Live(s0), [], [], {})
  }

  ghost predicate Commits<S, R>(log: Log<S, R>, w: World<S, R>, w': World<S, R>, group: seq<R>) {
    && w.owner.Live?
    && Run(log, w.owner.state, group).Ok?
    && var e := Run(log, w.owner.state, group).value;
    w' == World(w.disk + e.frame, Live(e.state), w.acked + group, [], w.offered + Members(group))
  }

  // The persist call failed, panicked or was never acknowledged after writing n bytes.
  ghost predicate Tears<S, R>(log: Log<S, R>, w: World<S, R>, w': World<S, R>, group: seq<R>, n: nat) {
    && w.owner.Live?
    && Run(log, w.owner.state, group).Ok?
    && var e := Run(log, w.owner.state, group).value;
    && n <= |e.frame|
    && w' == World(w.disk + e.frame[..n], Poisoned, w.acked, group, w.offered + Members(group))
  }

  // Reopening under some head that was once acknowledged; a refusal changes nothing.
  ghost predicate Reopens<S(!new), R(!new)>(
    log: Log<S, R>, s0: S, header: seq<Byte>, w: World<S, R>, w': World<S, R>, k: nat, minimum: Head)
  {
    && Faithful(log)
    && w.owner.Absent?
    && HeadAt(log, s0, w.acked, k, minimum)
    && match Open(log, s0, header, w.disk, minimum)
       case Err(_) => w' == w
       case Ok(s) =>
         && w' == World(w.disk, Live(s), w'.acked, [], w.offered)
         && Run(log, s0, w'.acked).Ok?
         && w.disk == header + Run(log, s0, w'.acked).value.frame
  }

  ghost predicate Step<S(!new), R(!new)>(
    log: Log<S, R>, s0: S, header: seq<Byte>, w: World<S, R>, w': World<S, R>)
  {
    || w' == w
    || w' == w.(owner := Absent)
    || (exists group: seq<R> :: Commits(log, w, w', group))
    || (exists group: seq<R>, n: nat :: Tears(log, w, w', group, n))
    || (exists k: nat, minimum: Head :: Reopens(log, s0, header, w, w', k, minimum))
  }

  // The disk holds every acknowledged frame and then some prefix of the pending ones.
  ghost predicate Durable<S, R>(log: Log<S, R>, s0: S, header: seq<Byte>, w: World<S, R>) {
    && Run(log, s0, w.acked).Ok?
    && Run(log, s0, w.acked + w.pending).Ok?
    && header + Run(log, s0, w.acked).value.frame <= w.disk
    && w.disk <= header + Run(log, s0, w.acked + w.pending).value.frame
    && Members(w.acked) + Members(w.pending) <= w.offered
    && (w.owner.Live? ==> w.pending == [] && w.owner.state == Run(log, s0, w.acked).value.state)
  }

  lemma CommitKeepsDurable<S, R>(
    log: Log<S, R>, s0: S, header: seq<Byte>, w: World<S, R>, w': World<S, R>, group: seq<R>)
    requires Durable(log, s0, header, w) && Commits(log, w, w', group)
    ensures Durable(log, s0, header, w') && w.acked <= w'.acked
    ensures Run(log, s0, w'.acked).Ok? && w'.owner == Live(Run(log, s0, w'.acked).value.state)
  {
    hide Run;
    assert w.acked + [] == w.acked;
    RunConcat(log, s0, w.acked, group);
    assert w'.acked + [] == w'.acked;
    assert w.disk == header + Run(log, s0, w.acked).value.frame;
    assert w'.disk == header + Run(log, s0, w'.acked).value.frame;
  }

  lemma TearKeepsDurable<S, R>(
    log: Log<S, R>, s0: S, header: seq<Byte>, w: World<S, R>, w': World<S, R>, group: seq<R>, n: nat)
    requires Durable(log, s0, header, w) && Tears(log, w, w', group, n)
    ensures Durable(log, s0, header, w') && w.acked == w'.acked
  {
    hide Run;
    assert w.acked + [] == w.acked;
    RunConcat(log, s0, w.acked, group);
    assert w.disk == header + Run(log, s0, w.acked).value.frame;
    assert w'.disk <= header + Run(log, s0, w.acked + group).value.frame;
  }

  // Recovery under any acknowledged head gives the whole acknowledged history and
  // at most a complete prefix of the group in flight; never less, never anything else.
  lemma RecoveryIsExact<S(!new), R(!new)>(
    log: Log<S, R>, s0: S, header: seq<Byte>, w: World<S, R>, k: nat, minimum: Head, s: S)
    returns (history: seq<R>)
    requires Faithful(log) && log.head(s0).sequence == 0
    requires Durable(log, s0, header, w) && HeadAt(log, s0, w.acked, k, minimum)
    requires Open(log, s0, header, w.disk, minimum) == Ok(s)
    ensures w.acked <= history <= w.acked + w.pending
    ensures Run(log, s0, history) == Ok(Emitted(s, w.disk[|header|..])) && header <= w.disk
  {
    var all := w.acked + w.pending;
    var whole := Run(log, s0, all).value.frame;
    assert w.disk == (header + whole)[..|w.disk|];
    assert all[..k] == w.acked[..k];
    CutOpens(log, s0, header, all, k, minimum, |w.disk|, s);
    var m: nat :| k <= m && CutAfter(log, s0, header, all, |w.disk|, s, m);
    history := all[..m];
    assert all[..|w.acked|] == w.acked;
    if m < |w.acked| {
      RunGrows(log, s0, all, m, |w.acked|);
    }
    assert w.acked <= history by {
      assert all[..m][..|w.acked|] == w.acked;
    }
    RunPrefix(log, s0, all, m);
    var part := Run(log, s0, history).value.frame;
    assert whole[..|part|] == part;
    assert w.disk == header + part;
  }

  lemma ReopenKeepsDurable<S(!new), R(!new)>(
    log: Log<S, R>, s0: S, header: seq<Byte>, w: World<S, R>, w': World<S, R>, k: nat, minimum: Head)
    requires log.head(s0).sequence == 0
    requires Durable(log, s0, header, w) && Reopens(log, s0, header, w, w', k, minimum)
    ensures Durable(log, s0, header, w') && w.acked <= w'.acked <= w.acked + w.pending
  {
    if Open(log, s0, header, w.disk, minimum).Ok? {
      var s := Open(log, s0, header, w.disk, minimum).value;
      var history := RecoveryIsExact(log, s0, header, w, k, minimum, s);
      var found := Run(log, s0, w'.acked).value.frame;
      assert found == w.disk[|header|..];
      RunBytesDetermineRecords(log, s0, history, w'.acked);
      RunBytesDetermineRecords(log, s0, w'.acked, history);
      assert history == w'.acked;
      assert w'.acked + [] == w'.acked;
      forall r | r in w'.acked ensures r in w.offered {
        assert r in w.acked + w.pending;
      }
    }
  }

  lemma StepKeepsDurable<S(!new), R(!new)>(
    log: Log<S, R>, s0: S, header: seq<Byte>, w: World<S, R>, w': World<S, R>)
    requires log.head(s0).sequence == 0
    requires Durable(log, s0, header, w) && Step(log, s0, header, w, w')
    ensures Durable(log, s0, header, w') && w.acked <= w'.acked
  {
    if group: seq<R> :| Commits(log, w, w', group) {
      CommitKeepsDurable(log, s0, header, w, w', group);
    } else if group: seq<R>, n: nat :| Tears(log, w, w', group, n) {
      TearKeepsDurable(log, s0, header, w, w', group, n);
    } else if k: nat, minimum: Head :| Reopens(log, s0, header, w, w', k, minimum) {
      ReopenKeepsDurable(log, s0, header, w, w', k, minimum);
    }
  }

  ghost predicate History<S(!new), R(!new)>(
    log: Log<S, R>, s0: S, header: seq<Byte>, worlds: seq<World<S, R>>)
  {
    && worlds != []
    && worlds[0] == Created(s0, header)
    && forall i: nat :: i + 1 < |worlds| ==> Step(log, s0, header, worlds[i], worlds[i + 1])
  }

  lemma {:induction false} EveryWorldDurable<S(!new), R(!new)>(
    log: Log<S, R>, s0: S, header: seq<Byte>, worlds: seq<World<S, R>>, i: nat, j: nat)
    requires log.head(s0).sequence == 0 && History(log, s0, header, worlds) && i <= j < |worlds|
    ensures Durable(log, s0, header, worlds[j]) && worlds[i].acked <= worlds[j].acked
    decreases j
  {
    if j == 0 {
      assert worlds[0].acked + worlds[0].pending == [];
    } else {
      EveryWorldDurable(log, s0, header, worlds, Min(i, j - 1), j - 1);
      var before := j - 1;
      assert Step(log, s0, header, worlds[before], worlds[before + 1]);
      StepKeepsDurable(log, s0, header, worlds[before], worlds[before + 1]);
    }
  }

  // What a head acknowledged in the past still guarantees now: a live owner matches its
  // disk, and reopening finds either nothing at all or a history that contains everything
  // acknowledged meanwhile and only records that were submitted.
  ghost predicate SafeAfter<S(!new), R(!new)>(
    log: Log<S, R>, s0: S, header: seq<Byte>, past: World<S, R>, now: World<S, R>, minimum: Head)
    requires Faithful(log)
  {
    && past.acked <= now.acked
    && (now.owner.Live? ==>
      && Run(log, s0, now.acked).Ok?
      && now.owner.state == Run(log, s0, now.acked).value.state
      && now.disk == header + Run(log, s0, now.acked).value.frame)
    && (Open(log, s0, header, now.disk, minimum).Ok? ==>
      exists history: seq<R> ::
        && now.acked <= history <= now.acked + now.pending
        && Members(history) <= now.offered
        && Run(log, s0, history).Ok?
        && Run(log, s0, history).value.state == Open(log, s0, header, now.disk, minimum).value
        && now.disk == header + Run(log, s0, history).value.frame)
  }

  // Safety of every run, after any number of commits, torn writes, crashes and reopenings.
  lemma EveryRunIsSafe<S(!new), R(!new)>(
    log: Log<S, R>, s0: S, header: seq<Byte>, worlds: seq<World<S, R>>, i: nat, j: nat, k: nat, minimum: Head)
    requires Faithful(log) && log.head(s0).sequence == 0
    requires History(log, s0, header, worlds) && i <= j < |worlds|
    requires HeadAt(log, s0, worlds[i].acked, k, minimum)
    ensures SafeAfter(log, s0, header, worlds[i], worlds[j], minimum)
  {
    EveryWorldDurable(log, s0, header, worlds, i, j);
    var w := worlds[j];
    assert w.acked + [] == w.acked;
    if Open(log, s0, header, w.disk, minimum).Ok? {
      assert w.acked[..k] == worlds[i].acked[..k];
      var history := RecoveryIsExact(log, s0, header, w, k, minimum, Open(log, s0, header, w.disk, minimum).value);
      forall r | r in history ensures r in w.offered {
        assert r in w.acked + w.pending;
      }
    }
  }
}
