/**
 Cooperative replay (crates/fa-journal/src/replay.rs): the same strict replay, done a
 few reads and record checks at a time by a cursor that can stop at any byte. Whatever
 the budgets and however the reader splits its answers, the outcome is that of the
 synchronous replay, and polls that allow some work reach it.
 */
module ReplayCursor {
  import opened Bytes
  import opened Crc
  import opened EventCodec
  import opened FramedLog
  import opened RightsJournal
  import opened RightsLedger

  datatype Budget = Budget(readCalls: U64, readBytes: U64, checkedRecords: U64)
  datatype Status = Reading | Ready | Failed
  datatype Phase = AtHeader | AtLength | AtRecord(bodyLen: nat)

  // What one call of the supplied reader answers: an interruption, a hard error, a count
  // beyond what was asked for, or some bytes, at most `extra` beyond the first (none only
  // when the input has ended).
  datatype Reply = Interrupted | Broken | Overstated | Filled(extra: nat)

  // How one turn of the polling loop ends.
  datatype Turn = Continue | Yield | Complete | Stop(error: Error)

  datatype ReplayError = Journal(error: Error) | NotReady | AlreadyFailed

  // Every reply of every poll, by poll and call.
  type Reader = (nat, nat) -> Reply

  const UNLIMITED := Budget(U64_MAX, U64_MAX, U64_MAX)

  // The replies of the i-th poll.
  function Replies(reader: Reader, i: nat): nat -> Reply {
    (call: nat) => reader(i, call)
  }

  // How many of the first n calls are interrupted.
  function Interruptions(replies: nat -> Reply, n: nat): nat {
    if n == 0 then 0 else Interruptions(replies, n - 1) + if replies(n) == Interrupted then 1 else 0
  }

  lemma InterruptionsStep(replies: nat -> Reply, n: nat)
    ensures Interruptions(replies, 0) == 0
    ensures Interruptions(replies, n + 1) == Interruptions(replies, n) + if replies(n + 1) == Interrupted then 1 else 0
  {
  }

  lemma {:induction false} InterruptionsBetween(replies: nat -> Reply, m: nat, n: nat)
    requires m <= n
    ensures Interruptions(replies, m) <= Interruptions(replies, n) <= Interruptions(replies, m) + n - m
    decreases n
  {
    if m == n {
    } else {
      InterruptionsBetween(replies, m, n - 1);
    }
  }

  // Every call but the last is interrupted or moves a byte, so a call beyond this bound is
  // never made on an input of this size.
  predicate Reachable(replies: nat -> Reply, call: nat, size: nat) {
    call <= size + 1 + Interruptions(replies, call)
  }

  // How many of the first n calls are interrupted and reachable.
  function Heard(replies: nat -> Reply, n: nat, size: nat): nat {
    if n == 0 then 0
    else Heard(replies, n - 1, size) + if replies(n) == Interrupted && Reachable(replies, n, size) then 1 else 0
  }

  // All interruptions up to a reachable call are heard.
  lemma {:induction false} ReachedAreHeard(replies: nat -> Reply, m: nat, n: nat, size: nat)
    requires m <= n && Reachable(replies, m, size)
    ensures Interruptions(replies, m) <= Heard(replies, n, size)
    decreases n
  {
    if n == 0 {
    } else if m < n {
      ReachedAreHeard(replies, m, n - 1, size);
    } else {
      InterruptionsBetween(replies, m - 1, m);
      ReachedAreHeard(replies, m - 1, n - 1, size);
    }
  }

  // The error a reply itself amounts to.
  function FaultOf(reply: Reply): Option<Error> {
    match reply
    case Broken => Some(Io)
    case Overstated => Some(Corrupt)
    case _ => None
  }

  // Some reachable call within the budget of one of the polls fails for good, in this way.
  ghost predicate FaultsWithin(budgets: nat -> Budget, reader: Reader, polls: nat, size: nat, error: Error) {
    exists i: nat, call: nat ::
      && i < polls && 1 <= call <= budgets(i).readCalls
      && Reachable(Replies(reader, i), call, size) && FaultOf(reader(i, call)) == Some(error)
  }

  // A poll under such a budget need not make progress.
  predicate Idle(budget: Budget) {
    budget.readCalls == 0 || budget.readBytes == 0 || budget.checkedRecords == 0
  }

  // What can keep n polls from making progress: empty budgets and interrupted calls.
  function Stalls(budgets: nat -> Budget, reader: Reader, size: nat, n: nat): nat {
    if n == 0 then 0
    else
      Stalls(budgets, reader, size, n - 1)
      + (if Idle(budgets(n - 1)) then 1 else 0)
      + Heard(Replies(reader, n - 1), budgets(n - 1).readCalls, size)
  }

  lemma {:induction false} StallsGrow(budgets: nat -> Budget, reader: Reader, size: nat, m: nat, n: nat)
    requires m <= n
    ensures Stalls(budgets, reader, size, m) <= Stalls(budgets, reader, size, n)
    decreases n
  {
    if m == n {
    } else {
      StallsGrow(budgets, reader, size, m, n - 1);
    }
  }

  // A reader that always answers with bytes, or with the end of the input.
  ghost predicate Steady(reader: Reader) {
    forall i, call :: reader(i, call).Filled?
  }

  lemma {:induction false} SteadyIsUninterrupted(reader: Reader, i: nat, n: nat, size: nat)
    requires Steady(reader)
    ensures Heard(Replies(reader, i), n, size) == 0
  {
    if n == 0 {
    } else {
      SteadyIsUninterrupted(reader, i, n - 1, size);
      assert reader(i, n).Filled?;
    }
  }

  lemma {:induction false} SteadyNeverStalls(budgets: nat -> Budget, reader: Reader, size: nat, n: nat)
    requires Steady(reader) && forall i :: 0 <= i < n ==> !Idle(budgets(i))
    ensures Stalls(budgets, reader, size, n) == 0
  {
    if n == 0 {
    } else {
      SteadyNeverStalls(budgets, reader, size, n - 1);
      SteadyIsUninterrupted(reader, n - 1, budgets(n - 1).readCalls, size);
    }
  }

  // A record that lies whole in `b` is taken the same way whatever follows it.
  lemma TakeIsLocal(s: State, b: seq<Byte>, tail: seq<Byte>)
    requires |b| >= 4 && |b| == FromLE(b[..4]) + 8
    ensures TakeStep(s, b + tail) == match TakeStep(s, b)
      case Ok(t) => Ok(Taken(t.state, t.record, tail))
      case Err(error) => Err(error)
    ensures TakeStep(s, b).Ok? ==> TakeStep(s, b).value.rest == []
  {
    hide DecodeEvent, Crc32, Apply, FromLE, Conserved, IsZero, CheckEventGrowth, Valid;
    var n := FromLE(b[..4]);
    var c := b + tail;
    assert c[..4] == b[..4];
    assert c[4..4 + n] == b[4..4 + n];
    assert c[4 + n..8 + n] == b[4 + n..8 + n];
    assert c[8 + n..] == tail;
    assert b[8 + n..] == [];
  }

  lemma HeaderIsLong(s: State)
    ensures |Header(s)| >= 84
  {
    hide Prologue, Crc32;
  }

  // ---- what each buffer boundary does to the synchronous outcome -----------------

  lemma AfterHeader(s0: State, buffer: seq<Byte>, unread: seq<Byte>, minimum: Head)
    requires |buffer| == |Header(s0)|
    ensures Faithful(JournalLog())
    ensures Open(JournalLog(), s0, Header(s0), buffer + unread, minimum) ==
      if buffer != Header(s0) || (minimum.sequence == 0 && minimum != s0.head) then Err(Binding)
      else Replay(JournalLog(), s0, unread, minimum)
  {
    hide Header, AppendStep, TakeStep, Replay, Faithful;
    LogIsFaithful();
    assert (buffer + unread)[..|buffer|] == buffer;
    assert (buffer + unread)[|buffer|..] == unread;
  }

  lemma AfterLength(s: State, buffer: seq<Byte>, unread: seq<Byte>, minimum: Head)
    requires |buffer| == 4 && CheckGrowth(s, FromLE(buffer)).Err?
    ensures Faithful(JournalLog())
    ensures Replay(JournalLog(), s, buffer + unread, minimum) == Err(Limit)
  {
    hide AppendStep, DecodeEvent, Crc32, Apply, FromLE, Conserved, IsZero, CheckEventGrowth, Faithful;
    LogIsFaithful();
    assert (buffer + unread)[..4] == buffer;
    assert TakeStep(s, buffer + unread) == Err(Limit);
  }

  lemma AfterRecord(s: State, record: seq<Byte>, unread: seq<Byte>, minimum: Head)
    requires |record| >= 8 && |record| == FromLE(record[..4]) + 8
    ensures Faithful(JournalLog())
    ensures Replay(JournalLog(), s, record + unread, minimum) ==
      if TakeStep(s, record).Err? then Err(TakeStep(s, record).error)
      else
        var after := TakeStep(s, record).value.state;
        if after.head.sequence == minimum.sequence && after.head != minimum then Err(Binding)
        else Replay(JournalLog(), after, unread, minimum)
  {
    hide AppendStep, TakeStep, FromLE, Faithful;
    LogIsFaithful();
    TakeIsLocal(s, record, unread);
  }

  lemma EndsInside(s: State, b: seq<Byte>, minimum: Head)
    requires 0 < |b| && (|b| < 4 || (CheckGrowth(s, FromLE(b[..4])).Ok? && |b| < FromLE(b[..4]) + 8))
    ensures Faithful(JournalLog())
    ensures Replay(JournalLog(), s, b, minimum) == Err(Io)
  {
    hide AppendStep, DecodeEvent, Crc32, Apply, FromLE, Conserved, IsZero, CheckEventGrowth, Faithful;
    LogIsFaithful();
    assert TakeStep(s, b) == Err(Io);
  }

  class Cursor {
    var unread: seq<Byte>
    var journal: Journal
    const minimum: Head
    var anchorSeen: bool
    var phase: Phase
    var need: nat
    var filled: seq<Byte>
    var length: seq<Byte>
    var status: Status
    var total: Budget
    ghost const s0: State
    ghost const size: nat

    // The counters account for every byte of the input and every checked record.
    ghost predicate Counted()
      reads this
    {
      total.readBytes + |unread| == size && total.checkedRecords + |filled| <= total.readBytes
    }

    ghost predicate IsValid()
      reads this, journal
    {
      && journal.IsValid()
      && |filled| <= need
      && need > 0
      && match phase
         case AtHeader =>
           && need == |Header(s0)| && journal.Snapshot() == s0 && s0.head.sequence == 0
           && (anchorSeen <==> minimum == s0.head)
         case AtLength => need == 4 && (anchorSeen <==> minimum.sequence <= journal.head.sequence)
         case AtRecord(bodyLen) =>
           && need == bodyLen + 4
           && |length| == 4 && FromLE(length) == bodyLen
           && CheckGrowth(journal.Snapshot(), bodyLen).Ok?
           && (anchorSeen <==> minimum.sequence <= journal.head.sequence)
    }

    // What the synchronous replay makes of everything still to come.
    ghost function Outcome(): Result<State, Error>
      requires IsValid() && Faithful(JournalLog())
      reads this, journal
    {
      match phase
      case AtHeader => Open(JournalLog(), s0, Header(s0), filled + unread, minimum)
      case AtLength => Replay(JournalLog(), journal.Snapshot(), filled + unread, minimum)
      case AtRecord(_) => Replay(JournalLog(), journal.Snapshot(), length + (filled + unread), minimum)
    }

    constructor (s: State, input: seq<Byte>, minimum: Head)
      requires s.head.sequence == 0
      ensures IsValid() && fresh(journal) && Faithful(JournalLog())
      ensures status == Reading && s0 == s && Counted() && size == |input| && total == Budget(0, 0, 0)
      ensures Outcome() == Open(JournalLog(), s, Header(s), input, minimum)
    {
      hide Header, HeaderBytes, AppendStep, TakeStep;
      LogIsFaithful();
      s0, size := s, |input|;
      unread := input;
      journal := new Journal(s);
      this.minimum := minimum;
      anchorSeen := minimum == s.head;
      phase := AtHeader;
      need := |Header(s)|;
      filled := [];
      length := [];
      status := Reading;
      total := Budget(0, 0, 0);
      new;
      HeaderIsLong(s);
      assert [] + input == input;
    }

    // A full buffer is checked and the next one is sized; only a record costs budget.
    method CheckHeader() returns (r: Result<(), Error>)
      requires IsValid() && Faithful(JournalLog()) && phase == AtHeader && |filled| == need
      modifies this
      ensures journal == old(journal) && unread == old(unread) && total == old(total) && status == old(status)
      ensures r.Err? ==> old(Outcome()) == Err(r.error)
      ensures r.Ok? ==> IsValid() && phase == AtLength && filled == [] && Outcome() == old(Outcome())
    {
      hide Header, HeaderBytes, AppendStep, TakeStep, Open, Replay;
      AfterHeader(s0, filled, unread, minimum);
      if filled != Header(journal.Snapshot()) || (minimum.sequence == 0 && !anchorSeen) {
        return Err(Binding);
      }
      filled := [];
      need := 4;
      phase := AtLength;
      assert filled + unread == unread;
      return Ok(());
    }

    method CheckLength() returns (r: Result<(), Error>)
      requires IsValid() && Faithful(JournalLog()) && phase == AtLength && |filled| == need
      modifies this
      ensures journal == old(journal) && unread == old(unread) && total == old(total) && status == old(status)
      ensures r.Err? ==> old(Outcome()) == Err(r.error)
      ensures r.Ok? ==> IsValid() && phase.AtRecord? && filled == [] && Outcome() == old(Outcome())
    {
      hide Header, HeaderBytes, AppendStep, TakeStep, Open, Replay, FromLE;
      length := filled;
      var bodyLen := FromLE(length);
      var grown := CheckGrowth(journal.Snapshot(), bodyLen);
      if grown.Err? {
        AfterLength(journal.Snapshot(), filled, unread, minimum);
        return Err(grown.error);
      }
      filled := [];
      need := bodyLen + 4;
      phase := AtRecord(bodyLen);
      assert filled + unread == unread;
      return Ok(());
    }

    method CheckRecord() returns (r: Result<(), Error>)
      requires IsValid() && Faithful(JournalLog()) && phase.AtRecord? && |filled| == need
      modifies this, journal
      ensures journal == old(journal) && unread == old(unread) && total == old(total) && status == old(status)
      ensures r.Err? ==> old(Outcome()) == Err(r.error)
      ensures r.Ok? ==> IsValid() && phase == AtLength && filled == [] && Outcome() == old(Outcome())
    {
      hide Header, HeaderBytes, AppendStep, TakeStep, Open, Replay, FromLE, Valid, Faithful, JournalLog;
      ghost var s, record := journal.Snapshot(), length + filled;
      assert record[..4] == length;
      Glue(length, filled, unread);
      AfterRecord(s, record, unread, minimum);
      TakenShrinks(s, record);
      var taken := journal.ReadRecord(length + filled);
      if taken.Err? {
        return Err(taken.error);
      }
      if journal.head.sequence == minimum.sequence {
        if journal.head != minimum {
          return Err(Binding);
        }
        anchorSeen := true;
      }
      filled := [];
      need := 4;
      phase := AtLength;
      assert filled + unread == unread;
      return Ok(());
    }

    // The input has ended: clean only between records, and only past the anchor.
    method AtEnd() returns (r: Result<(), Error>)
      requires IsValid() && Faithful(JournalLog()) && unread == [] && |filled| < need
      ensures r.Err? ==> Outcome() == Err(r.error)
      ensures r.Ok? ==> Outcome() == Ok(journal.Snapshot())
    {
      hide Header, HeaderBytes, AppendStep, TakeStep, FromLE;
      assert filled + unread == filled;
      if phase == AtLength && filled == [] {
        if anchorSeen {
          return Ok(());
        }
        return Err(BehindAnchor);
      }
      ghost var s := journal.Snapshot();
      if phase == AtLength {
        EndsInside(s, filled, minimum);
      } else if phase.AtRecord? {
        assert (length + filled)[..4] == length;
        EndsInside(s, length + filled, minimum);
      }
      return Err(Io);
    }

    // Moves the next chunk from the reader into the buffer.
    method Fill(count: nat)
      requires IsValid() && Faithful(JournalLog()) && count <= |unread| && |filled| + count <= need
      modifies this`filled, this`unread
      ensures IsValid() && Outcome() == old(Outcome())
      ensures |filled| == |old(filled)| + count && unread == old(unread)[count..]
    {
      hide Header, HeaderBytes, AppendStep, TakeStep, FromLE, Open, Replay;
      Glue(filled, unread[..count], unread[count..]);
      assert unread[..count] + unread[count..] == unread;
      filled := filled + unread[..count];
      unread := unread[count..];
    }

    // An error is the synchronous refusal, a fault of the last call made, or a full lifetime
    // counter.
    ghost predicate Justified(goal: Result<State, Error>, error: Error, replies: nat -> Reply, last: nat)
      reads this
    {
      || goal == Err(error)
      || (last > 0 && FaultOf(replies(last)) == Some(error))
      || (error == Limit && (total.readCalls == U64_MAX || size > U64_MAX))
    }

    // What a turn may have done, given the outcome that was ahead before it.
    ghost predicate Turned(goal: Result<State, Error>, turn: Turn, replies: nat -> Reply, last: nat)
      reads this, journal
    {
      match turn
      case Complete => goal == Ok(journal.Snapshot())
      case Stop(error) => Justified(goal, error, replies, last)
      case _ => IsValid() && Counted() && Faithful(JournalLog()) && Outcome() == goal
    }

    // The buffer is full: check it, unless that needs a record check beyond the budget.
    method CheckBuffer(mayCheck: bool) returns (turn: Turn, checked: nat)
      requires IsValid() && Counted() && Faithful(JournalLog()) && |filled| == need
      modifies this, journal
      ensures journal == old(journal) && status == old(status) && unread == old(unread)
      ensures checked <= 1 && (checked == 1 ==> mayCheck)
      ensures total == old(total).(checkedRecords := old(total.checkedRecords) + checked)
      ensures match turn
              case Continue => IsValid() && Counted() && Outcome() == old(Outcome()) && |filled| < need
              case Yield => IsValid() && Counted() && Outcome() == old(Outcome()) && !mayCheck
              case Stop(error) => old(Outcome()) == Err(error)
              case Complete => false
    {
      hide Header, HeaderBytes, AppendStep, TakeStep, FromLE, Open, Replay, Faithful, Valid;
      checked := 0;
      assert total.checkedRecords < total.readBytes; // so the overflow check on the next counter never fires
      var passed: Result<(), Error>;
      match phase {
        case AtHeader => passed := CheckHeader();
        case AtLength => passed := CheckLength();
        case AtRecord(_) =>
          if !mayCheck {
            return Yield, 0;
          }
          total := total.(checkedRecords := total.checkedRecords + 1);
          checked := 1;
          passed := CheckRecord();
      }
      turn := if passed.Err? then Stop(passed.error) else Continue;
    }

    // One call of the reader, for at most `amount` bytes; none once the counter is full.
    method ReadOnce(amount: nat, reply: Reply) returns (turn: Turn, called: nat, count: nat)
      requires IsValid() && Counted() && Faithful(JournalLog()) && 0 < amount <= need - |filled|
      modifies this
      ensures journal == old(journal) && status == old(status) && count <= amount && total.readBytes <= size
      ensures called <= 1 && total.readCalls == old(total.readCalls) + called
      ensures total.readBytes == old(total.readBytes) + count && total.checkedRecords == old(total.checkedRecords)
      ensures match turn
              case Continue =>
                && IsValid() && Counted() && Outcome() == old(Outcome())
                && called == 1 && (reply == Interrupted || (reply.Filled? && count > 0))
              case Complete => old(Outcome()) == Ok(journal.Snapshot())
              case Stop(error) =>
                || old(Outcome()) == Err(error)
                || (called == 1 && FaultOf(reply) == Some(error))
                || (error == Limit && (total.readCalls == U64_MAX || size > U64_MAX))
              case Yield => false
    {
      hide Header, HeaderBytes, AppendStep, TakeStep, FromLE, Open, Replay, Faithful, Valid;
      if total.readCalls == U64_MAX {
        return Stop(Limit), 0, 0;
      }
      total := total.(readCalls := total.readCalls + 1);
      match reply {
        case Interrupted => return Continue, 1, 0;
        case Broken => return Stop(Io), 1, 0;
        case Overstated => return Stop(Corrupt), 1, 0;
        case Filled(extra) =>
          if unread == [] {
            var ended := AtEnd();
            return if ended.Err? then Stop(ended.error) else Complete, 1, 0;
          }
          var taken := Min(extra + 1, Min(amount, |unread|));
          if total.readBytes + taken > U64_MAX {
            return Stop(Limit), 1, 0;
          }
          total := total.(readBytes := total.readBytes + taken);
          Fill(taken);
          return Continue, 1, taken;
      }
    }

    // What has been spent since the counters stood at `was`.
    ghost predicate Spends(was: Budget, spent: Budget)
      reads this
    {
      && total.readCalls == was.readCalls + spent.readCalls
      && total.readBytes == was.readBytes + spent.readBytes
      && total.checkedRecords == was.checkedRecords + spent.checkedRecords
    }

    // Every call but the last was interrupted or moved a byte.
    ghost predicate Worked(turn: Turn, replies: nat -> Reply, spent: Budget) {
      spent.readCalls <= spent.readBytes + Interruptions(replies, spent.readCalls)
        + if turn == Continue || turn == Yield then 0 else 1
    }

    // The polling loop: reads and checks until done or out of budget.
    method Poll(budget: Budget, replies: nat -> Reply) returns (turn: Turn, spent: Budget)
      requires IsValid() && Counted() && Faithful(JournalLog())
      modifies this, journal
      ensures journal == old(journal) && status == old(status)
      ensures Turned(old(Outcome()), turn, replies, spent.readCalls) && spent.readCalls <= budget.readCalls
      ensures Spends(old(total), spent) && Exhausts(turn, budget, spent) && total.readBytes <= size
      ensures Worked(turn, replies, spent)
      ensures turn != Continue
    {
      hide Header, HeaderBytes, AppendStep, TakeStep, FromLE, Open, Replay, Faithful, Valid, Outcome, JournalLog,
        Interruptions, IsValid;
      spent := Budget(0, 0, 0);
      turn := Continue;
      ghost var goal := Outcome();
      InterruptionsStep(replies, 0);
      while turn == Continue
        invariant journal == old(journal) && status == old(status)
        invariant Turned(goal, turn, replies, spent.readCalls)
        invariant spent.readCalls <= budget.readCalls && spent.readBytes <= budget.readBytes
        invariant spent.checkedRecords <= budget.checkedRecords
        invariant Spends(old(total), spent) && Exhausts(turn, budget, spent) && total.readBytes <= size
        invariant Worked(turn, replies, spent)
        decreases
          turn == Continue, budget.readCalls - spent.readCalls,
          if turn == Continue && |filled| == need then 1 else 0
      {
        var called, n;
        if |filled| == need {
          turn, n := CheckBuffer(spent.checkedRecords < budget.checkedRecords);
          spent := spent.(checkedRecords := spent.checkedRecords + n);
        } else if spent.readCalls == budget.readCalls || spent.readBytes == budget.readBytes {
          turn := Yield;
        } else {
          RoomLeft();
          var amount := Min(budget.readBytes - spent.readBytes, need - |filled|);
          InterruptionsStep(replies, spent.readCalls);
          turn, called, n := ReadOnce(amount, replies(spent.readCalls + 1));
          spent := spent.(readCalls := spent.readCalls + called, readBytes := spent.readBytes + n);
        }
      }
    }

    lemma RoomLeft()
      requires IsValid()
      ensures |filled| <= need
    {
    }

    // A poll yields only when one of its allowances is used up.
    ghost predicate Exhausts(turn: Turn, budget: Budget, spent: Budget) {
      turn == Yield ==>
        || spent.readCalls == budget.readCalls
        || spent.readBytes == budget.readBytes
        || spent.checkedRecords == budget.checkedRecords
    }

    // One poll. It ends by yielding, with the synchronous outcome still ahead and an
    // allowance used up; by being ready, with exactly the synchronous result; or by
    // failing for good, for a stated reason.
    method Advance(budget: Budget, replies: nat -> Reply) returns (r: Result<Status, ReplayError>, spent: Budget)
      requires status == Reading ==> IsValid() && Counted() && Faithful(JournalLog())
      modifies this, journal
      ensures journal == old(journal)
      ensures old(status) == Ready ==>
        r == Ok(Ready) && status == Ready && journal.Snapshot() == old(journal.Snapshot()) && total == old(total)
      ensures old(status) == Failed ==> r == Err(AlreadyFailed) && status == Failed && total == old(total)
      ensures old(status) == Reading ==>
        && Spends(old(total), spent) && total.readBytes <= size && spent.readCalls <= budget.readCalls
        && Worked(if r == Ok(Reading) then Yield else Complete, replies, spent)
        && (match r
            case Ok(Reading) =>
              && status == Reading && IsValid() && Counted() && Outcome() == old(Outcome())
              && Exhausts(Yield, budget, spent)
            case Ok(Ready) => status == Ready && old(Outcome()) == Ok(journal.Snapshot())
            case Err(Journal(error)) =>
              status == Failed && Justified(old(Outcome()), error, replies, spent.readCalls)
            case _ => false)
    {
      hide Header, HeaderBytes, AppendStep, TakeStep, FromLE, Open, Replay, Faithful, Valid, JournalLog, Justified;
      spent := Budget(0, 0, 0);
      if status == Ready {
        return Ok(Ready), spent;
      }
      if status == Failed {
        return Err(AlreadyFailed), spent;
      }
      status := Failed;
      var turn;
      turn, spent := Poll(budget, replies);
      match turn {
        case Yield =>
          status := Reading;
          r := Ok(Reading);
        case Complete =>
          status := Ready;
          r := Ok(Ready);
        case Stop(error) =>
          r := Err(Journal(error));
      }
    }

    // Nothing escapes before clean end of input and anchor coverage.
    method Finish() returns (r: Result<Journal, ReplayError>)
      ensures r == match status
                   case Ready => Ok(journal)
                   case Reading => Err(NotReady)
                   case Failed => Err(AlreadyFailed)
    {
      match status
      case Ready => return Ok(journal);
      case Reading => return Err(NotReady);
      case Failed => return Err(AlreadyFailed);
    }
  }

  // ---- whole replays -----------------------------------------------------------------

  // What any number of polls may make of the input: the synchronous result; a refusal
  // that is synchronous, or a faulty reader's, or comes after 2^64 - 1 calls; or nothing
  // yet, because the polls were fewer than the work and the stalls.
  ghost predicate Explained(
    goal: Result<State, Error>, size: nat, budgets: nat -> Budget, reader: Reader, polls: nat,
    r: Result<State, ReplayError>)
  {
    match r
    case Ok(s) => goal == Ok(s)
    case Err(Journal(error)) =>
      || goal == Err(error)
      || FaultsWithin(budgets, reader, polls, size, error)
      || (error == Limit && U64_MAX <= size + 1 + Stalls(budgets, reader, size, polls))
    case Err(NotReady) => polls <= 2 * size + Stalls(budgets, reader, size, polls)
    case Err(AlreadyFailed) => false
  }

  // The cursor between polls of a run that began `polls` polls ago.
  ghost predicate Underway(
    cursor: Cursor, goal: Result<State, Error>, budgets: nat -> Budget, reader: Reader, polls: nat)
    reads cursor, cursor.journal
  {
    match cursor.status
    case Reading =>
      && cursor.IsValid() && cursor.Counted() && Faithful(JournalLog()) && cursor.Outcome() == goal
      && cursor.total.readCalls <= cursor.total.readBytes + Stalls(budgets, reader, cursor.size, polls)
      && polls <=
        cursor.total.readBytes + cursor.total.checkedRecords + Stalls(budgets, reader, cursor.size, polls)
    case Ready => goal == Ok(cursor.journal.Snapshot())
    case Failed => false
  }

  // One poll of a run, with what it may end in.
  method NextPoll(
    cursor: Cursor, ghost goal: Result<State, Error>, budgets: nat -> Budget, reader: Reader, i: nat)
    returns (r: Result<Status, ReplayError>)
    requires cursor.status == Reading && Underway(cursor, goal, budgets, reader, i)
    modifies cursor, cursor.journal
    ensures cursor.journal == old(cursor.journal)
    ensures r.Ok? ==> r.value == cursor.status && Underway(cursor, goal, budgets, reader, i + 1)
    ensures r == Ok(Reading) ==> Later(budgets(i), old(cursor.total), cursor.total)
    ensures r.Err? ==> r.error.Journal? && Explained(goal, cursor.size, budgets, reader, i + 1, Err(r.error))
  {
    hide Header, HeaderBytes, AppendStep, TakeStep, FromLE, Open, Replay, Faithful, Valid, JournalLog;
    ghost var size := cursor.size;
    var spent;
    r, spent := cursor.Advance(budgets(i), Replies(reader, i));
    assert Reachable(Replies(reader, i), spent.readCalls, size);
    ReachedAreHeard(Replies(reader, i), spent.readCalls, budgets(i).readCalls, size);
  }

  // A poll that yields has used up some allowance, and gives nothing back.
  ghost predicate Later(budget: Budget, was: Budget, now: Budget) {
    && was.readCalls <= now.readCalls && was.readBytes <= now.readBytes && was.checkedRecords <= now.checkedRecords
    && (|| now.readCalls == was.readCalls + budget.readCalls
        || now.readBytes == was.readBytes + budget.readBytes
        || now.checkedRecords == was.checkedRecords + budget.checkedRecords)
  }

  // Any sequence of polls, under any budgets and any reader behaviour.
  method ReplayInSteps(
    s0: State, input: seq<Byte>, minimum: Head, budgets: nat -> Budget, polls: nat, reader: Reader)
    returns (r: Result<Journal, ReplayError>)
    requires s0.head.sequence == 0
    ensures Faithful(JournalLog())
    ensures r.Ok? ==> fresh(r.value) && r.value.IsValid()
    ensures Explained(
      Open(JournalLog(), s0, Header(s0), input, minimum), |input|, budgets, reader, polls,
      if r.Ok? then Ok(r.value.Snapshot()) else Err(r.error))
  {
    hide Header, HeaderBytes, AppendStep, TakeStep, FromLE, Open, Replay, Valid;
    LogIsFaithful();
    var cursor := new Cursor(s0, input, minimum);
    ghost var goal := Open(JournalLog(), s0, Header(s0), input, minimum);
    for i := 0 to polls
      invariant fresh(cursor) && fresh(cursor.journal) && cursor.size == |input|
      invariant cursor.status == Reading ==> Underway(cursor, goal, budgets, reader, i)
      invariant cursor.status != Reading ==> Underway(cursor, goal, budgets, reader, 0)
    {
      if cursor.status == Reading {
        var step := NextPoll(cursor, goal, budgets, reader, i);
        if step.Err? {
          StallsGrow(budgets, reader, |input|, i + 1, polls);
          return Err(step.error);
        }
      }
    }
    r := cursor.Finish();
  }

  // Under a steady reader, budgets that allow some work, and enough polls, the outcome is
  // the synchronous one in both directions.
  lemma SteadyReplayIsExact(
    goal: Result<State, Error>, size: nat, budgets: nat -> Budget, reader: Reader, polls: nat,
    r: Result<State, ReplayError>)
    requires Explained(goal, size, budgets, reader, polls, r)
    requires Steady(reader) && forall i :: 0 <= i < polls ==> !Idle(budgets(i))
    requires size + 1 < U64_MAX && (r == Err(NotReady) ==> 2 * size < polls)
    ensures r.Ok? ==> goal == Ok(r.value)
    ensures r.Err? ==> r.error.Journal? && goal == Err(r.error.error)
  {
    SteadyNeverStalls(budgets, reader, size, polls);
    assert forall i: nat, call: nat :: Replies(reader, i)(call).Filled?;
  }

  function Unlimited(i: nat): Budget {
    UNLIMITED
  }

  // The counters still at zero: an unlimited poll that yields has filled one of them.
  function Unused(total: Budget): (n: nat)
    ensures n <= 3
  {
    (if total.readCalls == 0 then 1 else 0) + (if total.readBytes == 0 then 1 else 0)
    + (if total.checkedRecords == 0 then 1 else 0)
  }

  lemma YieldUsesOne(was: Budget, now: Budget)
    requires Later(UNLIMITED, was, now)
    ensures Unused(now) < Unused(was)
  {
  }

  // `FileJournal::open`: poll without limits until the cursor stops reading.
  method ReplayToEnd(s0: State, input: seq<Byte>, minimum: Head, reader: Reader)
    returns (r: Result<Journal, Error>, polls: nat)
    requires s0.head.sequence == 0
    ensures Faithful(JournalLog())
    ensures r.Ok? ==> fresh(r.value) && r.value.IsValid()
    ensures polls <= 4
    ensures Explained(
      Open(JournalLog(), s0, Header(s0), input, minimum), |input|, Unlimited, reader, polls,
      if r.Ok? then Ok(r.value.Snapshot()) else Err(Journal(r.error)))
  {
    hide Header, HeaderBytes, AppendStep, TakeStep, FromLE, Open, Replay, Valid, Later, Unused, Stalls;
    LogIsFaithful();
    var cursor := new Cursor(s0, input, minimum);
    ghost var goal := Open(JournalLog(), s0, Header(s0), input, minimum);
    polls := 0;
    while cursor.status == Reading
      invariant fresh(cursor) && fresh(cursor.journal) && cursor.size == |input|
      invariant Underway(cursor, goal, Unlimited, reader, polls)
      invariant cursor.status == Reading ==> polls + Unused(cursor.total) <= 3
      invariant polls <= 4
      decreases cursor.status == Reading, Unused(cursor.total)
    {
      ghost var was := cursor.total;
      var step := NextPoll(cursor, goal, Unlimited, reader, polls);
      polls := polls + 1;
      if step.Err? {
        return Err(step.error.error), polls;
      }
      if step == Ok(Reading) {
        YieldUsesOne(was, cursor.total);
      }
    }
    r := Ok(cursor.journal);
  }
}
