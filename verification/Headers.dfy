/**
 What a file's header binds (crates/fa-journal/src/journal_core.rs, `encode_header`;
 crates/fa-journal/src/file.rs, `header`): a file written for one run, policy, reserve or
 ledger is never taken for another's.
 */
module Headers {
  import opened Bytes
  import opened Crc
  import opened FramedLog
  import opened RightsJournal
  import Andon
  import AndonFile

  lemma LEInjective(m: nat, n: nat, k: nat)
    requires m < Pow256(k) && n < Pow256(k) && LE(m, k) == LE(n, k)
    ensures m == n
  {
    FromLEOfLE(m, k);
    FromLEOfLE(n, k);
  }

  // Where the fields of a header are.
  lemma HeaderFields(identity: Identity, limits: Limits, reserve: Option<RecoveryReserve>)
    ensures
      var h := HeaderBytes(identity, limits, reserve);
      && |h| == (if reserve.Some? then 120 else 84)
      && h[..8] == (if reserve.Some? then MAGIC_V2 else MAGIC_V1)
      && h[8..40] == identity.run && h[40..72] == identity.policy && h[72..80] == LE(identity.totalUnits, 8)
      && (reserve.Some? ==>
        && h[80..84] == LE(limits.maxFrameBytes, 4)
        && h[84..92] == LE(limits.maxRecords, 8) && h[92..100] == LE(limits.maxTotalBytes, 8)
        && h[100..108] == LE(reserve.value.records, 8) && h[108..116] == LE(reserve.value.bytes, 8))
  {
    hide Crc32, LE;
  }

  // No header begins another's file unless it binds the same run, policy, total and
  // reserve, and with a reserve the same limits.
  lemma HeaderBindsConfiguration(
    a: Identity, limitsA: Limits, reserveA: Option<RecoveryReserve>,
    b: Identity, limitsB: Limits, reserveB: Option<RecoveryReserve>)
    requires HeaderBytes(a, limitsA, reserveA) <= HeaderBytes(b, limitsB, reserveB)
    ensures a == b && reserveA == reserveB && (reserveA.Some? ==> limitsA == limitsB)
  {
    hide HeaderBytes, LE, Pow256;
    HeaderFields(a, limitsA, reserveA);
    HeaderFields(b, limitsB, reserveB);
    Widths();
    var g, h := HeaderBytes(a, limitsA, reserveA), HeaderBytes(b, limitsB, reserveB);
    assert g[..8] == h[..8] && g[8..40] == h[8..40] && g[40..72] == h[40..72] && g[72..80] == h[72..80];
    LEInjective(a.totalUnits, b.totalUnits, 8);
    assert MAGIC_V1[7] != MAGIC_V2[7];
    assert reserveA.Some? <==> reserveB.Some?;
    if reserveA.Some? {
      assert g == h;
      LEInjective(limitsA.maxFrameBytes, limitsB.maxFrameBytes, 4);
      LEInjective(limitsA.maxRecords, limitsB.maxRecords, 8);
      LEInjective(limitsA.maxTotalBytes, limitsB.maxTotalBytes, 8);
      LEInjective(reserveA.value.records, reserveB.value.records, 8);
      LEInjective(reserveA.value.bytes, reserveB.value.bytes, 8);
    }
  }

  // A file of one configuration, opened under another, is refused before any record.
  lemma OtherConfigurationRefused(
    a: Identity, limitsA: Limits, reserveA: Option<RecoveryReserve>,
    b: Identity, limitsB: Limits, reserveB: Option<RecoveryReserve>, frames: seq<Byte>, minimum: Head)
    requires Configured(a, limitsA, reserveA).Ok? && Configured(b, limitsB, reserveB).Ok?
    requires a != b || reserveA != reserveB || (reserveA.Some? && limitsA != limitsB)
    ensures Faithful(JournalLog())
    ensures
      var s, t := Configured(a, limitsA, reserveA).value, Configured(b, limitsB, reserveB).value;
      Open(JournalLog(), t, Header(t), Header(s) + frames, minimum) ==
        Err(if |Header(s) + frames| < |Header(t)| then Io else Binding)
  {
    hide HeaderBytes, AppendStep, TakeStep, Replay, Faithful;
    LogIsFaithful();
    var g, h := HeaderBytes(a, limitsA, reserveA), HeaderBytes(b, limitsB, reserveB);
    if |g + frames| >= |h| && (g + frames)[..|h|] == h {
      if |g| <= |h| {
        assert g == h[..|g|];
        HeaderBindsConfiguration(a, limitsA, reserveA, b, limitsB, reserveB);
      } else {
        assert h == g[..|h|];
        HeaderBindsConfiguration(b, limitsB, reserveB, a, limitsA, reserveA);
      }
    }
  }

  // Andon headers are all of one length, and bind the deployment and the evaluator.
  lemma AndonHeaderBindsIdentity(a: Andon.LedgerIdentity, b: Andon.LedgerIdentity)
    requires AndonFile.Header(a) == AndonFile.Header(b)
    ensures a == b
  {
    hide Crc32, LE, Pow256;
    Widths();
    var g, h := AndonFile.Header(a), AndonFile.Header(b);
    assert g[8..16] == LE(a.deployment, 8) && h[8..16] == LE(b.deployment, 8);
    assert g[16..24] == LE(a.evaluator, 8) && h[16..24] == LE(b.evaluator, 8);
    LEInjective(a.deployment, b.deployment, 8);
    LEInjective(a.evaluator, b.evaluator, 8);
  }

  lemma OtherLedgerRefused(a: Andon.LedgerIdentity, b: Andon.LedgerIdentity, frames: seq<Byte>, minimum: Head)
    requires a != b && AndonFile.Initial(b).Ok?
    ensures Faithful(AndonFile.AndonLog())
    ensures
      Open(AndonFile.AndonLog(), AndonFile.Initial(b).value, AndonFile.Header(b), AndonFile.Header(a) + frames, minimum)
        == Err(Binding)
  {
    hide AndonFile.Header, AndonFile.Publish, AndonFile.TakeEntry, Replay, Faithful, Andon.LedgerInv;
    AndonFile.LogIsFaithful();
    var g, h := AndonFile.Header(a), AndonFile.Header(b);
    assert (g + frames)[..|h|] == g;
    if g == h {
      AndonHeaderBindsIdentity(a, b);
    }
  }
}
