/**
 The record codec of the Andon file (crates/fa-journal/src/file.rs, module `andon`:
 `frame`, `blob`, `Decoder`, `decode`).
 */
module AndonCodec {
  import opened Andon
  import opened Bytes
  import opened EventCodec
  import opened FramedLog
  import opened Order

  datatype Entry = Window(budget: AndonBudget) | Hold(fact: FalseHold)

  datatype Helper = Helper(name: Utf8, generation: U64)

  // ---- helper maps in name order ----------------------------------------------------

  function Names(helpers: seq<Helper>): (names: seq<Utf8>)
    ensures |names| == |helpers|
    ensures forall i :: 0 <= i < |names| ==> names[i] == helpers[i].name
  {
    seq(|helpers|, i requires 0 <= i < |helpers| => helpers[i].name)
  }

  predicate NamesAscend(helpers: seq<Helper>) {
    forall i, j :: 0 <= i < j < |helpers| ==> NameBefore(helpers[i].name, helpers[j].name)
  }

  lemma NamesInOrder(helpers: map<Utf8, U64>, names: seq<Utf8>)
    requires (forall n :: n in names <==> n in helpers.Keys) && Increasing(NameBefore, names)
    requires |names| == |helpers.Keys|
    ensures forall i :: 0 <= i < |names| ==> names[i] in helpers
    ensures forall i, j :: 0 <= i < j < |names| ==> NameBefore(names[i], names[j])
    ensures |names| == |helpers|
  {
    hide NameBefore;
    assert forall i :: 0 <= i < |names| ==> names[i] in names;
  }

  // Iteration order of the map.
  function Listed(helpers: map<Utf8, U64>): (hs: seq<Helper>)
    ensures |hs| == |helpers|
    ensures NamesAscend(hs)
    ensures forall h :: h in hs ==> h.name in helpers && helpers[h.name] == h.generation
  {
    hide NameBefore, Ascending, StrictTotal, Increasing;
    NameBeforeIsTotal();
    var names := Ascending(NameBefore, helpers.Keys);
    NamesInOrder(helpers, names);
    seq(|names|, i requires 0 <= i < |names| => Helper(names[i], helpers[names[i]]))
  }

  // Inserting in list order.
  function Collected(hs: seq<Helper>): map<Utf8, U64> {
    if hs == [] then map[] else Collected(hs[..|hs| - 1])[hs[|hs| - 1].name := hs[|hs| - 1].generation]
  }

  lemma {:induction false} CollectedContents(hs: seq<Helper>)
    requires NamesAscend(hs)
    ensures Collected(hs).Keys == Members(Names(hs))
    ensures forall i :: 0 <= i < |hs| ==> hs[i].name in Collected(hs) && Collected(hs)[hs[i].name] == hs[i].generation
    decreases |hs|
  {
    hide NameBefore, Names, Members;
    if hs == [] {
      NoNames();
    } else {
      var front := hs[..|hs| - 1];
      CollectedContents(front);
      LastNameIsNew(hs);
      NamesOfLast(hs);
      var c, d := Collected(front), Collected(hs);
      assert d == c[hs[|hs| - 1].name := hs[|hs| - 1].generation];
      forall i | 0 <= i < |hs| ensures hs[i].name in d && d[hs[i].name] == hs[i].generation {
        assert i < |hs| - 1 ==> front[i] == hs[i];
      }
    }
  }

  lemma NoNames()
    ensures Members(Names([])) == {}
  {
  }

  lemma NamesOfLast(hs: seq<Helper>)
    requires hs != []
    ensures Members(Names(hs)) == Members(Names(hs[..|hs| - 1])) + {hs[|hs| - 1].name}
  {
    var front, last := Names(hs[..|hs| - 1]), hs[|hs| - 1].name;
    assert Names(hs) == front + [last];
    assert forall x :: x in front + [last] <==> x in front || x == last;
  }

  lemma LastNameIsNew(hs: seq<Helper>)
    requires hs != [] && NamesAscend(hs)
    ensures forall i :: 0 <= i < |hs| - 1 ==> hs[i].name != hs[|hs| - 1].name
  {
    hide NameBefore;
    NameBeforeIsTotal();
    forall i | 0 <= i < |hs| - 1 ensures hs[i].name != hs[|hs| - 1].name {
      assert NameBefore(hs[i].name, hs[|hs| - 1].name) && !NameBefore(hs[i].name, hs[i].name);
    }
  }

  lemma ListedCollected(hs: seq<Helper>)
    requires NamesAscend(hs)
    ensures Listed(Collected(hs)) == hs
  {
    CollectedContents(hs);
    NameBeforeIsTotal();
    var names := Names(hs);
    assert forall i, j :: 0 <= i < j < |names| ==> NameBefore(names[i], names[j]);
    AscendingIsUnique(NameBefore, names);
  }

  lemma CollectedListed(helpers: map<Utf8, U64>)
    ensures Collected(Listed(helpers)) == helpers
  {
    hide Listed, NameBefore, Collected;
    var hs := Listed(helpers);
    CollectedContents(hs);
    ListedCovers(helpers);
    assert Collected(hs).Keys == helpers.Keys;
    forall name | name in helpers ensures Collected(hs)[name] == helpers[name] {
      var i := Where(hs, name);
      assert hs[i] in hs;
    }
  }

  lemma Where(hs: seq<Helper>, name: Utf8) returns (i: nat)
    requires name in Members(Names(hs))
    ensures i < |hs| && hs[i].name == name
  {
    i :| i < |hs| && Names(hs)[i] == name;
  }

  lemma ListedCovers(helpers: map<Utf8, U64>)
    ensures Members(Names(Listed(helpers))) == helpers.Keys
  {
    NameBeforeIsTotal();
    var names := Ascending(NameBefore, helpers.Keys);
    assert Names(Listed(helpers)) == names;
  }

  // ---- wire form ----------------------------------------------------------------------

  function OneHelper(h: Helper): seq<Byte> {
    Blob(h.name) + LE(h.generation, 8)
  }

  function HelperBytes(hs: seq<Helper>): (b: seq<Byte>) {
    if hs == [] then [] else OneHelper(hs[0]) + HelperBytes(hs[1..])
  }

  function BudgetWords(budget: AndonBudget): seq<U64> {
    [budget.window, budget.start, budget.end, budget.falseStopsAllowed, budget.costPerStop]
  }

  function FactWords(fact: FalseHold): seq<U64> {
    [fact.identity.deployment, fact.identity.evaluator, fact.report, fact.round, fact.occurredAt, fact.confirmedAt]
  }

  function TeamBytes(helpers: map<Utf8, U64>): seq<Byte> {
    LE(|helpers|, 4) + HelperBytes(Listed(helpers))
  }

  function FactBytes(fact: FalseHold): seq<Byte> {
    IdBytes(FactWords(fact)) + (Blob(fact.evidenceRoot) + TeamBytes(fact.helpers))
  }

  function EntryBytes(entry: Entry): seq<Byte> {
    match entry
    case Window(budget) => [1] + IdBytes(BudgetWords(budget))
    case Hold(fact) => [2] + FactBytes(fact)
  }

  // Every record on the wire: one tag byte, then its fields in this order, helpers by name.
  ghost predicate Written(entry: Entry, b: seq<Byte>) {
    match entry
    case Window(w) =>
      b == [1] + LE(w.window, 8) + LE(w.start, 8) + LE(w.end, 8) + LE(w.falseStopsAllowed, 8) + LE(w.costPerStop, 8)
    case Hold(f) =>
      exists hs: seq<Helper> ::
        && NamesAscend(hs) && |hs| == |f.helpers|
        && (forall h :: h in hs ==> h.name in f.helpers && f.helpers[h.name] == h.generation)
        && b == [2] + LE(f.identity.deployment, 8) + LE(f.identity.evaluator, 8) + LE(f.report, 8) + LE(f.round, 8)
          + LE(f.occurredAt, 8) + LE(f.confirmedAt, 8) + LE(|f.evidenceRoot|, 4) + f.evidenceRoot
          + LE(|hs|, 4) + HelperBytes(hs)
  }

  lemma EntryLayout(entry: Entry)
    ensures Written(entry, EntryBytes(entry))
  {
    hide LE, HelperBytes, Listed, IdBytes, NameBefore;
    match entry
    case Window(w) =>
      FiveWords(w.window, w.start, w.end, w.falseStopsAllowed, w.costPerStop);
    case Hold(f) =>
      SixWords(f.identity.deployment, f.identity.evaluator, f.report, f.round, f.occurredAt, f.confirmedAt);
      var hs, words := Listed(f.helpers), IdBytes(FactWords(f));
      var n, r, k, b := LE(|f.evidenceRoot|, 4), f.evidenceRoot, LE(|hs|, 4), HelperBytes(hs);
      assert [2] + (words + ((n + r) + (k + b))) == [2] + words + n + r + k + b;
      Glue([2], LE(f.identity.deployment, 8), LE(f.identity.evaluator, 8));
      assert [2] + words == [2] + LE(f.identity.deployment, 8) + LE(f.identity.evaluator, 8) + LE(f.report, 8)
        + LE(f.round, 8) + LE(f.occurredAt, 8) + LE(f.confirmedAt, 8);
      assert EntryBytes(entry) == [2] + words + n + r + k + b;
  }

  lemma FiveWords(a: U64, b: U64, c: U64, d: U64, e: U64)
    ensures IdBytes([a, b, c, d, e]) == LE(a, 8) + LE(b, 8) + LE(c, 8) + LE(d, 8) + LE(e, 8)
  {
    hide LE, IdBytes;
    IdBytesAppend([], a);
    IdBytesAppend([a], b);
    IdBytesAppend([a, b], c);
    IdBytesAppend([a, b, c], d);
    IdBytesAppend([a, b, c, d], e);
    assert [] + [a] == [a] && [a] + [b] == [a, b] && [a, b] + [c] == [a, b, c];
    assert [a, b, c] + [d] == [a, b, c, d] && [a, b, c, d] + [e] == [a, b, c, d, e];
    NoIds(LE(a, 8));
  }

  lemma NoIds(b: seq<Byte>)
    ensures IdBytes([]) + b == b
  {
    assert [] + b == b;
  }

  lemma SixWords(a: U64, b: U64, c: U64, d: U64, e: U64, f: U64)
    ensures IdBytes([a, b, c, d, e, f]) == LE(a, 8) + LE(b, 8) + LE(c, 8) + LE(d, 8) + LE(e, 8) + LE(f, 8)
  {
    hide LE, IdBytes;
    FiveWords(a, b, c, d, e);
    IdBytesAppend([a, b, c, d, e], f);
    assert [a, b, c, d, e] + [f] == [a, b, c, d, e, f];
  }

  // The bounds the decoder imposes; the ledger imposes the same ones.
  predicate Decodable(entry: Entry) {
    entry.Hold? ==> Bounded(entry.fact)
  }

  // ---- reading ------------------------------------------------------------------------

  function GetWords(b: seq<Byte>, count: nat): (p: Result<Parsed<seq<U64>>, Error>)
    ensures p.Ok? ==> |p.value.value| == count && b == IdBytes(p.value.value) + p.value.rest
    decreases count
  {
    if count == 0 then
      assert b == IdBytes([]) + b;
      Ok(Parsed([], b))
    else
      var word :- GetU64(b);
      var others :- GetWords(word.rest, count - 1);
      IdsExtend(word.value, others.value, others.rest);
      Ok(Parsed([word.value] + others.value, others.rest))
  }

  function GetBounded(b: seq<Byte>, maximum: nat): (p: Result<Parsed<seq<Byte>>, Error>)
    ensures p.Ok? ==> |p.value.value| <= maximum && b == Blob(p.value.value) + p.value.rest
  {
    var length :- GetU32(b);
    if length.value > maximum then Err(Limit)
    else
      var p :- GetBytes(length.rest, length.value);
      Glue(LE(length.value, 4), p.value, p.rest);
      Ok(p)
  }

  function GetHelper(b: seq<Byte>, previous: Option<Utf8>): (p: Result<Parsed<Helper>, Error>)
    ensures p.Ok? ==>
      && b == OneHelper(p.value.value) + p.value.rest
      && |p.value.value.name| <= MAX_IDENTIFIER_BYTES
      && (previous.Some? ==> NameBefore(previous.value, p.value.value.name))
  {
    var name :- GetBounded(b, MAX_IDENTIFIER_BYTES);
    if !ValidUtf8(name.value) then Err(Corrupt)
    else if previous.Some? && !NameBefore(previous.value, name.value) then Err(Corrupt)
    else
      var generation :- GetU64(name.rest);
      Glue(Blob(name.value), LE(generation.value, 8), generation.rest);
      Ok(Parsed(Helper(name.value, generation.value), generation.rest))
  }

  function GetHelpers(b: seq<Byte>, count: nat, previous: Option<Utf8>): Result<Parsed<seq<Helper>>, Error>
    decreases count
  {
    if count == 0 then Ok(Parsed([], b))
    else
      var h :- GetHelper(b, previous);
      var others :- GetHelpers(h.rest, count - 1, Some(h.value.name));
      Ok(Parsed([h.value] + others.value, others.rest))
  }

  ghost predicate ShortNames(hs: seq<Helper>) {
    forall h :: h in hs ==> |h.name| <= MAX_IDENTIFIER_BYTES
  }

  lemma HelpersExtend(h: Helper, others: seq<Helper>, rest: seq<Byte>)
    ensures HelperBytes([h] + others) + rest == OneHelper(h) + (HelperBytes(others) + rest)
  {
    assert ([h] + others)[1..] == others;
    Glue(OneHelper(h), HelperBytes(others), rest);
  }

  lemma AscendExtend(h: Helper, others: seq<Helper>)
    requires NamesAscend(others) && (others != [] ==> NameBefore(h.name, others[0].name))
    ensures NamesAscend([h] + others)
  {
    hide NameBefore;
    NameBeforeIsTotal();
    forall j | 0 <= j < |others| ensures NameBefore(h.name, others[j].name) {
      if j > 0 {
        assert NameBefore(others[0].name, others[j].name);
      }
    }
  }

  lemma {:induction false} HelpersAreCanonical(b: seq<Byte>, count: nat, previous: Option<Utf8>)
    requires GetHelpers(b, count, previous).Ok?
    ensures
      var p := GetHelpers(b, count, previous).value;
      b == HelperBytes(p.value) + p.rest && |p.value| == count
    decreases count
  {
    hide NameBefore, GetHelper, OneHelper;
    if count == 0 {
      assert b == HelperBytes([]) + b;
    } else {
      var h := GetHelper(b, previous).value;
      var others := GetHelpers(h.rest, count - 1, Some(h.value.name)).value;
      HelpersAreCanonical(h.rest, count - 1, Some(h.value.name));
      HelpersExtend(h.value, others.value, others.rest);
    }
  }

  lemma {:induction false} HelpersAreOrdered(b: seq<Byte>, count: nat, previous: Option<Utf8>)
    requires GetHelpers(b, count, previous).Ok?
    ensures
      var hs := GetHelpers(b, count, previous).value.value;
      && NamesAscend(hs) && ShortNames(hs)
      && (previous.Some? && hs != [] ==> NameBefore(previous.value, hs[0].name))
    decreases count
  {
    hide NameBefore, GetHelper, OneHelper;
    if count == 0 {
    } else {
      var h := GetHelper(b, previous).value;
      var others := GetHelpers(h.rest, count - 1, Some(h.value.name)).value;
      HelpersAreOrdered(h.rest, count - 1, Some(h.value.name));
      AscendExtend(h.value, others.value);
    }
  }

  function GetTeam(b: seq<Byte>): Result<Parsed<map<Utf8, U64>>, Error> {
    var count :- GetU32(b);
    if count.value > MAX_VOTES then Err(Limit)
    else
      var hs :- GetHelpers(count.rest, count.value, None);
      Ok(Parsed(Collected(hs.value), hs.rest))
  }

  lemma TeamIsCanonical(b: seq<Byte>)
    requires GetTeam(b).Ok?
    ensures
      var p := GetTeam(b).value;
      && b == TeamBytes(p.value) + p.rest
      && |p.value| <= MAX_VOTES
      && forall name :: name in p.value ==> |name| <= MAX_IDENTIFIER_BYTES
  {
    hide NameBefore, GetU32, GetHelpers, Collected, TeamBytes, HelperBytes, LE, NamesAscend, ShortNames;
    var count := GetU32(b).value;
    var hs := GetHelpers(count.rest, count.value, None).value;
    HelpersAreCanonical(count.rest, count.value, None);
    HelpersAreOrdered(count.rest, count.value, None);
    TeamFromHelpers(hs.value, hs.rest);
    TeamNamesAreShort(hs.value);
  }

  lemma TeamFromHelpers(hs: seq<Helper>, rest: seq<Byte>)
    requires NamesAscend(hs)
    ensures TeamBytes(Collected(hs)) + rest == LE(|hs|, 4) + (HelperBytes(hs) + rest)
    ensures |Collected(hs)| == |hs|
  {
    hide NameBefore, LE, HelperBytes, Collected, Listed, NamesAscend;
    ListedCollected(hs);
    Glue(LE(|hs|, 4), HelperBytes(hs), rest);
  }

  lemma TeamNamesAreShort(hs: seq<Helper>)
    requires NamesAscend(hs) && ShortNames(hs)
    ensures forall name :: name in Collected(hs) ==> |name| <= MAX_IDENTIFIER_BYTES
  {
    hide NameBefore, Collected, NamesAscend;
    CollectedContents(hs);
    forall name | name in Collected(hs) ensures |name| <= MAX_IDENTIFIER_BYTES {
      assert name in Members(Names(hs));
      var i :| 0 <= i < |hs| && Names(hs)[i] == name;
      assert hs[i] in hs;
    }
  }

  function GetFact(b: seq<Byte>): Result<Parsed<FalseHold>, Error> {
    var words :- GetWords(b, 6);
    var evidence :- GetBounded(words.rest, MAX_FIELD_LEN);
    var team :- GetTeam(evidence.rest);
    var ws := words.value;
    Ok(Parsed(
      FalseHold(LedgerIdentity(ws[0], ws[1]), ws[2], ws[3], ws[4], ws[5], evidence.value, team.value), team.rest))
  }

  lemma FactIsCanonical(b: seq<Byte>)
    requires GetFact(b).Ok?
    ensures b == FactBytes(GetFact(b).value.value) + GetFact(b).value.rest && Bounded(GetFact(b).value.value)
  {
    hide GetWords, GetBounded, GetTeam, Blob, TeamBytes, IdBytes;
    var words := GetWords(b, 6).value;
    var evidence := GetBounded(words.rest, MAX_FIELD_LEN).value;
    var team := GetTeam(evidence.rest).value;
    TeamIsCanonical(evidence.rest);
    assert FactWords(GetFact(b).value.value) == words.value;
    Glue(Blob(evidence.value), TeamBytes(team.value), team.rest);
    Glue(IdBytes(words.value), Blob(evidence.value) + TeamBytes(team.value), team.rest);
  }

  function GetBudget(b: seq<Byte>): Result<Parsed<AndonBudget>, Error> {
    var words :- GetWords(b, 5);
    var ws := words.value;
    Ok(Parsed(AndonBudget(ws[0], ws[1], ws[2], ws[3], ws[4]), words.rest))
  }

  lemma BudgetIsCanonical(b: seq<Byte>)
    requires GetBudget(b).Ok?
    ensures b == IdBytes(BudgetWords(GetBudget(b).value.value)) + GetBudget(b).value.rest
  {
    hide GetWords, IdBytes;
    assert BudgetWords(GetBudget(b).value.value) == GetWords(b, 5).value.value;
  }

  function GetEntry(tag: Byte, b: seq<Byte>): Result<Parsed<Entry>, Error> {
    match tag
    case 1 =>
      var budget :- GetBudget(b);
      Ok(Parsed(Window(budget.value), budget.rest))
    case 2 =>
      var fact :- GetFact(b);
      Ok(Parsed(Hold(fact.value), fact.rest))
    case _ => Err(Corrupt)
  }

  lemma EntryIsCanonical(tag: Byte, b: seq<Byte>)
    requires GetEntry(tag, b).Ok?
    ensures [tag] + b == EntryBytes(GetEntry(tag, b).value.value) + GetEntry(tag, b).value.rest
    ensures Decodable(GetEntry(tag, b).value.value)
  {
    hide GetBudget, GetFact, FactBytes, IdBytes, Bounded;
    if tag == 1 {
      var budget := GetBudget(b).value;
      BudgetIsCanonical(b);
      Glue([tag], IdBytes(BudgetWords(budget.value)), budget.rest);
    } else {
      var fact := GetFact(b).value;
      FactIsCanonical(b);
      Glue([tag], FactBytes(fact.value), fact.rest);
    }
  }

  function DecodeEntry(b: seq<Byte>): Result<Entry, Error> {
    var tag :- GetU8(b);
    var entry :- GetEntry(tag.value, tag.rest);
    if entry.rest == [] then Ok(entry.value) else Err(Corrupt)
  }

  // Every accepted byte string is the encoding of what it decodes to.
  lemma DecodedEntryReencodes(b: seq<Byte>)
    requires DecodeEntry(b).Ok?
    ensures EntryBytes(DecodeEntry(b).value) == b && Decodable(DecodeEntry(b).value)
  {
    hide GetEntry, EntryBytes, Decodable;
    var tag := GetU8(b).value;
    var entry := GetEntry(tag.value, tag.rest).value;
    EntryIsCanonical(tag.value, tag.rest);
    assert EntryBytes(entry.value) + [] == EntryBytes(entry.value);
  }

  // ---- what was written is read back ------------------------------------------------

  lemma {:induction false} ReadWords(ws: seq<U64>, rest: seq<Byte>)
    ensures GetWords(IdBytes(ws) + rest, |ws|) == Ok(Parsed(ws, rest))
    decreases |ws|
  {
    if ws == [] {
      assert IdBytes(ws) + rest == rest;
    } else {
      var others := IdBytes(ws[1..]) + rest;
      assert [ws[0]] + ws[1..] == ws;
      IdsExtend(ws[0], ws[1..], rest);
      ReadU64(ws[0], others);
      hide GetU64;
      ReadWords(ws[1..], rest);
    }
  }

  lemma ReadBounded(b: seq<Byte>, maximum: nat, rest: seq<Byte>)
    requires |b| <= maximum < 0x1_0000_0000
    ensures GetBounded(Blob(b) + rest, maximum) == Ok(Parsed(b, rest))
  {
    hide GetU32;
    Glue(LE(|b|, 4), b, rest);
    ReadU32(|b|, b + rest);
    assert (b + rest)[..|b|] == b && (b + rest)[|b|..] == rest;
  }

  lemma ReadHelper(h: Helper, previous: Option<Utf8>, rest: seq<Byte>)
    requires |h.name| <= MAX_IDENTIFIER_BYTES && (previous.Some? ==> NameBefore(previous.value, h.name))
    ensures GetHelper(OneHelper(h) + rest, previous) == Ok(Parsed(h, rest))
  {
    hide NameBefore, GetBounded, GetU64, Blob, LE;
    Glue(Blob(h.name), LE(h.generation, 8), rest);
    ReadBounded(h.name, MAX_IDENTIFIER_BYTES, LE(h.generation, 8) + rest);
    ReadU64(h.generation, rest);
  }

  lemma {:induction false} ReadHelpers(hs: seq<Helper>, previous: Option<Utf8>, rest: seq<Byte>)
    requires NamesAscend(hs) && ShortNames(hs)
    requires previous.Some? && hs != [] ==> NameBefore(previous.value, hs[0].name)
    ensures GetHelpers(HelperBytes(hs) + rest, |hs|, previous) == Ok(Parsed(hs, rest))
    decreases |hs|
  {
    hide NameBefore, GetHelper, OneHelper, NamesAscend, ShortNames, HelperBytes, GetHelpers;
    if hs == [] {
      ReadNoHelpers(previous, rest);
    } else {
      var h, others := hs[0], hs[1..];
      assert hs == [h] + others;
      HelpersSplit(hs);
      HelpersExtend(h, others, rest);
      ReadHelper(h, previous, HelperBytes(others) + rest);
      ReadHelpers(others, Some(h.name), rest);
      ReadOneMore(HelperBytes(hs) + rest, HelperBytes(others) + rest, h, others, previous, rest);
    }
  }

  lemma ReadNoHelpers(previous: Option<Utf8>, rest: seq<Byte>)
    ensures GetHelpers(HelperBytes([]) + rest, 0, previous) == Ok(Parsed([], rest))
  {
    assert [] + rest == rest;
  }

  lemma HelpersSplit(hs: seq<Helper>)
    requires hs != [] && NamesAscend(hs) && ShortNames(hs)
    ensures NamesAscend(hs[1..]) && ShortNames(hs[1..]) && |hs[0].name| <= MAX_IDENTIFIER_BYTES
    ensures hs[1..] != [] ==> NameBefore(hs[0].name, hs[1..][0].name)
  {
    hide NameBefore;
    assert hs[0] in hs;
  }

  lemma ReadOneMore(
    b: seq<Byte>, tail: seq<Byte>, h: Helper, others: seq<Helper>, previous: Option<Utf8>, rest: seq<Byte>)
    requires GetHelper(b, previous) == Ok(Parsed(h, tail))
    requires GetHelpers(tail, |others|, Some(h.name)) == Ok(Parsed(others, rest))
    ensures GetHelpers(b, 1 + |others|, previous) == Ok(Parsed([h] + others, rest))
  {
    hide GetHelper;
  }

  lemma ReadTeam(helpers: map<Utf8, U64>)
    requires |helpers| <= MAX_VOTES && forall name :: name in helpers ==> |name| <= MAX_IDENTIFIER_BYTES
    ensures GetTeam(TeamBytes(helpers)) == Ok(Parsed(helpers, []))
  {
    hide NameBefore, GetU32, GetHelpers, HelperBytes, LE, Listed, Collected;
    var hs := Listed(helpers);
    ReadU32(|helpers|, HelperBytes(hs));
    assert HelperBytes(hs) + [] == HelperBytes(hs);
    ReadHelpers(hs, None, []);
    CollectedListed(helpers);
  }

  lemma ReadFact(fact: FalseHold)
    requires Bounded(fact)
    ensures GetFact(FactBytes(fact)) == Ok(Parsed(fact, []))
  {
    hide GetWords, GetBounded, GetTeam, TeamBytes, Blob, IdBytes;
    var team := TeamBytes(fact.helpers);
    ReadWords(FactWords(fact), Blob(fact.evidenceRoot) + team);
    ReadBounded(fact.evidenceRoot, MAX_FIELD_LEN, team);
    ReadTeam(fact.helpers);
  }

  lemma ReadBudget(budget: AndonBudget)
    ensures GetBudget(IdBytes(BudgetWords(budget))) == Ok(Parsed(budget, []))
  {
    hide GetWords, IdBytes;
    var ws := BudgetWords(budget);
    assert IdBytes(ws) + [] == IdBytes(ws);
    ReadWords(ws, []);
  }

  // Decoding inverts encoding for every record within the decoder's bounds.
  lemma EncodedEntryDecodes(entry: Entry)
    requires Decodable(entry)
    ensures DecodeEntry(EntryBytes(entry)) == Ok(entry)
  {
    hide GetBudget, GetFact, FactBytes, IdBytes, Bounded;
    var b := EntryBytes(entry);
    match entry
    case Window(budget) =>
      ReadBudget(budget);
      assert b[1..] == IdBytes(BudgetWords(budget));
    case Hold(fact) =>
      ReadFact(fact);
      assert b[1..] == FactBytes(fact);
  }

  // ---- the decoder as the source runs it ----------------------------------------------

  ghost function AfterHelpers(hs: seq<Helper>, p: Result<Parsed<seq<Helper>>, Error>)
    : Result<Parsed<seq<Helper>>, Error>
  {
    if p.Ok? then Ok(Parsed(hs + p.value.value, p.value.rest)) else p
  }

  ghost function AfterWords(ws: seq<U64>, p: Result<Parsed<seq<U64>>, Error>): Result<Parsed<seq<U64>>, Error> {
    if p.Ok? then Ok(Parsed(ws + p.value.value, p.value.rest)) else p
  }

  lemma AfterOneHelper(hs: seq<Helper>, b: seq<Byte>, count: nat, previous: Option<Utf8>)
    requires count > 0
    ensures AfterHelpers(hs, GetHelpers(b, count, previous)) ==
      if GetHelper(b, previous).Err? then Err(GetHelper(b, previous).error)
      else
        var h := GetHelper(b, previous).value;
        AfterHelpers(hs + [h.value], GetHelpers(h.rest, count - 1, Some(h.value.name)))
  {
    hide GetHelper, NameBefore;
    if GetHelper(b, previous).Ok? {
      var h := GetHelper(b, previous).value;
      var later := GetHelpers(h.rest, count - 1, Some(h.value.name));
      if later.Ok? {
        Glue(hs, [h.value], later.value.value);
      }
    }
  }

  lemma AfterOneWord(ws: seq<U64>, b: seq<Byte>, count: nat)
    requires count > 0
    ensures AfterWords(ws, GetWords(b, count)) ==
      if GetU64(b).Err? then Err(GetU64(b).error)
      else AfterWords(ws + [GetU64(b).value.value], GetWords(GetU64(b).value.rest, count - 1))
  {
    hide GetU64, IdBytes;
    if GetU64(b).Ok? {
      var later := GetWords(GetU64(b).value.rest, count - 1);
      if later.Ok? {
        Glue(ws, [GetU64(b).value.value], later.value.value);
      }
    }
  }

  class Decoder {
    const bytes: seq<Byte>
    var offset: nat

    ghost predicate IsValid()
      reads this
    {
      offset <= |bytes|
    }

    ghost function Rest(): seq<Byte>
      requires IsValid()
      reads this
    {
      bytes[offset..]
    }

    constructor (bytes: seq<Byte>)
      ensures IsValid() && Rest() == bytes && this.bytes == bytes
    {
      this.bytes := bytes;
      offset := 0;
    }

    method Take(count: nat) returns (r: Result<seq<Byte>, Error>)
      requires IsValid()
      modifies this
      ensures IsValid() && Reads(GetBytes(old(Rest()), count), r, Rest())
    {
      var end := offset + count;
      if end > |bytes| {
        return Err(Corrupt);
      }
      r := Ok(bytes[offset..end]);
      assert bytes[offset..][..count] == bytes[offset..end] && bytes[offset..][count..] == bytes[end..];
      offset := end;
    }

    method TakeU64() returns (r: Result<U64, Error>)
      requires IsValid()
      modifies this
      ensures IsValid() && Reads(GetU64(old(Rest())), r, Rest())
    {
      var value :- Take(8);
      Widths();
      return Ok(FromLE(value));
    }

    method TakeU32() returns (r: Result<U32, Error>)
      requires IsValid()
      modifies this
      ensures IsValid() && Reads(GetU32(old(Rest())), r, Rest())
    {
      var value :- Take(4);
      Widths();
      return Ok(FromLE(value));
    }

    method TakeBlob(maximum: nat) returns (r: Result<seq<Byte>, Error>)
      requires IsValid()
      modifies this
      ensures IsValid() && Reads(GetBounded(old(Rest()), maximum), r, Rest())
    {
      var count :- TakeU32();
      if count > maximum {
        return Err(Limit);
      }
      r := Take(count);
    }

    method TakeWords(count: nat) returns (r: Result<seq<U64>, Error>)
      requires IsValid()
      modifies this
      ensures IsValid() && Reads(GetWords(old(Rest()), count), r, Rest())
    {
      hide GetU64, IdBytes;
      var ws := [];
      ghost var whole := GetWords(Rest(), count);
      assert whole.Ok? ==> [] + whole.value.value == whole.value.value;
      for i := 0 to count
        invariant IsValid() && whole == AfterWords(ws, GetWords(Rest(), count - i))
      {
        AfterOneWord(ws, Rest(), count - i);
        var word :- TakeU64();
        ws := ws + [word];
      }
      assert ws + [] == ws;
      return Ok(ws);
    }

    method TakeHelper(previous: Option<Utf8>) returns (r: Result<Helper, Error>)
      requires IsValid()
      modifies this
      ensures IsValid() && Reads(GetHelper(old(Rest()), previous), r, Rest())
    {
      hide NameBefore, GetBounded, GetU64, OneHelper;
      var name :- TakeBlob(MAX_IDENTIFIER_BYTES);
      if !ValidUtf8(name) {
        return Err(Corrupt);
      }
      if previous.Some? && !NameBefore(previous.value, name) {
        return Err(Corrupt);
      }
      var generation :- TakeU64();
      return Ok(Helper(name, generation));
    }

    method TakeTeam() returns (r: Result<map<Utf8, U64>, Error>)
      requires IsValid()
      modifies this
      ensures IsValid() && Reads(GetTeam(old(Rest())), r, Rest())
    {
      hide GetHelper, GetU32, OneHelper, NameBefore;
      var count :- TakeU32();
      if count > MAX_VOTES {
        return Err(Limit);
      }
      var team: map<Utf8, U64>, previous: Option<Utf8> := map[], None;
      ghost var hs: seq<Helper> := [];
      ghost var whole := GetHelpers(Rest(), count, None);
      assert whole.Ok? ==> [] + whole.value.value == whole.value.value;
      for i := 0 to count
        invariant IsValid() && whole == AfterHelpers(hs, GetHelpers(Rest(), count - i, previous))
        invariant team == Collected(hs)
      {
        AfterOneHelper(hs, Rest(), count - i, previous);
        var h :- TakeHelper(previous);
        previous := Some(h.name);
        team := team[h.name := h.generation];
        assert (hs + [h])[..|hs|] == hs;
        hs := hs + [h];
      }
      assert hs + [] == hs;
      return Ok(team);
    }

    method TakeBudget() returns (r: Result<AndonBudget, Error>)
      requires IsValid()
      modifies this
      ensures IsValid() && Reads(GetBudget(old(Rest())), r, Rest())
    {
      hide GetWords;
      var ws :- TakeWords(5);
      return Ok(AndonBudget(ws[0], ws[1], ws[2], ws[3], ws[4]));
    }

    method TakeFact() returns (r: Result<FalseHold, Error>)
      requires IsValid()
      modifies this
      ensures IsValid() && Reads(GetFact(old(Rest())), r, Rest())
    {
      hide GetWords, GetBounded, GetTeam, IdBytes, Blob;
      var ws :- TakeWords(6);
      var evidence :- TakeBlob(MAX_FIELD_LEN);
      var team :- TakeTeam();
      return Ok(FalseHold(LedgerIdentity(ws[0], ws[1]), ws[2], ws[3], ws[4], ws[5], evidence, team));
    }

    method TakeEntry(tag: Byte) returns (r: Result<Entry, Error>)
      requires IsValid()
      modifies this
      ensures IsValid() && Reads(GetEntry(tag, old(Rest())), r, Rest())
    {
      hide GetBudget, GetFact;
      match tag {
        case 1 =>
          var budget :- TakeBudget();
          r := Ok(Window(budget));
        case 2 =>
          var fact :- TakeFact();
          r := Ok(Hold(fact));
        case _ => r := Err(Corrupt);
      }
    }
  }

  method Decode(bytes: seq<Byte>) returns (r: Result<Entry, Error>)
    ensures r == DecodeEntry(bytes)
  {
    hide GetEntry, DecodeEntry, GetBytes, GetU8;
    var d := new Decoder(bytes);
    DecodeUnfolds(bytes);
    var tag :- d.Take(1);
    r := d.TakeEntry(tag[0]);
    if r.Ok? && d.offset != |bytes| {
      r := Err(Corrupt);
    }
  }

  lemma DecodeUnfolds(bytes: seq<Byte>)
    ensures DecodeEntry(bytes) == match GetBytes(bytes, 1)
      case Err(error) => Err(error)
      case Ok(tag) =>
        match GetEntry(tag.value[0], tag.rest)
        case Err(error) => Err(error)
        case Ok(entry) => if entry.rest != [] then Err(Corrupt) else Ok(entry.value)
  {
    hide GetEntry;
  }
}
