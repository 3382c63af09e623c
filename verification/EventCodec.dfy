/**
 The payload codec of the rights journal (`encode_event`, `decode_event`, `Cursor`
 in journal_core.rs). The pure functions fix the wire form; the class and the two
 methods at the end are the buffer-filling encoder and the consuming decoder.
 */
module EventCodec {
  import opened Bytes
  import opened FramedLog
  import opened Order
  import opened RightsLedger

  datatype Parsed<+T> = Parsed(value: T, rest: seq<Byte>)

  // ---- wire form ---------------------------------------------------------------

  function Blob(b: seq<Byte>): seq<Byte> {
    LE(|b|, 4) + b
  }

  function EffectBytes(effect: Effect): seq<Byte> {
    LE(effect.units, 8) + Blob(effect.principal) + Blob(effect.target) + Blob(effect.payload)
  }

  function IdBytes(ids: seq<U64>): (b: seq<Byte>)
    ensures |b| == 8 * |ids|
  {
    if ids == [] then [] else LE(ids[0], 8) + IdBytes(ids[1..])
  }

  predicate Ascends(ids: seq<U64>) {
    forall i, j :: 0 <= i < j < |ids| ==> ids[i] < ids[j]
  }

  function Sorted(keep: set<U64>): (ids: seq<U64>)
    ensures Ascends(ids) && |ids| == |keep|
    ensures keep == Members(ids)
  {
    BelowIsTotal();
    var ids := Ascending(Below, keep);
    assert forall i, j :: 0 <= i < j < |ids| ==> Below(ids[i], ids[j]);
    ids
  }

  function KeepBytes(keep: set<U64>): seq<Byte> {
    LE(|keep|, 4) + IdBytes(Sorted(keep))
  }

  function SendBytes(id: U64, effect: Effect): seq<Byte> {
    LE(id, 8) + EffectBytes(effect)
  }

  function OutcomeBytes(id: U64, occurred: bool): seq<Byte> {
    LE(id, 8) + [if occurred then 1 else 0]
  }

  function Tag(event: Event): Byte {
    match event
    case Reserve(_, _) => 1
    case Dispatch(_, _) => 2
    case MarkUnknown(_) => 3
    case AbortBeforeDispatch(_) => 4
    case Reconcile(_, _) => 5
    case RevokeEpoch => 6
    case ResetToCheckpoint(_) => 7
  }

  function BodyBytes(event: Event): seq<Byte> {
    match event
    case Reserve(id, effect) => SendBytes(id, effect)
    case Dispatch(id, effect) => SendBytes(id, effect)
    case MarkUnknown(id) => LE(id, 8)
    case AbortBeforeDispatch(id) => LE(id, 8)
    case Reconcile(id, occurred) => OutcomeBytes(id, occurred)
    case RevokeEpoch => []
    case ResetToCheckpoint(keep) => KeepBytes(keep)
  }

  function EventBytes(event: Event): seq<Byte> {
    [Tag(event)] + BodyBytes(event)
  }

  // Every event on the wire: one tag byte, then its fields in this order, each string
  // behind its length.
  ghost predicate Written(event: Event, b: seq<Byte>) {
    match event
    case Reserve(id, e) =>
      b == [1] + LE(id, 8) + LE(e.units, 8) + LE(|e.principal|, 4) + e.principal
        + LE(|e.target|, 4) + e.target + LE(|e.payload|, 4) + e.payload
    case Dispatch(id, e) =>
      b == [2] + LE(id, 8) + LE(e.units, 8) + LE(|e.principal|, 4) + e.principal
        + LE(|e.target|, 4) + e.target + LE(|e.payload|, 4) + e.payload
    case MarkUnknown(id) => b == [3] + LE(id, 8)
    case AbortBeforeDispatch(id) => b == [4] + LE(id, 8)
    case Reconcile(id, occurred) => b == [5] + LE(id, 8) + [if occurred then 1 else 0]
    case RevokeEpoch => b == [6]
    case ResetToCheckpoint(keep) =>
      exists ids: seq<U64> ::
        && Ascends(ids) && (forall id :: id in ids <==> id in keep)
        && b == [7] + LE(|ids|, 4) + IdBytes(ids)
  }

  lemma EventLayout(event: Event)
    ensures Written(event, EventBytes(event))
  {
    hide LE, IdBytes, Sorted, SendBytes;
    if event.Reserve? || event.Dispatch? {
      SendLayout(Tag(event), event.id, event.effect);
    } else if event.ResetToCheckpoint? {
      var ids := Sorted(event.keep);
      assert [7] + LE(|ids|, 4) + IdBytes(ids) == EventBytes(event);
    }
  }

  lemma SendLayout(tag: Byte, id: U64, e: Effect)
    ensures [tag] + SendBytes(id, e) ==
      [tag] + LE(id, 8) + LE(e.units, 8) + LE(|e.principal|, 4) + e.principal
      + LE(|e.target|, 4) + e.target + LE(|e.payload|, 4) + e.payload
  {
    hide LE;
  }

  // ---- reading -----------------------------------------------------------------

  function GetBytes(b: seq<Byte>, count: nat): (p: Result<Parsed<seq<Byte>>, Error>)
    ensures p.Ok? ==> |p.value.value| == count && b == p.value.value + p.value.rest
    ensures p.Err? ==> p.error.Corrupt?
  {
    if count > |b| then Err(Corrupt) else Ok(Parsed(b[..count], b[count..]))
  }

  function GetU8(b: seq<Byte>): (p: Result<Parsed<Byte>, Error>)
    ensures p.Ok? ==> b == [p.value.value] + p.value.rest
    ensures p.Err? ==> p.error.Corrupt?
  {
    var p :- GetBytes(b, 1);
    Ok(Parsed(p.value[0], p.rest))
  }

  function GetU32(b: seq<Byte>): (p: Result<Parsed<U32>, Error>)
    ensures p.Ok? ==> b == LE(p.value.value, 4) + p.value.rest
    ensures p.Err? ==> p.error.Corrupt?
  {
    var p :- GetBytes(b, 4);
    Widths();
    LEOfFromLE(p.value);
    Ok(Parsed(FromLE(p.value), p.rest))
  }

  function GetU64(b: seq<Byte>): (p: Result<Parsed<U64>, Error>)
    ensures p.Ok? ==> b == LE(p.value.value, 8) + p.value.rest
    ensures p.Err? ==> p.error.Corrupt?
  {
    var p :- GetBytes(b, 8);
    Widths();
    LEOfFromLE(p.value);
    Ok(Parsed(FromLE(p.value), p.rest))
  }

  function GetBlob(b: seq<Byte>): (p: Result<Parsed<seq<Byte>>, Error>)
    ensures p.Ok? ==> b == Blob(p.value.value) + p.value.rest
    ensures p.Err? ==> p.error.Corrupt?
  {
    var length :- GetU32(b);
    var p :- GetBytes(length.rest, length.value);
    assert b == LE(length.value, 4) + (p.value + p.rest) == Blob(p.value) + p.rest;
    Ok(p)
  }

  function GetString(b: seq<Byte>): (p: Result<Parsed<Utf8>, Error>)
    ensures p.Ok? ==> b == Blob(p.value.value) + p.value.rest
    ensures p.Err? ==> p.error.Corrupt?
  {
    var p :- GetBlob(b);
    if ValidUtf8(p.value) then Ok(Parsed(p.value, p.rest)) else Err(Corrupt)
  }

  function GetEffect(b: seq<Byte>): (p: Result<Parsed<Effect>, Error>)
    ensures p.Ok? ==> b == EffectBytes(p.value.value) + p.value.rest
    ensures p.Err? ==> p.error.Corrupt?
  {
    var units :- GetU64(b);
    var principal :- GetString(units.rest);
    var target :- GetString(principal.rest);
    var payload :- GetBlob(target.rest);
    Glue4(LE(units.value, 8), Blob(principal.value), Blob(target.value), Blob(payload.value), payload.rest);
    Ok(Parsed(Effect(principal.value, target.value, payload.value, units.value), payload.rest))
  }

  // `count` identifiers, each strictly above the one before it.
  function GetIds(b: seq<Byte>, count: nat, previous: Option<U64>): (p: Result<Parsed<seq<U64>>, Error>)
    ensures p.Err? ==> p.error.Corrupt?
    decreases count
  {
    if count == 0 then Ok(Parsed([], b))
    else
      var id :- GetU64(b);
      if previous.Some? && previous.value >= id.value then Err(Corrupt)
      else
        var others :- GetIds(id.rest, count - 1, Some(id.value));
        Ok(Parsed([id.value] + others.value, others.rest))
  }

  lemma {:induction false} IdsAreCanonical(b: seq<Byte>, count: nat, previous: Option<U64>)
    requires GetIds(b, count, previous).Ok?
    ensures
      var p := GetIds(b, count, previous).value;
      && b == IdBytes(p.value) + p.rest
      && |p.value| == count
      && Ascends(p.value)
      && (previous.Some? && p.value != [] ==> previous.value < p.value[0])
    decreases count
  {
    if count == 0 {
      assert IdBytes([]) + b == b;
    } else {
      var id := GetU64(b).value;
      var others := GetIds(id.rest, count - 1, Some(id.value)).value;
      IdsAreCanonical(id.rest, count - 1, Some(id.value));
      IdsExtend(id.value, others.value, others.rest);
    }
  }

  lemma IdsExtend(id: U64, others: seq<U64>, rest: seq<Byte>)
    ensures IdBytes([id] + others) + rest == LE(id, 8) + (IdBytes(others) + rest)
  {
    assert ([id] + others)[1..] == others;
    Glue(LE(id, 8), IdBytes(others), rest);
  }

  lemma SortedIsUnique(ids: seq<U64>)
    requires Ascends(ids)
    ensures Sorted(Members(ids)) == ids
  {
    BelowIsTotal();
    assert forall i, j :: 0 <= i < j < |ids| ==> Below(ids[i], ids[j]);
    AscendingIsUnique(Below, ids);
  }

  lemma KeepFromIds(ids: seq<U64>, rest: seq<Byte>)
    requires Ascends(ids)
    ensures KeepBytes(Members(ids)) + rest == LE(|ids|, 4) + (IdBytes(ids) + rest)
  {
    SortedIsUnique(ids);
    Glue(LE(|ids|, 4), IdBytes(ids), rest);
  }

  function GetKeep(b: seq<Byte>): (p: Result<Parsed<set<U64>>, Error>)
    ensures p.Ok? ==> b == KeepBytes(p.value.value) + p.value.rest
    ensures p.Err? ==> p.error.Corrupt?
  {
    var count :- GetU32(b);
    if count.value > |count.rest| / 8 then Err(Corrupt)
    else
      var ids :- GetIds(count.rest, count.value, None);
      IdsAreCanonical(count.rest, count.value, None);
      KeepFromIds(ids.value, ids.rest);
      Ok(Parsed(Members(ids.value), ids.rest))
  }

  function GetSend(b: seq<Byte>): (p: Result<Parsed<(U64, Effect)>, Error>)
    ensures p.Ok? ==> b == SendBytes(p.value.value.0, p.value.value.1) + p.value.rest
    ensures p.Err? ==> p.error.Corrupt?
  {
    var id :- GetU64(b);
    var effect :- GetEffect(id.rest);
    Glue(LE(id.value, 8), EffectBytes(effect.value), effect.rest);
    Ok(Parsed((id.value, effect.value), effect.rest))
  }

  function GetOutcome(b: seq<Byte>): (p: Result<Parsed<(U64, bool)>, Error>)
    ensures p.Ok? ==> b == OutcomeBytes(p.value.value.0, p.value.value.1) + p.value.rest
    ensures p.Err? ==> p.error.Corrupt?
  {
    var id :- GetU64(b);
    var occurred :- GetU8(id.rest);
    if occurred.value > 1 then Err(Corrupt)
    else
      Glue(LE(id.value, 8), [occurred.value], occurred.rest);
      Ok(Parsed((id.value, occurred.value == 1), occurred.rest))
  }

  // The parse accounts for the tag and for every byte it took.
  predicate Restores(tag: Byte, b: seq<Byte>, p: Result<Parsed<Event>, Error>) {
    match p
    case Err(error) => error.Corrupt?
    case Ok(parsed) => Tag(parsed.value) == tag && b == BodyBytes(parsed.value) + parsed.rest
  }

  function GetBody(tag: Byte, b: seq<Byte>): (p: Result<Parsed<Event>, Error>)
    ensures Restores(tag, b, p)
  {
    hide GetSend, GetU64, GetOutcome, GetKeep, SendBytes, OutcomeBytes, KeepBytes;
    match tag
    case 1 =>
      var send :- GetSend(b);
      Ok(Parsed(Reserve(send.value.0, send.value.1), send.rest))
    case 2 =>
      var send :- GetSend(b);
      Ok(Parsed(Dispatch(send.value.0, send.value.1), send.rest))
    case 3 =>
      var id :- GetU64(b);
      Ok(Parsed(MarkUnknown(id.value), id.rest))
    case 4 =>
      var id :- GetU64(b);
      Ok(Parsed(AbortBeforeDispatch(id.value), id.rest))
    case 5 =>
      var outcome :- GetOutcome(b);
      Ok(Parsed(Reconcile(outcome.value.0, outcome.value.1), outcome.rest))
    case 6 => Ok(Parsed(RevokeEpoch, b))
    case 7 =>
      var keep :- GetKeep(b);
      Ok(Parsed(ResetToCheckpoint(keep.value), keep.rest))
    case _ => Err(Corrupt)
  }

  function DecodeEvent(b: seq<Byte>): (event: Result<Event, Error>)
    ensures event.Err? ==> event.error.Corrupt?
  {
    var tag :- GetU8(b);
    var body :- GetBody(tag.value, tag.rest);
    if body.rest == [] then Ok(body.value) else Err(Corrupt)
  }

  // Every accepted byte string is the encoding of what it decodes to.
  lemma DecodedReencodes(b: seq<Byte>)
    requires DecodeEvent(b).Ok?
    ensures EventBytes(DecodeEvent(b).value) == b
  {
    hide GetBody, BodyBytes;
    var tag := GetU8(b).value;
    var body := GetBody(tag.value, tag.rest).value;
    assert BodyBytes(body.value) + [] == BodyBytes(body.value);
  }

  // ---- what was written is read back ---------------------------------------------

  lemma ReadU32(n: U32, rest: seq<Byte>)
    ensures GetU32(LE(n, 4) + rest) == Ok(Parsed(n, rest))
  {
    Widths();
    FromLEOfLE(n, 4);
    assert (LE(n, 4) + rest)[..4] == LE(n, 4);
    assert (LE(n, 4) + rest)[4..] == rest;
  }

  lemma ReadU64(n: U64, rest: seq<Byte>)
    ensures GetU64(LE(n, 8) + rest) == Ok(Parsed(n, rest))
  {
    Widths();
    FromLEOfLE(n, 8);
    assert (LE(n, 8) + rest)[..8] == LE(n, 8);
    assert (LE(n, 8) + rest)[8..] == rest;
  }

  lemma ReadBlob(b: seq<Byte>, rest: seq<Byte>)
    requires |b| < 0x1_0000_0000
    ensures GetBlob(Blob(b) + rest) == Ok(Parsed(b, rest))
  {
    assert Blob(b) + rest == LE(|b|, 4) + (b + rest);
    ReadU32(|b|, b + rest);
    assert (b + rest)[..|b|] == b && (b + rest)[|b|..] == rest;
  }

  lemma ReadEffect(effect: Effect, rest: seq<Byte>)
    requires |EffectBytes(effect)| < 0x1_0000_0000
    ensures GetEffect(EffectBytes(effect) + rest) == Ok(Parsed(effect, rest))
  {
    var payload := Blob(effect.payload) + rest;
    var target := Blob(effect.target) + payload;
    var principal := Blob(effect.principal) + target;
    Glue4(LE(effect.units, 8), Blob(effect.principal), Blob(effect.target), Blob(effect.payload), rest);
    ReadU64(effect.units, principal);
    ReadBlob(effect.principal, target);
    ReadBlob(effect.target, payload);
    ReadBlob(effect.payload, rest);
  }

  lemma {:induction false} ReadIds(ids: seq<U64>, previous: Option<U64>, rest: seq<Byte>)
    requires Ascends(ids)
    requires previous.Some? && ids != [] ==> previous.value < ids[0]
    ensures GetIds(IdBytes(ids) + rest, |ids|, previous) == Ok(Parsed(ids, rest))
    decreases |ids|
  {
    hide GetU64, LE;
    if ids == [] {
      assert IdBytes(ids) + rest == rest;
    } else {
      var others := IdBytes(ids[1..]) + rest;
      assert IdBytes(ids) + rest == LE(ids[0], 8) + others;
      ReadU64(ids[0], others);
      ReadIds(ids[1..], Some(ids[0]), rest);
      assert ids == [ids[0]] + ids[1..];
    }
  }

  lemma ReadSend(id: U64, effect: Effect)
    requires |SendBytes(id, effect)| < 0x1_0000_0000
    ensures GetSend(SendBytes(id, effect)) == Ok(Parsed((id, effect), []))
  {
    ReadU64(id, EffectBytes(effect));
    assert EffectBytes(effect) + [] == EffectBytes(effect);
    ReadEffect(effect, []);
  }

  lemma ReadKeep(keep: set<U64>)
    requires |KeepBytes(keep)| < 0x1_0000_0000
    ensures GetKeep(KeepBytes(keep)) == Ok(Parsed(keep, []))
  {
    hide Sorted, GetU32, GetIds, LE, IdBytes;
    var ids := Sorted(keep);
    ReadU32(|keep|, IdBytes(ids));
    assert IdBytes(ids) + [] == IdBytes(ids);
    ReadIds(ids, None, []);
  }

  lemma ReadBareId(id: U64)
    ensures GetU64(LE(id, 8)) == Ok(Parsed(id, []))
  {
    assert LE(id, 8) + [] == LE(id, 8);
    ReadU64(id, []);
  }

  lemma ReadOutcome(id: U64, occurred: bool)
    ensures GetOutcome(OutcomeBytes(id, occurred)) == Ok(Parsed((id, occurred), []))
  {
    ReadU64(id, [if occurred then 1 else 0]);
  }

  lemma BodyReads(event: Event)
    requires |EventBytes(event)| < 0x1_0000_0000
    ensures GetBody(Tag(event), BodyBytes(event)) == Ok(Parsed(event, []))
  {
    hide GetSend, GetU64, GetOutcome, GetKeep, SendBytes, OutcomeBytes, KeepBytes;
    match event
    case Reserve(id, effect) => ReadSend(id, effect);
    case Dispatch(id, effect) => ReadSend(id, effect);
    case MarkUnknown(id) => ReadBareId(id);
    case AbortBeforeDispatch(id) => ReadBareId(id);
    case Reconcile(id, occurred) => ReadOutcome(id, occurred);
    case RevokeEpoch =>
    case ResetToCheckpoint(keep) => ReadKeep(keep);
  }

  // Decoding inverts encoding for every event whose encoding fits a frame.
  lemma EncodedDecodes(event: Event)
    requires |EventBytes(event)| < 0x1_0000_0000
    ensures DecodeEvent(EventBytes(event)) == Ok(event)
  {
    hide GetBody, BodyBytes;
    assert EventBytes(event)[1..] == BodyBytes(event);
    BodyReads(event);
  }

  // ---- the encoder and decoder as the source runs them ---------------------------

  lemma {:induction false} IdBytesAppend(ids: seq<U64>, id: U64)
    ensures IdBytes(ids + [id]) == IdBytes(ids) + LE(id, 8)
    decreases |ids|
  {
    if ids == [] {
      assert [id][1..] == [];
    } else {
      assert (ids + [id])[1..] == ids[1..] + [id];
      IdBytesAppend(ids[1..], id);
      Glue(LE(ids[0], 8), IdBytes(ids[1..]), LE(id, 8));
    }
  }

  // Refuses before copying when the length word and the bytes would pass the limit.
  method PutBytes(out: seq<Byte>, bytes: seq<Byte>, limit: nat) returns (r: Result<seq<Byte>, Error>)
    ensures r == if |out| + |Blob(bytes)| <= limit then Ok(out + Blob(bytes)) else Err(Limit)
  {
    if |out| + 4 + |bytes| > limit {
      return Err(Limit);
    }
    Glue(out, LE(|bytes|, 4), bytes);
    return Ok(out + LE(|bytes|, 4) + bytes);
  }

  method PutIds(out: seq<Byte>, ids: seq<U64>) returns (r: seq<Byte>)
    ensures r == out + IdBytes(ids)
  {
    r := out;
    for i := 0 to |ids|
      invariant r == out + IdBytes(ids[..i])
    {
      r := r + LE(ids[i], 8);
      Glue(out, IdBytes(ids[..i]), LE(ids[i], 8));
      IdBytesAppend(ids[..i], ids[i]);
      assert ids[..i + 1] == ids[..i] + [ids[i]];
    }
    assert ids[..|ids|] == ids;
  }

  method PutSend(tag: Byte, id: U64, effect: Effect, limit: nat) returns (r: Result<seq<Byte>, Error>)
    ensures r == if 1 + |SendBytes(id, effect)| <= limit then Ok([tag] + SendBytes(id, effect)) else Err(Limit)
  {
    var out := [tag] + LE(id, 8) + LE(effect.units, 8);
    var named :- PutBytes(out, effect.principal, limit);
    var aimed :- PutBytes(named, effect.target, limit);
    var full :- PutBytes(aimed, effect.payload, limit);
    assert full == [tag] + SendBytes(id, effect);
    return Ok(full);
  }

  // The limit is exact: encoding fails only when the whole payload would not fit.
  method EncodeEvent(event: Event, limit: nat) returns (r: Result<seq<Byte>, Error>)
    ensures r == if |EventBytes(event)| <= limit then Ok(EventBytes(event)) else Err(Limit)
  {
    var out: seq<Byte>;
    match event {
      case Reserve(id, effect) => out :- PutSend(1, id, effect, limit);
      case Dispatch(id, effect) => out :- PutSend(2, id, effect, limit);
      case MarkUnknown(id) => out := [3] + LE(id, 8);
      case AbortBeforeDispatch(id) => out := [4] + LE(id, 8);
      case Reconcile(id, occurred) => out := [5] + OutcomeBytes(id, occurred);
      case RevokeEpoch =>
        out := [6];
        assert [6] + BodyBytes(event) == [6];
      case ResetToCheckpoint(keep) =>
        if |keep| * 8 + 5 > limit {
          return Err(Limit);
        }
        out := PutIds([7] + LE(|keep|, 4), Sorted(keep));
        Glue([7], LE(|keep|, 4), IdBytes(Sorted(keep)));
    }
    if |out| > limit {
      return Err(Limit);
    }
    return Ok(out);
  }

  // A read through the cursor returns what the pure reader does and leaves its rest.
  ghost predicate Reads<T>(pure: Result<Parsed<T>, Error>, got: Result<T, Error>, rest: seq<Byte>) {
    match pure
    case Ok(p) => got == Ok(p.value) && rest == p.rest
    case Err(e) => got == Err(e)
  }

  class Cursor {
    var rest: seq<Byte>

    constructor (bytes: seq<Byte>)
      ensures rest == bytes
    {
      rest := bytes;
    }

    method Take(count: nat) returns (r: Result<seq<Byte>, Error>)
      modifies this
      ensures Reads(GetBytes(old(rest), count), r, rest)
    {
      if count > |rest| {
        return Err(Corrupt);
      }
      r := Ok(rest[..count]);
      rest := rest[count..];
    }

    method U8() returns (r: Result<Byte, Error>)
      modifies this
      ensures Reads(GetU8(old(rest)), r, rest)
    {
      var bytes :- Take(1);
      return Ok(bytes[0]);
    }

    method U32() returns (r: Result<U32, Error>)
      modifies this
      ensures Reads(GetU32(old(rest)), r, rest)
    {
      var bytes :- Take(4);
      Widths();
      return Ok(FromLE(bytes));
    }

    method U64() returns (r: Result<U64, Error>)
      modifies this
      ensures Reads(GetU64(old(rest)), r, rest)
    {
      var bytes :- Take(8);
      Widths();
      return Ok(FromLE(bytes));
    }

    method Bytes() returns (r: Result<seq<Byte>, Error>)
      modifies this
      ensures Reads(GetBlob(old(rest)), r, rest)
    {
      var length :- U32();
      r := Take(length);
    }

    method Str() returns (r: Result<Utf8, Error>)
      modifies this
      ensures Reads(GetString(old(rest)), r, rest)
    {
      var bytes :- Bytes();
      if ValidUtf8(bytes) {
        return Ok(bytes);
      }
      return Err(Corrupt);
    }

    method Send() returns (r: Result<(U64, Effect), Error>)
      modifies this
      ensures Reads(GetSend(old(rest)), r, rest)
    {
      var id :- U64();
      var units :- U64();
      var principal :- Str();
      var target :- Str();
      var payload :- Bytes();
      return Ok((id, Effect(principal, target, payload, units)));
    }

    method Ids(count: nat) returns (r: Result<set<U64>, Error>, ghost ids: seq<U64>)
      modifies this
      ensures Reads(GetIds(old(rest), count, None), if r.Ok? then Ok(ids) else Err(Corrupt), rest)
      ensures r.Err? ==> r == Err(Corrupt)
      ensures r.Ok? ==> r.value == Members(ids)
    {
      var keep: set<U64>, previous: Option<U64> := {}, None;
      ids := [];
      AfterNothing(GetIds(rest, count, None));
      for i := 0 to count
        invariant GetIds(old(rest), count, None) == After(ids, GetIds(rest, count - i, previous))
        invariant keep == Members(ids)
      {
        ghost var before := rest;
        var id := U64();
        if id.Err? || (previous.Some? && previous.value >= id.value) {
          IdsRefused(before, count - i, previous);
          return Err(Corrupt), ids;
        }
        AfterOne(ids, before, count - i, previous);
        MembersAppend(ids, id.value);
        keep := keep + {id.value};
        previous := Some(id.value);
        ids := ids + [id.value];
      }
      assert ids + [] == ids;
      r := Ok(keep);
    }

    method Keep() returns (r: Result<set<U64>, Error>)
      modifies this
      ensures Reads(GetKeep(old(rest)), r, rest)
    {
      var count :- U32();
      if count > |rest| / 8 {
        return Err(Corrupt);
      }
      ghost var ids;
      r, ids := Ids(count);
    }
  }

  lemma AfterNothing(p: Result<Parsed<seq<U64>>, Error>)
    ensures After([], p) == p
  {
    assert p.Ok? ==> [] + p.value.value == p.value.value;
  }

  lemma MembersAppend(ids: seq<U64>, id: U64)
    ensures Members(ids + [id]) == Members(ids) + {id}
  {
  }

  lemma IdsRefused(b: seq<Byte>, count: nat, previous: Option<U64>)
    requires count > 0
    requires GetU64(b).Err? || (previous.Some? && previous.value >= GetU64(b).value.value)
    ensures GetIds(b, count, previous) == Err(Corrupt)
  {
  }

  lemma AfterOne(ids: seq<U64>, b: seq<Byte>, count: nat, previous: Option<U64>)
    requires count > 0 && GetU64(b).Ok?
    requires previous.Some? ==> previous.value < GetU64(b).value.value
    ensures
      var id := GetU64(b).value;
      After(ids, GetIds(b, count, previous)) == After(ids + [id.value], GetIds(id.rest, count - 1, Some(id.value)))
  {
    var id := GetU64(b).value;
    var later := GetIds(id.rest, count - 1, Some(id.value));
    if later.Ok? {
      Glue(ids, [id.value], later.value.value);
    }
  }

  ghost function After(ids: seq<U64>, p: Result<Parsed<seq<U64>>, Error>): Result<Parsed<seq<U64>>, Error> {
    if p.Ok? then Ok(Parsed(ids + p.value.value, p.value.rest)) else p
  }

  method Decode(bytes: seq<Byte>) returns (r: Result<Event, Error>)
    ensures r == DecodeEvent(bytes)
  {
    hide GetSend, GetKeep;
    var cursor := new Cursor(bytes);
    var tag :- cursor.U8();
    var event: Event;
    match tag {
      case 1 =>
        var send :- cursor.Send();
        event := Reserve(send.0, send.1);
      case 2 =>
        var send :- cursor.Send();
        event := Dispatch(send.0, send.1);
      case 3 =>
        var id :- cursor.U64();
        event := MarkUnknown(id);
      case 4 =>
        var id :- cursor.U64();
        event := AbortBeforeDispatch(id);
      case 5 =>
        var id :- cursor.U64();
        var occurred :- cursor.U8();
        if occurred > 1 {
          return Err(Corrupt);
        }
        event := Reconcile(id, occurred == 1);
      case 6 => event := RevokeEpoch;
      case 7 =>
        var keep :- cursor.Keep();
        event := ResetToCheckpoint(keep);
      case _ => return Err(Corrupt);
    }
    if cursor.rest != [] {
      return Err(Corrupt);
    }
    return Ok(event);
  }
}
