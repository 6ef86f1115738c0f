/**
 * The hand-rolled protobuf subset decoder and the body-controller-state
 * parser: a varint reader, a one-field reader for wire types 0 and 2, a
 * best-effort walk over a message's fields, and the interpretation of the two
 * response shapes into a VehicleState.
 */
module Parser {
  import opened Wrappers
  import opened Bytes
  import opened VehicleStates

  // ---------------------------------------------------------------- name tables

  /** The closure table, with the vehicle's inverted 1 = OPEN, 2 = CLOSED. */
  const ClosureStateNames: map<nat, StateName> :=
    map[0 := Unknown, 1 := Open, 2 := Closed, 3 := Ajar, 4 := FailedUnlatch, 5 := Opening, 6 := Closing]

  const LockStateNames: map<nat, StateName> :=
    map[0 := Unlocked, 1 := Locked, 2 := InternalLocked, 3 := SelectiveUnlocked]

  const SleepStatusNames: map<nat, StateName> :=
    map[0 := Unknown, 1 := Awake, 2 := Asleep]

  const UserPresenceNames: map<nat, StateName> :=
    map[0 := Unknown, 1 := NotPresent, 2 := Present]

  // ---------------------------------------------------------------- varints

  /** `byte & 0x7F`. */
  function Low7(b: byte): nat { b % 128 }

  function Pow2(n: nat): (r: nat)
    ensures r >= 1
  {
    if n == 0 then 1 else 2 * Pow2(n - 1)
  }

  /**
   * Reference reading of a run of varint groups: little-endian, seven bits per
   * byte, continuation bits ignored.
   */
  function Le7(bs: seq<byte>): nat
  {
    if bs == [] then 0 else Low7(bs[0]) + 128 * Le7(bs[1..])
  }

  lemma {:induction false} Pow2Add7(n: nat)
    ensures Pow2(n + 7) == 128 * Pow2(n)
  {
    if n == 0 {
      assert Pow2(1) == 2 && Pow2(2) == 4 && Pow2(3) == 8 && Pow2(4) == 16;
      assert Pow2(5) == 32 && Pow2(6) == 64 && Pow2(7) == 128;
    } else {
      Pow2Add7(n - 1);
    }
  }

  /** Appending a group adds it at weight 2^(7·|bs|) (`result |= (byte & 0x7F) << shift`). */
  lemma {:induction false} Le7Snoc(bs: seq<byte>, b: byte)
    ensures Le7(bs + [b]) == Le7(bs) + Low7(b) * Pow2(7 * |bs|)
  {
    if bs != [] {
      var tail := bs[1..];
      Le7Snoc(tail, b);
      Pow2Add7(7 * |tail|);
      Le7Cons(bs, b, tail);
      ShiftGroup(Low7(bs[0]), Le7(tail), Low7(b), Pow2(7 * |tail|), Le7(tail + [b]));
    }
  }

  /** Le7 unfolded once on a sequence and on that sequence with a byte appended. */
  lemma Le7Cons(bs: seq<byte>, b: byte, tail: seq<byte>)
    requires bs != [] && tail == bs[1..]
    ensures Le7(bs + [b]) == Low7(bs[0]) + 128 * Le7(tail + [b])
    ensures Le7(bs) == Low7(bs[0]) + 128 * Le7(tail)
  {
    assert (bs + [b])[1..] == tail + [b];
  }

  /** `low + 128·(rest + g·w) == (low + 128·rest) + g·(128·w)`. */
  lemma ShiftGroup(low: nat, rest: nat, g: nat, w: nat, longer: nat)
    requires longer == rest + g * w
    ensures low + 128 * longer == (low + 128 * rest) + g * (128 * w)
  {
    assert 128 * (g * w) == g * (128 * w);
  }

  /**
   * The varint starting at `pos`: its value and the position after its last
   * byte, or None when the data ends before a byte with the high bit clear.
   */
  function VarintFrom(data: seq<byte>, pos: nat): (r: Option<(nat, nat)>)
    ensures r.Some? ==> pos < r.value.1 <= |data|
    decreases |data| - pos
  {
    if pos >= |data| then None
    else if data[pos] < 0x80 then Some((Low7(data[pos]), pos + 1))
    else match VarintFrom(data, pos + 1)
      case None => None
      case Some((v, end)) => Some((Low7(data[pos]) + 128 * v, end))
  }

  /**
   * A varint is the bytes up to and including the first one below 0x80; its
   * value is their little-endian seven-bit reading, and there is no cap on the
   * number of groups.
   */
  lemma {:induction false} VarintFromFirstTerminator(data: seq<byte>, pos: nat, end: nat)
    requires pos < end <= |data|
    requires forall k :: pos <= k < end - 1 ==> data[k] >= 0x80
    requires data[end - 1] < 0x80
    ensures VarintFrom(data, pos) == Some((Le7(data[pos..end]), end))
    decreases end - pos
  {
    if pos < end - 1 {
      VarintFromFirstTerminator(data, pos + 1, end);
      assert data[pos..end][1..] == data[pos + 1..end];
    }
  }

  /** The reader fails exactly when no byte from `pos` on terminates a varint. */
  lemma {:induction false} VarintFromNone(data: seq<byte>, pos: nat)
    ensures VarintFrom(data, pos).None? <==> forall k :: pos <= k < |data| ==> data[k] >= 0x80
    decreases |data| - pos
  {
    if pos < |data| {
      VarintFromNone(data, pos + 1);
    }
  }

  /** Why a field could not be read. */
  datatype FieldError =
    | IncompleteVarint(offset: nat)
    | OffsetBeyondData(offset: nat)
    | UnsupportedWireType(wireType: nat)

  /** `_read_varint(data, offset)` as a value: (value, new offset) or `ValueError`. */
  function VarintAt(data: seq<byte>, offset: nat): (r: Result<(nat, nat), FieldError>)
    ensures r.Ok? ==> offset < r.value.1 <= |data|
  {
    match VarintFrom(data, offset)
    case None => Err(IncompleteVarint(offset))
    case Some(x) => Ok(x)
  }

  /** `_read_varint`: accumulate seven-bit groups until a byte without the continuation bit. */
  method ReadVarint(data: seq<byte>, offset: nat) returns (r: Result<(nat, nat), FieldError>)
    ensures r == VarintAt(data, offset)
  {
    var result := 0;
    var shift := 0;
    var pos := offset;
    while pos < |data|
      invariant offset <= pos
      invariant offset <= |data| ==> pos <= |data|
      invariant offset > |data| ==> pos == offset
      invariant pos <= |data| ==> result == Le7(data[offset..pos])
      invariant shift == 7 * (pos - offset)
      invariant forall k :: offset <= k < pos ==> data[k] >= 0x80
    {
      var b := data[pos];
      // the groups occupy disjoint bits, so the source's `|=` is this addition
      Le7Snoc(data[offset..pos], b);
      assert data[offset..pos] + [b] == data[offset..pos + 1];
      result := result + Low7(b) * Pow2(shift);
      pos := pos + 1;
      if b < 0x80 {
        VarintFromFirstTerminator(data, offset, pos);
        return Ok((result, pos));
      }
      shift := shift + 7;
    }
    VarintFromNone(data, offset);
    return Err(IncompleteVarint(offset));
  }

  // ---------------------------------------------------------------- fields

  /** A decoded field value; the constructor is the wire type (0 or 2). */
  datatype FieldValue = VarintField(n: nat) | BytesField(data: seq<byte>)

  /** `(field_num, wire_type, field_data, new_offset)` of `_parse_field`. */
  datatype ProtoField = ProtoField(number: nat, value: FieldValue, next: nat)

  function WireType(v: FieldValue): nat
  {
    if v.VarintField? then 0 else 2
  }

  /**
   * `_parse_field`: read the tag varint, split it into field number and wire
   * type, then a varint (type 0) or a length and that many bytes (type 2). The
   * payload is the clamped slice, and the new offset is offset + length even
   * when that runs past the end.
   */
  function ParseField(data: seq<byte>, offset: nat): (r: Result<ProtoField, FieldError>)
    ensures r.Ok? ==> r.value.next > offset
  {
    if offset >= |data| then Err(OffsetBeyondData(offset))
    else match VarintAt(data, offset)
      case Err(e) => Err(e)
      case Ok((tag, p)) =>
        var number, wireType := tag / 8, tag % 8;
        if wireType == 0 then
          match VarintAt(data, p)
          case Err(e) => Err(e)
          case Ok((v, q)) => Ok(ProtoField(number, VarintField(v), q))
        else if wireType == 2 then
          match VarintAt(data, p)
          case Err(e) => Err(e)
          case Ok((length, q)) => Ok(ProtoField(number, BytesField(Slice(data, q, q + length)), q + length))
        else Err(UnsupportedWireType(wireType))
  }

  /** ParseField from the two varints it reads, for a varint field. */
  lemma ParseFieldVarint(data: seq<byte>, offset: nat, tag: nat, p: nat, v: nat, q: nat)
    requires offset < |data| && tag % 8 == 0
    requires VarintAt(data, offset) == Ok((tag, p)) && VarintAt(data, p) == Ok((v, q))
    ensures ParseField(data, offset) == Ok(ProtoField(tag / 8, VarintField(v), q))
  {
  }

  /** ParseField from the two varints it reads, for a length-delimited field. */
  lemma ParseFieldBytes(data: seq<byte>, offset: nat, tag: nat, p: nat, length: nat, q: nat)
    requires offset < |data| && tag % 8 == 2
    requires VarintAt(data, offset) == Ok((tag, p)) && VarintAt(data, p) == Ok((length, q))
    ensures ParseField(data, offset) == Ok(ProtoField(tag / 8, BytesField(Slice(data, q, q + length)), q + length))
  {
  }

  /** The fields a best-effort walk decodes from `offset` on, up to the end or the first failure. */
  function Walk(data: seq<byte>, offset: nat): seq<ProtoField>
    decreases |data| - offset
  {
    if offset >= |data| then []
    else match ParseField(data, offset)
      case Err(_) => []
      case Ok(f) => [f] + Walk(data, f.next)
  }

  /** The dictionary built from a list of decoded fields, later entries overwriting earlier ones. */
  function FieldMap(fs: seq<ProtoField>): map<nat, FieldValue>
  {
    if fs == [] then map[] else FieldMap(fs[..|fs| - 1])[fs[|fs| - 1].number := fs[|fs| - 1].value]
  }

  /** `_parse_message_fields(data)` as a value. */
  function MessageFields(data: seq<byte>): map<nat, FieldValue>
  {
    FieldMap(Walk(data, 0))
  }

  /** Where the walk's i-th field starts. */
  function StartOf(fs: seq<ProtoField>, offset: nat, i: nat): nat
    requires i <= |fs|
  {
    if i == 0 then offset else fs[i - 1].next
  }

  /**
   * The walk decodes consecutive fields, each starting where the previous one
   * ended, and stops exactly at the end of the data or at the first field that
   * fails to decode; no error escapes.
   */
  lemma {:induction false} WalkIsConsecutive(data: seq<byte>, offset: nat)
    ensures var fs := Walk(data, offset);
      && (forall i :: 0 <= i < |fs| ==> ParseField(data, StartOf(fs, offset, i)) == Ok(fs[i]))
      && (forall i :: 0 <= i < |fs| ==> StartOf(fs, offset, i) < |data|)
      && var stop := StartOf(fs, offset, |fs|);
         stop >= |data| || ParseField(data, stop).Err?
    decreases |data| - offset
  {
    var fs := Walk(data, offset);
    if offset < |data| && ParseField(data, offset).Ok? {
      var f := ParseField(data, offset).value;
      WalkIsConsecutive(data, f.next);
      var rest := Walk(data, f.next);
      assert fs == [f] + rest;
      forall i | 0 < i <= |fs| ensures StartOf(fs, offset, i) == StartOf(rest, f.next, i - 1) { }
    }
  }

  /**
   * Last value wins: a number is in the dictionary iff some decoded field has
   * it, and its entry is the value of the last such field.
   */
  lemma {:induction false} FieldMapLastWins(fs: seq<ProtoField>, k: nat)
    ensures k in FieldMap(fs) <==> exists i :: 0 <= i < |fs| && fs[i].number == k
    ensures forall i :: (0 <= i < |fs| && fs[i].number == k &&
      (forall j :: i < j < |fs| ==> fs[j].number != k)) ==> k in FieldMap(fs) && FieldMap(fs)[k] == fs[i].value
  {
    if fs != [] {
      var init := fs[..|fs| - 1];
      FieldMapLastWins(init, k);
      assert forall i :: 0 <= i < |init| ==> init[i] == fs[i];
      if k in FieldMap(fs) && fs[|fs| - 1].number != k {
        var i :| 0 <= i < |init| && init[i].number == k;
        assert fs[i].number == k;
      }
    }
  }

  /**
   * `_parse_message_fields`: walk the fields until the end or the first field
   * that fails, keeping the last value of each field number.
   */
  method ParseMessageFields(data: seq<byte>) returns (fields: map<nat, FieldValue>)
    ensures fields == MessageFields(data)
  {
    fields := map[];
    var offset := 0;
    ghost var done: seq<ProtoField> := [];
    while offset < |data|
      invariant done + Walk(data, offset) == Walk(data, 0)
      invariant fields == FieldMap(done)
      decreases |data| - offset
    {
      var r := ParseField(data, offset);
      WalkStep(data, offset);
      if r.Err? {
        assert done + [] == done;
        return;
      }
      var f := r.value;
      assert (done + [f]) + Walk(data, f.next) == done + ([f] + Walk(data, f.next));
      FieldMapSnoc(done, f);
      fields := fields[f.number := f.value];
      done := done + [f];
      offset := f.next;
    }
    WalkStep(data, offset);
    assert done + [] == done;
  }

  /** One step of the walk: nothing at the end or after a failure, else the field and the rest. */
  lemma WalkStep(data: seq<byte>, offset: nat)
    ensures offset >= |data| || ParseField(data, offset).Err? ==> Walk(data, offset) == []
    ensures offset < |data| && ParseField(data, offset).Ok? ==>
      Walk(data, offset) == [ParseField(data, offset).value] + Walk(data, ParseField(data, offset).value.next)
  {
  }

  /** The walk from where a chain of fields ends is what follows the chain. */
  lemma WalkOverFieldsTo(data: seq<byte>, offset: nat, fs: seq<ProtoField>, end: nat)
    requires FieldsAt(data, offset, fs) && EndOf(fs, offset) == end
    ensures Walk(data, offset) == fs + Walk(data, end)
  {
    WalkOverFields(data, offset, fs);
  }

  /** A walk that reaches the end of the data has read nothing more. */
  lemma WalkToEnd(data: seq<byte>, fs: seq<ProtoField>)
    requires Walk(data, 0) == fs + Walk(data, |data|)
    ensures Walk(data, 0) == fs
  {
    WalkStep(data, |data|);
    assert fs + [] == fs;
  }

  /** `fs` are the fields ParseField reads one after another from `offset`. */
  predicate FieldsAt(data: seq<byte>, offset: nat, fs: seq<ProtoField>)
    decreases |fs|
  {
    fs == [] || (ParseField(data, offset) == Ok(fs[0]) && FieldsAt(data, fs[0].next, fs[1..]))
  }

  /** Where a chain of fields read from `offset` ends. */
  function EndOf(fs: seq<ProtoField>, offset: nat): nat
  {
    if fs == [] then offset else fs[|fs| - 1].next
  }

  /** A chain of fields that read one after another is a prefix of the walk. */
  lemma {:induction false} WalkOverFields(data: seq<byte>, offset: nat, fs: seq<ProtoField>)
    requires FieldsAt(data, offset, fs)
    ensures Walk(data, offset) == fs + Walk(data, EndOf(fs, offset))
    decreases |fs|
  {
    if fs != [] {
      WalkOverFields(data, fs[0].next, fs[1..]);
      WalkCons(data, offset, fs[0]);
      assert EndOf(fs[1..], fs[0].next) == EndOf(fs, offset);
      assert fs == [fs[0]] + fs[1..];
    }
  }

  lemma WalkCons(data: seq<byte>, offset: nat, f: ProtoField)
    requires ParseField(data, offset) == Ok(f)
    ensures Walk(data, offset) == [f] + Walk(data, f.next)
  {
    WalkStep(data, offset);
  }

  lemma FieldMapSingle(fs: seq<ProtoField>)
    requires |fs| == 1
    ensures FieldMap(fs) == map[fs[0].number := fs[0].value]
  {
    FieldMapSnoc([], fs[0]);
    assert [] + [fs[0]] == fs;
  }

  lemma FieldMapPair(fs: seq<ProtoField>)
    requires |fs| == 2
    ensures FieldMap(fs) == map[fs[0].number := fs[0].value][fs[1].number := fs[1].value]
  {
    FieldMapSnoc([], fs[0]);
    FieldMapSnoc([fs[0]], fs[1]);
    assert [] + [fs[0]] == [fs[0]] && [fs[0]] + [fs[1]] == fs;
  }

  lemma FieldMapTriple(fs: seq<ProtoField>)
    requires |fs| == 3
    ensures FieldMap(fs) ==
      map[fs[0].number := fs[0].value][fs[1].number := fs[1].value][fs[2].number := fs[2].value]
  {
    FieldMapPair(fs[..2]);
    FieldMapSnoc(fs[..2], fs[2]);
    assert fs[..2] + [fs[2]] == fs;
  }

  lemma FieldMapSnoc(fs: seq<ProtoField>, f: ProtoField)
    ensures FieldMap(fs + [f]) == FieldMap(fs)[f.number := f.value]
  {
    assert (fs + [f])[..|fs + [f]| - 1] == fs;
  }

  // ---------------------------------------------------------------- body-controller state

  /** Why a body-controller-state response could not be parsed. */
  datatype ParseError =
    | EmptyResponse          // `len(response_bytes) == 0`
    | MissingPayloadField    // outer field 10 absent
    | MissingVehicleStatus   // inner message has neither field 1 nor field 3
    | NotAMessage            // a varint where a nested message is parsed (`len(int)` raises TypeError)

  /** `TABLE.get(value, "UNKNOWN")`: a length-delimited value is never a key. */
  function Lookup(table: map<nat, StateName>, v: FieldValue): StateName
  {
    if v.VarintField? && v.n in table then table[v.n] else Unknown
  }

  /** Which reading closure field k of the direct shape sets (5 is the rear trunk, 6 the front trunk). */
  function ClosureField(k: nat): Field
    requires 1 <= k <= 8
  {
    match k
    case 1 => FrontDriverDoor
    case 2 => FrontPassengerDoor
    case 3 => RearDriverDoor
    case 4 => RearPassengerDoor
    case 5 => RearTrunk
    case 6 => FrontTrunk
    case 7 => ChargePort
    case 8 => Tonneau
  }

  /** The closure reading for closure field k: CLOSED unless the field is present. */
  function ClosureReading(closures: map<nat, FieldValue>, k: nat): Reading
  {
    if k in closures then Some(Lookup(ClosureStateNames, closures[k])) else Some(Closed)
  }

  /** The undocumented field 7: 0 = LOCKED, 1 = UNLOCKED, anything else UNKNOWN. */
  function InvertedLock(v: nat): StateName
  {
    if v == 0 then Locked else if v == 1 then Unlocked else Unknown
  }

  /** Lock state of the direct shape: a varint field 2, else (field 2 absent) a varint field 7. */
  function DirectLock(status: map<nat, FieldValue>): Reading
  {
    if 2 in status then
      (if status[2].VarintField? then Some(Lookup(LockStateNames, status[2])) else None)
    else if 7 in status then
      (if status[7].VarintField? then Some(InvertedLock(status[7].n)) else None)
    else None
  }

  /** A varint field read through a table; any other wire type leaves the reading unset. */
  function VarintReading(status: map<nat, FieldValue>, k: nat, table: map<nat, StateName>): Reading
  {
    if k in status && status[k].VarintField? then Some(Lookup(table, status[k])) else None
  }

  /** The direct (field-1) shape: closures default to CLOSED and are overridden by the closure message. */
  function DirectShape(status: map<nat, FieldValue>): Result<Status, ParseError>
  {
    if 1 in status && status[1].VarintField? then Err(NotAMessage)
    else Ok(DirectStatus(status, if 1 in status then MessageFields(status[1].data) else map[]))
  }

  /** The readings of the direct shape, given the decoded closure message. */
  function DirectStatus(status: map<nat, FieldValue>, closures: map<nat, FieldValue>): Status
  {
    Status(
      ClosureReading(closures, 1), ClosureReading(closures, 2),
      ClosureReading(closures, 3), ClosureReading(closures, 4),
      ClosureReading(closures, 6), ClosureReading(closures, 5),
      ClosureReading(closures, 7), ClosureReading(closures, 8),
      DirectLock(status),
      VarintReading(status, 3, SleepStatusNames),
      VarintReading(status, 4, UserPresenceNames))
  }

  /** Lock state of the blob shape: a varint field 2, or field 3 of a nested field 2. */
  function BlobLock(status: map<nat, FieldValue>): Reading
  {
    if 2 in status then
      match status[2]
      case VarintField(_) => Some(Lookup(LockStateNames, status[2]))
      case BytesField(nested) =>
        var inner := MessageFields(nested);
        VarintReading(inner, 3, LockStateNames)
    else None
  }

  /** User presence of the blob shape: a varint field 4, or a one-byte length-delimited field 4. */
  function BlobPresence(status: map<nat, FieldValue>): Reading
  {
    if 4 in status then
      match status[4]
      case VarintField(_) => Some(Lookup(UserPresenceNames, status[4]))
      case BytesField(d) =>
        if |d| == 1 then Some(Lookup(UserPresenceNames, VarintField(d[0]))) else None
    else None
  }

  /** The blob (field-3) shape: closures stay unreported. */
  function BlobShape(status: map<nat, FieldValue>): Status
  {
    Status(None, None, None, None, None, None, None, None,
           BlobLock(status), VarintReading(status, 3, SleepStatusNames), BlobPresence(status))
  }

  /** `parse_body_controller_state` as a value. */
  function BodyControllerStatus(response: seq<byte>): Result<Status, ParseError>
  {
    if |response| == 0 then Err(EmptyResponse)
    else
      var outer := MessageFields(response);
      if 10 !in outer then Err(MissingPayloadField)
      else if outer[10].VarintField? then Err(NotAMessage)
      else
        var inner := MessageFields(outer[10].data);
        if 1 in inner then
          (if inner[1].VarintField? then Err(NotAMessage) else DirectShape(MessageFields(inner[1].data)))
        else if 3 in inner then
          (if inner[3].VarintField? then Err(NotAMessage) else Ok(BlobShape(MessageFields(inner[3].data))))
        else Err(MissingVehicleStatus)
  }

  /**
   * `parse_body_controller_state`: decode the outer message, its field 10,
   * the vehicle status under inner field 1 (preferred) or 3, and fill a fresh
   * VehicleState field by field.
   */
  method ParseBodyControllerState(response: seq<byte>) returns (r: Result<VehicleState, ParseError>)
    ensures r.Err? ==> BodyControllerStatus(response) == Err(r.error)
    ensures r.Ok? ==> fresh(r.value) && BodyControllerStatus(response) == Ok(r.value.Snapshot())
  {
    if |response| == 0 {
      return Err(EmptyResponse);
    }
    var outer := ParseMessageFields(response);
    if 10 !in outer {
      return Err(MissingPayloadField);
    }
    if outer[10].VarintField? {
      return Err(NotAMessage);
    }
    var inner := ParseMessageFields(outer[10].data);
    var statusBytes: seq<byte>;
    var useDirectShape: bool;
    if 1 in inner {
      if inner[1].VarintField? {
        return Err(NotAMessage);
      }
      statusBytes, useDirectShape := inner[1].data, true;
    } else if 3 in inner {
      if inner[3].VarintField? {
        return Err(NotAMessage);
      }
      statusBytes, useDirectShape := inner[3].data, false;
    } else {
      return Err(MissingVehicleStatus);
    }
    var status := ParseMessageFields(statusBytes);
    var state := new VehicleState();
    if useDirectShape {
      var ok := FillDirectShape(state, status);
      if !ok {
        return Err(NotAMessage);
      }
    } else {
      FillBlobShape(state, status);
    }
    return Ok(state);
  }

  /**
   * The closure readings of the direct shape, in closure-field order 1..8:
   * each starts CLOSED and a present closure field replaces it.
   */
  method ReadClosures(closures: map<nat, FieldValue>)
    returns (fdd: Reading, fpd: Reading, rdd: Reading, rpd: Reading, rt: Reading, ft: Reading, cp: Reading, tn: Reading)
    ensures fdd == ClosureReading(closures, 1) && fpd == ClosureReading(closures, 2)
    ensures rdd == ClosureReading(closures, 3) && rpd == ClosureReading(closures, 4)
    ensures rt == ClosureReading(closures, 5) && ft == ClosureReading(closures, 6)
    ensures cp == ClosureReading(closures, 7) && tn == ClosureReading(closures, 8)
  {
    fdd, fpd, rdd, rpd := Some(Closed), Some(Closed), Some(Closed), Some(Closed);
    rt, ft, cp, tn := Some(Closed), Some(Closed), Some(Closed), Some(Closed);
    if 1 in closures { fdd := Some(Lookup(ClosureStateNames, closures[1])); }
    if 2 in closures { fpd := Some(Lookup(ClosureStateNames, closures[2])); }
    if 3 in closures { rdd := Some(Lookup(ClosureStateNames, closures[3])); }
    if 4 in closures { rpd := Some(Lookup(ClosureStateNames, closures[4])); }
    if 5 in closures { rt := Some(Lookup(ClosureStateNames, closures[5])); }
    if 6 in closures { ft := Some(Lookup(ClosureStateNames, closures[6])); }
    if 7 in closures { cp := Some(Lookup(ClosureStateNames, closures[7])); }
    if 8 in closures { tn := Some(Lookup(ClosureStateNames, closures[8])); }
  }

  /** The lock state of the direct shape: field 2 when present, else the inverted field 7. */
  method ReadDirectLock(status: map<nat, FieldValue>) returns (lock: Reading)
    ensures lock == DirectLock(status)
  {
    lock := None;
    if 2 in status {
      if status[2].VarintField? {
        lock := Some(Lookup(LockStateNames, status[2]));
      }
    } else if 7 in status {
      if status[7].VarintField? {
        var lockValue := status[7].n;
        if lockValue == 0 {
          lock := Some(Locked);
        } else if lockValue == 1 {
          lock := Some(Unlocked);
        } else {
          lock := Some(Unknown);
        }
      }
    }
  }

  /** The direct (field-1) shape applied to a fresh state; false when the closure field is a varint. */
  method FillDirectShape(state: VehicleState, status: map<nat, FieldValue>) returns (ok: bool)
    requires state.Snapshot() == Unreported
    modifies state
    ensures ok ==> DirectShape(status) == Ok(state.Snapshot())
    ensures !ok ==> DirectShape(status) == Err(NotAMessage)
  {
    var s;
    ok, s := ReadDirectShape(status);
    if !ok {
      return;
    }
    state.frontDriverDoor, state.frontPassengerDoor := s.frontDriverDoor, s.frontPassengerDoor;
    state.rearDriverDoor, state.rearPassengerDoor := s.rearDriverDoor, s.rearPassengerDoor;
    state.frontTrunk, state.rearTrunk, state.chargePort, state.tonneau := s.frontTrunk, s.rearTrunk, s.chargePort, s.tonneau;
    state.lockState, state.sleepStatus, state.userPresence := s.lockState, s.sleepStatus, s.userPresence;
  }

  /** The readings of the direct shape, before they are stored; false when the closure field is a varint. */
  method ReadDirectShape(status: map<nat, FieldValue>) returns (ok: bool, s: Status)
    ensures ok ==> DirectShape(status) == Ok(s)
    ensures !ok ==> DirectShape(status) == Err(NotAMessage)
  {
    var closures: map<nat, FieldValue> := map[];
    if 1 in status {
      if status[1].VarintField? {
        return false, Unreported;
      }
      closures := ParseMessageFields(status[1].data);
    }
    // with no closure message every closure keeps its CLOSED default
    var fdd, fpd, rdd, rpd, rt, ft, cp, tn := ReadClosures(closures);
    var lock := ReadDirectLock(status);
    var sleep: Reading := None;
    if 3 in status && status[3].VarintField? {
      sleep := Some(Lookup(SleepStatusNames, status[3]));
    }
    var presence: Reading := None;
    if 4 in status && status[4].VarintField? {
      presence := Some(Lookup(UserPresenceNames, status[4]));
    }
    DirectShapeReadings(status, closures, fdd, fpd, rdd, rpd, rt, ft, cp, tn, lock, sleep, presence);
    return true, Status(fdd, fpd, rdd, rpd, ft, rt, cp, tn, lock, sleep, presence);
  }

  /** The direct shape is the status assembled from its separate readings. */
  lemma DirectShapeReadings(status: map<nat, FieldValue>, closures: map<nat, FieldValue>,
      fdd: Reading, fpd: Reading, rdd: Reading, rpd: Reading, rt: Reading, ft: Reading, cp: Reading, tn: Reading,
      lock: Reading, sleep: Reading, presence: Reading)
    requires !(1 in status && status[1].VarintField?)
    requires closures == if 1 in status then MessageFields(status[1].data) else map[]
    requires fdd == ClosureReading(closures, 1) && fpd == ClosureReading(closures, 2)
    requires rdd == ClosureReading(closures, 3) && rpd == ClosureReading(closures, 4)
    requires rt == ClosureReading(closures, 5) && ft == ClosureReading(closures, 6)
    requires cp == ClosureReading(closures, 7) && tn == ClosureReading(closures, 8)
    requires lock == DirectLock(status)
    requires sleep == VarintReading(status, 3, SleepStatusNames)
    requires presence == VarintReading(status, 4, UserPresenceNames)
    ensures DirectShape(status) == Ok(Status(fdd, fpd, rdd, rpd, ft, rt, cp, tn, lock, sleep, presence))
  {
  }

  /** The blob (field-3) shape applied to a fresh state. */
  method FillBlobShape(state: VehicleState, status: map<nat, FieldValue>)
    requires state.Snapshot() == Unreported
    modifies state
    ensures state.Snapshot() == BlobShape(status)
  {
    if 2 in status {
      match status[2]
      case VarintField(_) =>
        state.lockState := Some(Lookup(LockStateNames, status[2]));
      case BytesField(nestedBytes) =>
        // nested field 1 is the undecodable closure blob and is not interpreted
        var nested := ParseMessageFields(nestedBytes);
        if 3 in nested && nested[3].VarintField? {
          state.lockState := Some(Lookup(LockStateNames, nested[3]));
        }
    }
    if 3 in status && status[3].VarintField? {
      state.sleepStatus := Some(Lookup(SleepStatusNames, status[3]));
    }
    if 4 in status {
      match status[4]
      case VarintField(_) =>
        state.userPresence := Some(Lookup(UserPresenceNames, status[4]));
      case BytesField(d) =>
        if |d| == 1 {
          state.userPresence := Some(Lookup(UserPresenceNames, VarintField(d[0])));
        }
    }
  }

  // ---------------------------------------------------------------- properties of the parse

  /**
   * The closure table is inverted with respect to the public enum: a closure
   * reads OPEN exactly when its field holds 1, and CLOSED exactly when the
   * field is absent (protobuf omits the default) or holds 2.
   */
  lemma ClosureTableInverted(closures: map<nat, FieldValue>, k: nat)
    ensures ClosureReading(closures, k) == Some(Open) <==> k in closures && closures[k] == VarintField(1)
    ensures ClosureReading(closures, k) == Some(Closed) <==> k !in closures || closures[k] == VarintField(2)
  {
    if k in closures && closures[k].VarintField? && closures[k].n in ClosureStateNames {
      var n := closures[k].n;
      assert n == 0 || n == 1 || n == 2 || n == 3 || n == 4 || n == 5 || n == 6;
    }
  }

  /**
   * The direct shape's lock reads LOCKED exactly when field 2 is the varint 1,
   * or field 2 is absent and the undocumented field 7 is the varint 0; field 7
   * is never consulted when field 2 is present.
   */
  lemma DirectLockFallback(status: map<nat, FieldValue>)
    ensures DirectLock(status) == Some(Locked) <==>
      (2 in status && status[2] == VarintField(1)) || (2 !in status && 7 in status && status[7] == VarintField(0))
    ensures 2 in status ==> DirectLock(status) == DirectLock(status - {7})
  {
    if 2 in status && status[2].VarintField? && status[2].n in LockStateNames {
      var n := status[2].n;
      assert n == 0 || n == 1 || n == 2 || n == 3;
    }
    if 2 in status {
      assert (status - {7})[2] == status[2];
    }
  }

  /**
   * The blob shape's presence reads PRESENT exactly when field 4 is the
   * varint 2 or a single byte 2.
   */
  lemma BlobPresenceOneByte(status: map<nat, FieldValue>)
    ensures BlobPresence(status) == Some(Present) <==>
      4 in status && (status[4] == VarintField(2) || status[4] == BytesField([2]))
  {
    if 4 in status {
      match status[4]
      case VarintField(n) =>
        if n in UserPresenceNames { assert n == 0 || n == 1 || n == 2; }
      case BytesField(d) =>
        if |d| == 1 && d[0] in UserPresenceNames {
          assert d[0] == 0 || d[0] == 1 || d[0] == 2;
          assert d[0] == 2 ==> d == [2];
        }
    }
  }

  /**
   * Each error of the parse happens exactly in its own case: an empty
   * response, an outer message without field 10, and an inner message with
   * neither field 1 nor field 3. No other input yields these errors.
   */
  lemma ParseErrorCases(response: seq<byte>)
    ensures BodyControllerStatus(response) == Err(EmptyResponse) <==> |response| == 0
    ensures BodyControllerStatus(response) == Err(MissingPayloadField) <==>
      |response| > 0 && 10 !in MessageFields(response)
    ensures BodyControllerStatus(response) == Err(MissingVehicleStatus) <==>
      && |response| > 0 && 10 in MessageFields(response) && MessageFields(response)[10].BytesField?
      && var inner := MessageFields(MessageFields(response)[10].data);
         1 !in inner && 3 !in inner
  {
  }

  /**
   * The shape a successful parse took is visible in the result: the direct
   * shape reports every closure (so the door queries are decided), the blob
   * shape reports none.
   */
  lemma ShapeIsVisible(response: seq<byte>)
    requires BodyControllerStatus(response).Ok?
    ensures var s := BodyControllerStatus(response).value;
      var inner := MessageFields(MessageFields(response)[10].data);
      && (1 in inner ==> s.AllDoorsClosed().Some? && forall k :: 1 <= k <= 8 ==> s.Get(ClosureField(k)).Some?)
      && (1 !in inner ==> forall k :: 1 <= k <= 8 ==> s.Get(ClosureField(k)).None?)
  {
    var outer := MessageFields(response);
    var inner := MessageFields(outer[10].data);
    if 1 in inner {
      DirectShapeReportsClosures(MessageFields(inner[1].data));
    }
  }

  /** A successful direct shape reports all eight closures, so the door queries are decided. */
  lemma DirectShapeReportsClosures(status: map<nat, FieldValue>)
    requires DirectShape(status).Ok?
    ensures var s := DirectShape(status).value;
      s.AllDoorsClosed().Some? && forall k :: 1 <= k <= 8 ==> s.Get(ClosureField(k)).Some?
  {
    var s := DirectShape(status).value;
    assert s.Doors() == [s.frontDriverDoor, s.frontPassengerDoor, s.rearDriverDoor, s.rearPassengerDoor];
    assert forall d :: d in s.Doors() ==> d.Some?;
  }

  /**
   * A direct-shape response with lock 1 and sleep 2 and no closure message:
   * outer field 10 holds inner field 1, which holds `10 01 18 02`.
   */
  lemma DecodeLockedAsleep(response: seq<byte>)
    requires response == [0x52, 0x06, 0x0a, 0x04, 0x10, 0x01, 0x18, 0x02]
    ensures BodyControllerStatus(response) ==
      Ok(Status(Some(Closed), Some(Closed), Some(Closed), Some(Closed), Some(Closed), Some(Closed),
                Some(Closed), Some(Closed), Some(Locked), Some(Asleep), None))
  {
    var status: seq<byte> := [0x10, 0x01, 0x18, 0x02];
    var inner: seq<byte> := [0x0a, 0x04] + status;
    StatusExampleFields();
    SingleFieldMessage(inner, 0x0a, 1, status);
    SingleFieldMessage(response, 0x52, 10, inner);
    DirectPath(response, inner, status);
    LockedAsleepShape();
  }

  /** A response whose payload holds only a field-1 status decodes through the direct shape. */
  lemma DirectPath(response: seq<byte>, inner: seq<byte>, status: seq<byte>)
    requires MessageFields(response) == map[10 := BytesField(inner)]
    requires MessageFields(inner) == map[1 := BytesField(status)]
    requires |response| > 0
    ensures BodyControllerStatus(response) == DirectShape(MessageFields(status))
  {
  }

  /** Lock 1 and sleep 2 with no closure message: every closure CLOSED, LOCKED and ASLEEP. */
  lemma LockedAsleepShape()
    ensures DirectShape(map[2 := VarintField(1), 3 := VarintField(2)]) ==
      Ok(Status(Some(Closed), Some(Closed), Some(Closed), Some(Closed), Some(Closed), Some(Closed),
                Some(Closed), Some(Closed), Some(Locked), Some(Asleep), None))
  {
    var status := map[2 := VarintField(1), 3 := VarintField(2)];
    assert DirectLock(status) == Some(Locked);
    assert VarintReading(status, 3, SleepStatusNames) == Some(Asleep);
  }

  lemma StatusExampleFields()
    ensures MessageFields([0x10, 0x01, 0x18, 0x02]) == map[2 := VarintField(1), 3 := VarintField(2)]
  {
    var status: seq<byte> := [0x10, 0x01, 0x18, 0x02];
    FieldAt(status, 0, 0x10, 2, VarintField(1), 2);
    FieldAt(status, 2, 0x18, 3, VarintField(2), 4);
    assert Walk(status, 4) == [];
    var fs := [ProtoField(2, VarintField(1), 2), ProtoField(3, VarintField(2), 4)];
    assert Walk(status, 0) == fs;
    FieldMapSnoc([], fs[0]);
    FieldMapSnoc([fs[0]], fs[1]);
    assert [] + [fs[0]] == [fs[0]] && [fs[0]] + [fs[1]] == fs;
  }

  /** A message that is one length-delimited field with one-byte tag and length. */
  lemma SingleFieldMessage(data: seq<byte>, tag: byte, number: nat, payload: seq<byte>)
    requires tag < 0x80 && tag % 8 == 2 && number == tag / 8 && |payload| < 0x80
    requires data == [tag, |payload|] + payload
    ensures MessageFields(data) == map[number := BytesField(payload)]
  {
    assert data[2..2 + |payload|] == payload;
    FieldAt(data, 0, tag, number, BytesField(payload), |data|);
    assert Walk(data, |data|) == [];
    FieldMapSnoc([], ProtoField(number, BytesField(payload), |data|));
    assert [] + [ProtoField(number, BytesField(payload), |data|)] == Walk(data, 0);
  }

  /** The single field with a one-byte tag and a one-byte varint or length at `offset`. */
  lemma FieldAt(data: seq<byte>, offset: nat, tag: byte, number: nat, value: FieldValue, next: nat)
    requires offset + 2 <= |data| && data[offset] == tag && tag < 0x80 && data[offset + 1] < 0x80
    requires number == tag / 8
    requires tag % 8 == 0 ==> value == VarintField(data[offset + 1]) && next == offset + 2
    requires tag % 8 == 2 ==> next == offset + 2 + data[offset + 1] <= |data| && value == BytesField(data[offset + 2..next])
    requires tag % 8 == 0 || tag % 8 == 2
    ensures Walk(data, offset) == [ProtoField(number, value, next)] + Walk(data, next)
  {
    assert VarintAt(data, offset) == Ok((tag as nat, offset + 1));
    assert VarintAt(data, offset + 1) == Ok((data[offset + 1] as nat, offset + 2));
    if tag % 8 == 0 {
      ParseFieldVarint(data, offset, tag, offset + 1, data[offset + 1], offset + 2);
    } else {
      ParseFieldBytes(data, offset, tag, offset + 1, data[offset + 1], offset + 2);
    }
    WalkCons(data, offset, ProtoField(number, value, next));
  }
}
