/**
 * Diagnostic helpers for protocol analysis: a varint reader capped at eleven
 * bytes, a heuristic for "looks like a protobuf message", the field walk of
 * the structure display, the byte-by-byte message comparison and the hex
 * dump. Their output is text; the model keeps the structure of that text
 * (entries, lines, counts) and leaves out the formatting.
 */
module Diagnostics {
  import opened Wrappers
  import opened Bytes
  import opened Parser
  import opened MessageSigning

  // ---------------------------------------------------------------- capped varint

  /** The most bytes `_read_varint` takes before it gives up on a varint. */
  const MaxVarintBytes: nat := 11

  /** How many bytes the reader takes from `offset`, having taken `read` already. */
  function CappedCount(data: seq<byte>, offset: nat, read: nat): (n: nat)
    requires read <= 10
    ensures read <= n <= MaxVarintBytes
    ensures offset + read <= |data| ==> offset + n <= |data|
    ensures offset + read < |data| ==> read < n
    ensures offset + read >= |data| ==> n == read
    decreases |data| - (offset + read)
  {
    if offset + read >= |data| then read
    else if data[offset + read] < 0x80 || read + 1 > 10 then read + 1
    else CappedCount(data, offset, read + 1)
  }

  /**
   * `_read_varint` as a value: the seven-bit little-endian reading of the
   * bytes taken, and how many were taken. It never fails.
   */
  function CappedVarint(data: seq<byte>, offset: nat): (r: (nat, nat))
    ensures r.1 <= MaxVarintBytes
    ensures r.1 == 0 <==> offset >= |data|
    ensures r.1 > 0 ==> offset + r.1 <= |data|
  {
    var n := CappedCount(data, offset, 0);
    if n == 0 then (0, 0) else (Le7(data[offset..offset + n]), n)
  }

  /**
   * The reader takes continuation bytes up to the first byte without the
   * continuation bit, the end of the data or the eleventh byte, whichever
   * comes first.
   */
  lemma {:induction false} CappedCountShape(data: seq<byte>, offset: nat, read: nat)
    requires read <= 10 && offset + read <= |data|
    requires forall k :: offset <= k < offset + read ==> data[k] >= 0x80
    ensures var n := CappedCount(data, offset, read);
      && (forall k :: offset <= k < offset + n - 1 ==> data[k] >= 0x80)
      && (n < MaxVarintBytes && offset + n < |data| ==> n > 0 && data[offset + n - 1] < 0x80)
    decreases |data| - (offset + read)
  {
    if offset + read < |data| && data[offset + read] >= 0x80 && read + 1 <= 10 {
      CappedCountShape(data, offset, read + 1);
    }
  }

  /** A varint decoded by the parser reads the same from its bytes, terminator included. */
  lemma {:induction false} VarintFromShape(data: seq<byte>, pos: nat)
    requires VarintFrom(data, pos).Some?
    ensures var (v, e) := VarintFrom(data, pos).value;
      && (forall k :: pos <= k < e - 1 ==> data[k] >= 0x80)
      && data[e - 1] < 0x80 && v == Le7(data[pos..e])
    decreases |data| - pos
  {
    if data[pos] >= 0x80 {
      VarintFromShape(data, pos + 1);
      var e := VarintFrom(data, pos + 1).value.1;
      assert data[pos..e][1..] == data[pos + 1..e];
    } else {
      assert data[pos..pos + 1][1..] == [];
    }
  }

  lemma {:induction false} CappedCountAt(data: seq<byte>, offset: nat, read: nat, e: nat)
    requires read <= 10 && offset + read < e <= |data| && e - offset <= MaxVarintBytes
    requires forall k :: offset <= k < e - 1 ==> data[k] >= 0x80
    requires data[e - 1] < 0x80
    ensures CappedCount(data, offset, read) == e - offset
    decreases e - (offset + read)
  {
    if offset + read + 1 < e {
      CappedCountAt(data, offset, read + 1, e);
    }
  }

  /** Where the parser finds a varint of at most eleven bytes, the capped reader agrees with it. */
  lemma CappedAgrees(data: seq<byte>, offset: nat)
    requires VarintFrom(data, offset).Some? && VarintFrom(data, offset).value.1 - offset <= MaxVarintBytes
    ensures CappedVarint(data, offset) == (VarintFrom(data, offset).value.0, VarintFrom(data, offset).value.1 - offset)
  {
    VarintFromShape(data, offset);
    CappedCountAt(data, offset, 0, VarintFrom(data, offset).value.1);
  }

  /** `_read_varint` as written. */
  method ReadCappedVarint(data: seq<byte>, offset: nat) returns (value: nat, bytesRead: nat)
    ensures (value, bytesRead) == CappedVarint(data, offset)
  {
    value := 0;
    var shift := 0;
    bytesRead := 0;
    while offset + bytesRead < |data|
      invariant bytesRead <= 10
      invariant offset + bytesRead <= |data| || bytesRead == 0
      invariant CappedCount(data, offset, bytesRead) == CappedCount(data, offset, 0)
      invariant value == if bytesRead == 0 then 0 else Le7(data[offset..offset + bytesRead])
      invariant shift == 7 * bytesRead
      decreases |data| - (offset + bytesRead)
    {
      var b := data[offset + bytesRead];
      Le7Snoc(data[offset..offset + bytesRead], b);
      assert data[offset..offset + bytesRead] + [b] == data[offset..offset + bytesRead + 1];
      bytesRead := bytesRead + 1;
      value := value + Low7(b) * Pow2(shift);
      if b < 0x80 {
        return;
      }
      shift := shift + 7;
      if bytesRead > 10 {
        return;
      }
    }
  }

  // ---------------------------------------------------------------- protobuf heuristic

  /**
   * `_looks_like_protobuf`: a first byte that is a tag with a non-zero field
   * number and wire type 0, 1, 2 or 5, and for wire type 2 a second byte no
   * larger than the bytes after it.
   */
  function LooksLikeProtobuf(data: seq<byte>): (r: bool)
    ensures r <==> (|data| > 0 && data[0] / 8 != 0 && data[0] % 8 in {0, 1, 2, 5}
      && (data[0] % 8 == 2 && |data| >= 2 ==> data[1] <= |data| - 2))
  {
    if |data| == 0 then false
    else
      var tag := data[0];
      var wireType, number := tag % 8, tag / 8;
      if number == 0 then false
      else if wireType in {3, 4, 6, 7} then false
      else if wireType == 2 && |data| >= 2 && data[1] > |data| - 2 then false
      else true
  }

  /**
   * Every field the encoder writes with a one-byte tag and a non-zero field
   * number passes the heuristic, whatever follows it: a length-delimited
   * field's first length byte never exceeds the bytes after it.
   */
  lemma EncodedFieldLooksLikeProtobuf(f: (nat, FieldValue), rest: seq<byte>)
    requires 1 <= f.0 < 16
    ensures LooksLikeProtobuf(EncodeField(f) + rest)
  {
    match f.1
    case VarintField(v) => VarintFieldLooksLikeProtobuf(f.0, v, rest);
    case BytesField(d) => BytesFieldLooksLikeProtobuf(f.0, d, rest);
  }

  lemma VarintFieldLooksLikeProtobuf(number: nat, v: nat, rest: seq<byte>)
    requires 1 <= number < 16
    ensures LooksLikeProtobuf(Varint(number * 8) + Varint(v) + rest)
  {
    VarintSmall(number * 8);
  }

  lemma BytesFieldLooksLikeProtobuf(number: nat, d: seq<byte>, rest: seq<byte>)
    requires 1 <= number < 16
    ensures LooksLikeProtobuf(Varint(number * 8 + 2) + Varint(|d|) + d + rest)
  {
    var tag := number * 8 + 2;
    VarintSmall(tag);
    var lv := Varint(|d|);
    var data := Varint(tag) + lv + d + rest;
    assert data == [tag] + (lv + d + rest);
    assert data[1] == lv[0];
    assert |data| - 2 >= |lv| - 1 + |d|;
    FirstLengthByte(|d|);
  }

  /** The first byte of a length's varint is at most the length plus the varint's other bytes. */
  lemma FirstLengthByte(n: nat)
    ensures Varint(n)[0] <= n + |Varint(n)| - 1
  {
  }

  // ---------------------------------------------------------------- structure display

  /** One entry of the structure display: a line, or a nested message with its own entries. */
  datatype Entry =
    | EmptyEntry(indent: nat)
    | VarintEntry(indent: nat, number: nat, value: nat)
    | FixedEntry(indent: nat, number: nat, wireType: nat, bytes: seq<byte>)
    | IncompleteFixed(indent: nat, number: nat, wireType: nat)
    | NoLength(indent: nat, number: nat)
    | IncompleteLength(indent: nat, number: nat, length: nat)
    | Nested(indent: nat, number: nat, length: nat, entries: seq<Entry>)
    | BlobEntry(indent: nat, number: nat, length: nat, bytes: seq<byte>)
    | Unsupported(indent: nat, number: nat, wireType: nat)

  /** `analyze(data, indent)` as a value: the "(empty)" entry, or the field walk from the start. */
  function AnalysisOf(data: seq<byte>, indent: nat): (r: seq<Entry>)
    ensures data == [] <==> r == [EmptyEntry(indent)]
    decreases |data|, |data| + 1, 0
  {
    if data == [] then [EmptyEntry(indent)] else FieldEntries(data, 0, indent)
  }

  /** The walk from `i`: the entries of each pass until a pass ends it or the data runs out. */
  function FieldEntries(data: seq<byte>, i: nat, indent: nat): (r: seq<Entry>)
    ensures r == [] || !r[0].EmptyEntry?
    decreases |data|, |data| - i, 1
  {
    if i >= |data| then []
    else
      var (es, next) := FieldStep(data, i, indent);
      es + if next.Some? then FieldEntries(data, next.value, indent) else []
  }

  /**
   * One pass at `i`: a one-byte tag, then a capped varint, eight or four
   * bytes, or a capped length and that many bytes. An incomplete field or an
   * unsupported wire type gives its own entry and no next position.
   */
  function FieldStep(data: seq<byte>, i: nat, indent: nat): (r: (seq<Entry>, Option<nat>))
    requires i < |data|
    ensures |r.0| == 1 && !r.0[0].EmptyEntry?
    ensures r.1.Some? ==> i < r.1.value <= |data|
    decreases |data|, |data| - i, 0
  {
    var tag := data[i];
    var number, wireType := tag / 8, tag % 8;
    var j := i + 1;
    if wireType == 0 then
      var (value, n) := CappedVarint(data, j);
      ([VarintEntry(indent, number, value)], Some(j + n))
    else if wireType == 1 then
      if j + 8 <= |data| then ([FixedEntry(indent, number, 1, data[j..j + 8])], Some(j + 8))
      else ([IncompleteFixed(indent, number, 1)], None)
    else if wireType == 2 then
      if j >= |data| then ([NoLength(indent, number)], None)
      else
        var (length, n) := CappedVarint(data, j);
        var k := j + n;
        if k + length > |data| then ([IncompleteLength(indent, number, length)], None)
        else
          var field := data[k..k + length];
          ([if LooksLikeProtobuf(field) && length > 0 then Nested(indent, number, length, AnalysisOf(field, indent + 1))
            else BlobEntry(indent, number, length, field)], Some(k + length))
    else if wireType == 5 then
      if j + 4 <= |data| then ([FixedEntry(indent, number, 5, data[j..j + 4])], Some(j + 4))
      else ([IncompleteFixed(indent, number, 5)], None)
    else ([Unsupported(indent, number, wireType)], None)
  }

  /** `ProtobufAnalyzer.analyze` as written: a loop over the fields, recursing into nested messages. */
  method Analyze(data: seq<byte>, indent: nat) returns (entries: seq<Entry>)
    ensures entries == AnalysisOf(data, indent)
    decreases |data|, 1
  {
    if data == [] {
      return [EmptyEntry(indent)];
    }
    entries := [];
    var i := 0;
    while i < |data|
      invariant entries + FieldEntries(data, i, indent) == FieldEntries(data, 0, indent)
      decreases |data| - i
    {
      var es, next := AnalyzeField(data, i, indent);
      assert FieldEntries(data, i, indent) == es + if next.Some? then FieldEntries(data, next.value, indent) else [];
      entries := entries + es;
      if next.None? {
        assert entries == FieldEntries(data, 0, indent);
        return;
      }
      i := next.value;
    }
    assert entries == FieldEntries(data, 0, indent);
  }

  /** One pass of the loop in `analyze`. */
  method AnalyzeField(data: seq<byte>, i: nat, indent: nat) returns (es: seq<Entry>, next: Option<nat>)
    requires i < |data|
    ensures (es, next) == FieldStep(data, i, indent)
    decreases |data|, 0
  {
    var tag := data[i];
    var fieldNumber, wireType := tag / 8, tag % 8;
    var j := i + 1;
    if wireType == 0 {
      var value, bytesRead := ReadCappedVarint(data, j);
      return [VarintEntry(indent, fieldNumber, value)], Some(j + bytesRead);
    } else if wireType == 1 {
      if j + 8 <= |data| {
        return [FixedEntry(indent, fieldNumber, 1, data[j..j + 8])], Some(j + 8);
      }
      return [IncompleteFixed(indent, fieldNumber, 1)], None;
    } else if wireType == 2 {
      if j >= |data| {
        return [NoLength(indent, fieldNumber)], None;
      }
      var length, bytesRead := ReadCappedVarint(data, j);
      var k := j + bytesRead;
      if k + length > |data| {
        return [IncompleteLength(indent, fieldNumber, length)], None;
      }
      var fieldData := data[k..k + length];
      if LooksLikeProtobuf(fieldData) && length > 0 {
        var nested := Analyze(fieldData, indent + 1);
        return [Nested(indent, fieldNumber, length, nested)], Some(k + length);
      }
      return [BlobEntry(indent, fieldNumber, length, fieldData)], Some(k + length);
    } else if wireType == 5 {
      if j + 4 <= |data| {
        return [FixedEntry(indent, fieldNumber, 5, data[j..j + 4])], Some(j + 4);
      }
      return [IncompleteFixed(indent, fieldNumber, 5)], None;
    }
    return [Unsupported(indent, fieldNumber, wireType)], None;
  }

  // ---------------------------------------------------------------- the display of encoded messages

  /** A field the display reads back: a one-byte tag with a non-zero number, a value of at most eleven varint bytes. */
  predicate Displayable(f: (nat, FieldValue))
  {
    1 <= f.0 < 16 &&
    match f.1
    case VarintField(v) => v < Pow2(7 * MaxVarintBytes)
    case BytesField(d) => |d| < Pow2(7 * MaxVarintBytes)
  }

  /** The entry the display gives for one encoded field. */
  function EntryOf(f: (nat, FieldValue), indent: nat): Entry
  {
    match f.1
    case VarintField(v) => VarintEntry(indent, f.0, v)
    case BytesField(d) =>
      if LooksLikeProtobuf(d) && |d| > 0 then Nested(indent, f.0, |d|, AnalysisOf(d, indent + 1))
      else BlobEntry(indent, f.0, |d|, d)
  }

  function EntriesOf(fs: seq<(nat, FieldValue)>, indent: nat): (r: seq<Entry>)
    ensures |r| == |fs| && forall k :: 0 <= k < |fs| ==> r[k] == EntryOf(fs[k], indent)
  {
    if fs == [] then [] else [EntryOf(fs[0], indent)] + EntriesOf(fs[1..], indent)
  }

  lemma {:induction false} CappedCountShift(p: seq<byte>, d: seq<byte>, offset: nat, read: nat)
    requires read <= 10
    ensures CappedCount(p + d, |p| + offset, read) == CappedCount(d, offset, read)
    decreases |d| - (offset + read)
  {
    if offset + read < |d| {
      assert (p + d)[|p| + offset + read] == d[offset + read];
      if d[offset + read] >= 0x80 && read + 1 <= 10 {
        CappedCountShift(p, d, offset, read + 1);
      }
    }
  }

  /** The reader looks only forward, so bytes in front of the offset do not matter. */
  lemma CappedVarintShift(p: seq<byte>, d: seq<byte>, offset: nat)
    ensures CappedVarint(p + d, |p| + offset) == CappedVarint(d, offset)
  {
    CappedCountShift(p, d, offset, 0);
    var n := CappedCount(d, offset, 0);
    if n > 0 {
      assert (p + d)[|p| + offset..|p| + offset + n] == d[offset..offset + n];
    }
  }

  lemma FieldStepShift(p: seq<byte>, d: seq<byte>, i: nat, indent: nat)
    requires i < |d|
    ensures var (es, next) := FieldStep(d, i, indent);
      FieldStep(p + d, |p| + i, indent) == (es, if next.Some? then Some(|p| + next.value) else None)
  {
    assert (p + d)[|p| + i] == d[i];
    var wireType := d[i] % 8;
    if wireType == 0 {
      CappedVarintShift(p, d, i + 1);
    } else if wireType == 1 || wireType == 5 {
      FixedStepShift(p, d, i, indent);
    } else if wireType == 2 {
      LengthStepShift(p, d, i, indent);
    }
  }

  lemma FixedStepShift(p: seq<byte>, d: seq<byte>, i: nat, indent: nat)
    requires i < |d| && (d[i] % 8 == 1 || d[i] % 8 == 5)
    ensures var (es, next) := FieldStep(d, i, indent);
      FieldStep(p + d, |p| + i, indent) == (es, if next.Some? then Some(|p| + next.value) else None)
  {
    assert (p + d)[|p| + i] == d[i];
    var j := i + 1;
    if j + 8 <= |d| {
      assert (p + d)[|p| + j..|p| + j + 8] == d[j..j + 8];
    }
    if j + 4 <= |d| {
      assert (p + d)[|p| + j..|p| + j + 4] == d[j..j + 4];
    }
  }

  lemma LengthStepShift(p: seq<byte>, d: seq<byte>, i: nat, indent: nat)
    requires i < |d| && d[i] % 8 == 2
    ensures var (es, next) := FieldStep(d, i, indent);
      FieldStep(p + d, |p| + i, indent) == (es, if next.Some? then Some(|p| + next.value) else None)
  {
    assert (p + d)[|p| + i] == d[i];
    var j := i + 1;
    CappedVarintShift(p, d, j);
    var (length, n) := CappedVarint(d, j);
    var k := j + n;
    if k + length <= |d| {
      assert (p + d)[|p| + k..|p| + k + length] == d[k..k + length];
    }
  }

  /** The walk over `p + d` from the start of `d` on is the walk over `d`. */
  lemma {:induction false} FieldEntriesShift(p: seq<byte>, d: seq<byte>, i: nat, indent: nat)
    requires i <= |d|
    ensures FieldEntries(p + d, |p| + i, indent) == FieldEntries(d, i, indent)
    decreases |d| - i
  {
    if i < |d| {
      var next := FieldStep(d, i, indent).1;
      if next.Some? {
        FieldEntriesShift(p, d, next.value, indent);
      }
      EntriesShiftPass(p, d, i, indent);
    }
  }

  /** One pass of the shifted walk, given that the rest of it already agrees. */
  lemma EntriesShiftPass(p: seq<byte>, d: seq<byte>, i: nat, indent: nat)
    requires i < |d|
    requires var next := FieldStep(d, i, indent).1;
      next.Some? ==> FieldEntries(p + d, |p| + next.value, indent) == FieldEntries(d, next.value, indent)
    ensures FieldEntries(p + d, |p| + i, indent) == FieldEntries(d, i, indent)
  {
    var (es, next) := FieldStep(d, i, indent);
    FieldStepShift(p, d, i, indent);
    EntriesShiftStep(p + d, |p| + i, d, i, indent, es, if next.Some? then Some(|p| + next.value) else None, next);
  }

  /** Two walks whose passes agree and whose remainders agree are equal. */
  lemma EntriesShiftStep(a: seq<byte>, j: nat, d: seq<byte>, i: nat, indent: nat, es: seq<Entry>, nextA: Option<nat>, next: Option<nat>)
    requires j < |a| && FieldStep(a, j, indent) == (es, nextA)
    requires i < |d| && FieldStep(d, i, indent) == (es, next)
    requires nextA.Some? <==> next.Some?
    requires next.Some? ==> FieldEntries(a, nextA.value, indent) == FieldEntries(d, next.value, indent)
    ensures FieldEntries(a, j, indent) == FieldEntries(d, i, indent)
  {
    EntriesUnfold(a, j, indent, es, nextA);
    EntriesUnfold(d, i, indent, es, next);
  }

  /** One pass of the walk, with the pass's result given. */
  lemma EntriesUnfold(data: seq<byte>, i: nat, indent: nat, es: seq<Entry>, next: Option<nat>)
    requires i < |data| && FieldStep(data, i, indent) == (es, next)
    ensures FieldEntries(data, i, indent) == es + if next.Some? then FieldEntries(data, next.value, indent) else []
  {
  }

  /** The display reads one displayable encoded field as its entry and goes on with what follows. */
  lemma EncodedFieldEntry(f: (nat, FieldValue), rest: seq<byte>, indent: nat)
    requires Displayable(f)
    ensures FieldEntries(EncodeField(f) + rest, 0, indent) == [EntryOf(f, indent)] + FieldEntries(rest, 0, indent)
  {
    match f.1 {
      case VarintField(v) => EncodedVarintStep(f, v, rest, indent);
      case BytesField(d) => EncodedBytesStep(f, d, rest, indent);
    }
    EntriesAfterStep(EncodeField(f), rest, indent, EntryOf(f, indent));
  }

  /** A pass that reads exactly the first `|e|` bytes as one entry is followed by the walk over the rest. */
  lemma EntriesAfterStep(e: seq<byte>, rest: seq<byte>, indent: nat, entry: Entry)
    requires |e| > 0 && FieldStep(e + rest, 0, indent) == ([entry], Some(|e|))
    ensures FieldEntries(e + rest, 0, indent) == [entry] + FieldEntries(rest, 0, indent)
  {
    FieldEntriesShift(e, rest, 0, indent);
  }

  /** Where an encoded value of at most eleven bytes sits, the capped reader reads it. */
  lemma CappedReadsEncoded(data: seq<byte>, p: nat, v: nat)
    requires At(data, p, Varint(v)) && v < Pow2(7 * MaxVarintBytes)
    ensures CappedVarint(data, p) == (v, |Varint(v)|)
  {
    VarintAtEncoded(data, p, v);
    VarintLengthBound(v, MaxVarintBytes);
    CappedAgrees(data, p);
  }

  lemma EncodedVarintStep(f: (nat, FieldValue), v: nat, rest: seq<byte>, indent: nat)
    requires Displayable(f) && f.1 == VarintField(v)
    ensures FieldStep(EncodeField(f) + rest, 0, indent) == ([EntryOf(f, indent)], Some(|EncodeField(f)|))
  {
    var t, x := Varint(f.0 * 8), Varint(v);
    VarintSmall(f.0 * 8);
    var data := t + x + rest;
    AtPrefix(t + x, rest);
    AtSplit(data, 0, t + x, t, x);
    CappedReadsEncoded(data, 1, v);
  }

  lemma EncodedBytesStep(f: (nat, FieldValue), d: seq<byte>, rest: seq<byte>, indent: nat)
    requires Displayable(f) && f.1 == BytesField(d)
    ensures FieldStep(EncodeField(f) + rest, 0, indent) == ([EntryOf(f, indent)], Some(|EncodeField(f)|))
  {
    var t, l := Varint(f.0 * 8 + 2), Varint(|d|);
    VarintSmall(f.0 * 8 + 2);
    var data := t + l + d + rest;
    AtPrefix(t + l + d, rest);
    AtSplit(data, 0, t + l + d, t + l, d);
    AtSplit(data, 0, t + l, t, l);
    CappedReadsEncoded(data, 1, |d|);
    AtSlice(data, 1 + |l|, d);
  }

  /**
   * The structure display of an encoded message lists exactly the encoded
   * fields, in order: each varint with its value, each length-delimited
   * field as a nested message or as its bytes.
   */
  lemma {:induction false} AnalysisOfEncoded(fs: seq<(nat, FieldValue)>, indent: nat)
    requires fs != [] && forall k :: 0 <= k < |fs| ==> Displayable(fs[k])
    ensures AnalysisOf(EncodeFields(fs), indent) == EntriesOf(fs, indent)
  {
    EncodedFieldsEntries(fs, indent);
  }

  lemma {:induction false} EncodedFieldsEntries(fs: seq<(nat, FieldValue)>, indent: nat)
    requires forall k :: 0 <= k < |fs| ==> Displayable(fs[k])
    ensures FieldEntries(EncodeFields(fs), 0, indent) == EntriesOf(fs, indent)
    ensures fs != [] ==> EncodeFields(fs) != []
  {
    if fs != [] {
      EncodedFieldsEntries(fs[1..], indent);
      EncodedFieldEntry(fs[0], EncodeFields(fs[1..]), indent);
      assert |EncodeField(fs[0])| > 0 by {
        match fs[0].1
        case VarintField(v) =>
        case BytesField(d) =>
      }
    }
  }

  // ---------------------------------------------------------------- message comparison

  /** The bytes compared on one line of the comparison. */
  const CompareBytesPerLine: nat := 16

  /** Position `k` differs: the bytes differ, or only one message has a byte there. */
  predicate DiffersAt(m1: seq<byte>, m2: seq<byte>, k: nat)
  {
    k >= |m1| || k >= |m2| || m1[k] != m2[k]
  }

  /** The number of differing positions below `n`. */
  function DiffCount(m1: seq<byte>, m2: seq<byte>, n: nat): nat
  {
    if n == 0 then 0 else DiffCount(m1, m2, n - 1) + if DiffersAt(m1, m2, n - 1) then 1 else 0
  }

  /** The line starting at `offset` shows a difference. */
  predicate LineDiffers(m1: seq<byte>, m2: seq<byte>, offset: nat)
  {
    exists k :: offset <= k < Min(offset + CompareBytesPerLine, Max(|m1|, |m2|)) && DiffersAt(m1, m2, k)
  }

  /** The offsets, from `offset` on in steps of 16, of the lines shown with their difference markers. */
  function DiffLines(m1: seq<byte>, m2: seq<byte>, offset: nat): seq<nat>
    decreases Max(|m1|, |m2|) - offset
  {
    if offset >= Max(|m1|, |m2|) then []
    else (if LineDiffers(m1, m2, offset) then [offset] else []) + DiffLines(m1, m2, offset + CompareBytesPerLine)
  }

  /** What `compare_messages` reports, without the hex rendering of the lines it shows. */
  datatype MessageComparison = MessageComparison(
    length1: nat,
    length2: nat,
    lengthDifference: Option<nat>,
    diffLines: seq<nat>,
    differences: nat)

  function Comparison(m1: seq<byte>, m2: seq<byte>): MessageComparison
  {
    MessageComparison(|m1|, |m2|,
      if |m1| != |m2| then Some(if |m1| > |m2| then |m1| - |m2| else |m2| - |m1|) else None,
      DiffLines(m1, m2, 0), DiffCount(m1, m2, Max(|m1|, |m2|)))
  }

  /** The report says "identical" exactly when the difference count is zero. */
  predicate ReportsIdentical(r: MessageComparison)
  {
    r.differences == 0
  }

  /** `compare_messages` as written: a loop over 16-byte lines, an inner loop over the positions of each. */
  method CompareMessages(m1: seq<byte>, m2: seq<byte>) returns (r: MessageComparison)
    ensures r == Comparison(m1, m2)
  {
    var maxLen := Max(|m1|, |m2|);
    var differences := 0;
    var lines: seq<nat> := [];
    var offset := 0;
    while offset < maxLen
      invariant differences == DiffCount(m1, m2, Min(offset, maxLen))
      invariant lines + DiffLines(m1, m2, offset) == DiffLines(m1, m2, 0)
      decreases maxLen - offset
    {
      var count, hasDiff := CompareLine(m1, m2, offset);
      DiffLinesStep(m1, m2, offset, lines, hasDiff);
      differences := differences + count;
      if hasDiff {
        lines := lines + [offset];
      }
      offset := offset + CompareBytesPerLine;
    }
    DiffLinesEnd(m1, m2, offset, lines);
    var lengthDifference := if |m1| != |m2| then Some(if |m1| > |m2| then |m1| - |m2| else |m2| - |m1|) else None;
    return MessageComparison(|m1|, |m2|, lengthDifference, lines, differences);
  }

  /** One pass of the comparison loop keeps the lines still to be shown in step with the report. */
  lemma DiffLinesStep(m1: seq<byte>, m2: seq<byte>, offset: nat, lines: seq<nat>, hasDiff: bool)
    requires offset < Max(|m1|, |m2|)
    requires lines + DiffLines(m1, m2, offset) == DiffLines(m1, m2, 0)
    requires hasDiff <==> LineDiffers(m1, m2, offset)
    ensures hasDiff ==> (lines + [offset]) + DiffLines(m1, m2, offset + CompareBytesPerLine) == DiffLines(m1, m2, 0)
    ensures !hasDiff ==> lines + DiffLines(m1, m2, offset + CompareBytesPerLine) == DiffLines(m1, m2, 0)
  {
    var rest := DiffLines(m1, m2, offset + CompareBytesPerLine);
    var shown: seq<nat> := if hasDiff then [offset] else [];
    assert DiffLines(m1, m2, offset) == shown + rest;
    ConcatRegroup(lines, shown, rest, DiffLines(m1, m2, 0));
  }

  lemma ConcatRegroup(a: seq<nat>, b: seq<nat>, c: seq<nat>, whole: seq<nat>)
    requires a + (b + c) == whole
    ensures (a + b) + c == whole
    ensures b == [] ==> a + c == whole
  {
    assert a + [] == a;
  }

  lemma DiffLinesEnd(m1: seq<byte>, m2: seq<byte>, offset: nat, lines: seq<nat>)
    requires offset >= Max(|m1|, |m2|)
    ensures lines + DiffLines(m1, m2, offset) == lines
  {
    assert lines + [] == lines;
  }

  /** One line of the comparison: how many of its positions differ, and whether any does. */
  method CompareLine(m1: seq<byte>, m2: seq<byte>, offset: nat) returns (count: nat, hasDiff: bool)
    requires offset < Max(|m1|, |m2|)
    ensures DiffCount(m1, m2, offset) + count == DiffCount(m1, m2, Min(offset + CompareBytesPerLine, Max(|m1|, |m2|)))
    ensures hasDiff <==> LineDiffers(m1, m2, offset)
  {
    var chunk1 := if offset < |m1| then Slice(m1, offset, offset + CompareBytesPerLine) else [];
    var chunk2 := if offset < |m2| then Slice(m2, offset, offset + CompareBytesPerLine) else [];
    var width := Max(|chunk1|, |chunk2|);
    LineChunks(m1, m2, offset, chunk1, chunk2);
    count, hasDiff := 0, false;
    for i := 0 to width
      invariant DiffCount(m1, m2, offset) + count == DiffCount(m1, m2, offset + i)
      invariant hasDiff <==> count > 0
    {
      var b1 := CellAt(chunk1, i);
      var b2 := CellAt(chunk2, i);
      if b1 != b2 {
        hasDiff := true;
        count := count + 1;
      }
    }
    DiffCountRange(m1, m2, offset, Min(offset + CompareBytesPerLine, Max(|m1|, |m2|)));
  }

  /** `chunk[i] if i < len(chunk) else None`. */
  function CellAt(chunk: seq<byte>, i: nat): Option<byte>
  {
    if i < |chunk| then Some(chunk[i]) else None
  }

  /** The two chunks of a line cover its positions, and their cells differ exactly where the messages do. */
  lemma LineChunks(m1: seq<byte>, m2: seq<byte>, offset: nat, chunk1: seq<byte>, chunk2: seq<byte>)
    requires offset < Max(|m1|, |m2|)
    requires chunk1 == if offset < |m1| then Slice(m1, offset, offset + CompareBytesPerLine) else []
    requires chunk2 == if offset < |m2| then Slice(m2, offset, offset + CompareBytesPerLine) else []
    ensures offset + Max(|chunk1|, |chunk2|) == Min(offset + CompareBytesPerLine, Max(|m1|, |m2|))
    ensures forall i :: 0 <= i < Max(|chunk1|, |chunk2|) ==>
      (CellAt(chunk1, i) != CellAt(chunk2, i) <==> DiffersAt(m1, m2, offset + i))
  {
  }

  /** The difference count grows over a range exactly when some position in it differs. */
  lemma {:induction false} DiffCountRange(m1: seq<byte>, m2: seq<byte>, lo: nat, hi: nat)
    requires lo <= hi
    ensures DiffCount(m1, m2, lo) <= DiffCount(m1, m2, hi)
    ensures DiffCount(m1, m2, lo) < DiffCount(m1, m2, hi) <==> exists k :: lo <= k < hi && DiffersAt(m1, m2, k)
    decreases hi - lo
  {
    if lo < hi {
      DiffCountRange(m1, m2, lo, hi - 1);
      if DiffersAt(m1, m2, hi - 1) {
        assert lo <= hi - 1 < hi;
      }
    }
  }

  lemma {:induction false} DiffCountZero(m1: seq<byte>, m2: seq<byte>, n: nat)
    ensures DiffCount(m1, m2, n) == 0 <==> forall k :: 0 <= k < n ==> !DiffersAt(m1, m2, k)
  {
    if n > 0 {
      DiffCountZero(m1, m2, n - 1);
    }
  }

  /** The comparison reports "identical" exactly when the two messages are equal. */
  lemma IdenticalIffEqual(m1: seq<byte>, m2: seq<byte>)
    ensures ReportsIdentical(Comparison(m1, m2)) <==> m1 == m2
  {
    var n := Max(|m1|, |m2|);
    DiffCountZero(m1, m2, n);
    if DiffCount(m1, m2, n) == 0 {
      assert |m1| == |m2|;
      forall k | 0 <= k < |m1| ensures m1[k] == m2[k] {
        assert !DiffersAt(m1, m2, k);
      }
    }
  }

  /** Each shown line holds a difference, and the lines come in ascending order, 16 bytes apart at least. */
  lemma {:induction false} DiffLinesShape(m1: seq<byte>, m2: seq<byte>, offset: nat)
    ensures forall k :: 0 <= k < |DiffLines(m1, m2, offset)| ==>
      offset <= DiffLines(m1, m2, offset)[k] && LineDiffers(m1, m2, DiffLines(m1, m2, offset)[k])
    ensures forall k :: 0 <= k < |DiffLines(m1, m2, offset)| - 1 ==>
      DiffLines(m1, m2, offset)[k] + CompareBytesPerLine <= DiffLines(m1, m2, offset)[k + 1]
    decreases Max(|m1|, |m2|) - offset
  {
    if offset < Max(|m1|, |m2|) {
      DiffLinesShape(m1, m2, offset + CompareBytesPerLine);
    }
  }

  // ---------------------------------------------------------------- hex dump

  /** One dump line: its offset, `bytes_per_line` hex cells (blank past the data), and the ASCII column. */
  datatype DumpLine = DumpLine(offset: nat, cells: seq<Option<byte>>, ascii: seq<char>)

  /** The "(empty)" marker, or the lines. */
  datatype HexDump = EmptyDump | DumpLines(lines: seq<DumpLine>)

  /** `range` with a step of zero raises `ValueError`. */
  datatype DumpError = ZeroStep

  /** The ASCII column shows printable bytes as themselves and every other byte as a dot. */
  function Printable(b: byte): char
  {
    if 32 <= b <= 126 then b as char else '.'
  }

  function AsciiOf(chunk: seq<byte>): (r: seq<char>)
    ensures |r| == |chunk| && forall k :: 0 <= k < |chunk| ==> r[k] == Printable(chunk[k])
  {
    if chunk == [] then [] else AsciiOf(chunk[..|chunk| - 1]) + [Printable(chunk[|chunk| - 1])]
  }

  function CellsOf(chunk: seq<byte>, width: nat): (r: seq<Option<byte>>)
    ensures |r| == width && forall i :: 0 <= i < width ==> r[i] == if i < |chunk| then Some(chunk[i]) else None
  {
    if width == 0 then [] else CellsOf(chunk, width - 1) + [if width - 1 < |chunk| then Some(chunk[width - 1]) else None]
  }

  function LineAt(data: seq<byte>, offset: nat, width: nat): DumpLine
    requires offset <= |data|
  {
    var chunk := data[offset..Min(offset + width, |data|)];
    DumpLine(offset, CellsOf(chunk, width), AsciiOf(chunk))
  }

  function LinesFrom(data: seq<byte>, offset: nat, width: nat): seq<DumpLine>
    requires width > 0
    decreases |data| - offset
  {
    if offset >= |data| then [] else [LineAt(data, offset, width)] + LinesFrom(data, offset + width, width)
  }

  /** `hex_dump(data, bytes_per_line)` as a value. */
  function HexDumpOf(data: seq<byte>, bytesPerLine: int): Result<HexDump, DumpError>
  {
    if data == [] then Ok(EmptyDump)
    else if bytesPerLine == 0 then Err(ZeroStep)
    else if bytesPerLine < 0 then Ok(DumpLines([]))
    else Ok(DumpLines(LinesFrom(data, 0, bytesPerLine)))
  }

  /** `hex_dump` as written: a loop over line offsets, with loops over the cells and the ASCII column. */
  method HexDumpLines(data: seq<byte>, bytesPerLine: int) returns (r: Result<HexDump, DumpError>)
    ensures r == HexDumpOf(data, bytesPerLine)
  {
    if data == [] {
      return Ok(EmptyDump);
    }
    if bytesPerLine == 0 {
      return Err(ZeroStep);
    }
    if bytesPerLine < 0 {
      return Ok(DumpLines([]));
    }
    var width: nat := bytesPerLine;
    var lines: seq<DumpLine> := [];
    var offset := 0;
    while offset < |data|
      invariant lines + LinesFrom(data, offset, width) == LinesFrom(data, 0, width)
      decreases |data| - offset
    {
      var line := DumpLineAt(data, offset, width);
      LinesStep(data, offset, width, lines);
      lines := lines + [line];
      offset := offset + width;
    }
    LinesEnd(data, offset, width, lines);
    return Ok(DumpLines(lines));
  }

  lemma LinesStep(data: seq<byte>, offset: nat, width: nat, lines: seq<DumpLine>)
    requires width > 0 && offset < |data|
    ensures lines + LinesFrom(data, offset, width) ==
      (lines + [LineAt(data, offset, width)]) + LinesFrom(data, offset + width, width)
  {
    assert LinesFrom(data, offset, width) == [LineAt(data, offset, width)] + LinesFrom(data, offset + width, width);
  }

  lemma LinesEnd(data: seq<byte>, offset: nat, width: nat, lines: seq<DumpLine>)
    requires width > 0 && offset >= |data| && lines + LinesFrom(data, offset, width) == LinesFrom(data, 0, width)
    ensures lines == LinesFrom(data, 0, width)
  {
    assert lines + [] == lines;
  }

  /** One pass of the loop in `hex_dump`: the cells of the line, then its ASCII column. */
  method DumpLineAt(data: seq<byte>, offset: nat, width: nat) returns (line: DumpLine)
    requires offset < |data|
    ensures line == LineAt(data, offset, width)
  {
    var chunk := Slice(data, offset, offset + width);
    assert chunk == data[offset..Min(offset + width, |data|)];
    var cells: seq<Option<byte>> := [];
    for i := 0 to width
      invariant cells == CellsOf(chunk, i)
    {
      cells := cells + [if i < |chunk| then Some(chunk[i]) else None];
    }
    var ascii: seq<char> := [];
    for k := 0 to |chunk|
      invariant ascii == AsciiOf(chunk[..k])
    {
      AsciiSnoc(chunk, k);
      ascii := ascii + [if 32 <= chunk[k] <= 126 then chunk[k] as char else '.'];
    }
    assert chunk[..|chunk|] == chunk;
    return DumpLine(offset, cells, ascii);
  }

  lemma AsciiSnoc(chunk: seq<byte>, k: nat)
    requires k < |chunk|
    ensures AsciiOf(chunk[..k + 1]) == AsciiOf(chunk[..k]) + [Printable(chunk[k])]
  {
    assert chunk[..k + 1][..k] == chunk[..k];
  }

  /** The dump from `offset` has ceil((len - offset)/width) lines. */
  lemma {:induction false} LinesFromCount(data: seq<byte>, offset: nat, width: nat)
    requires width > 0 && offset < |data|
    ensures (|LinesFrom(data, offset, width)| - 1) * width < |data| - offset <= |LinesFrom(data, offset, width)| * width
    decreases |data| - offset
  {
    if offset + width < |data| {
      LinesFromCount(data, offset + width, width);
      var n := |LinesFrom(data, offset + width, width)|;
      assert |LinesFrom(data, offset, width)| == n + 1;
      CountStep(n, width, |data| - offset - width);
    }
  }

  /** One more full line of `width` bytes keeps the line count at the ceiling. */
  lemma CountStep(n: int, width: int, rest: int)
    requires (n - 1) * width < rest <= n * width
    ensures (n + 1 - 1) * width < rest + width <= (n + 1) * width
  {
    assert (n + 1) * width == n * width + width;
    assert (n + 1 - 1) * width == (n - 1) * width + width;
  }

  /** The lines from `offset` start at `offset`, `offset + width`, `offset + 2·width`, .... */
  lemma {:induction false} LinesFromOffsets(data: seq<byte>, offset: nat, width: nat)
    requires width > 0
    ensures forall k :: 0 <= k < |LinesFrom(data, offset, width)| ==> LinesFrom(data, offset, width)[k].offset == offset + k * width
    decreases |data| - offset
  {
    if offset < |data| {
      LinesFromOffsets(data, offset + width, width);
      var lines, rest := LinesFrom(data, offset, width), LinesFrom(data, offset + width, width);
      forall k | 0 <= k < |lines| ensures lines[k].offset == offset + k * width {
        if k > 0 {
          assert lines[k] == rest[k - 1];
          assert (k - 1) * width + width == k * width;
        }
      }
    }
  }

  /** A non-empty dump with a positive width: ceil(len/width) lines, the first at offset 0. */
  lemma HexDumpLineCount(data: seq<byte>, width: nat)
    requires data != [] && width > 0
    ensures HexDumpOf(data, width).Ok? && HexDumpOf(data, width).value.DumpLines?
    ensures var lines := HexDumpOf(data, width).value.lines;
      && (|lines| - 1) * width < |data| <= |lines| * width
      && forall k :: 0 <= k < |lines| ==> lines[k].offset == k * width
  {
    LinesFromCount(data, 0, width);
    LinesFromOffsets(data, 0, width);
  }
}
