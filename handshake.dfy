/**
 * The session handshake: the framed SessionInfo request, the routing
 * address, the reassembly of the vehicle's answer from stored packets, and
 * the walker that reads a SessionInfo out of a routable message with
 * one-byte tags and lengths.
 */
module Handshake {
  import opened Wrappers
  import opened Bytes
  import opened Parser
  import opened MessageSigning

  // ---------------------------------------------------------------- the request

  /** The 16 bytes that follow the uuid tag `9a 03 10`. */
  const HandshakeUuid: seq<byte> :=
    [0xae, 0x0d, 0xb8, 0x86, 0x1c, 0x57, 0x68, 0x40, 0xa0, 0xa7, 0x6f, 0x22, 0xc3, 0x8f, 0x24, 0xf8]

  /** The payload of the handshake request, before its length header. */
  function HandshakePayload(publicKey: seq<byte>, routing: seq<byte>): seq<byte>
  {
    [0x32, 0x02, 0x08, 0x02] + ([0x3a, 0x12, 0x12, 0x10] + routing) + ([0x72, 0x43, 0x0a, 0x41] + publicKey)
      + ([0x9a, 0x03, 0x10] + HandshakeUuid)
  }

  /**
   * `create_handshake_message`: a big-endian length of the payload and the
   * payload. `ustruct` packs the length modulo 2^16 without complaint.
   */
  function CreateHandshakeMessage(publicKey: seq<byte>, routing: seq<byte>): (r: seq<byte>)
    ensures |r| == 33 + |publicKey| + |routing| && UnpackU16BE(r) == (|r| - 2) % 0x1_0000
    ensures |r| - 2 < 0x1_0000 ==> UnpackU16BE(r) == |r| - 2
    ensures r[2..] == HandshakePayload(publicKey, routing)
  {
    var payload := HandshakePayload(publicKey, routing);
    var header := PackU16BE(|payload|);
    assert (header + payload)[2..] == payload;
    header + payload
  }

  /** With a 65-byte key and a 16-byte routing address the payload is 112 bytes. */
  lemma HandshakeMessageLength(publicKey: seq<byte>, routing: seq<byte>)
    requires |publicKey| == 65 && |routing| == 16
    ensures var m := CreateHandshakeMessage(publicKey, routing); |m| == 114 && m[..2] == [0x00, 0x70]
  {
  }

  function HandshakeFields(publicKey: seq<byte>, routing: seq<byte>): seq<(nat, FieldValue)>
  {
    [(6, BytesField([0x08, 0x02])), (7, BytesField([0x12, 0x10] + routing)),
     (14, BytesField([0x0a, 0x41] + publicKey)), (51, BytesField(HandshakeUuid))]
  }

  /**
   * For a 65-byte key and a 16-byte routing address the payload is a
   * well-formed message of four fields: the destination, the routing
   * address, the session-info request holding the key, and a 16-byte field
   * 51 that takes in all the bytes after its tag.
   */
  lemma HandshakePayloadDecodes(publicKey: seq<byte>, routing: seq<byte>)
    requires |publicKey| == 65 && |routing| == 16
    ensures MessageFields(HandshakePayload(publicKey, routing)) ==
      map[6 := BytesField([0x08, 0x02]), 7 := BytesField([0x12, 0x10] + routing),
          14 := BytesField([0x0a, 0x41] + publicKey), 51 := BytesField(HandshakeUuid)]
    ensures MessageFields([0x0a, 0x41] + publicKey) == map[1 := BytesField(publicKey)]
  {
    HandshakeEncoding(publicKey, routing);
    FourFieldsDecode((6, BytesField([0x08, 0x02])), (7, BytesField([0x12, 0x10] + routing)),
                     (14, BytesField([0x0a, 0x41] + publicKey)), (51, BytesField(HandshakeUuid)));
    PublicKeyDecodes(publicKey);
  }

  /** The session-info request holds the key as field 1. */
  lemma PublicKeyDecodes(publicKey: seq<byte>)
    requires |publicKey| == 65
    ensures MessageFields([0x0a, 0x41] + publicKey) == map[1 := BytesField(publicKey)]
  {
    EncodeFieldsSingle((1, BytesField(publicKey)));
    ShortBytesField(1, publicKey);
    OneFieldDecodes((1, BytesField(publicKey)));
  }

  lemma HandshakeEncoding(publicKey: seq<byte>, routing: seq<byte>)
    requires |publicKey| == 65 && |routing| == 16
    ensures EncodeFields(HandshakeFields(publicKey, routing)) == HandshakePayload(publicKey, routing)
  {
    RequestFieldsEncoding(publicKey, routing, HandshakeUuid);
  }

  /** The four fields with any 16-byte uuid in place of the fixed one. */
  lemma RequestFieldsEncoding(publicKey: seq<byte>, routing: seq<byte>, uuid: seq<byte>)
    requires |publicKey| == 65 && |routing| == 16 && |uuid| == 16
    ensures EncodeFields([(6, BytesField([0x08, 0x02])), (7, BytesField([0x12, 0x10] + routing)),
                          (14, BytesField([0x0a, 0x41] + publicKey)), (51, BytesField(uuid))]) ==
      [0x32, 0x02, 0x08, 0x02] + ([0x3a, 0x12, 0x12, 0x10] + routing) + ([0x72, 0x43, 0x0a, 0x41] + publicKey)
        + ([0x9a, 0x03, 0x10] + uuid)
  {
    ShortBytesField(6, [0x08, 0x02]);
    RoutingAddressField(routing);
    SessionInfoRequestField(publicKey);
    UuidField(uuid);
    EncodeFourKnownFields((6, BytesField([0x08, 0x02])), (7, BytesField([0x12, 0x10] + routing)),
                          (14, BytesField([0x0a, 0x41] + publicKey)), (51, BytesField(uuid)),
                          [0x32, 0x02, 0x08, 0x02], [0x3a, 0x12, 0x12, 0x10] + routing,
                          [0x72, 0x43, 0x0a, 0x41] + publicKey, [0x9a, 0x03, 0x10] + uuid);
  }

  /** Field 14: the session-info request holding the key as field 1. */
  lemma SessionInfoRequestField(publicKey: seq<byte>)
    requires |publicKey| == 65
    ensures EncodeField((14, BytesField([0x0a, 0x41] + publicKey))) == [0x72, 0x43, 0x0a, 0x41] + publicKey
  {
    ShortBytesField(14, [0x0a, 0x41] + publicKey);
    assert [0x72, 67] + ([0x0a, 0x41] + publicKey) == [0x72, 0x43, 0x0a, 0x41] + publicKey;
  }

  // ---------------------------------------------------------------- routing address

  /** The routing address used when no random source is available. */
  const FallbackRoutingAddress: seq<byte> :=
    [0xe8, 0x96, 0xe8, 0x72, 0xcd, 0xe5, 0x18, 0x58, 0x1d, 0x77, 0xc3, 0xd9, 0x68, 0x97, 0xbb, 0x02]

  /** `n.to_bytes(4, 'big')` for a 32-bit `n`. */
  function WordBytes(n: nat): (r: seq<byte>)
    requires n < 0x1_0000_0000
    ensures |r| == 4 && (r[0] as int) * 0x100_0000 + (r[1] as int) * 0x1_0000 + (r[2] as int) * 0x100 + r[3] as int == n
  {
    var n1 := n / 256;
    var n2 := n1 / 256;
    [n2 / 256, n2 % 256, n1 % 256, n % 256]
  }

  /**
   * `_generate_routing_address`: four random 32-bit words written big-endian,
   * or the fixed fallback when there is no random source (`words` is None).
   */
  method GenerateRoutingAddress(words: Option<seq<nat>>) returns (r: seq<byte>)
    requires words.Some? ==> |words.value| == 4 && forall k :: 0 <= k < 4 ==> words.value[k] < 0x1_0000_0000
    ensures |r| == 16
    ensures words.None? ==> r == FallbackRoutingAddress
    ensures words.Some? ==> forall k :: 0 <= k < 4 ==> r[4 * k..4 * k + 4] == WordBytes(words.value[k])
  {
    if words.None? {
      return FallbackRoutingAddress;
    }
    r := [];
    for k := 0 to 4
      invariant |r| == 4 * k
      invariant forall m :: 0 <= m < k ==> r[4 * m..4 * m + 4] == WordBytes(words.value[m])
    {
      ghost var before := r;
      r := r + WordBytes(words.value[k]);
      forall m | 0 <= m <= k
        ensures r[4 * m..4 * m + 4] == WordBytes(words.value[m])
      {
        if m < k {
          assert r[4 * m..4 * m + 4] == before[4 * m..4 * m + 4];
        }
      }
    }
  }

  // ---------------------------------------------------------------- reassembly

  const Sentinel: seq<byte> := [0x22, 0x01, 0x01]

  /** The packets `receive_session_info` stores: truthy notifications other than the error packet. */
  function Stored(notifications: seq<Option<seq<byte>>>): (r: seq<seq<byte>>)
    ensures forall k :: 0 <= k < |r| ==> r[k] != Sentinel && r[k] != []
    ensures |r| <= |notifications|
  {
    if notifications == [] then []
    else
      var front := Stored(notifications[..|notifications| - 1]);
      match notifications[|notifications| - 1]
      case Some(d) => if d != [] && d != Sentinel then front + [d] else front
      case None => front
  }

  /** `receive_session_info`'s collection loop over the notifications it is given. */
  method StorePackets(notifications: seq<Option<seq<byte>>>) returns (stored: seq<seq<byte>>)
    ensures stored == Stored(notifications)
  {
    stored := [];
    for k := 0 to |notifications|
      invariant stored == Stored(notifications[..k])
    {
      assert notifications[..k + 1][..k] == notifications[..k];
      var data := notifications[k];
      if data.Some? && data.value != [] {
        if data.value != Sentinel {
          stored := stored + [data.value];
        }
      }
    }
    assert notifications[..|notifications|] == notifications;
  }

  /** The length a packet announces when it starts a response. */
  predicate StartsResponse(p: seq<byte>)
  {
    |p| >= 2 && p[0] == 0x00 && 0 < UnpackU16BE(p) <= 1024
  }

  /** Packet `i` starts a response whose announced length has fully arrived. */
  predicate Completes(stored: seq<seq<byte>>, i: nat)
  {
    i < |stored| && StartsResponse(stored[i]) && |Concat(stored[i..])| >= UnpackU16BE(stored[i]) + 2
  }

  /** The reassembly: the first packet from `i` on that completes a response, cut to its announced length. */
  function ReassembleFrom(stored: seq<seq<byte>>, i: nat): Option<seq<byte>>
    decreases |stored| - i
  {
    if i >= |stored| then None
    else if Completes(stored, i) then Some(Concat(stored[i..])[2..UnpackU16BE(stored[i]) + 2])
    else ReassembleFrom(stored, i + 1)
  }

  /** `receive_session_info` after collection: nothing stored gives None, otherwise the reassembly. */
  function SessionInfoMessage(notifications: seq<Option<seq<byte>>>): Option<seq<byte>>
  {
    var stored := Stored(notifications);
    if stored == [] then None else ReassembleFrom(stored, 0)
  }

  /**
   * The reassembly finds a response exactly when some packet completes one,
   * takes the first such packet, and returns exactly the announced number of
   * bytes after its header. A packet starting with 0x00 announces at most
   * 255 bytes, so the 1024 bound never applies.
   */
  lemma {:induction false} ReassembleFirstComplete(stored: seq<seq<byte>>, i: nat)
    ensures ReassembleFrom(stored, i).Some? <==> exists j :: i <= j && Completes(stored, j)
    ensures ReassembleFrom(stored, i).Some? ==>
      exists j :: i <= j && Completes(stored, j) && (forall k :: i <= k < j ==> !Completes(stored, k))
        && ReassembleFrom(stored, i).value == Concat(stored[j..])[2..UnpackU16BE(stored[j]) + 2]
        && |ReassembleFrom(stored, i).value| == UnpackU16BE(stored[j]) <= 255
    decreases |stored| - i
  {
    if i < |stored| {
      ReassembleFirstComplete(stored, i + 1);
      if Completes(stored, i) {
        var j := i;
        assert forall k :: i <= k < j ==> !Completes(stored, k);
      } else {
        assert forall j :: i <= j && Completes(stored, j) ==> i + 1 <= j;
      }
    }
  }

  /** `receive_session_info`'s search: for each stored packet, join it with all later ones and check the length. */
  method Reassemble(stored: seq<seq<byte>>) returns (r: Option<seq<byte>>)
    ensures r == ReassembleFrom(stored, 0)
  {
    for i := 0 to |stored|
      invariant ReassembleFrom(stored, i) == ReassembleFrom(stored, 0)
    {
      var packet := stored[i];
      if |packet| >= 2 && packet[0] == 0x00 {
        var expected := UnpackU16BE(packet);
        if 0 < expected <= 1024 {
          var buffer: seq<byte> := [];
          for j := i to |stored|
            invariant buffer == Concat(stored[i..j])
          {
            ConcatAppend(stored[i..j], [stored[j]]);
            assert Concat([stored[j]]) == Concat([]) + stored[j];
            assert stored[i..j] + [stored[j]] == stored[i..j + 1];
            buffer := buffer + stored[j];
          }
          assert stored[i..|stored|] == stored[i..];
          if |buffer| >= expected + 2 {
            return Some(buffer[2..expected + 2]);
          }
        }
      }
    }
    return None;
  }

  /** `receive_session_info` over the notifications that arrived before it stopped collecting. */
  method ReceiveSessionInfo(notifications: seq<Option<seq<byte>>>) returns (r: Option<seq<byte>>)
    ensures r == SessionInfoMessage(notifications)
    ensures Stored(notifications) == [] ==> r.None?
  {
    var stored := StorePackets(notifications);
    if stored == [] {
      return None;
    }
    r := Reassemble(stored);
  }

  // ---------------------------------------------------------------- SessionInfo

  /** The keys `parse_session_info` may set; a key is None until its field is read. */
  datatype SessionInfo = SessionInfo(
    counter: Option<nat>,
    status: Option<nat>,
    handle: Option<nat>,
    vehiclePublicKey: Option<seq<byte>>,
    epoch: Option<seq<byte>>,
    clockTime: Option<nat>)

  const NoSessionInfo := SessionInfo(None, None, None, None, None, None)

  /**
   * The inner varint loop: seven-bit groups up to a byte without the
   * continuation bit or the end of the data, whichever comes first; the
   * value and the position after the last byte read.
   */
  function LooseVarint(data: seq<byte>, pos: nat): (r: (nat, nat))
    requires pos <= |data|
    ensures pos <= r.1 <= |data| && (pos < |data| ==> pos < r.1)
    decreases |data| - pos
  {
    if pos == |data| then (0, pos)
    else if data[pos] < 0x80 then (Low7(data[pos]), pos + 1)
    else
      var (v, e) := LooseVarint(data, pos + 1);
      (Low7(data[pos]) + 128 * v, e)
  }

  /** The reading is the seven-bit little-endian value of exactly the bytes it consumed. */
  lemma {:induction false} LooseVarintValue(data: seq<byte>, pos: nat)
    requires pos <= |data|
    ensures var (v, e) := LooseVarint(data, pos);
      && v == Le7(data[pos..e])
      && (forall k :: pos <= k < e - 1 ==> data[k] >= 0x80)
      && (e < |data| ==> pos < e && data[e - 1] < 0x80)
    decreases |data| - pos
  {
    if pos < |data| && data[pos] >= 0x80 {
      LooseVarintValue(data, pos + 1);
      var e := LooseVarint(data, pos + 1).1;
      assert data[pos..e][1..] == data[pos + 1..e];
    } else if pos < |data| {
      assert data[pos..pos + 1][1..] == [];
    }
  }

  /** Where a complete varint is, the loose reading agrees with the parser's. */
  lemma {:induction false} LooseVarintAgrees(data: seq<byte>, pos: nat)
    requires pos <= |data| && VarintFrom(data, pos).Some?
    ensures LooseVarint(data, pos) == VarintFrom(data, pos).value
    decreases |data| - pos
  {
    if data[pos] >= 0x80 {
      LooseVarintAgrees(data, pos + 1);
    }
  }

  /** The inner varint loop as written: `value |= (byte & 0x7F) << shift`. */
  method ReadLooseVarint(data: seq<byte>, pos: nat) returns (value: nat, next: nat)
    requires pos <= |data|
    ensures (value, next) == LooseVarint(data, pos)
  {
    value := 0;
    var shift := 0;
    next := pos;
    LooseVarintValue(data, pos);
    while next < |data|
      invariant pos <= next <= |data|
      invariant value == Le7(data[pos..next])
      invariant shift == 7 * (next - pos)
      invariant forall k :: pos <= k < next ==> data[k] >= 0x80
    {
      var b := data[next];
      Le7Snoc(data[pos..next], b);
      assert data[pos..next] + [b] == data[pos..next + 1];
      value := value + Low7(b) * Pow2(shift);
      next := next + 1;
      if b < 0x80 {
        LooseStopsAt(data, pos, next);
        return;
      }
      shift := shift + 7;
    }
    LooseStopsAt(data, pos, next);
  }

  /** The loose reading ends at the first terminator, or at the end of the data. */
  lemma LooseStopsAt(data: seq<byte>, pos: nat, end: nat)
    requires pos <= end <= |data|
    requires forall k :: pos <= k < end - 1 ==> data[k] >= 0x80
    requires end < |data| ==> end > pos && data[end - 1] < 0x80
    ensures LooseVarint(data, pos).1 == end
  {
    LooseVarintValue(data, pos);
  }

  /** Record a varint field of the SessionInfo. */
  function SetVarint(info: SessionInfo, number: nat, v: nat): SessionInfo
  {
    if number == 1 then info.(counter := Some(v))
    else if number == 5 then info.(status := Some(v))
    else if number == 6 then info.(handle := Some(v))
    else info
  }

  /** Record a length-delimited field of the SessionInfo. */
  function SetBytes(info: SessionInfo, number: nat, d: seq<byte>): SessionInfo
  {
    if number == 2 then info.(vehiclePublicKey := Some(d))
    else if number == 3 then info.(epoch := Some(d))
    else info
  }

  /** One pass of the inner loop at `j`: the fields read so far and where the next pass starts. */
  function InnerStep(data: seq<byte>, j: nat, info: SessionInfo): (r: (SessionInfo, nat))
    requires j < |data|
    ensures r.1 > j
  {
    var tag := data[j];
    var number, wireType := tag / 8, tag % 8;
    var j1 := j + 1;
    if wireType == 0 then
      var (v, e) := LooseVarint(data, j1);
      (SetVarint(info, number, v), e)
    else if wireType == 2 then
      if j1 >= |data| then (info, j1)
      else
        var length := data[j1];
        (SetBytes(info, number, Slice(data, j1 + 1, j1 + 1 + length)), j1 + 1 + length)
    else if wireType == 5 then
      if j1 + 4 <= |data| then
        ((if number == 4 then info.(clockTime := Some(UnpackU32LE(data[j1..j1 + 4]))) else info), j1 + 4)
      else (info, j1)
    else (info, j1)
  }

  /** The inner loop over the payload of a field 15, from `j`. */
  function InnerWalk(data: seq<byte>, j: nat, info: SessionInfo): SessionInfo
    decreases |data| - j
  {
    if j >= |data| then info
    else
      var (info', j') := InnerStep(data, j, info);
      InnerWalk(data, j', info')
  }

  /** One pass of the outer loop at `i`. */
  function OuterStep(msg: seq<byte>, i: nat, info: SessionInfo): (r: (SessionInfo, nat))
    requires i < |msg|
    ensures r.1 > i
  {
    var tag := msg[i];
    var number, wireType := tag / 8, tag % 8;
    var i1 := i + 1;
    if wireType == 2 then
      if i1 >= |msg| then (info, i1)
      else
        var length := msg[i1];
        var fieldData := Slice(msg, i1 + 1, i1 + 1 + length);
        ((if number == 15 then InnerWalk(fieldData, 0, info) else info), i1 + 1 + length)
    else if wireType == 0 then (info, LooseVarint(msg, i1).1)
    else (info, i1)
  }

  function OuterWalk(msg: seq<byte>, i: nat, info: SessionInfo): SessionInfo
    decreases |msg| - i
  {
    if i >= |msg| then info
    else
      var (info', i') := OuterStep(msg, i, info);
      OuterWalk(msg, i', info')
  }

  /** `parse_session_info` as a value: it is total, it never fails. */
  function SessionInfoOf(msg: seq<byte>): SessionInfo
  {
    OuterWalk(msg, 0, NoSessionInfo)
  }

  /** `parse_session_info`: the outer walk over the routable message. */
  method ParseSessionInfo(msg: seq<byte>) returns (result: SessionInfo)
    ensures result == SessionInfoOf(msg)
  {
    result := NoSessionInfo;
    var i := 0;
    while i < |msg|
      invariant OuterWalk(msg, i, result) == SessionInfoOf(msg)
      decreases |msg| - i
    {
      var tag := msg[i];
      var fieldNumber, wireType := tag / 8, tag % 8;
      ghost var (expected, next) := OuterStep(msg, i, result);
      i := i + 1;
      if wireType == 2 {
        if i >= |msg| {
          break;
        }
        var length := msg[i];
        i := i + 1;
        var fieldData := Slice(msg, i, i + length);
        if fieldNumber == 15 {
          result := ReadSessionInfoFields(fieldData, result);
        }
        i := i + length;
      } else if wireType == 0 {
        var value;
        value, i := ReadLooseVarint(msg, i);
      }
      assert result == expected && i == next;
    }
  }

  /** The inner loop of `parse_session_info` over the payload of one field 15. */
  method ReadSessionInfoFields(data: seq<byte>, info: SessionInfo) returns (result: SessionInfo)
    ensures result == InnerWalk(data, 0, info)
  {
    result := info;
    var j := 0;
    while j < |data|
      invariant InnerWalk(data, j, result) == InnerWalk(data, 0, info)
      decreases |data| - j
    {
      var tag := data[j];
      var fieldNumber, wireType := tag / 8, tag % 8;
      ghost var (expected, next) := InnerStep(data, j, result);
      j := j + 1;
      if wireType == 0 {
        var value;
        value, j := ReadLooseVarint(data, j);
        if fieldNumber == 1 {
          result := result.(counter := Some(value));
        } else if fieldNumber == 5 {
          result := result.(status := Some(value));
        } else if fieldNumber == 6 {
          result := result.(handle := Some(value));
        }
      } else if wireType == 2 {
        if j >= |data| {
          break;
        }
        var length := data[j];
        j := j + 1;
        var bytes := Slice(data, j, j + length);
        if fieldNumber == 2 {
          result := result.(vehiclePublicKey := Some(bytes));
        } else if fieldNumber == 3 {
          result := result.(epoch := Some(bytes));
        }
        j := j + length;
      } else if wireType == 5 {
        if j + 4 <= |data| {
          var value := UnpackU32LE(data[j..j + 4]);
          if fieldNumber == 4 {
            result := result.(clockTime := Some(value));
          }
          j := j + 4;
        }
      }
      assert result == expected && j == next;
    }
  }

  // ---------------------------------------------------------------- SessionInfo properties

  /** Without a byte 0x7a (field 15, length-delimited) no field is ever read, whatever else the message holds. */
  lemma {:induction false} NoSessionInfoTagNoFields(msg: seq<byte>, i: nat, info: SessionInfo)
    requires forall k :: 0 <= k < |msg| ==> msg[k] != 0x7a
    ensures OuterWalk(msg, i, info) == info
    decreases |msg| - i
  {
    if i < |msg| {
      NoSessionInfoTagNoFields(msg, OuterStep(msg, i, info).1, info);
    }
  }

  /** A message without the session-info tag parses to no keys at all. */
  lemma NoSessionInfoTagEmpty(msg: seq<byte>)
    requires forall k :: 0 <= k < |msg| ==> msg[k] != 0x7a
    ensures SessionInfoOf(msg) == NoSessionInfo
  {
    NoSessionInfoTagNoFields(msg, 0, NoSessionInfo);
  }

  /** Every pass reads forward only, so bytes in front of the position do not matter. */
  lemma {:induction false} LooseVarintShift(p: seq<byte>, d: seq<byte>, pos: nat)
    requires pos <= |d|
    ensures LooseVarint(p + d, |p| + pos) == (LooseVarint(d, pos).0, |p| + LooseVarint(d, pos).1)
    decreases |d| - pos
  {
    if pos < |d| {
      assert (p + d)[|p| + pos] == d[pos];
      if d[pos] >= 0x80 {
        LooseVarintShift(p, d, pos + 1);
      }
    }
  }

  lemma SliceShift(p: seq<byte>, d: seq<byte>, lo: nat, hi: nat)
    requires lo <= |d|
    ensures Slice(p + d, |p| + lo, |p| + hi) == Slice(d, lo, hi)
  {
    if lo <= hi {
      assert (p + d)[|p| + lo..|p| + Min(hi, |d|)] == d[lo..Min(hi, |d|)];
    }
  }

  lemma InnerStepShift(p: seq<byte>, d: seq<byte>, j: nat, info: SessionInfo)
    requires j < |d|
    ensures InnerStep(p + d, |p| + j, info) == (InnerStep(d, j, info).0, |p| + InnerStep(d, j, info).1)
  {
    assert (p + d)[|p| + j] == d[j];
    var wireType := d[j] % 8;
    if wireType == 0 {
      LooseVarintShift(p, d, j + 1);
    } else if wireType == 2 {
      InnerBytesShift(p, d, j, info);
    } else if wireType == 5 {
      InnerFixed32Shift(p, d, j, info);
    }
  }

  lemma InnerBytesShift(p: seq<byte>, d: seq<byte>, j: nat, info: SessionInfo)
    requires j < |d| && d[j] % 8 == 2
    ensures InnerStep(p + d, |p| + j, info) == (InnerStep(d, j, info).0, |p| + InnerStep(d, j, info).1)
  {
    assert (p + d)[|p| + j] == d[j];
    if j + 1 < |d| {
      assert (p + d)[|p| + j + 1] == d[j + 1];
      SliceShift(p, d, j + 2, j + 2 + d[j + 1]);
    }
  }

  lemma InnerFixed32Shift(p: seq<byte>, d: seq<byte>, j: nat, info: SessionInfo)
    requires j < |d| && d[j] % 8 == 5
    ensures InnerStep(p + d, |p| + j, info) == (InnerStep(d, j, info).0, |p| + InnerStep(d, j, info).1)
  {
    assert (p + d)[|p| + j] == d[j];
    if j + 5 <= |d| {
      assert (p + d)[|p| + j + 1..|p| + j + 5] == d[j + 1..j + 5];
    }
  }

  /** The inner walk over `p + d` from the start of `d` is the inner walk over `d`. */
  lemma {:induction false} InnerWalkShift(p: seq<byte>, d: seq<byte>, j: nat, info: SessionInfo)
    requires j <= |d|
    ensures InnerWalk(p + d, |p| + j, info) == InnerWalk(d, j, info)
    decreases |d| - j
  {
    if j < |d| {
      InnerStepShift(p, d, j, info);
      var (info', j') := InnerStep(d, j, info);
      if j' <= |d| {
        InnerWalkShift(p, d, j', info');
      }
    }
  }

  /** A varint field in front of the rest is read as its value. */
  lemma InnerVarintField(number: nat, v: nat, rest: seq<byte>, info: SessionInfo)
    requires number * 8 < 0x80
    ensures InnerWalk([number * 8] + Varint(v) + rest, 0, info) == InnerWalk(rest, 0, SetVarint(info, number, v))
  {
    var q := [number * 8] + Varint(v);
    var data := q + rest;
    assert data[1..1 + |Varint(v)|] == Varint(v);
    VarintRoundTrip(data, 1, v);
    LooseVarintAgrees(data, 1);
    assert InnerStep(data, 0, info) == (SetVarint(info, number, v), |q|);
    InnerWalkShift(q, rest, 0, SetVarint(info, number, v));
  }

  /** A length-delimited field with a one-byte length in front of the rest is read as its bytes. */
  lemma InnerBytesField(number: nat, d: seq<byte>, rest: seq<byte>, info: SessionInfo)
    requires number * 8 + 2 < 0x80 && |d| < 0x100
    ensures InnerWalk([number * 8 + 2, |d|] + d + rest, 0, info) == InnerWalk(rest, 0, SetBytes(info, number, d))
  {
    var q := [number * 8 + 2, |d|] + d;
    var data := q + rest;
    assert Slice(data, 2, 2 + |d|) == d;
    assert InnerStep(data, 0, info) == (SetBytes(info, number, d), |q|);
    InnerWalkShift(q, rest, 0, SetBytes(info, number, d));
  }

  /** The fixed32 field 4 in front of the rest is read as the little-endian value of its four bytes. */
  lemma InnerClockField(w: seq<byte>, rest: seq<byte>, info: SessionInfo)
    requires |w| == 4
    ensures InnerWalk([0x25] + w + rest, 0, info) == InnerWalk(rest, 0, info.(clockTime := Some(UnpackU32LE(w))))
  {
    var q := [0x25] + w;
    var data := q + rest;
    assert data[1..5] == w;
    assert InnerStep(data, 0, info) == (info.(clockTime := Some(UnpackU32LE(w))), |q|);
    InnerWalkShift(q, rest, 0, info.(clockTime := Some(UnpackU32LE(w))));
  }

  /**
   * A SessionInfo body with all six fields in schema order: counter (1),
   * vehicle public key (2), epoch (3), clock time as fixed32 (4), status (5)
   * and handle (6).
   */
  function SessionInfoBody(counter: nat, key: seq<byte>, epoch: seq<byte>, clock: seq<byte>, status: nat, handle: nat): seq<byte>
    requires |key| < 0x80 && |epoch| < 0x80
  {
    [0x08] + Varint(counter) + ([0x12, |key|] + key + ([0x1a, |epoch|] + epoch + ([0x25] + clock
      + ([0x28] + Varint(status) + ([0x30] + Varint(handle))))))
  }

  /**
   * Round trip: a routable message whose only field is a session info with
   * all six fields parses to exactly those six values.
   */
  lemma SessionInfoRoundTrip(counter: nat, key: seq<byte>, epoch: seq<byte>, clock: seq<byte>, status: nat, handle: nat)
    requires |key| < 0x80 && |epoch| < 0x80 && |clock| == 4
    requires |SessionInfoBody(counter, key, epoch, clock, status, handle)| < 0x100
    ensures var body := SessionInfoBody(counter, key, epoch, clock, status, handle);
      SessionInfoOf([0x7a, |body|] + body) ==
        SessionInfo(Some(counter), Some(status), Some(handle), Some(key), Some(epoch), Some(UnpackU32LE(clock)))
  {
    SessionInfoBodyWalk(counter, key, epoch, clock, status, handle);
    SessionInfoField(SessionInfoBody(counter, key, epoch, clock, status, handle));
  }

  /** A routable message made of one session-info field yields what the inner walk reads from its payload. */
  lemma SessionInfoField(body: seq<byte>)
    requires |body| < 0x100
    ensures SessionInfoOf([0x7a, |body|] + body) == InnerWalk(body, 0, NoSessionInfo)
  {
    var msg := [0x7a, |body|] + body;
    OuterSessionInfoStep(msg, 0, NoSessionInfo);
    assert Slice(msg, 2, 2 + |body|) == body by {
      assert msg[2..] == body;
    }
    var fields := InnerWalk(body, 0, NoSessionInfo);
    assert OuterWalk(msg, 0, NoSessionInfo) == OuterWalk(msg, |msg|, fields);
  }

  /** The outer pass over a session-info field with its one-byte length. */
  lemma OuterSessionInfoStep(msg: seq<byte>, i: nat, info: SessionInfo)
    requires i + 1 < |msg| && msg[i] == 0x7a
    ensures OuterStep(msg, i, info) == (InnerWalk(Slice(msg, i + 2, i + 2 + msg[i + 1]), 0, info), i + 2 + msg[i + 1])
  {
  }

  lemma SessionInfoBodyWalk(counter: nat, key: seq<byte>, epoch: seq<byte>, clock: seq<byte>, status: nat, handle: nat)
    requires |key| < 0x80 && |epoch| < 0x80 && |clock| == 4
    ensures InnerWalk(SessionInfoBody(counter, key, epoch, clock, status, handle), 0, NoSessionInfo) ==
      SessionInfo(Some(counter), Some(status), Some(handle), Some(key), Some(epoch), Some(UnpackU32LE(clock)))
  {
    var i0 := NoSessionInfo.(counter := Some(counter));
    var i1 := i0.(vehiclePublicKey := Some(key));
    var i2 := i1.(epoch := Some(epoch));
    var i3 := i2.(clockTime := Some(UnpackU32LE(clock)));
    var i4 := i3.(status := Some(status));
    var r4 := [0x30] + Varint(handle);
    var r3 := [0x28] + Varint(status) + r4;
    var r2 := [0x25] + clock + r3;
    var r1 := [0x1a, |epoch|] + epoch + r2;
    var r0 := [0x12, |key|] + key + r1;
    InnerVarintField(1, counter, r0, NoSessionInfo);
    InnerBytesField(2, key, r1, i0);
    InnerBytesField(3, epoch, r2, i1);
    InnerClockField(clock, r3, i2);
    InnerVarintField(5, status, r4, i3);
    assert r4 == [0x30] + Varint(handle) + [];
    InnerVarintField(6, handle, [], i4);
  }
}
