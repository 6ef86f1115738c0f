/**
 * The unauthenticated body-controller-state client: the request it frames,
 * the way it cuts a message into BLE writes, the rule by which it
 * reassembles a response from notifications, its device cache, and the
 * order in which a response is parsed and merged into the accumulated state.
 *
 * BLE I/O is replaced by values: the write characteristic is a log of the
 * chunks it accepted, a failing write is named by its index, and the
 * notifications and timeouts seen by the receive loop are an explicit list
 * of events, each stamped with the milliseconds elapsed when the loop
 * reached it. Random bytes and clock readings are parameters.
 */
module Client {
  import opened Wrappers
  import opened Bytes
  import opened VehicleStates
  import opened Parser
  import opened MessageSigning

  // ---------------------------------------------------------------- the request

  /**
   * `_build_body_controller_state_request`: a two-byte big-endian length and a
   * 50-byte routable message to domain 2 with the given random routing
   * address and uuid, flags 2 and an empty signature block.
   */
  function BodyControllerRequest(routing: seq<byte>, uuid: seq<byte>): (r: seq<byte>)
    requires |routing| == 16 && |uuid| == 16
  {
    var payload := [0x32, 0x02, 0x08, 0x02] + ([0x3a, 0x12, 0x12, 0x10] + routing) + ([0x9a, 0x03, 0x10] + uuid)
      + [0xa0, 0x03, 0x02] + [0x52, 0x02, 0x0a, 0x00];
    PackU16BE(|payload|) + payload
  }

  /** The request is 52 bytes whose header says 50, with the routing address and uuid at fixed places. */
  lemma RequestLayout(routing: seq<byte>, uuid: seq<byte>)
    requires |routing| == 16 && |uuid| == 16
    ensures var r := BodyControllerRequest(routing, uuid);
      && |r| == 52 && UnpackU16BE(r) == 50
      && r[2..6] == [0x32, 0x02, 0x08, 0x02] && r[6..10] == [0x3a, 0x12, 0x12, 0x10] && r[10..26] == routing
      && r[26..29] == [0x9a, 0x03, 0x10] && r[29..45] == uuid
      && r[45..48] == [0xa0, 0x03, 0x02] && r[48..52] == [0x52, 0x02, 0x0a, 0x00]
  {
    var r := BodyControllerRequest(routing, uuid);
    assert r[..2] == [0x00, 0x32];
    assert r[2..] == [0x32, 0x02, 0x08, 0x02] + ([0x3a, 0x12, 0x12, 0x10] + routing) + ([0x9a, 0x03, 0x10] + uuid)
      + [0xa0, 0x03, 0x02] + [0x52, 0x02, 0x0a, 0x00];
  }

  /** The fields of the request, in wire order. */
  function RequestFields(routing: seq<byte>, uuid: seq<byte>): seq<(nat, FieldValue)>
  {
    [(6, BytesField([0x08, 0x02])), (7, BytesField([0x12, 0x10] + routing)), (51, BytesField(uuid)),
     (52, VarintField(2)), (10, BytesField([0x0a, 0x00]))]
  }

  /**
   * The payload is a well-formed message: the parser reads back destination
   * domain 2, the routing address (as a nested field 2), the uuid, flags 2 and
   * an empty signature block. The two-byte tags `9a 03` and `a0 03` are the
   * varints 410 and 416, that is fields 51 and 52.
   */
  lemma RequestDecodes(routing: seq<byte>, uuid: seq<byte>)
    requires |routing| == 16 && |uuid| == 16
    ensures MessageFields(BodyControllerRequest(routing, uuid)[2..]) ==
      map[6 := BytesField([0x08, 0x02]), 7 := BytesField([0x12, 0x10] + routing), 51 := BytesField(uuid),
          52 := VarintField(2), 10 := BytesField([0x0a, 0x00])]
    ensures MessageFields([0x12, 0x10] + routing) == map[2 := BytesField(routing)]
  {
    RequestEncoding(routing, uuid);
    FiveFieldsDecode((6, BytesField([0x08, 0x02])), (7, BytesField([0x12, 0x10] + routing)), (51, BytesField(uuid)),
                     (52, VarintField(2)), (10, BytesField([0x0a, 0x00])));
    RoutingAddressDecodes(routing);
  }

  /** The nested routing address message holds the address as field 2. */
  lemma RoutingAddressDecodes(routing: seq<byte>)
    requires |routing| == 16
    ensures MessageFields([0x12, 0x10] + routing) == map[2 := BytesField(routing)]
  {
    EncodeFieldsSingle((2, BytesField(routing)));
    ShortBytesField(2, routing);
    OneFieldDecodes((2, BytesField(routing)));
  }

  lemma RequestEncoding(routing: seq<byte>, uuid: seq<byte>)
    requires |routing| == 16 && |uuid| == 16
    ensures EncodeFields(RequestFields(routing, uuid)) == BodyControllerRequest(routing, uuid)[2..]
  {
    var p0, p1, p2 := [0x32, 0x02, 0x08, 0x02], [0x3a, 0x12, 0x12, 0x10] + routing, [0x9a, 0x03, 0x10] + uuid;
    var p3, p4 := [0xa0, 0x03, 0x02], [0x52, 0x02, 0x0a, 0x00];
    var payload := p0 + p1 + p2 + p3 + p4;
    var header := PackU16BE(|payload|);
    assert BodyControllerRequest(routing, uuid) == header + payload;
    assert (header + payload)[2..] == payload;
    ShortBytesField(6, [0x08, 0x02]);
    RoutingAddressField(routing);
    UuidField(uuid);
    FlagsField();
    ShortBytesField(10, [0x0a, 0x00]);
    EncodeFiveKnownFields((6, BytesField([0x08, 0x02])), (7, BytesField([0x12, 0x10] + routing)), (51, BytesField(uuid)),
                          (52, VarintField(2)), (10, BytesField([0x0a, 0x00])), p0, p1, p2, p3, p4);
  }

  /** Field 52, the flags varint, with its two-byte tag. */
  lemma FlagsField()
    ensures EncodeField((52, VarintField(2))) == [0xa0, 0x03, 0x02]
  {
    assert Varint(52 * 8) == [0xa0, 0x03] && Varint(2) == [0x02];
  }

  // ---------------------------------------------------------------- reassembly

  /** What one wait on the notification characteristic produced. */
  datatype Outcome = Notified(data: Option<seq<byte>>) | WaitTimedOut

  /** One pass of the receive loop: the time elapsed when it began and what its wait produced. */
  datatype Event = Event(elapsed: int, outcome: Outcome)

  /** The error packet the vehicle interleaves with its response. */
  const Sentinel: seq<byte> := [0x22, 0x01, 0x01]

  /** The first kept packet loses its three-byte length header when it has one. */
  function TrimHeader(d: seq<byte>): (r: seq<byte>)
  {
    if |d| >= 3 && d[0] == 0x00 then d[3..] else d
  }

  /** Whether the kept packets hold enough to stop: a field-10 tag early in 30 bytes or more, or 100 bytes. */
  predicate Complete(packets: seq<seq<byte>>)
  {
    var total := TotalLength(packets);
    (total >= 30 && 0x52 in Concat(packets)[..Min(50, |Concat(packets)|)]) || total >= 100
  }

  /** Why no message was received. */
  datatype ReceiveError = NotConnected | ResponseTimeout

  /**
   * The receive loop from its current point, `kept` being the packets stored
   * so far. It fails once the overall timeout has passed at the top of a
   * pass; a wait that times out ends it when something was kept; when the
   * events run out, every later wait times out.
   */
  function Collect(events: seq<Event>, timeout: int, kept: seq<seq<byte>>): Result<seq<seq<byte>>, ReceiveError>
    decreases |events|
  {
    if events == [] then
      if kept == [] then Err(ResponseTimeout) else Ok(kept)
    else if events[0].elapsed >= timeout then Err(ResponseTimeout)
    else match events[0].outcome
      case WaitTimedOut =>
        if kept != [] then Ok(kept) else Collect(events[1..], timeout, kept)
      case Notified(None) => Collect(events[1..], timeout, kept)
      case Notified(Some(d)) =>
        if d == Sentinel then Collect(events[1..], timeout, kept)
        else
          var kept' := kept + [if kept == [] then TrimHeader(d) else d];
          if Complete(kept') then Ok(kept') else Collect(events[1..], timeout, kept')
  }

  /** `_receive_message`: the kept packets joined behind the restored 0x32 tag. */
  function ReceivedMessage(events: seq<Event>, timeout: int): Result<seq<byte>, ReceiveError>
  {
    match Collect(events, timeout, [])
    case Ok(packets) => Ok([0x32] + Concat(packets))
    case Err(e) => Err(e)
  }

  /** The payloads of the notifications that count: neither missing (None) notifications nor sentinels; an empty payload still counts. */
  function Accepted(events: seq<Event>): seq<seq<byte>>
  {
    if events == [] then []
    else
      var rest := Accepted(events[1..]);
      match events[0].outcome
      case Notified(Some(d)) => if d == Sentinel then rest else [d] + rest
      case _ => rest
  }

  /** The packets stored for a run of accepted notifications: only the first is trimmed. */
  function Kept(ds: seq<seq<byte>>): (r: seq<seq<byte>>)
    ensures |r| == |ds|
  {
    if ds == [] then [] else [TrimHeader(ds[0])] + ds[1..]
  }

  lemma KeptSnoc(ds: seq<seq<byte>>, d: seq<byte>)
    ensures Kept(ds + [d]) == Kept(ds) + [if ds == [] then TrimHeader(d) else d]
  {
    if ds != [] {
      assert (ds + [d])[1..] == ds[1..] + [d];
    }
  }

  /**
   * Whatever the events, a received message is a prefix of the accepted
   * notifications, stored in order with only the first trimmed, and the
   * loop stopped at the first point where it was allowed to: no shorter
   * prefix was complete.
   */
  lemma ReceivedIsFirstCompletePrefix(events: seq<Event>, timeout: int)
    ensures Collect(events, timeout, []).Ok? ==>
      var ps := Collect(events, timeout, []).value;
      && 1 <= |ps| <= |Accepted(events)|
      && ps == Kept(Accepted(events)[..|ps|])
      && forall k :: 0 < k < |ps| ==> !Complete(Kept(Accepted(events)[..k]))
  {
    CollectFrom(events, timeout, []);
    assert [] + Accepted(events) == Accepted(events);
  }

  lemma {:induction false} CollectFrom(events: seq<Event>, timeout: int, seen: seq<seq<byte>>)
    requires forall k :: 0 < k <= |seen| ==> !Complete(Kept(seen[..k]))
    ensures Collect(events, timeout, Kept(seen)).Ok? ==>
      var ps := Collect(events, timeout, Kept(seen)).value;
      && 1 <= |ps| && |seen| <= |ps| <= |seen| + |Accepted(events)|
      && ps == Kept((seen + Accepted(events))[..|ps|])
      && forall k :: 0 < k < |ps| ==> !Complete(Kept((seen + Accepted(events))[..k]))
    decreases |events|
  {
    var kept := Kept(seen);
    if events == [] || events[0].elapsed >= timeout {
      assert (seen + Accepted(events))[..|seen|] == seen;
      PrefixesOf(seen, Accepted(events), |seen|);
    } else {
      var rest := events[1..];
      match events[0].outcome
      case WaitTimedOut =>
        assert Accepted(events) == Accepted(rest);
        assert (seen + Accepted(events))[..|seen|] == seen;
        PrefixesOf(seen, Accepted(events), |seen|);
        CollectFrom(rest, timeout, seen);
      case Notified(None) =>
        assert Accepted(events) == Accepted(rest);
        CollectFrom(rest, timeout, seen);
      case Notified(Some(d)) =>
        if d == Sentinel {
          assert Accepted(events) == Accepted(rest);
          CollectFrom(rest, timeout, seen);
        } else {
          assert Accepted(events) == [d] + Accepted(rest);
          var seen' := seen + [d];
          KeptSnoc(seen, d);
          assert seen + Accepted(events) == seen' + Accepted(rest);
          assert (seen' + Accepted(rest))[..|seen'|] == seen';
          PrefixesOf(seen', Accepted(rest), |seen'|);
          forall k | 0 < k <= |seen|
            ensures !Complete(Kept(seen'[..k]))
          {
            assert seen'[..k] == seen[..k];
          }
          if !Complete(Kept(seen')) {
            assert seen'[..|seen'|] == seen';
            CollectFrom(rest, timeout, seen');
          }
        }
    }
  }

  /** The prefixes of a concatenation that stop inside its first part. */
  lemma PrefixesOf(a: seq<seq<byte>>, b: seq<seq<byte>>, n: nat)
    requires n <= |a|
    ensures forall k :: 0 <= k <= n ==> (a + b)[..k] == a[..k]
  {
  }

  /** A response is only what the vehicle sent: without accepted notifications nothing is received. */
  lemma NothingAcceptedTimesOut(events: seq<Event>, timeout: int)
    requires Accepted(events) == []
    ensures ReceivedMessage(events, timeout) == Err(ResponseTimeout)
  {
    ReceivedIsFirstCompletePrefix(events, timeout);
  }

  /** A received message starts with the restored tag and holds the stored packets, 100 bytes at most beyond the last one. */
  lemma ReceivedShape(events: seq<Event>, timeout: int)
    ensures ReceivedMessage(events, timeout).Ok? ==>
      var m := ReceivedMessage(events, timeout).value;
      var ps := Collect(events, timeout, []).value;
      && m[0] == 0x32 && m[1..] == Concat(ps)
      && 1 <= |ps| && TotalLength(ps[..|ps| - 1]) < 100
  {
    if Collect(events, timeout, []).Ok? {
      var ps := Collect(events, timeout, []).value;
      ReceivedIsFirstCompletePrefix(events, timeout);
      var acc := Accepted(events);
      if |ps| > 1 {
        assert !Complete(Kept(acc[..|ps| - 1]));
        assert Kept(acc[..|ps| - 1]) == ps[..|ps| - 1];
      } else {
        assert ps[..0] == [];
      }
    }
  }

  // ---------------------------------------------------------------- the cache

  /** `_is_cache_valid`: a MAC and a timestamp are cached and the entry is younger than the timeout. */
  predicate CacheValid(mac: Option<string>, timestamp: Option<int>, timeout: int, now: int)
  {
    mac.Some? && timestamp.Some? && now - timestamp.value < timeout
  }

  /** Where `connect` takes the device from. */
  datatype DeviceSource = GivenAddress(mac: string) | CachedAddress(mac: string) | Scan

  /** `connect`'s decision: an address given by the caller, else a valid cache unless a scan is forced, else a scan. */
  function ChooseDevice(given: Option<string>, forceScan: bool, cachedMac: Option<string>, timestamp: Option<int>,
                        timeout: int, now: int): (r: DeviceSource)
    ensures r.CachedAddress? <==>
      (given.None? || given.value == "") && !forceScan && CacheValid(cachedMac, timestamp, timeout, now)
    ensures r.GivenAddress? <==> given.Some? && given.value != ""
    ensures r.CachedAddress? ==> r.mac == cachedMac.value
  {
    if given.Some? && given.value != "" then GivenAddress(given.value)
    else if CacheValid(cachedMac, timestamp, timeout, now) && !forceScan then CachedAddress(cachedMac.value)
    else Scan
  }

  /**
   * The loop of `_send_fragmented`: the chunks accepted before the write
   * with index `failure` is refused, or all of them.
   */
  method WriteChunks(data: seq<byte>, chunkSize: nat, failure: Option<nat>) returns (sent: seq<seq<byte>>, failed: bool)
    requires chunkSize > 0
    ensures var all := Chunks(data, chunkSize);
      && (failed <==> failure.Some? && failure.value < |all|)
      && sent == if failed then all[..failure.value] else all
  {
    ghost var all := Chunks(data, chunkSize);
    sent := [];
    var i := 0;
    var index := 0;
    while i < |data|
      invariant 0 <= i && 0 <= index <= |all|
      invariant sent == all[..index]
      invariant Chunks(data[Min(i, |data|)..], chunkSize) == all[index..]
      invariant failure.Some? ==> index <= failure.value
      decreases |data| - i
    {
      var chunk := data[i..Min(i + chunkSize, |data|)];
      ChunksStep(data, i, chunkSize);
      assert all[index..] == [chunk] + Chunks(data[Min(i + chunkSize, |data|)..], chunkSize);
      assert all[index..][1..] == all[index + 1..];
      if failure == Some(index) {
        return sent, true;
      }
      sent := sent + [chunk];
      assert all[..index + 1] == all[..index] + [chunk];
      i := i + chunkSize;
      index := index + 1;
    }
    assert all[index..] == [];
    return sent, false;
  }

  /** The chunks a 20-byte fragmentation writes before the write with index `failure` is refused. */
  function SentChunks(data: seq<byte>, failure: Option<nat>): seq<seq<byte>>
  {
    var all := Chunks(data, 20);
    if failure.Some? && failure.value < |all| then all[..failure.value] else all
  }

  /**
   * One body-controller-state exchange on a live connection: the framed
   * request goes out in 20-byte writes, the response is collected with the
   * 5000 ms timeout and parsed; the first step that fails decides the error.
   */
  function Exchange(routing: seq<byte>, uuid: seq<byte>, failure: Option<nat>, events: seq<Event>): Result<Status, ClientError>
    requires |routing| == 16 && |uuid| == 16
  {
    var all := Chunks(BodyControllerRequest(routing, uuid), 20);
    if failure.Some? && failure.value < |all| then Err(WriteFailed(failure.value))
    else match ReceivedMessage(events, 5000)
      case Err(_) => Err(Timeout)
      case Ok(m) =>
        match BodyControllerStatus(m)
        case Err(e) => Err(ParseFailed(e))
        case Ok(status) => Ok(status)
  }

  /** The 52-byte request always takes three writes, of 20, 20 and 12 bytes. */
  lemma RequestTakesThreeWrites(routing: seq<byte>, uuid: seq<byte>)
    requires |routing| == 16 && |uuid| == 16
    ensures var all := Chunks(BodyControllerRequest(routing, uuid), 20);
      |all| == 3 && |all[0]| == 20 && |all[1]| == 20 && |all[2]| == 12
  {
    RequestLayout(routing, uuid);
    var r := BodyControllerRequest(routing, uuid);
    ChunksSizes(r, 20);
    ChunksJoin(r, 20);
    var all := Chunks(r, 20);
    ConcatLength(all);
    if |all| == 3 {
      TotalLengthThree(all);
    }
  }

  lemma TotalLengthThree(ps: seq<seq<byte>>)
    requires |ps| == 3
    ensures TotalLength(ps) == |ps[0]| + |ps[1]| + |ps[2]|
  {
    assert TotalLength(ps[2..]) == |ps[2]| + TotalLength(ps[3..]);
    assert ps[1..][1..] == ps[2..];
    assert TotalLength(ps[1..]) == |ps[1]| + TotalLength(ps[2..]);
  }

  // ---------------------------------------------------------------- the client

  /** Why a request failed: the Python exception it raises. */
  datatype ClientError =
    | NotConnectedError          // ConnectionError("Not connected to vehicle")
    | WriteFailed(chunk: nat)    // ConnectionError("Failed to write chunk")
    | BadChunkSize               // range() with step 0
    | Timeout                    // TimeoutError
    | ParseFailed(e: ParseError) // ValueError("Failed to parse response")
    | NoAccumulator              // the accumulator was never created

  class MinimalTeslaClient {
    /** Handles of the connection and the two characteristics; present or not. */
    var connection: bool
    var writeChar: bool
    var readChar: bool
    var device: Option<string>
    var cachedMac: Option<string>
    var cacheTimestamp: Option<int>
    const cacheTimeout: int
    var vehicleState: VehicleState?
    /** The chunks the write characteristic has accepted, oldest first. */
    var written: seq<seq<byte>>

    /** `__init__`: not connected, nothing cached, no accumulator. */
    constructor (cacheTimeout: int)
      ensures !IsConnected() && device.None? && cachedMac.None? && cacheTimestamp.None?
      ensures this.cacheTimeout == cacheTimeout && vehicleState == null && written == []
    {
      connection, writeChar, readChar, device := false, false, false, None;
      cachedMac, cacheTimestamp := None, None;
      this.cacheTimeout := cacheTimeout;
      vehicleState, written := null, [];
    }

    /** `is_connected`. */
    predicate IsConnected(): (r: bool)
      reads this
      ensures r <==> connection && writeChar && readChar
    {
      connection && writeChar && readChar
    }

    /** `_is_cache_valid` at clock reading `now`. */
    predicate IsCacheValid(now: int): (r: bool)
      reads this
      ensures r <==> cachedMac.Some? && cacheTimestamp.Some? && now - cacheTimestamp.value < cacheTimeout
    {
      CacheValid(cachedMac, cacheTimestamp, cacheTimeout, now)
    }

    /** `_cache_device`: remember the address and when it was seen. */
    method CacheDevice(mac: string, now: int)
      modifies this
      ensures cachedMac == Some(mac) && cacheTimestamp == Some(now)
      ensures forall later :: IsCacheValid(later) <==> later - now < cacheTimeout
      ensures connection == old(connection) && writeChar == old(writeChar) && readChar == old(readChar)
      ensures device == old(device) && vehicleState == old(vehicleState) && written == old(written)
    {
      cachedMac, cacheTimestamp := Some(mac), Some(now);
    }

    /** The end of a successful `connect`: the characteristics are found and a fresh accumulator is made. */
    method CompleteConnection()
      modifies this
      ensures IsConnected() && fresh(vehicleState) && vehicleState.Snapshot() == Unreported
      ensures cachedMac == old(cachedMac) && cacheTimestamp == old(cacheTimestamp)
      ensures device == old(device) && written == old(written)
    {
      connection, writeChar, readChar := true, true, true;
      vehicleState := new VehicleState();
    }

    /** The state-keeping part of `disconnect`: the connection goes, the cache and the accumulator stay. */
    method Disconnect()
      modifies this
      ensures !IsConnected() && !connection && !writeChar && !readChar && device.None?
      ensures cachedMac == old(cachedMac) && cacheTimestamp == old(cacheTimestamp)
      ensures vehicleState == old(vehicleState) && written == old(written)
    {
      connection, writeChar, readChar, device := false, false, false, None;
    }

    /**
     * `_send_fragmented`: write the chunks in order; the write with index
     * `failure`, if there is one, is refused and nothing after it is written.
     */
    method SendFragmented(data: seq<byte>, chunkSize: int, failure: Option<nat>) returns (r: Result<(), ClientError>)
      modifies this
      ensures !old(IsConnected()) ==> r == Err(NotConnectedError) && written == old(written)
      ensures old(IsConnected()) && chunkSize == 0 ==> r == Err(BadChunkSize) && written == old(written)
      ensures old(IsConnected()) && chunkSize < 0 ==> r == Ok(()) && written == old(written)
      ensures old(IsConnected()) && chunkSize > 0 ==>
        var all := Chunks(data, chunkSize);
        if failure.Some? && failure.value < |all| then
          r == Err(WriteFailed(failure.value)) && written == old(written) + all[..failure.value]
        else r == Ok(()) && written == old(written) + all
      ensures connection == old(connection) && writeChar == old(writeChar) && readChar == old(readChar)
      ensures device == old(device) && cachedMac == old(cachedMac) && cacheTimestamp == old(cacheTimestamp)
      ensures vehicleState == old(vehicleState)
    {
      if !IsConnected() {
        return Err(NotConnectedError);
      }
      if chunkSize == 0 {
        return Err(BadChunkSize);
      }
      if chunkSize < 0 {
        return Ok(());
      }
      var sent, failed := WriteChunks(data, chunkSize, failure);
      written := written + sent;
      if failed {
        return Err(WriteFailed(failure.value));
      }
      return Ok(());
    }

    /**
     * `send_body_controller_state_request`: build, send and receive, parse, and
     * only then merge into the accumulator. `routing` and `uuid` are the
     * random bytes of the request, `failure` the write the BLE stack refuses
     * (if any), `events` what the receive loop sees.
     */
    method SendBodyControllerStateRequest(routing: seq<byte>, uuid: seq<byte>, failure: Option<nat>, events: seq<Event>)
      returns (r: Result<VehicleState, ClientError>)
      requires |routing| == 16 && |uuid| == 16
      modifies this, vehicleState
      ensures vehicleState == old(vehicleState)
      ensures connection == old(connection) && writeChar == old(writeChar) && readChar == old(readChar)
      ensures device == old(device) && cachedMac == old(cachedMac) && cacheTimestamp == old(cacheTimestamp)
      ensures !old(IsConnected()) ==> r == Err(NotConnectedError) && written == old(written)
      ensures old(IsConnected()) ==>
        && written == old(written) + SentChunks(BodyControllerRequest(routing, uuid), failure)
        && match Exchange(routing, uuid, failure, events)
           case Err(e) => r == Err(e)
           case Ok(status) =>
             if vehicleState == null then r == Err(NoAccumulator)
             else r == Ok(vehicleState) && vehicleState.Snapshot() == Merge(old(vehicleState.Snapshot()), status)
      ensures r.Err? && vehicleState != null ==> vehicleState.Snapshot() == old(vehicleState.Snapshot())
    {
      if !IsConnected() {
        return Err(NotConnectedError);
      }
      var request := BodyControllerRequest(routing, uuid);
      var sent := SendFragmented(request, 20, failure);
      if sent.Err? {
        return Err(sent.error);
      }
      var response := ReceiveMessage(events, 5000);
      if response.Err? {
        return Err(Timeout);
      }
      var parsed := ParseBodyControllerState(response.value);
      if parsed.Err? {
        return Err(ParseFailed(parsed.error));
      }
      if vehicleState == null {
        return Err(NoAccumulator);
      }
      var changes := vehicleState.UpdateFromResponse(parsed.value);
      return Ok(vehicleState);
    }

    /**
     * `_receive_message` over the notifications and timeouts `events`, with
     * the overall timeout `timeout` in milliseconds.
     */
    method ReceiveMessage(events: seq<Event>, timeout: int) returns (r: Result<seq<byte>, ReceiveError>)
      ensures !IsConnected() ==> r == Err(NotConnected)
      ensures IsConnected() ==> r == ReceivedMessage(events, timeout)
    {
      if !IsConnected() {
        return Err(NotConnected);
      }
      var packets: seq<seq<byte>> := [];
      var firstPacket := true;
      var i := 0;
      while true
        invariant 0 <= i <= |events|
        invariant firstPacket <==> packets == []
        invariant Collect(events[i..], timeout, packets) == Collect(events, timeout, [])
        decreases |events| - i
      {
        if i == |events| {
          if packets == [] {
            return Err(ResponseTimeout);
          }
          return Ok([0x32] + Concat(packets));
        }
        assert events[i..][1..] == events[i + 1..];
        var e := events[i];
        if e.elapsed >= timeout {
          return Err(ResponseTimeout);
        }
        i := i + 1;
        match e.outcome
        case WaitTimedOut =>
          if |packets| > 0 {
            return Ok([0x32] + Concat(packets));
          }
        case Notified(None) =>
        case Notified(Some(data)) =>
          if data != Sentinel {
            if firstPacket {
              if |data| >= 3 && data[0] == 0x00 {
                packets := packets + [data[3..]];
              } else {
                packets := packets + [data];
              }
              firstPacket := false;
            } else {
              packets := packets + [data];
            }
            var total := TotalLength(packets);
            if total >= 30 {
              var joined := Concat(packets);
              ConcatLength(packets);
              if 0x52 in joined[..Min(50, |joined|)] {
                return Ok([0x32] + Concat(packets));
              }
            }
            if total >= 100 {
              return Ok([0x32] + Concat(packets));
            }
          }
      }
    }
  }
}
