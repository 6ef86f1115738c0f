/**
 * HMAC-personalised signing of commands: the varint and length-delimited
 * encoders, the signature-data layout, and the signer object whose counter
 * advances on every signed message.
 */
module MessageSigning {
  import opened Wrappers
  import opened Bytes
  import opened Parser

  // ---------------------------------------------------------------- encoders

  /**
   * `_encode_varint` as a value: seven-bit groups, least significant first,
   * the continuation bit on every byte but the last. For a negative value the
   * loop never runs and `value & 0x7f` is the value modulo 128.
   */
  function Varint(v: int): (r: seq<byte>)
    ensures |r| >= 1
    decreases if v > 0 then v else 0, 1
  {
    VarintStep(v)
  }

  /** One step of the encoding; a separate function so that contexts that only mention `Varint(v)` do not unfold it. */
  function VarintStep(v: int): (r: seq<byte>)
    ensures |r| >= 1
    decreases if v > 0 then v else 0, 0
  {
    if v > 0x7f then [v % 128 + 0x80] + Varint(v / 128) else [v % 128]
  }

  /** A value under 128 is its own single byte. */
  lemma VarintSmall(v: int)
    requires 0 <= v < 0x80
    ensures Varint(v) == [v]
  {
    assert VarintStep(v) == [v];
  }

  /** `_encode_varint`. */
  method EncodeVarint(value: int) returns (r: seq<byte>)
    ensures r == Varint(value)
  {
    r := [];
    var v := value;
    while v > 0x7f
      invariant r + Varint(v) == Varint(value)
      decreases v
    {
      var low: byte := v % 128 + 0x80;
      assert Varint(v) == [low] + Varint(v / 128);
      assert r + ([low] + Varint(v / 128)) == (r + [low]) + Varint(v / 128);
      r := r + [low];
      v := v / 128;
    }
    assert Varint(v) == [v % 128];
    r := r + [v % 128];
  }

  /** The encoding is canonical: every byte but the last carries the continuation bit. */
  lemma {:induction false} VarintShape(v: int)
    ensures forall k :: 0 <= k < |Varint(v)| - 1 ==> Varint(v)[k] >= 0x80
    ensures Varint(v)[|Varint(v)| - 1] < 0x80
    ensures |Varint(v)| == 1 <==> v <= 0x7f
    decreases if v > 0 then v else 0
  {
    assert Varint(v) == VarintStep(v);
    if v > 0x7f {
      VarintShape(v / 128);
    }
  }

  /** Decoding an encoded non-negative value gives it back and consumes exactly its bytes. */
  lemma {:induction false} VarintRoundTrip(data: seq<byte>, pos: nat, v: nat)
    requires pos + |Varint(v)| <= |data| && data[pos..pos + |Varint(v)|] == Varint(v)
    ensures VarintFrom(data, pos) == Some((v, pos + |Varint(v)|))
    decreases v
  {
    var e := Varint(v);
    assert e == VarintStep(v);
    assert data[pos] == e[0];
    if v > 0x7f {
      var tail := Varint(v / 128);
      assert e[1..] == tail;
      assert data[pos + 1..pos + |e|] == data[pos..pos + |e|][1..];
      VarintRoundTrip(data, pos + 1, v / 128);
    }
  }

  /** `_encode_length_delimited`: both branches write the length as a varint before the data. */
  function EncodeLengthDelimited(data: seq<byte>): (r: seq<byte>)
    ensures r == Varint(|data|) + data
  {
    if |data| < 128 then [|data|] + data else Varint(|data|) + data
  }

  // ---------------------------------------------------------------- fields on the wire

  /** The wire form of one field: the tag varint, then a varint or the length-prefixed bytes. */
  function EncodeField(f: (nat, FieldValue)): seq<byte>
  {
    match f.1
    case VarintField(v) => Varint(f.0 * 8) + Varint(v)
    case BytesField(d) => Varint(f.0 * 8 + 2) + Varint(|d|) + d
  }

  function EncodeFields(fs: seq<(nat, FieldValue)>): seq<byte>
  {
    if fs == [] then [] else EncodeField(fs[0]) + EncodeFields(fs[1..])
  }

  /** A length-delimited field whose tag and length both fit one byte. */
  lemma ShortBytesField(number: nat, d: seq<byte>)
    requires number * 8 + 2 < 128 && |d| < 128
    ensures EncodeField((number, BytesField(d))) == [number * 8 + 2, |d|] + d
  {
    VarintSmall(number * 8 + 2);
    VarintSmall(|d|);
  }

  /** The decoded fields of `EncodeFields(fs)` placed at `offset`, each with the offset after it. */
  function Located(fs: seq<(nat, FieldValue)>, offset: nat): seq<ProtoField>
  {
    if fs == [] then []
    else
      var next := offset + |EncodeField(fs[0])|;
      [ProtoField(fs[0].0, fs[0].1, next)] + Located(fs[1..], next)
  }

  lemma LocatedCons(fs: seq<(nat, FieldValue)>, offset: nat)
    requires fs != []
    ensures Located(fs, offset) ==
      [ProtoField(fs[0].0, fs[0].1, offset + |EncodeField(fs[0])|)] + Located(fs[1..], offset + |EncodeField(fs[0])|)
  {
  }

  lemma VarintAtEncoded(data: seq<byte>, p: nat, v: nat)
    requires At(data, p, Varint(v))
    ensures VarintAt(data, p) == Ok((v, p + |Varint(v)|))
  {
    AtSlice(data, p, Varint(v));
    VarintRoundTrip(data, p, v);
  }

  /** A tag splits back into its field number and wire type. */
  lemma TagParts(number: nat, wireType: nat)
    requires wireType < 8
    ensures (number * 8 + wireType) / 8 == number && (number * 8 + wireType) % 8 == wireType
  {
  }

  /** One encoded field reads back as itself. */
  lemma ParseEncodedField(data: seq<byte>, offset: nat, f: (nat, FieldValue))
    requires At(data, offset, EncodeField(f))
    ensures ParseField(data, offset) == Ok(ProtoField(f.0, f.1, offset + |EncodeField(f)|))
  {
    match f.1
    case VarintField(v) => ParseEncodedVarintField(data, offset, f.0, v);
    case BytesField(d) => ParseEncodedBytesField(data, offset, f.0, d);
  }

  lemma ParseEncodedVarintField(data: seq<byte>, offset: nat, number: nat, v: nat)
    requires At(data, offset, Varint(number * 8) + Varint(v))
    ensures ParseField(data, offset) ==
      Ok(ProtoField(number, VarintField(v), offset + |Varint(number * 8) + Varint(v)|))
  {
    var t, l := Varint(number * 8), Varint(v);
    AtSplit(data, offset, t + l, t, l);
    VarintAtEncoded(data, offset, number * 8);
    VarintAtEncoded(data, offset + |t|, v);
    TagParts(number, 0);
    ParseFieldVarint(data, offset, number * 8, offset + |t|, v, offset + |t| + |l|);
  }

  lemma ParseEncodedBytesField(data: seq<byte>, offset: nat, number: nat, d: seq<byte>)
    requires At(data, offset, Varint(number * 8 + 2) + Varint(|d|) + d)
    ensures ParseField(data, offset) ==
      Ok(ProtoField(number, BytesField(d), offset + |Varint(number * 8 + 2) + Varint(|d|) + d|))
  {
    var t, l := Varint(number * 8 + 2), Varint(|d|);
    var q := offset + |t| + |l|;
    AtSplit(data, offset, t + l + d, t + l, d);
    AtSplit(data, offset, t + l, t, l);
    VarintAtEncoded(data, offset, number * 8 + 2);
    VarintAtEncoded(data, offset + |t|, |d|);
    AtSlice(data, q, d);
    assert Slice(data, q, q + |d|) == d;
    TagParts(number, 2);
    ParseFieldBytes(data, offset, number * 8 + 2, offset + |t|, |d|, q);
  }

  lemma EncodeFieldsCons(fs: seq<(nat, FieldValue)>)
    requires fs != []
    ensures EncodeFields(fs) == EncodeField(fs[0]) + EncodeFields(fs[1..])
  {
  }

  lemma EncodeFieldsPrepend(a: (nat, FieldValue), rest: seq<(nat, FieldValue)>)
    ensures EncodeFields([a] + rest) == EncodeField(a) + EncodeFields(rest)
  {
    var fs := [a] + rest;
    assert fs[0] == a && fs[1..] == rest;
    EncodeFieldsCons(fs);
  }

  lemma EncodeFieldsSingle(a: (nat, FieldValue))
    ensures EncodeFields([a]) == EncodeField(a)
  {
    EncodeFieldsPrepend(a, []);
    assert [a] + [] == [a];
  }

  /** The encoding of a list of two fields, written out. */
  lemma EncodeFieldsOfTwo(a: (nat, FieldValue), b: (nat, FieldValue))
    ensures EncodeFields([a, b]) == EncodeField(a) + EncodeField(b)
  {
    assert [a, b] == [a] + [b];
    EncodeFieldsPrepend(a, [b]);
    EncodeFieldsSingle(b);
  }

  /** The encoding of a list of three fields, written out. */
  lemma EncodeFieldsOfThree(a: (nat, FieldValue), b: (nat, FieldValue), c: (nat, FieldValue))
    ensures EncodeFields([a, b, c]) == EncodeField(a) + EncodeField(b) + EncodeField(c)
  {
    assert [a, b, c] == [a] + [b, c];
    EncodeFieldsPrepend(a, [b, c]);
    EncodeFieldsOfTwo(b, c);
  }

  /** The encoding of a list of four fields, written out. */
  lemma EncodeFieldsOfFour(a: (nat, FieldValue), b: (nat, FieldValue), c: (nat, FieldValue), d: (nat, FieldValue))
    ensures EncodeFields([a, b, c, d]) == EncodeField(a) + EncodeField(b) + EncodeField(c) + EncodeField(d)
  {
    assert [a, b, c, d] == [a] + [b, c, d];
    EncodeFieldsPrepend(a, [b, c, d]);
    EncodeFieldsOfThree(b, c, d);
  }

  /** The encoding of a list of five fields, written out. */
  lemma EncodeFieldsOfFive(a: (nat, FieldValue), b: (nat, FieldValue), c: (nat, FieldValue), d: (nat, FieldValue),
                           e: (nat, FieldValue))
    ensures EncodeFields([a, b, c, d, e]) ==
      EncodeField(a) + EncodeField(b) + EncodeField(c) + EncodeField(d) + EncodeField(e)
  {
    assert [a, b, c, d, e] == [a] + [b, c, d, e];
    EncodeFieldsPrepend(a, [b, c, d, e]);
    EncodeFieldsOfFour(b, c, d, e);
  }

  /** Four fields whose encodings are known, encoded together. */
  lemma EncodeFourKnownFields(a: (nat, FieldValue), b: (nat, FieldValue), c: (nat, FieldValue), d: (nat, FieldValue),
                              ea: seq<byte>, eb: seq<byte>, ec: seq<byte>, ed: seq<byte>)
    requires EncodeField(a) == ea && EncodeField(b) == eb && EncodeField(c) == ec && EncodeField(d) == ed
    ensures EncodeFields([a, b, c, d]) == ea + eb + ec + ed
  {
    EncodeFieldsOfFour(a, b, c, d);
  }

  /** Five fields whose encodings are known, encoded together. */
  lemma EncodeFiveKnownFields(a: (nat, FieldValue), b: (nat, FieldValue), c: (nat, FieldValue), d: (nat, FieldValue),
                              e: (nat, FieldValue), ea: seq<byte>, eb: seq<byte>, ec: seq<byte>, ed: seq<byte>, ee: seq<byte>)
    requires EncodeField(a) == ea && EncodeField(b) == eb && EncodeField(c) == ec && EncodeField(d) == ed
    requires EncodeField(e) == ee
    ensures EncodeFields([a, b, c, d, e]) == ea + eb + ec + ed + ee
  {
    EncodeFieldsOfFive(a, b, c, d, e);
  }

  /** A length-delimited field with a one-byte tag, whatever the length. */
  lemma OneByteTagBytesField(number: nat, d: seq<byte>)
    requires number * 8 + 2 < 128
    ensures EncodeField((number, BytesField(d))) == [number * 8 + 2] + EncodeLengthDelimited(d)
  {
    VarintSmall(number * 8 + 2);
  }

  /** Field 7 of a request: the 16-byte routing address wrapped as field 2 of a nested message. */
  lemma RoutingAddressField(routing: seq<byte>)
    requires |routing| == 16
    ensures EncodeField((7, BytesField([0x12, 0x10] + routing))) == [0x3a, 0x12, 0x12, 0x10] + routing
  {
    ShortBytesField(7, [0x12, 0x10] + routing);
    assert [0x3a, 18] + ([0x12, 0x10] + routing) == [0x3a, 0x12, 0x12, 0x10] + routing;
  }

  /** Field 51, a 16-byte uuid, with its two-byte tag. */
  lemma UuidField(uuid: seq<byte>)
    requires |uuid| == 16
    ensures EncodeField((51, BytesField(uuid))) == [0x9a, 0x03, 0x10] + uuid
  {
    assert Varint(51 * 8 + 2) == [0x9a, 0x03];
    VarintSmall(|uuid|);
  }

  /** Encoded fields read back one after another. */
  lemma {:induction false} EncodedFieldsAt(data: seq<byte>, offset: nat, fs: seq<(nat, FieldValue)>)
    requires At(data, offset, EncodeFields(fs))
    ensures FieldsAt(data, offset, Located(fs, offset))
    ensures EndOf(Located(fs, offset), offset) == offset + |EncodeFields(fs)|
    decreases |fs|
  {
    if fs == [] {
      assert Located(fs, offset) == [];
    } else {
      var next := offset + |EncodeField(fs[0])|;
      var f, rest := ProtoField(fs[0].0, fs[0].1, next), Located(fs[1..], next);
      EncodedFieldsStep(data, offset, fs);
      EncodedFieldsAt(data, next, fs[1..]);
      LocatedCons(fs, offset);
      assert Located(fs, offset) == [f] + rest;
      ChainCons(data, offset, f, rest);
      assert EndOf([f] + rest, offset) == next + |EncodeFields(fs[1..])|;
    }
  }

  /** The first encoded field reads back, and the rest of the encoding follows it. */
  lemma EncodedFieldsStep(data: seq<byte>, offset: nat, fs: seq<(nat, FieldValue)>)
    requires fs != [] && At(data, offset, EncodeFields(fs))
    ensures ParseField(data, offset) == Ok(ProtoField(fs[0].0, fs[0].1, offset + |EncodeField(fs[0])|))
    ensures At(data, offset + |EncodeField(fs[0])|, EncodeFields(fs[1..]))
    ensures |EncodeFields(fs)| == |EncodeField(fs[0])| + |EncodeFields(fs[1..])|
  {
    EncodedFieldsSplit(data, offset, fs);
    ParseEncodedField(data, offset, fs[0]);
  }

  lemma EncodedFieldsSplit(data: seq<byte>, offset: nat, fs: seq<(nat, FieldValue)>)
    requires fs != [] && At(data, offset, EncodeFields(fs))
    ensures At(data, offset, EncodeField(fs[0])) && At(data, offset + |EncodeField(fs[0])|, EncodeFields(fs[1..]))
    ensures |EncodeFields(fs)| == |EncodeField(fs[0])| + |EncodeFields(fs[1..])|
  {
    EncodeFieldsCons(fs);
    AtSplit(data, offset, EncodeFields(fs), EncodeField(fs[0]), EncodeFields(fs[1..]));
  }

  /** A field followed by a chain from where it ends is a chain, ending where the tail ends. */
  lemma ChainCons(data: seq<byte>, offset: nat, f: ProtoField, rest: seq<ProtoField>)
    requires ParseField(data, offset) == Ok(f) && FieldsAt(data, f.next, rest)
    ensures FieldsAt(data, offset, [f] + rest)
    ensures EndOf([f] + rest, offset) == EndOf(rest, f.next)
  {
    var l := [f] + rest;
    assert l[0] == f && l[1..] == rest;
    if rest != [] {
      assert l[|l| - 1] == rest[|rest| - 1];
    }
  }

  /** The walk over encoded fields reads them back in order, then carries on past them. */
  lemma WalkEncodedFields(data: seq<byte>, offset: nat, fs: seq<(nat, FieldValue)>)
    requires At(data, offset, EncodeFields(fs))
    ensures Walk(data, offset) == Located(fs, offset) + Walk(data, offset + |EncodeFields(fs)|)
  {
    EncodedFieldsAt(data, offset, fs);
    WalkOverFieldsTo(data, offset, Located(fs, offset), offset + |EncodeFields(fs)|);
  }

  /** `WalkEncodedFields` from the start of the data. */
  lemma WalkEncodedPrefix(data: seq<byte>, fs: seq<(nat, FieldValue)>)
    requires At(data, 0, EncodeFields(fs))
    ensures Walk(data, 0) == Located(fs, 0) + Walk(data, |EncodeFields(fs)|)
  {
    WalkEncodedFields(data, 0, fs);
  }

  /**
   * Decoding an encoded message gives back its fields, numbers and values in
   * order, so the parser's dictionary is their last-wins map.
   */
  lemma DecodeEncodedFields(fs: seq<(nat, FieldValue)>)
    ensures Walk(EncodeFields(fs), 0) == Located(fs, 0)
    ensures |Located(fs, 0)| == |fs|
    ensures forall i :: 0 <= i < |fs| ==> Located(fs, 0)[i].number == fs[i].0 && Located(fs, 0)[i].value == fs[i].1
  {
    WalkWholeEncoding(fs);
    LocatedFields(fs, 0);
  }

  lemma WalkWholeEncoding(fs: seq<(nat, FieldValue)>)
    ensures Walk(EncodeFields(fs), 0) == Located(fs, 0)
  {
    var data := EncodeFields(fs);
    AtWhole(data);
    WalkEncodedFields(data, 0, fs);
    WalkToEnd(data, Located(fs, 0));
  }

  lemma {:induction false} LocatedFields(fs: seq<(nat, FieldValue)>, offset: nat)
    ensures |Located(fs, offset)| == |fs|
    ensures forall i :: 0 <= i < |fs| ==>
      Located(fs, offset)[i].number == fs[i].0 && Located(fs, offset)[i].value == fs[i].1
  {
    if fs != [] {
      var next := offset + |EncodeField(fs[0])|;
      LocatedFields(fs[1..], next);
      var l := Located(fs, offset);
      assert l == [ProtoField(fs[0].0, fs[0].1, next)] + Located(fs[1..], next);
      forall i | 0 <= i < |fs|
        ensures l[i].number == fs[i].0 && l[i].value == fs[i].1
      {
        if i > 0 {
          assert l[i] == Located(fs[1..], next)[i - 1];
          assert fs[i] == fs[1..][i - 1];
        }
      }
    }
  }

  // ---------------------------------------------------------------- signature data

  /**
   * `create_signature_data`: epoch (field 1, one-byte length), counter
   * (field 2, varint) and the expiry (field 3, little-endian fixed32).
   */
  function SignatureData(epoch: seq<byte>, counter: nat, expiresAt: int): Result<seq<byte>, PackError>
  {
    match ByteOf(|epoch|)
    case Err(e) => Err(e)
    case Ok(epochLength) => Ok([0x0a] + epochLength + epoch + [0x10] + Varint(counter) + [0x1d] + PackU32LE(expiresAt))
  }

  /**
   * The signature data fails only for an epoch longer than 255 bytes. With an
   * epoch under 128 bytes the decoder reads back the epoch and the counter
   * and stops at the fixed32 expiry (wire type 5), whose last four bytes hold
   * the expiry modulo 2^32 (exactly the expiry when it fits 32 bits).
   */
  lemma SignatureDataDecodes(epoch: seq<byte>, counter: nat, expiresAt: int)
    ensures SignatureData(epoch, counter, expiresAt).Ok? <==> |epoch| < 256
    ensures |epoch| < 128 ==>
      var s := SignatureData(epoch, counter, expiresAt).value;
      && MessageFields(s) == map[1 := BytesField(epoch), 2 := VarintField(counter)]
      && ParseField(s, |s| - 5) == Err(UnsupportedWireType(5))
      && UnpackU32LE(s[|s| - 4..]) == expiresAt % 0x1_0000_0000
  {
    if |epoch| < 128 {
      var fs := SignatureFields(epoch, counter);
      var expiry := PackU32LE(expiresAt);
      SignatureDataLayout(epoch, counter, expiresAt);
      FieldsThenFixed32(fs, expiry);
      TwoLocatedFields((1, BytesField(epoch)), (2, VarintField(counter)));
    }
  }

  /** Encoded fields followed by a fixed32 field: the walk reads the fields and stops at the fixed32 tag. */
  lemma FieldsThenFixed32(fs: seq<(nat, FieldValue)>, expiry: seq<byte>)
    requires |expiry| == 4
    ensures var s := EncodeFields(fs) + ([0x1d] + expiry);
      && Walk(s, 0) == Located(fs, 0)
      && ParseField(s, |s| - 5) == Err(UnsupportedWireType(5))
      && s[|s| - 4..] == expiry
  {
    var head := EncodeFields(fs);
    var s := head + ([0x1d] + expiry);
    AtPrefix(head, [0x1d] + expiry);
    WalkEncodedPrefix(s, fs);
    Fixed32Tail(head, expiry, Located(fs, 0));
  }

  /** Whatever precedes it, a fixed32 field is refused and the walk stops there. */
  lemma Fixed32Tail(head: seq<byte>, expiry: seq<byte>, fields: seq<ProtoField>)
    requires |expiry| == 4
    requires var s := head + ([0x1d] + expiry); Walk(s, 0) == fields + Walk(s, |head|)
    ensures var s := head + ([0x1d] + expiry);
      && Walk(s, 0) == fields
      && ParseField(s, |s| - 5) == Err(UnsupportedWireType(5))
      && s[|s| - 4..] == expiry
  {
    var s := head + ([0x1d] + expiry);
    FixedTagStopsWalk(s, |head|);
    assert fields + [] == fields;
    assert s[|s| - 4..] == expiry;
  }

  /** The dictionary of two located fields. */
  lemma TwoLocatedFields(a: (nat, FieldValue), b: (nat, FieldValue))
    ensures FieldMap(Located([a, b], 0)) == map[a.0 := a.1][b.0 := b.1]
  {
    LocatedFields([a, b], 0);
    FieldMapPair(Located([a, b], 0));
  }

  /** The two fields ahead of the expiry, as the decoder sees them. */
  function SignatureFields(epoch: seq<byte>, counter: nat): seq<(nat, FieldValue)>
  {
    [(1, BytesField(epoch)), (2, VarintField(counter))]
  }

  lemma SignatureDataLayout(epoch: seq<byte>, counter: nat, expiresAt: int)
    requires |epoch| < 128
    ensures SignatureData(epoch, counter, expiresAt) ==
      Ok(EncodeFields(SignatureFields(epoch, counter)) + ([0x1d] + PackU32LE(expiresAt)))
  {
    SignatureFieldsEncoding(epoch, counter);
    var expiry := PackU32LE(expiresAt);
    assert ByteOf(|epoch|) == Ok([|epoch|]);
    assert [0x0a] + [|epoch|] == [0x0a, |epoch|];
    var head := [0x0a, |epoch|] + epoch + [0x10] + Varint(counter);
    assert head + [0x1d] + expiry == head + ([0x1d] + expiry);
  }

  lemma SignatureFieldsEncoding(epoch: seq<byte>, counter: nat)
    requires |epoch| < 128
    ensures EncodeFields(SignatureFields(epoch, counter)) == [0x0a, |epoch|] + epoch + [0x10] + Varint(counter)
  {
    EncodeFieldsOfTwo((1, BytesField(epoch)), (2, VarintField(counter)));
    ShortBytesField(1, epoch);
    assert Varint(2 * 8) == [0x10];
  }

  /** A tag byte 0x1d (field 3, fixed32) is refused, which ends the walk. */
  lemma FixedTagStopsWalk(s: seq<byte>, at: nat)
    requires at < |s| && s[at] == 0x1d
    ensures ParseField(s, at) == Err(UnsupportedWireType(5))
    ensures Walk(s, at) == []
  {
    assert VarintAt(s, at) == Ok((0x1d, at + 1));
    WalkStep(s, at);
  }

  /** Encoding of a non-negative value below 2^(7k) takes at most k bytes. */
  lemma {:induction false} VarintLengthBound(v: nat, k: nat)
    requires k >= 1 && v < Pow2(7 * k)
    ensures |Varint(v)| <= k
    decreases k
  {
    if v > 0x7f {
      Pow2Add7(7 * (k - 1));
      assert Pow2(0) == 1;
      assert k > 1;
      VarintLengthBound(v / 128, k - 1);
    }
  }

  // ---------------------------------------------------------------- signing

  /** The data the HMAC covers: type 1, domain, VIN, command, epoch, counter, expiry. */
  function HmacMetadata(domain: int, vin: seq<byte>, command: seq<byte>, epoch: seq<byte>,
                        counter: nat, expiry: seq<byte>): seq<byte>
  {
    [0x01] + Varint(domain) + vin + command + epoch + Varint(counter) + expiry
  }

  /** The tag as sent: VEHICLE_SECURITY (domain 2) keeps the first 16 bytes. */
  function TruncateTag(domain: int, tag: seq<byte>): (r: seq<byte>)
    ensures domain == 2 ==> r == tag[..Min(16, |tag|)]
    ensures domain != 2 ==> r == tag
  {
    if domain == 2 then tag[..Min(16, |tag|)] else tag
  }

  /** The HMAC_Personalized_data written inline by `sign_message`: epoch, counter, expiry and tag. */
  function HmacData(epoch: seq<byte>, counter: nat, expiry: seq<byte>, tag: seq<byte>): Result<seq<byte>, PackError>
  {
    match ByteOf(|epoch|)
    case Err(e) => Err(e)
    case Ok(epochLength) =>
      match ByteOf(|tag|)
      case Err(e) => Err(e)
      case Ok(tagLength) =>
        Ok([0x0a] + epochLength + epoch + [0x10] + Varint(counter) + [0x1d] + expiry + [0x22] + tagLength + tag)
  }

  /** The routable message with its length header: destination (6), command (10), signature data (13). */
  function RoutableMessage(domain: int, command: seq<byte>, hmacData: seq<byte>): Result<seq<byte>, PackError>
  {
    match ByteOf(|hmacData|)
    case Err(e) => Err(e)
    case Ok(hmacLength) =>
      match ByteOf(domain)
      case Err(e) => Err(e)
      case Ok(domainByte) =>
        var routable := [0x32, 0x02, 0x08] + domainByte + [0x52] + EncodeLengthDelimited(command) + [0x6a] + hmacLength + hmacData;
        Ok(PackU16BE(|routable|) + routable)
  }

  /** `sign_message` as a value, for the counter value it signs with and its expiry. */
  function SignedMessage(vin: seq<byte>, epoch: seq<byte>, counter: nat, hmacKey: seq<byte>,
                         command: seq<byte>, domain: int, expiresAt: int,
                         hmac: (seq<byte>, seq<byte>) -> seq<byte>): Result<seq<byte>, PackError>
  {
    var expiry := PackU32LE(expiresAt);
    var tag := TruncateTag(domain, hmac(hmacKey, HmacMetadata(domain, vin, command, epoch, counter, expiry)));
    match HmacData(epoch, counter, expiry, tag)
    case Err(e) => Err(e)
    case Ok(hmacData) => RoutableMessage(domain, command, hmacData)
  }

  /**
   * The signature block `sign_message` writes inline is `create_signature_data`'s
   * output followed by the tag as field 4, and fails on the same epochs.
   */
  lemma HmacDataExtendsSignatureData(epoch: seq<byte>, counter: nat, expiresAt: int, tag: seq<byte>)
    ensures var h := HmacData(epoch, counter, PackU32LE(expiresAt), tag);
      && (h.Ok? <==> SignatureData(epoch, counter, expiresAt).Ok? && |tag| < 256)
      && (h.Ok? ==> h.value == SignatureData(epoch, counter, expiresAt).value + [0x22, |tag|] + tag)
  {
    if |epoch| < 256 && |tag| < 256 {
      assert [0x22] + [|tag|] == [0x22, |tag|];
    }
  }

  /**
   * The routable message fails only for a signature block or domain that does
   * not fit a byte; its header holds the length of what follows modulo 2^16,
   * and for a domain and signature block under 128 the decoder reads back
   * exactly the destination, the command and the block.
   */
  lemma RoutableMessageDecodes(domain: int, command: seq<byte>, hmacData: seq<byte>)
    ensures RoutableMessage(domain, command, hmacData).Ok? <==> |hmacData| < 256 && 0 <= domain < 256
    ensures RoutableMessage(domain, command, hmacData).Ok? ==>
      var r := RoutableMessage(domain, command, hmacData).value;
      && |r| == 9 + |EncodeLengthDelimited(command)| + |hmacData|
      && UnpackU16BE(r) == (|r| - 2) % 0x1_0000
    ensures RoutableMessage(domain, command, hmacData).Ok? && domain < 128 && |hmacData| < 128 ==>
      var r := RoutableMessage(domain, command, hmacData).value;
      && MessageFields(r[2..]) == map[6 := BytesField([0x08, domain]), 10 := BytesField(command), 13 := BytesField(hmacData)]
      && MessageFields([0x08, domain]) == map[1 := VarintField(domain)]
  {
    if RoutableMessage(domain, command, hmacData).Ok? && domain < 128 && |hmacData| < 128 {
      RoutableDecodedFields(domain, command, hmacData);
      DestinationDecodes(domain);
    }
  }

  lemma RoutableDecodedFields(domain: int, command: seq<byte>, hmacData: seq<byte>)
    requires RoutableMessage(domain, command, hmacData).Ok? && 0 <= domain < 128 && |hmacData| < 128
    ensures MessageFields(RoutableMessage(domain, command, hmacData).value[2..]) ==
      map[6 := BytesField([0x08, domain]), 10 := BytesField(command), 13 := BytesField(hmacData)]
  {
    RoutableFields(domain, command, hmacData);
    ThreeFieldsDecode((6, BytesField([0x08, domain])), (10, BytesField(command)), (13, BytesField(hmacData)));
  }

  /** The destination submessage holds the domain as field 1. */
  lemma DestinationDecodes(domain: int)
    requires 0 <= domain < 128
    ensures MessageFields([0x08, domain]) == map[1 := VarintField(domain)]
  {
    EncodeFieldsSingle((1, VarintField(domain)));
    assert Varint(1 * 8) == [0x08];
    VarintSmall(domain);
    assert EncodeFields([(1, VarintField(domain))]) == [0x08, domain];
    OneFieldDecodes((1, VarintField(domain)));
  }

  lemma RoutableFields(domain: int, command: seq<byte>, hmacData: seq<byte>)
    requires RoutableMessage(domain, command, hmacData).Ok? && 0 <= domain < 128 && |hmacData| < 128
    ensures RoutableMessage(domain, command, hmacData).value[2..] ==
      EncodeFields([(6, BytesField([0x08, domain])), (10, BytesField(command)), (13, BytesField(hmacData))])
  {
    RoutableLayout(domain, command, hmacData);
    ThreeFieldsEncoding(domain, command, hmacData);
  }

  lemma RoutableLayout(domain: int, command: seq<byte>, hmacData: seq<byte>)
    requires RoutableMessage(domain, command, hmacData).Ok? && 0 <= domain < 128 && |hmacData| < 128
    ensures RoutableMessage(domain, command, hmacData).value[2..] ==
      [0x32, 0x02, 0x08, domain] + ([0x52] + EncodeLengthDelimited(command)) + ([0x6a, |hmacData|] + hmacData)
  {
    var eld := EncodeLengthDelimited(command);
    var routable := [0x32, 0x02, 0x08] + [domain] + [0x52] + eld + [0x6a] + [|hmacData|] + hmacData;
    assert ByteOf(|hmacData|) == Ok([|hmacData|]) && ByteOf(domain) == Ok([domain]);
    var header := PackU16BE(|routable|);
    assert RoutableMessage(domain, command, hmacData).value == header + routable;
    assert |header| == 2;
    assert (header + routable)[2..] == routable;
    assert routable == [0x32, 0x02, 0x08, domain] + ([0x52] + eld) + ([0x6a, |hmacData|] + hmacData);
  }

  lemma ThreeFieldsEncoding(domain: int, command: seq<byte>, hmacData: seq<byte>)
    requires 0 <= domain < 128 && |hmacData| < 128
    ensures EncodeFields([(6, BytesField([0x08, domain])), (10, BytesField(command)), (13, BytesField(hmacData))]) ==
      [0x32, 0x02, 0x08, domain] + ([0x52] + EncodeLengthDelimited(command)) + ([0x6a, |hmacData|] + hmacData)
  {
    EncodeFieldsOfThree((6, BytesField([0x08, domain])), (10, BytesField(command)), (13, BytesField(hmacData)));
    ShortBytesField(6, [0x08, domain]);
    assert [6 * 8 + 2, 2] + [0x08, domain] == [0x32, 0x02, 0x08, domain];
    OneByteTagBytesField(10, command);
    ShortBytesField(13, hmacData);
  }

  /** The parser's dictionary of an encoded message. */
  lemma MessageFieldsOfEncoded(fs: seq<(nat, FieldValue)>)
    ensures MessageFields(EncodeFields(fs)) == FieldMap(Located(fs, 0))
    ensures |Located(fs, 0)| == |fs|
    ensures forall i :: 0 <= i < |fs| ==> Located(fs, 0)[i].number == fs[i].0 && Located(fs, 0)[i].value == fs[i].1
  {
    DecodeEncodedFields(fs);
  }

  /** Three encoded fields decode to the dictionary holding each of them, later numbers winning. */
  lemma ThreeFieldsDecode(a: (nat, FieldValue), b: (nat, FieldValue), c: (nat, FieldValue))
    ensures MessageFields(EncodeFields([a, b, c])) == map[a.0 := a.1][b.0 := b.1][c.0 := c.1]
  {
    var fs := [a, b, c];
    MessageFieldsOfEncoded(fs);
    var located := Located(fs, 0);
    FieldMapTriple(located);
  }

  /** Four encoded fields decode to the dictionary holding each of them, later numbers winning. */
  lemma FourFieldsDecode(a: (nat, FieldValue), b: (nat, FieldValue), c: (nat, FieldValue), d: (nat, FieldValue))
    ensures MessageFields(EncodeFields([a, b, c, d])) == map[a.0 := a.1][b.0 := b.1][c.0 := c.1][d.0 := d.1]
  {
    var fs := [a, b, c, d];
    MessageFieldsOfEncoded(fs);
    var located := Located(fs, 0);
    FieldMapTriple(located[..3]);
    FieldMapSnoc(located[..3], located[3]);
    assert located[..3] + [located[3]] == located;
  }

  /** Five encoded fields decode to the dictionary holding each of them, later numbers winning. */
  lemma FiveFieldsDecode(a: (nat, FieldValue), b: (nat, FieldValue), c: (nat, FieldValue), d: (nat, FieldValue),
                         e: (nat, FieldValue))
    ensures MessageFields(EncodeFields([a, b, c, d, e])) ==
      map[a.0 := a.1][b.0 := b.1][c.0 := c.1][d.0 := d.1][e.0 := e.1]
  {
    var fs := [a, b, c, d, e];
    MessageFieldsOfEncoded(fs);
    var located := Located(fs, 0);
    FieldMapTriple(located[..3]);
    FieldMapSnoc(located[..3], located[3]);
    FieldMapSnoc(located[..4], located[4]);
    assert located[..3] + [located[3]] == located[..4];
    assert located[..4] + [located[4]] == located;
  }

  /** One encoded field decodes to the dictionary holding it. */
  lemma OneFieldDecodes(a: (nat, FieldValue))
    ensures MessageFields(EncodeFields([a])) == map[a.0 := a.1]
  {
    MessageFieldsOfEncoded([a]);
    FieldMapSingle(Located([a], 0));
  }

  // ---------------------------------------------------------------- the signer

  /** A signer bound to one session: the counter advances with every signed message. */
  class MessageSigner {
    var vin: seq<byte>
    var epoch: seq<byte>
    var counter: nat
    var clockDelta: int
    var hmacKey: seq<byte>

    /** `__init__`; the VIN is taken as bytes. */
    constructor (vin: seq<byte>, epoch: seq<byte>, counter: nat, clockDelta: int, hmacKey: seq<byte>)
      ensures this.vin == vin && this.epoch == epoch && this.counter == counter
      ensures this.clockDelta == clockDelta && this.hmacKey == hmacKey
    {
      this.vin, this.epoch, this.counter := vin, epoch, counter;
      this.clockDelta, this.hmacKey := clockDelta, hmacKey;
    }

    /** `get_adjusted_time`: the local clock reading `now` moved to the vehicle's clock. */
    function AdjustedTime(now: int): (r: int)
      reads this
      ensures r + clockDelta == now
    {
      now - clockDelta
    }

    /** `increment_counter`. */
    method IncrementCounter() returns (c: nat)
      modifies this
      ensures counter == old(counter) + 1 && c == counter
      ensures vin == old(vin) && epoch == old(epoch) && clockDelta == old(clockDelta) && hmacKey == old(hmacKey)
    {
      counter := counter + 1;
      return counter;
    }

    /** `create_signature_data` for the current counter. */
    function CreateSignatureData(expiresAt: int): (r: Result<seq<byte>, PackError>)
      reads this
      ensures r.Ok? <==> |epoch| < 256
      ensures r.Ok? && |epoch| < 128 ==>
        && MessageFields(r.value) == map[1 := BytesField(epoch), 2 := VarintField(counter)]
        && |r.value| >= 4 && UnpackU32LE(r.value[|r.value| - 4..]) == expiresAt % 0x1_0000_0000
    {
      SignatureDataDecodes(epoch, counter, expiresAt);
      SignatureData(epoch, counter, expiresAt)
    }

    /**
     * `sign_message`: advance the counter (also when a later step fails), then
     * authenticate the command under it with an expiry 30 seconds ahead on the
     * vehicle's clock. `now` is the local clock and `hmac` the keyed hash.
     */
    method SignMessage(command: seq<byte>, domain: int, now: int, hmac: (seq<byte>, seq<byte>) -> seq<byte>)
      returns (r: Result<seq<byte>, PackError>)
      modifies this
      ensures counter == old(counter) + 1
      ensures vin == old(vin) && epoch == old(epoch) && clockDelta == old(clockDelta) && hmacKey == old(hmacKey)
      ensures r == SignedMessage(vin, epoch, counter, hmacKey, command, domain, AdjustedTime(now) + 30, hmac)
    {
      var c := IncrementCounter();
      var expiresAt := AdjustedTime(now) + 30;
      var metadata: seq<byte> := [0x01];
      var domainVarint := EncodeVarint(domain);
      metadata := metadata + domainVarint + vin + command + epoch;
      var counterVarint := EncodeVarint(c);
      metadata := metadata + counterVarint;
      var expiry := PackU32LE(expiresAt);
      metadata := metadata + expiry;
      assert metadata == HmacMetadata(domain, vin, command, epoch, c, expiry);
      var tag := hmac(hmacKey, metadata);
      if domain == 2 {
        tag := tag[..Min(16, |tag|)];
      }
      var epochLength := ByteOf(|epoch|);
      if epochLength.Err? {
        return Err(epochLength.error);
      }
      var tagLength := ByteOf(|tag|);
      if tagLength.Err? {
        return Err(tagLength.error);
      }
      var hmacData := [0x0a] + epochLength.value + epoch + [0x10] + counterVarint + [0x1d] + expiry
        + [0x22] + tagLength.value + tag;
      var hmacLength := ByteOf(|hmacData|);
      if hmacLength.Err? {
        return Err(hmacLength.error);
      }
      var signatureData := [0x6a] + hmacLength.value + hmacData;
      var domainByte := ByteOf(domain);
      if domainByte.Err? {
        return Err(domainByte.error);
      }
      var toDestination := [0x32, 0x02, 0x08] + domainByte.value;
      var field10 := [0x52] + EncodeLengthDelimited(command);
      var routable := toDestination + field10 + signatureData;
      assert routable == [0x32, 0x02, 0x08] + domainByte.value + [0x52] + EncodeLengthDelimited(command)
        + [0x6a] + hmacLength.value + hmacData;
      var header := PackU16BE(|routable|);
      return Ok(header + routable);
    }
  }
}
