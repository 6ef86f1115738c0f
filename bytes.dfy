/**
 * Byte sequences and the fixed-width integer packings the protocol uses
 * (`ustruct.pack('>H', n)` and `ustruct.pack('<I', n)`).
 */
module Bytes {
  import opened Wrappers

  type byte = x: int | 0 <= x < 256

  /** Why a one-byte length could not be produced (`ValueError` from `bytes([n])`). */
  datatype PackError = ByteOutOfRange(n: int)

  /** Concatenation of a list of packets (`b''.join(packets)`). */
  function Concat(ps: seq<seq<byte>>): (r: seq<byte>)
  {
    if ps == [] then [] else Concat(ps[..|ps| - 1]) + ps[|ps| - 1]
  }

  lemma {:induction false} ConcatAppend(ps: seq<seq<byte>>, qs: seq<seq<byte>>)
    ensures Concat(ps + qs) == Concat(ps) + Concat(qs)
    decreases |qs|
  {
    if qs == [] {
      assert ps + qs == ps;
    } else {
      var last := qs[|qs| - 1];
      assert (ps + qs)[..|ps + qs| - 1] == ps + qs[..|qs| - 1];
      ConcatAppend(ps, qs[..|qs| - 1]);
    }
  }

  lemma ConcatCons(p: seq<byte>, qs: seq<seq<byte>>)
    ensures Concat([p] + qs) == p + Concat(qs)
  {
    ConcatAppend([p], qs);
    assert Concat([p]) == Concat([]) + p;
  }

  lemma {:induction false} ConcatLength(ps: seq<seq<byte>>)
    ensures |Concat(ps)| == TotalLength(ps)
  {
    if ps != [] {
      ConcatLength(ps[..|ps| - 1]);
      TotalLengthSnoc(ps[..|ps| - 1], ps[|ps| - 1]);
      assert ps[..|ps| - 1] + [ps[|ps| - 1]] == ps;
    }
  }

  /** `sum(len(p) for p in ps)`. */
  function TotalLength(ps: seq<seq<byte>>): nat
  {
    if ps == [] then 0 else |ps[0]| + TotalLength(ps[1..])
  }

  lemma {:induction false} TotalLengthSnoc(ps: seq<seq<byte>>, p: seq<byte>)
    ensures TotalLength(ps + [p]) == TotalLength(ps) + |p|
  {
    if ps != [] {
      assert (ps + [p])[1..] == ps[1..] + [p];
      TotalLengthSnoc(ps[1..], p);
    }
  }

  /**
   * `e` occurs in `data` starting at `offset`. The definition goes through
   * `AtStep`, so a proof sees the bytes only where it asks for `AtStep`.
   */
  predicate At(data: seq<byte>, offset: nat, e: seq<byte>)
    decreases |e|, 1
  {
    AtStep(data, offset, e)
  }

  /** One byte of an occurrence: the first byte matches and the rest occurs right after it. */
  predicate AtStep(data: seq<byte>, offset: nat, e: seq<byte>)
    decreases |e|, 0
  {
    if e == [] then offset <= |data|
    else offset < |data| && data[offset] == e[0] && At(data, offset + 1, e[1..])
  }

  /** An occurrence is a window of the data, and a window is an occurrence. */
  lemma {:induction false} AtSlice(data: seq<byte>, offset: nat, e: seq<byte>)
    ensures At(data, offset, e) <==> offset + |e| <= |data| && data[offset..offset + |e|] == e
    decreases |e|
  {
    assert At(data, offset, e) == AtStep(data, offset, e);
    if e != [] {
      AtSlice(data, offset + 1, e[1..]);
      if offset + |e| <= |data| {
        assert data[offset..offset + |e|] == [data[offset]] + data[offset + 1..offset + 1 + |e[1..]|];
        assert e == [e[0]] + e[1..];
      }
    }
  }

  /** An occurrence of a concatenation is an occurrence of each part, one after the other. */
  lemma {:induction false} AtSplit(data: seq<byte>, offset: nat, e: seq<byte>, a: seq<byte>, b: seq<byte>)
    requires e == a + b && At(data, offset, e)
    ensures At(data, offset, a) && At(data, offset + |a|, b) && |e| == |a| + |b|
    decreases |a|
  {
    assert AtStep(data, offset, e);
    if a == [] {
      assert e == b;
      assert AtStep(data, offset, a);
      AtBound(data, offset, e);
    } else {
      assert e[1..] == a[1..] + b;
      AtSplit(data, offset + 1, e[1..], a[1..], b);
      assert AtStep(data, offset, a);
    }
  }

  lemma {:induction false} AtBound(data: seq<byte>, offset: nat, e: seq<byte>)
    requires At(data, offset, e)
    ensures offset + |e| <= |data|
    decreases |e|
  {
    assert AtStep(data, offset, e);
    if e != [] {
      AtBound(data, offset + 1, e[1..]);
    }
  }

  /** A sequence occurs at the start of itself followed by anything. */
  lemma AtPrefix(e: seq<byte>, rest: seq<byte>)
    ensures At(e + rest, 0, e)
  {
    assert (e + rest)[0..|e|] == e;
    AtSlice(e + rest, 0, e);
  }

  lemma AtWhole(e: seq<byte>)
    ensures At(e, 0, e)
  {
    AtPrefix(e, []);
    assert e + [] == e;
  }

  /** The Python slice `s[lo:hi]` for `0 <= lo`: the upper bound is clamped to the length. */
  function Slice(s: seq<byte>, lo: nat, hi: nat): (r: seq<byte>)
    ensures |r| == if lo <= hi && lo <= |s| then Min(hi, |s|) - lo else 0
    ensures forall k :: 0 <= k < |r| ==> r[k] == s[lo + k]
  {
    if lo <= hi && lo <= |s| then s[lo..Min(hi, |s|)] else []
  }

  function Min(a: int, b: int): int { if a <= b then a else b }

  function Max(a: int, b: int): int { if a <= b then b else a }

  /**
   * `ustruct.pack('>H', n)`: the low-order 16 bits of `n`, most significant
   * byte first. MicroPython's `ustruct` does not range-check, so a value
   * outside 0..65535 (or a negative one) packs as its residue modulo 2^16.
   */
  function PackU16BE(n: int): (r: seq<byte>)
    ensures |r| == 2 && UnpackU16BE(r) == n % 0x1_0000
    ensures 0 <= n < 0x1_0000 ==> UnpackU16BE(r) == n
  {
    var m := n % 0x1_0000;
    [m / 256, m % 256]
  }

  /** `struct.unpack('>H', b[:2])[0]`. */
  function UnpackU16BE(b: seq<byte>): int
    requires |b| >= 2
  {
    (b[0] as int) * 256 + b[1] as int
  }

  /** Unpacking the first two bytes and packing the value again gives those two bytes back. */
  lemma U16BERoundTrip(b: seq<byte>)
    requires |b| >= 2
    ensures 0 <= UnpackU16BE(b) < 0x1_0000
    ensures PackU16BE(UnpackU16BE(b)) == b[..2]
  {
    var n := UnpackU16BE(b);
    assert n / 256 == b[0] && n % 256 == b[1];
  }

  /**
   * `ustruct.pack('<I', n)`: the low-order 32 bits of `n`, least significant
   * byte first; as for `'>H'`, no range check, so `n` packs modulo 2^32.
   */
  function PackU32LE(n: int): (r: seq<byte>)
    ensures |r| == 4 && UnpackU32LE(r) == n % 0x1_0000_0000
    ensures 0 <= n < 0x1_0000_0000 ==> UnpackU32LE(r) == n
  {
    var m := n % 0x1_0000_0000;
    var m1 := m / 256;
    var m2 := m1 / 256;
    [m % 256, m1 % 256, m2 % 256, m2 / 256]
  }

  /** `struct.unpack('<I', b[:4])[0]`. */
  function UnpackU32LE(b: seq<byte>): int
    requires |b| >= 4
  {
    b[0] as int + 256 * (b[1] as int) + 0x1_0000 * (b[2] as int) + 0x100_0000 * (b[3] as int)
  }

  /** Unpacking the first four bytes and packing the value again gives those four bytes back. */
  lemma U32LERoundTrip(b: seq<byte>)
    requires |b| >= 4
    ensures 0 <= UnpackU32LE(b) < 0x1_0000_0000
    ensures PackU32LE(UnpackU32LE(b)) == b[..4]
  {
    var n := UnpackU32LE(b);
    var n1 := b[1] as int + 256 * (b[2] as int) + 0x1_0000 * (b[3] as int);
    var n2 := b[2] as int + 256 * (b[3] as int);
    assert n == b[0] as int + 256 * n1;
    assert n1 == b[1] as int + 256 * n2;
    assert n % 256 == b[0] && n / 256 == n1;
    assert n1 % 256 == b[1] && n1 / 256 == n2;
    assert n2 % 256 == b[2] && n2 / 256 == b[3];
  }

  /** `bytes([n])`: one byte, or `ValueError` outside 0..255. */
  function ByteOf(n: int): (r: Result<seq<byte>, PackError>)
    ensures r.Ok? <==> 0 <= n < 256
  {
    if 0 <= n < 256 then Ok([n]) else Err(ByteOutOfRange(n))
  }

  /** The slices `data[i:i+size]` for `i = 0, size, 2*size, ...`, as fragmentation and hex dumps cut them. */
  function Chunks(data: seq<byte>, size: nat): (r: seq<seq<byte>>)
    requires size > 0
    decreases |data|
  {
    if |data| == 0 then [] else [data[..Min(size, |data|)]] + Chunks(data[Min(size, |data|)..], size)
  }

  /** One step of the chunking, at any offset inside the message. */
  lemma ChunksStep(data: seq<byte>, i: nat, size: nat)
    requires size > 0 && i < |data|
    ensures Chunks(data[i..], size) == [data[i..Min(i + size, |data|)]] + Chunks(data[Min(i + size, |data|)..], size)
  {
    assert data[i..][..Min(size, |data| - i)] == data[i..Min(i + size, |data|)];
    assert data[i..][Min(size, |data| - i)..] == data[Min(i + size, |data|)..];
  }

  /** Chunking loses nothing and reorders nothing: the slices join up to the data. */
  lemma {:induction false} ChunksJoin(data: seq<byte>, size: nat)
    requires size > 0
    ensures Concat(Chunks(data, size)) == data
    decreases |data|
  {
    if |data| > 0 {
      var n := Min(size, |data|);
      ChunksJoin(data[n..], size);
      ConcatCons(data[..n], Chunks(data[n..], size));
      assert data[..n] + data[n..] == data;
    }
  }

  /** There are ceil(len/size) slices, each non-empty, all of the full size except possibly the last. */
  lemma {:induction false} ChunksSizes(data: seq<byte>, size: nat)
    requires size > 0
    ensures (|Chunks(data, size)| - 1) * size < |data| <= |Chunks(data, size)| * size
    ensures forall i :: 0 <= i < |Chunks(data, size)| ==> 0 < |Chunks(data, size)[i]| <= size
    ensures forall i :: 0 <= i < |Chunks(data, size)| - 1 ==> |Chunks(data, size)[i]| == size
    decreases |data|
  {
    if |data| > 0 {
      var n := Min(size, |data|);
      var rest := Chunks(data[n..], size);
      ChunksSizes(data[n..], size);
      var all := Chunks(data, size);
      assert all == [data[..n]] + rest;
      if |data| <= size {
        assert |data[n..]| == 0;
        assert rest == [];
      } else {
        assert |all| * size == |rest| * size + size;
      }
      forall i | 0 <= i < |all|
        ensures 0 < |all[i]| <= size
        ensures i < |all| - 1 ==> |all[i]| == size
      {
        if i > 0 {
          assert all[i] == rest[i - 1];
        }
      }
    }
  }
}
