/**
 * Structural checks of a body-controller-state response against the
 * pattern seen from the vehicle (a fixed prefix, a 16-byte routing address,
 * a fixed suffix, a plausible length), and a byte-by-byte comparison of two
 * responses. A value that is not bytes at all is `None`.
 */
module ResponseValidator {
  import opened Wrappers
  import opened Bytes

  const ExpectedPrefix: seq<byte> := [0x32, 0x12, 0x12, 0x10]
  const ExpectedSuffix: seq<byte> :=
    [0x3a, 0x02, 0x08, 0x02, 0x52, 0x0c, 0x0a, 0x0a, 0x0a, 0x02, 0x40, 0x03, 0x10, 0x01, 0x18, 0x02, 0x20, 0x01]
  const MinResponseLength: nat := 35
  const MaxResponseLength: nat := 100

  /** The messages `validate_response` appends, with what they report. */
  datatype ValidationError =
    | NotBytes
    | TooShort(length: nat)
    | TooLong(length: nat)
    | PrefixMismatch(got: seq<byte>)
    | TooShortForPrefix
    | SuffixMismatch(got: seq<byte>)
    | TooShortForSuffix

  datatype Validation = Validation(
    valid: bool,
    prefixMatch: bool,
    suffixMatch: bool,
    lengthValid: bool,
    routingAddress: Option<seq<byte>>,
    errors: seq<ValidationError>)

  /** The error of the length check, if it fails. */
  function LengthErrors(b: seq<byte>): seq<ValidationError>
  {
    if |b| < MinResponseLength then [TooShort(|b|)]
    else if |b| > MaxResponseLength then [TooLong(|b|)]
    else []
  }

  /** The error of the prefix check, if it fails. */
  function PrefixErrors(b: seq<byte>): seq<ValidationError>
  {
    if |b| < 4 then [TooShortForPrefix]
    else if b[..4] != ExpectedPrefix then [PrefixMismatch(b[..4])]
    else []
  }

  /** The error of the suffix check, if it fails. */
  function SuffixErrors(b: seq<byte>): seq<ValidationError>
  {
    if |b| < 18 then [TooShortForSuffix]
    else if b[|b| - 18..] != ExpectedSuffix then [SuffixMismatch(b[|b| - 18..])]
    else []
  }

  /**
   * `validate_response` as a value: every check runs and reports on its own;
   * the response is valid exactly when no check reported an error.
   */
  function Validate(input: Option<seq<byte>>): (r: Validation)
    ensures input.None? ==> !r.valid && r.errors == [NotBytes] && r.routingAddress.None?
    ensures input.Some? ==>
      var b := input.value;
      && (r.valid <==> r.errors == [])
      && (r.lengthValid <==> MinResponseLength <= |b| <= MaxResponseLength)
      && (r.prefixMatch <==> |b| >= 4 && b[..4] == ExpectedPrefix)
      && (r.suffixMatch <==> |b| >= 18 && b[|b| - 18..] == ExpectedSuffix)
      && (r.routingAddress.Some? <==> |b| >= 20)
      && (r.routingAddress.Some? ==> r.routingAddress.value == b[4..20])
      && r.errors == LengthErrors(b) + PrefixErrors(b) + SuffixErrors(b)
  {
    match input
    case None => Validation(false, false, false, false, None, [NotBytes])
    case Some(b) =>
      var errors := LengthErrors(b) + PrefixErrors(b) + SuffixErrors(b);
      Validation(errors == [], PrefixErrors(b) == [], SuffixErrors(b) == [], LengthErrors(b) == [],
                 if |b| >= 20 then Some(b[4..20]) else None, errors)
  }

  /** `validate_response`, check by check on a mutable result. */
  method ValidateResponse(input: Option<seq<byte>>) returns (r: Validation)
    ensures r == Validate(input)
  {
    r := Validation(true, false, false, false, None, []);
    if input.None? {
      r := r.(valid := false, errors := r.errors + [NotBytes]);
      return;
    }
    var b := input.value;
    var n := |b|;
    if n < MinResponseLength {
      r := r.(valid := false, errors := r.errors + [TooShort(n)]);
    } else if n > MaxResponseLength {
      r := r.(valid := false, errors := r.errors + [TooLong(n)]);
    } else {
      r := r.(lengthValid := true);
    }
    assert r == Validation(LengthErrors(b) == [], false, false, LengthErrors(b) == [], None, LengthErrors(b));
    if n >= |ExpectedPrefix| {
      var prefix := b[..|ExpectedPrefix|];
      if prefix == ExpectedPrefix {
        r := r.(prefixMatch := true);
      } else {
        r := r.(valid := false, errors := r.errors + [PrefixMismatch(prefix)]);
      }
    } else {
      r := r.(valid := false, errors := r.errors + [TooShortForPrefix]);
    }
    ghost var checked := LengthErrors(b) + PrefixErrors(b);
    assert r == Validation(checked == [], PrefixErrors(b) == [], false, LengthErrors(b) == [], None, checked);
    if n >= |ExpectedPrefix| + 16 {
      r := r.(routingAddress := Some(b[|ExpectedPrefix|..|ExpectedPrefix| + 16]));
    }
    assert r.routingAddress == if |b| >= 20 then Some(b[4..20]) else None;
    if n >= |ExpectedSuffix| {
      var suffix := b[n - |ExpectedSuffix|..];
      if suffix == ExpectedSuffix {
        r := r.(suffixMatch := true);
      } else {
        r := r.(valid := false, errors := r.errors + [SuffixMismatch(suffix)]);
      }
    } else {
      r := r.(valid := false, errors := r.errors + [TooShortForSuffix]);
    }
  }

  /**
   * A response of the expected shape (prefix, routing address, anything,
   * suffix) of a plausible length passes every check and yields its routing
   * address.
   */
  lemma ExpectedShapeIsValid(routing: seq<byte>, middle: seq<byte>)
    requires |routing| == 16 && MinResponseLength <= 38 + |middle| <= MaxResponseLength
    ensures Validate(Some(ExpectedPrefix + routing + middle + ExpectedSuffix)) ==
      Validation(true, true, true, true, Some(routing), [])
  {
    var b := ExpectedPrefix + routing + middle + ExpectedSuffix;
    assert b[..4] == ExpectedPrefix;
    assert b[4..20] == routing;
    assert b[|b| - 18..] == ExpectedSuffix;
  }

  /** Too short a response fails all three checks, and reports them in order. */
  lemma ShortResponseErrors(b: seq<byte>)
    requires |b| < 4
    ensures Validate(Some(b)).errors == [TooShort(|b|), TooShortForPrefix, TooShortForSuffix]
    ensures !Validate(Some(b)).valid && Validate(Some(b)).routingAddress.None?
  {
  }

  // ---------------------------------------------------------------- comparison

  /** An entry of `differences`: a differing byte, or one of the messages. */
  datatype Difference =
    | ByteDiff(pos: nat, b1: byte, b2: byte)
    | FirstNotBytes
    | SecondNotBytes
    | LengthMismatch(len1: nat, len2: nat)

  datatype Comparison = Comparison(identical: bool, lengthMatch: bool, differences: seq<Difference>, differenceCount: nat)

  /** The positions a list of differences names, in its order. */
  function Positions(ds: seq<Difference>): (r: seq<nat>)
    ensures |r| == |ds|
  {
    if ds == [] then [] else Positions(ds[..|ds| - 1]) + [if ds[|ds| - 1].ByteDiff? then ds[|ds| - 1].pos else 0]
  }

  /** The byte differences of two equal-length responses, position by position. */
  function ByteDiffs(a: seq<byte>, b: seq<byte>): seq<Difference>
    requires |a| == |b|
  {
    if |a| == 0 then []
    else
      var n := |a| - 1;
      ByteDiffs(a[..n], b[..n]) + if a[n] != b[n] then [ByteDiff(n, a[n], b[n])] else []
  }

  /**
   * There is one entry per differing position, in ascending order, each
   * with the two bytes, and nothing else.
   */
  lemma ByteDiffsExact(a: seq<byte>, b: seq<byte>)
    requires |a| == |b|
    ensures forall k :: 0 <= k < |ByteDiffs(a, b)| ==> ByteDiffs(a, b)[k].ByteDiff? && DiffAt(ByteDiffs(a, b)[k], a, b)
    ensures forall j, k :: 0 <= j < k < |ByteDiffs(a, b)| ==> ByteDiffs(a, b)[j].pos < ByteDiffs(a, b)[k].pos
    ensures forall i :: 0 <= i < |a| ==> (a[i] != b[i] <==> i in Positions(ByteDiffs(a, b)))
  {
    var r := ByteDiffs(a, b);
    ByteDiffsSound(a, b);
    ByteDiffsComplete(a, b);
    PositionsOfDiffs(r);
  }

  /** `d` reports position `d.pos`, where the two responses differ, with their two bytes. */
  predicate DiffAt(d: Difference, a: seq<byte>, b: seq<byte>)
  {
    d.ByteDiff? && d.pos < |a| && d.pos < |b| && d.b1 == a[d.pos] && d.b2 == b[d.pos] && d.b1 != d.b2
  }

  lemma {:induction false} ByteDiffsSound(a: seq<byte>, b: seq<byte>)
    requires |a| == |b|
    ensures forall k :: 0 <= k < |ByteDiffs(a, b)| ==> ByteDiffs(a, b)[k].ByteDiff? && DiffAt(ByteDiffs(a, b)[k], a, b)
    ensures forall j, k :: 0 <= j < k < |ByteDiffs(a, b)| ==> ByteDiffs(a, b)[j].pos < ByteDiffs(a, b)[k].pos
  {
    if |a| > 0 {
      var n := |a| - 1;
      var front := ByteDiffs(a[..n], b[..n]);
      ByteDiffsSound(a[..n], b[..n]);
      assert forall i :: 0 <= i < n ==> a[..n][i] == a[i] && b[..n][i] == b[i];
      var r := ByteDiffs(a, b);
      forall k | 0 <= k < |front|
        ensures front[k].ByteDiff? && front[k].pos < n
        ensures front[k].b1 == a[front[k].pos] && front[k].b2 == b[front[k].pos] && front[k].b1 != front[k].b2
      {
        var p := front[k].pos;
        assert a[..n][p] == a[p] && b[..n][p] == b[p];
      }
      if a[n] != b[n] {
        assert r == front + [ByteDiff(n, a[n], b[n])];
        assert forall k :: 0 <= k < |front| ==> r[k] == front[k];
      } else {
        assert r == front;
      }
    }
  }

  lemma {:induction false} ByteDiffsComplete(a: seq<byte>, b: seq<byte>)
    requires |a| == |b|
    ensures forall i :: 0 <= i < |a| && a[i] != b[i] ==> i in Positions(ByteDiffs(a, b))
  {
    if |a| > 0 {
      var n := |a| - 1;
      var front := ByteDiffs(a[..n], b[..n]);
      ByteDiffsComplete(a[..n], b[..n]);
      assert forall i :: 0 <= i < n ==> a[..n][i] == a[i] && b[..n][i] == b[i];
      var r := ByteDiffs(a, b);
      if a[n] != b[n] {
        assert r[..|r| - 1] == front;
        assert Positions(r) == Positions(front) + [n];
      } else {
        assert r == front;
      }
    }
  }

  lemma PositionsOfDiffs(ds: seq<Difference>)
    requires forall k :: 0 <= k < |ds| ==> ds[k].ByteDiff?
    ensures forall k :: 0 <= k < |ds| ==> Positions(ds)[k] == ds[k].pos
  {
    if ds != [] {
      PositionsOfDiffs(ds[..|ds| - 1]);
    }
  }

  /** `compare_responses` as a value. */
  function Compare(first: Option<seq<byte>>, second: Option<seq<byte>>): (r: Comparison)
    ensures r.identical ==> first.Some? && second.Some? && first.value == second.value
    ensures first.Some? && second.Some? && first.value == second.value ==> r.identical && r.differences == []
    ensures r.differenceCount == if r.lengthMatch then |r.differences| else 0
    ensures r.lengthMatch <==> first.Some? && second.Some? && |first.value| == |second.value|
    ensures !r.lengthMatch ==> |r.differences| == 1 && !r.identical
    ensures r.lengthMatch ==> (r.identical <==> r.differences == [])
  {
    if first.None? then Comparison(false, false, [FirstNotBytes], 0)
    else if second.None? then Comparison(false, false, [SecondNotBytes], 0)
    else
      var a, b := first.value, second.value;
      if |a| != |b| then Comparison(false, false, [LengthMismatch(|a|, |b|)], 0)
      else
        var ds := ByteDiffs(a, b);
        ByteDiffsExact(a, b);
        assert ds == [] ==> a == b by {
          if ds == [] {
            assert forall i :: 0 <= i < |a| ==> a[i] == b[i];
          }
        }
        Comparison(ds == [], true, ds, |ds|)
  }

  /** `compare_responses`: one pass over the positions, collecting the differing ones. */
  method CompareResponses(first: Option<seq<byte>>, second: Option<seq<byte>>) returns (r: Comparison)
    ensures r == Compare(first, second)
  {
    r := Comparison(false, false, [], 0);
    if first.None? {
      return r.(differences := r.differences + [FirstNotBytes]);
    }
    if second.None? {
      return r.(differences := r.differences + [SecondNotBytes]);
    }
    var a, b := first.value, second.value;
    r := r.(lengthMatch := |a| == |b|);
    if !r.lengthMatch {
      return r.(differences := r.differences + [LengthMismatch(|a|, |b|)]);
    }
    var differences: seq<Difference> := [];
    for i := 0 to |a|
      invariant differences == ByteDiffs(a[..i], b[..i])
    {
      assert a[..i + 1][..i] == a[..i] && b[..i + 1][..i] == b[..i];
      if a[i] != b[i] {
        differences := differences + [ByteDiff(i, a[i], b[i])];
      }
    }
    assert a[..|a|] == a && b[..|b|] == b;
    r := r.(differences := differences, differenceCount := |differences|, identical := |differences| == 0);
  }
}
