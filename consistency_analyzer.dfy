/**
 * Consistency analysis over several body-controller-state responses: which
 * byte positions never vary, which do, and the contiguous runs of varying
 * positions.
 */
module ConsistencyAnalyzer {
  import opened Wrappers
  import opened Bytes

  /** An element of the list handed to the analysis: bytes, or some other object with a length. */
  datatype Response = Bytes(data: seq<byte>) | NotBytes(size: nat)

  function Size(r: Response): nat
  {
    match r
    case Bytes(d) => |d|
    case NotBytes(n) => n
  }

  /** The `error` key; its message text is not modelled, only what it reports. */
  datatype AnalysisError = NotBytesAt(index: nat) | DifferentLengths(lengths: set<nat>)

  /** The result dictionary without the display percentage. */
  datatype Consistency = Consistency(
    responseCount: nat,
    lengthConsistent: bool,
    commonLength: Option<nat>,
    consistentPositions: seq<nat>,
    variablePositions: seq<nat>,
    error: Option<AnalysisError>)

  /** `list(range(n))`. */
  function Range(n: nat): (r: seq<nat>)
    ensures |r| == n && forall k :: 0 <= k < n ==> r[k] == k
  {
    if n == 0 then [] else Range(n - 1) + [n - 1]
  }

  /** The index of the first element from `i` on that is not bytes. */
  function FirstNotBytes(rs: seq<Response>, i: nat): (r: Option<nat>)
    ensures r.Some? ==> i <= r.value < |rs| && rs[r.value].NotBytes?
    ensures r.Some? ==> forall k :: i <= k < r.value ==> rs[k].Bytes?
    ensures r.None? ==> forall k :: i <= k < |rs| ==> rs[k].Bytes?
    decreases |rs| - i
  {
    if i >= |rs| then None
    else if rs[i].NotBytes? then Some(i)
    else FirstNotBytes(rs, i + 1)
  }

  predicate AllBytes(rs: seq<Response>)
  {
    forall k :: 0 <= k < |rs| ==> rs[k].Bytes?
  }

  predicate AllLength(rs: seq<Response>, n: nat)
  {
    forall k :: 0 <= k < |rs| ==> rs[k].Bytes? && |rs[k].data| == n
  }

  function LengthSet(rs: seq<Response>): set<nat>
  {
    set k | 0 <= k < |rs| :: Size(rs[k])
  }

  /** Every response has the same byte at `pos` as the first one. */
  predicate SameAt(rs: seq<Response>, pos: nat)
    requires |rs| > 0 && AllLength(rs, Size(rs[0])) && pos < Size(rs[0])
  {
    forall k :: 0 <= k < |rs| ==> rs[k].data[pos] == rs[0].data[pos]
  }

  /** The positions below `n` at which all responses agree (`same`) or some response differs (`!same`), ascending. */
  function Positions(rs: seq<Response>, n: nat, same: bool): seq<nat>
    requires |rs| > 0 && AllLength(rs, Size(rs[0])) && n <= Size(rs[0])
  {
    if n == 0 then []
    else Positions(rs, n - 1, same) + (if SameAt(rs, n - 1) == same then [n - 1] else [])
  }

  function ConsistentPositions(rs: seq<Response>, n: nat): seq<nat>
    requires |rs| > 0 && AllLength(rs, Size(rs[0])) && n <= Size(rs[0])
  {
    Positions(rs, n, true)
  }

  function VariablePositions(rs: seq<Response>, n: nat): seq<nat>
    requires |rs| > 0 && AllLength(rs, Size(rs[0])) && n <= Size(rs[0])
  {
    Positions(rs, n, false)
  }

  /**
   * `analyze_consistency`: no responses, one response (taken whole, with no
   * type check), a non-bytes element, unequal lengths, or the per-position
   * partition.
   */
  function Analysis(rs: seq<Response>): (r: Consistency)
    ensures r.responseCount == |rs|
    ensures r.error.Some? ==> r.consistentPositions == [] && r.variablePositions == [] && !r.lengthConsistent
    ensures r.lengthConsistent <==> |rs| == 1 || (|rs| > 1 && AllLength(rs, Size(rs[0])))
    ensures |rs| == 0 ==> r.commonLength.None? && r.consistentPositions == [] && r.variablePositions == [] && r.error.None?
    ensures |rs| == 1 ==>
      && r.commonLength == Some(Size(rs[0])) && r.variablePositions == [] && r.error.None?
      && |r.consistentPositions| == Size(rs[0]) && forall k :: 0 <= k < Size(rs[0]) ==> r.consistentPositions[k] == k
  {
    if |rs| == 0 then Consistency(0, false, None, [], [], None)
    else if |rs| == 1 then Consistency(1, true, Some(Size(rs[0])), Range(Size(rs[0])), [], None)
    else match FirstNotBytes(rs, 0)
      case Some(i) => Consistency(|rs|, false, None, [], [], Some(NotBytesAt(i)))
      case None =>
        var n := |rs[0].data|;
        if AllLength(rs, n) then
          Consistency(|rs|, true, Some(n), ConsistentPositions(rs, n), VariablePositions(rs, n), None)
        else
          Consistency(|rs|, false, Some(n), [], [], Some(DifferentLengths(LengthSet(rs))))
  }

  /** The analysis as written: a type-check loop, a length check and a loop over positions. */
  method AnalyzeConsistency(rs: seq<Response>) returns (r: Consistency)
    ensures r == Analysis(rs)
  {
    if |rs| == 0 {
      return Consistency(0, false, None, [], [], None);
    }
    if |rs| == 1 {
      return Consistency(1, true, Some(Size(rs[0])), Range(Size(rs[0])), [], None);
    }
    for i := 0 to |rs|
      invariant FirstNotBytes(rs, i) == FirstNotBytes(rs, 0)
    {
      if rs[i].NotBytes? {
        return Consistency(|rs|, false, None, [], [], Some(NotBytesAt(i)));
      }
    }
    var n := |rs[0].data|;
    var lengthConsistent := true;
    for k := 0 to |rs|
      invariant lengthConsistent <==> forall m :: 0 <= m < k ==> |rs[m].data| == n
    {
      if |rs[k].data| != n {
        lengthConsistent := false;
      }
    }
    if !lengthConsistent {
      return Consistency(|rs|, false, Some(n), [], [], Some(DifferentLengths(LengthSet(rs))));
    }
    var consistent: seq<nat> := [];
    var variable: seq<nat> := [];
    for pos := 0 to n
      invariant consistent == ConsistentPositions(rs, pos)
      invariant variable == VariablePositions(rs, pos)
    {
      var same := AllSameAt(rs, pos);
      if same {
        consistent := consistent + [pos];
      } else {
        variable := variable + [pos];
      }
    }
    return Consistency(|rs|, true, Some(n), consistent, variable, None);
  }

  /** `all(b == bytes_at_pos[0] for b in bytes_at_pos)`. */
  method AllSameAt(rs: seq<Response>, pos: nat) returns (same: bool)
    requires |rs| > 0 && AllLength(rs, Size(rs[0])) && pos < Size(rs[0])
    ensures same == SameAt(rs, pos)
  {
    var first := rs[0].data[pos];
    for k := 0 to |rs|
      invariant forall m :: 0 <= m < k ==> rs[m].data[pos] == first
    {
      if rs[k].data[pos] != first {
        return false;
      }
    }
    return true;
  }

  /** Strictly increasing: ascending and without repeats. */
  predicate Increasing(s: seq<int>)
  {
    forall i, j :: 0 <= i < j < |s| ==> s[i] < s[j]
  }

  /**
   * Each position list is ascending and holds exactly the positions below
   * `n` whose agreement matches `same`.
   */
  lemma {:induction false} PositionsExact(rs: seq<Response>, n: nat, same: bool)
    requires |rs| > 0 && AllLength(rs, Size(rs[0])) && n <= Size(rs[0])
    ensures Increasing(Positions(rs, n, same))
    ensures forall p: nat :: p in Positions(rs, n, same) <==> p < n && SameAt(rs, p) == same
  {
    if n > 0 {
      PositionsExact(rs, n - 1, same);
      var c := Positions(rs, n - 1, same);
      forall k | 0 <= k < |c| ensures c[k] < n - 1 {
        assert c[k] in c;
      }
    }
  }

  /** Every position below `n` is in exactly one of the two lists. */
  lemma {:induction false} PositionsCount(rs: seq<Response>, n: nat)
    requires |rs| > 0 && AllLength(rs, Size(rs[0])) && n <= Size(rs[0])
    ensures |ConsistentPositions(rs, n)| + |VariablePositions(rs, n)| == n
  {
    if n > 0 {
      PositionsCount(rs, n - 1);
    }
  }

  /**
   * The two position lists are ascending and partition `[0, n)`: a position
   * is consistent exactly when every response has the same byte there, and
   * variable exactly when it is not consistent.
   */
  lemma PositionsPartition(rs: seq<Response>, n: nat)
    requires |rs| > 0 && AllLength(rs, Size(rs[0])) && n <= Size(rs[0])
    ensures Increasing(ConsistentPositions(rs, n)) && Increasing(VariablePositions(rs, n))
    ensures |ConsistentPositions(rs, n)| + |VariablePositions(rs, n)| == n
    ensures forall p: nat :: p in ConsistentPositions(rs, n) <==> p < n && SameAt(rs, p)
    ensures forall p: nat :: p in VariablePositions(rs, n) <==> p < n && !SameAt(rs, p)
  {
    PositionsExact(rs, n, true);
    PositionsExact(rs, n, false);
    PositionsCount(rs, n);
  }

  /**
   * Of two or more equal-length byte responses, the analysis reports the
   * partition of all positions, consistent and variable.
   */
  lemma AnalysisPartition(rs: seq<Response>)
    requires |rs| > 1 && AllLength(rs, Size(rs[0]))
    ensures var r := Analysis(rs); var n := |rs[0].data|;
      && r.lengthConsistent && r.commonLength == Some(n) && r.error.None?
      && Increasing(r.consistentPositions) && Increasing(r.variablePositions)
      && |r.consistentPositions| + |r.variablePositions| == n
      && (forall p: nat :: p in r.consistentPositions <==> p < n && SameAt(rs, p))
      && (forall p: nat :: p in r.variablePositions <==> p < n && !SameAt(rs, p))
  {
    assert FirstNotBytes(rs, 0).None?;
    PositionsPartition(rs, |rs[0].data|);
  }

  /** With two or more responses a non-bytes element is reported by its first index, and nothing else is computed. */
  lemma AnalysisNotBytes(rs: seq<Response>, i: nat)
    requires |rs| > 1 && i < |rs| && rs[i].NotBytes? && forall k :: 0 <= k < i ==> rs[k].Bytes?
    ensures Analysis(rs) == Consistency(|rs|, false, None, [], [], Some(NotBytesAt(i)))
  {
    FirstNotBytesIs(rs, 0, i);
  }

  lemma {:induction false} FirstNotBytesIs(rs: seq<Response>, j: nat, i: nat)
    requires j <= i < |rs| && rs[i].NotBytes? && forall k :: j <= k < i ==> rs[k].Bytes?
    ensures FirstNotBytes(rs, j) == Some(i)
    decreases i - j
  {
    if j < i {
      FirstNotBytesIs(rs, j + 1, i);
    }
  }

  /** Byte responses of unequal lengths are reported with the set of lengths. */
  lemma AnalysisDifferentLengths(rs: seq<Response>, k: nat)
    requires |rs| > 1 && AllBytes(rs) && k < |rs| && |rs[k].data| != |rs[0].data|
    ensures Analysis(rs).error == Some(DifferentLengths(LengthSet(rs)))
    ensures Analysis(rs).commonLength == Some(|rs[0].data|)
    ensures |rs[0].data| in LengthSet(rs) && |rs[k].data| in LengthSet(rs)
  {
    assert FirstNotBytes(rs, 0).None?;
    assert Size(rs[0]) == |rs[0].data| && Size(rs[k]) == |rs[k].data|;
  }

  // ---------------------------------------------------------------- variable regions

  /** Insert `x` into an ascending sequence. */
  function Insert(x: int, s: seq<int>): (r: seq<int>)
    ensures multiset(r) == multiset(s) + multiset{x}
    ensures |r| == |s| + 1
  {
    if s == [] || x <= s[0] then [x] + s
    else
      assert s == [s[0]] + s[1..];
      [s[0]] + Insert(x, s[1..])
  }

  /** Python's `sorted`, as an insertion sort. */
  function Sort(s: seq<int>): (r: seq<int>)
    ensures multiset(r) == multiset(s)
    ensures |r| == |s|
  {
    if s == [] then []
    else
      assert s == [s[0]] + s[1..];
      Insert(s[0], Sort(s[1..]))
  }

  predicate Ascending(s: seq<int>)
  {
    forall i, j :: 0 <= i < j < |s| ==> s[i] <= s[j]
  }

  predicate AtLeast(b: int, s: seq<int>)
  {
    forall k :: 0 <= k < |s| ==> b <= s[k]
  }

  /** Inserting a value no smaller than a bound of the sequence keeps the bound. */
  lemma {:induction false} InsertAtLeast(b: int, x: int, s: seq<int>)
    requires b <= x && AtLeast(b, s)
    ensures AtLeast(b, Insert(x, s))
  {
    if s != [] && x > s[0] {
      InsertAtLeast(b, x, s[1..]);
      assert Insert(x, s) == [s[0]] + Insert(x, s[1..]);
    }
  }

  lemma ConsAscending(h: int, t: seq<int>)
    requires Ascending(t) && AtLeast(h, t)
    ensures Ascending([h] + t)
  {
    var r := [h] + t;
    forall i, j | 0 <= i < j < |r|
      ensures r[i] <= r[j]
    {
      assert r[j] == t[j - 1];
      if i > 0 {
        assert r[i] == t[i - 1];
      }
    }
  }

  lemma {:induction false} InsertAscending(x: int, s: seq<int>)
    requires Ascending(s)
    ensures Ascending(Insert(x, s))
  {
    if s == [] || x <= s[0] {
      assert AtLeast(x, s);
      ConsAscending(x, s);
    } else {
      InsertAscending(x, s[1..]);
      InsertAtLeast(s[0], x, s[1..]);
      ConsAscending(s[0], Insert(x, s[1..]));
    }
  }

  /** The sort gives an ascending rearrangement of its input. */
  lemma {:induction false} SortAscending(s: seq<int>)
    ensures Ascending(Sort(s)) && multiset(Sort(s)) == multiset(s)
  {
    if s != [] {
      SortAscending(s[1..]);
      InsertAscending(s[0], Sort(s[1..]));
    }
  }

  /** Sorting an ascending sequence leaves it as it is. */
  lemma {:induction false} SortOfAscending(s: seq<int>)
    requires Ascending(s)
    ensures Sort(s) == s
  {
    if s != [] {
      SortOfAscending(s[1..]);
      assert s == [s[0]] + s[1..];
    }
  }

  /**
   * The runs of an ascending sequence: each element one above the end of
   * the last run extends it, any other element opens a new run.
   */
  function Runs(ps: seq<int>): (r: seq<(int, int)>)
    ensures |r| == 0 <==> |ps| == 0
  {
    if ps == [] then []
    else
      var front := Runs(ps[..|ps| - 1]);
      var p := ps[|ps| - 1];
      if front == [] then [(p, p)]
      else if p == front[|front| - 1].1 + 1 then front[..|front| - 1] + [(front[|front| - 1].0, p)]
      else front + [(p, p)]
  }

  /** The position lies inside one of the regions. */
  predicate Covered(rs: seq<(int, int)>, x: int)
  {
    exists k :: 0 <= k < |rs| && rs[k].0 <= x <= rs[k].1
  }

  /** Regions in order, each non-empty, with at least one position between consecutive ones. */
  predicate Separated(rs: seq<(int, int)>)
  {
    && (forall k :: 0 <= k < |rs| ==> rs[k].0 <= rs[k].1)
    && (forall k :: 0 <= k < |rs| - 1 ==> rs[k].1 + 1 < rs[k + 1].0)
  }

  /**
   * For distinct ascending positions the runs are separated regions whose
   * union is exactly the set of positions, and the last run ends at the
   * last position.
   */
  lemma {:induction false} RunsCover(ps: seq<int>)
    requires Increasing(ps)
    ensures Separated(Runs(ps))
    ensures forall x :: x in ps <==> Covered(Runs(ps), x)
    ensures ps != [] ==> Runs(ps)[|Runs(ps)| - 1].1 == ps[|ps| - 1]
  {
    if ps != [] {
      var init := ps[..|ps| - 1];
      var p := ps[|ps| - 1];
      RunsCover(init);
      var front := Runs(init);
      var r := Runs(ps);
      assert forall x :: x in ps <==> x in init || x == p by {
        assert ps == init + [p];
      }
      if front == [] {
        assert init == [];
        assert forall x :: Covered(r, x) <==> x == p by {
          forall x ensures Covered(r, x) <==> x == p {
            if x == p { assert r[0].0 <= x <= r[0].1; }
          }
        }
      } else {
        var last := front[|front| - 1];
        assert last.1 == init[|init| - 1] < p;
        if p == last.1 + 1 {
          RunsExtendCover(front, p);
        } else {
          RunsAppendCover(front, p);
        }
      }
    }
  }

  lemma RunsExtendCover(front: seq<(int, int)>, p: int)
    requires front != [] && Separated(front) && p == front[|front| - 1].1 + 1
    ensures var r := front[..|front| - 1] + [(front[|front| - 1].0, p)];
      && Separated(r)
      && forall x :: Covered(r, x) <==> Covered(front, x) || x == p
  {
    var n := |front|;
    var r := front[..n - 1] + [(front[n - 1].0, p)];
    forall x
      ensures Covered(r, x) <==> Covered(front, x) || x == p
    {
      if Covered(front, x) {
        var k :| 0 <= k < n && front[k].0 <= x <= front[k].1;
        assert r[k].0 <= x <= r[k].1;
      }
      if x == p {
        assert r[n - 1].0 <= x <= r[n - 1].1;
      }
      if Covered(r, x) {
        var k :| 0 <= k < n && r[k].0 <= x <= r[k].1;
        if k < n - 1 || x < p {
          assert front[k].0 <= x <= front[k].1;
        }
      }
    }
  }

  lemma RunsAppendCover(front: seq<(int, int)>, p: int)
    requires front != [] && Separated(front) && p > front[|front| - 1].1 + 1
    ensures var r := front + [(p, p)];
      && Separated(r)
      && forall x :: Covered(r, x) <==> Covered(front, x) || x == p
  {
    var n := |front|;
    var r := front + [(p, p)];
    forall x
      ensures Covered(r, x) <==> Covered(front, x) || x == p
    {
      if Covered(front, x) {
        var k :| 0 <= k < n && front[k].0 <= x <= front[k].1;
        assert r[k] == front[k];
      }
      if x == p {
        assert r[n].0 <= x <= r[n].1;
      }
      if Covered(r, x) {
        var k :| 0 <= k < n + 1 && r[k].0 <= x <= r[k].1;
        if k < n {
          assert front[k].0 <= x <= front[k].1;
        }
      }
    }
  }

  /** `identify_variable_regions` on the `variable_positions` of a result: sort, then close a region at each gap. */
  method IdentifyVariableRegions(variable: seq<nat>) returns (regions: seq<(int, int)>)
    ensures regions == Runs(Sort(variable))
  {
    if variable == [] {
      return [];
    }
    var positions := Sort(variable);
    var start := positions[0];
    var prev := positions[0];
    regions := [];
    assert positions[..1] == [positions[0]];
    for k := 1 to |positions|
      invariant prev == positions[k - 1]
      invariant regions + [(start, prev)] == Runs(positions[..k])
    {
      var pos := positions[k];
      assert positions[..k + 1][..k] == positions[..k];
      if pos != prev + 1 {
        regions := regions + [(start, prev)];
        start := pos;
      }
      prev := pos;
    }
    assert positions[..|positions|] == positions;
    regions := regions + [(start, prev)];
  }

  /**
   * The regions of an analysis of equal-length responses are separated and
   * cover exactly the positions where some response differs from the first;
   * there are none exactly when every position is consistent.
   */
  lemma RegionsOfAnalysis(rs: seq<Response>)
    requires |rs| > 1 && AllLength(rs, Size(rs[0]))
    ensures var r := Analysis(rs); var regions := Runs(Sort(r.variablePositions));
      && Separated(regions)
      && (forall x: nat :: Covered(regions, x) <==> x < |rs[0].data| && !SameAt(rs, x))
      && (regions == [] <==> forall p :: 0 <= p < |rs[0].data| ==> SameAt(rs, p))
  {
    var r := Analysis(rs);
    AnalysisPartition(rs);
    var v: seq<int> := r.variablePositions;
    assert Ascending(v);
    SortOfAscending(v);
    RunsCover(v);
    var regions := Runs(Sort(r.variablePositions));
    forall x: nat ensures Covered(regions, x) <==> x < |rs[0].data| && !SameAt(rs, x) {
      assert x in v <==> x in r.variablePositions;
    }
    if regions != [] {
      assert v[0] in r.variablePositions;
    }
  }
}
