/** Block partitions of a state sequence: for each block count d, the first npoints
    states are cut into d contiguous blocks of npoints / d states each (the remainder
    is dropped) and each block is histogrammed; then the blocks of d = 2 and d = 4 are
    checked against the single block of d = 1. */
module Blocks {
  import opened Wrappers
  import opened Bits
  import opened Histogram

  function Min(a: nat, b: nat): nat {
    if a <= b then a else b
  }

  /** Python's slice ys[lo:hi] for non-negative bounds: both bounds are cut back to the
      length, and the slice is empty when its end is not past its start. */
  function PySlice<T>(ys: seq<T>, lo: nat, hi: nat): (r: seq<T>)
    ensures |r| == if hi <= lo || |ys| <= lo then 0 else Min(hi, |ys|) - lo
    ensures forall j :: 0 <= j < |r| ==> lo + j < |ys| && r[j] == ys[lo + j]
  {
    var a := Min(lo, |ys|);
    var b := Min(hi, |ys|);
    if b <= a then [] else ys[a..b]
  }

  /** Block i of length bl: ys[i * bl : (i + 1) * bl]. It holds the states from
      position i * bl on, at most bl of them: exactly bl when the sequence reaches the
      block's end, and otherwise every remaining state. */
  function BlockSlice(ys: seq<int>, bl: nat, i: nat): (part: seq<int>)
    ensures |part| <= bl
    ensures (i + 1) * bl <= |ys| ==> |part| == bl
    ensures |part| == if |ys| <= i * bl then 0 else Min((i + 1) * bl, |ys|) - i * bl
    ensures forall j :: 0 <= j < |part| ==> i * bl + j < |ys| && part[j] == ys[i * bl + j]
  {
    assert (i + 1) * bl == i * bl + bl;
    PySlice(ys, i * bl, (i + 1) * bl)
  }

  /** The histograms of the d blocks for block count d. */
  function BlockHistograms(ys: seq<int>, nchannels: nat, npoints: nat, d: nat): (hs: seq<seq<nat>>)
    requires d >= 1
    ensures |hs| == d
    ensures forall i :: 0 <= i < d ==> |hs[i]| == Pow2(nchannels)
  {
    seq(d, i requires 0 <= i < d => States2Distr(BlockSlice(ys, npoints / d, i), nchannels))
  }

  /** Each key d maps to exactly d count vectors of nbins entries each. */
  predicate WellFormed(distr: map<nat, seq<seq<nat>>>, nbins: nat) {
    forall d :: d in distr ==>
      d >= 1 && |distr[d]| == d && forall i :: 0 <= i < d ==> |distr[d][i]| == nbins
  }

  predicate PositiveCounts(fractions: seq<nat>) {
    forall i :: 0 <= i < |fractions| ==> fractions[i] >= 1
  }

  /** The dictionary of block histograms, before its consistency check. */
  function Partition(ys: seq<int>, nchannels: nat, npoints: nat, fractions: seq<nat>): (distr: map<nat, seq<seq<nat>>>)
    requires PositiveCounts(fractions)
    ensures forall d :: d in distr <==> d in fractions
    ensures WellFormed(distr, Pow2(nchannels))
  {
    map d | d in fractions :: BlockHistograms(ys, nchannels, npoints, d)
  }

  /** The total count held by a list of count vectors. */
  function Totals(hs: seq<seq<nat>>): nat {
    if |hs| == 0 then 0 else Totals(hs[..|hs| - 1]) + Sum(hs[|hs| - 1])
  }

  /** Element-wise sum of count vectors of length n. */
  function VectorSum(hs: seq<seq<nat>>, n: nat): (sm: seq<nat>)
    requires forall i :: 0 <= i < |hs| ==> |hs[i]| == n
    ensures |sm| == n
  {
    if |hs| == 0 then Zeros(n) else Add(VectorSum(hs[..|hs| - 1], n), hs[|hs| - 1])
  }

  /** The total of the summed vectors is the total count of all the vectors. */
  lemma {:induction false} VectorSumTotal(hs: seq<seq<nat>>, n: nat)
    requires forall i :: 0 <= i < |hs| ==> |hs[i]| == n
    ensures Sum(VectorSum(hs, n)) == Totals(hs)
  {
    if |hs| == 0 {
      SumZeros(n);
    } else {
      VectorSumTotal(hs[..|hs| - 1], n);
      SumAdd(VectorSum(hs[..|hs| - 1], n), hs[|hs| - 1]);
    }
  }

  /** The tolerance of the consistency assertions. */
  const Tolerance: real := 0.0001

  /** One round of the consistency check, for block count d: if d is a key, the summed
      blocks must not exceed npoints in total (within the tolerance), and must not
      exceed the d = 1 histogram in any bin (within the tolerance); looking up the
      d = 1 histogram fails when key 1 is absent. */
  function CheckBlockCount(distr: map<nat, seq<seq<nat>>>, d: nat, npoints: nat, nbins: nat): (r: Outcome<Error>)
    requires WellFormed(distr, nbins)
    ensures r.Pass? <==> Consistent(distr, d, npoints, nbins)
    ensures r.Fail? ==> r.error == ConsistencyViolated || r.error == MissingKey(1)
    ensures r == Fail(MissingKey(1)) <==>
      d in distr && Sum(VectorSum(distr[d], nbins)) <= npoints && 1 !in distr
  {
    if d !in distr then Pass
    else
      var sm := VectorSum(distr[d], nbins);
      if !((Sum(sm) as int - npoints as int) as real < Tolerance) then Fail(ConsistencyViolated)
      else if 1 !in distr then Fail(MissingKey(1))
      else if !(forall j :: 0 <= j < nbins ==> (sm[j] as int - distr[1][0][j] as int) as real < Tolerance) then Fail(ConsistencyViolated)
      else Pass
  }

  /** Key d, if present, has blocks that sum to at most npoints and to at most the d = 1
      histogram in every bin. */
  predicate Consistent(distr: map<nat, seq<seq<nat>>>, d: nat, npoints: nat, nbins: nat)
    requires WellFormed(distr, nbins)
  {
    d in distr ==>
      && Sum(VectorSum(distr[d], nbins)) <= npoints
      && 1 in distr
      && forall j :: 0 <= j < nbins ==> VectorSum(distr[d], nbins)[j] <= distr[1][0][j]
  }

  /** The consistency check for keys 2 and 4, in that order. On integer counts the
      tolerance comparisons are exact inequalities, so the check passes exactly when
      both keys are consistent; it fails with a missing key 1 only when key 1 is absent
      and the blocks' total was within npoints. */
  function CheckConsistency(distr: map<nat, seq<seq<nat>>>, npoints: nat, nbins: nat): (r: Outcome<Error>)
    requires WellFormed(distr, nbins)
    ensures r.Pass? <==> Consistent(distr, 2, npoints, nbins) && Consistent(distr, 4, npoints, nbins)
    ensures r.Fail? ==> r.error == ConsistencyViolated || r.error == MissingKey(1)
    ensures r == Fail(MissingKey(1)) ==> 1 !in distr && (2 in distr || 4 in distr)
    ensures 1 !in distr && 2 in distr && Sum(VectorSum(distr[2], nbins)) <= npoints ==> r == Fail(MissingKey(1))
  {
    match CheckBlockCount(distr, 2, npoints, nbins)
    case Fail(e) => Fail(e)
    case Pass => CheckBlockCount(distr, 4, npoints, nbins)
  }

  lemma SliceSplit<T>(ys: seq<T>, lo: nat, mid: nat, hi: nat)
    requires lo <= mid <= hi
    ensures PySlice(ys, lo, mid) + PySlice(ys, mid, hi) == PySlice(ys, lo, hi)
  {
  }

  lemma MulMono(a: nat, b: nat, c: nat)
    requires a <= b
    ensures a * c <= b * c
  {
  }

  /** Extending a prefix by a slice adds the slice's histogram. */
  lemma PrefixStep(ys: seq<int>, nchannels: nat, lo: nat, hi: nat)
    requires lo <= hi
    ensures States2Distr(PySlice(ys, 0, hi), nchannels)
         == Add(States2Distr(PySlice(ys, 0, lo), nchannels), States2Distr(PySlice(ys, lo, hi), nchannels))
  {
    SliceSplit(ys, 0, lo, hi);
    HistogramAppend(PySlice(ys, 0, lo), PySlice(ys, lo, hi), Pow2(nchannels));
  }

  /** The first k blocks of key d add up to the histogram of the first k * (npoints / d)
      states. */
  lemma {:induction false} PrefixTiling(ys: seq<int>, nchannels: nat, npoints: nat, d: nat, k: nat)
    requires 1 <= d && k <= d
    ensures VectorSum(BlockHistograms(ys, nchannels, npoints, d)[..k], Pow2(nchannels))
         == States2Distr(PySlice(ys, 0, k * (npoints / d)), nchannels)
  {
    var hs := BlockHistograms(ys, nchannels, npoints, d);
    var bl := npoints / d;
    var n := Pow2(nchannels);
    if k == 0 {
      assert PySlice(ys, 0, 0) == [];
    } else {
      var lo, hi := (k - 1) * bl, k * bl;
      assert lo + bl == hi;
      PrefixTiling(ys, nchannels, npoints, d, k - 1);
      assert hs[..k][..k - 1] == hs[..k - 1];
      assert VectorSum(hs[..k], n) == Add(VectorSum(hs[..k - 1], n), hs[k - 1]);
      assert BlockSlice(ys, bl, k - 1) == PySlice(ys, lo, hi);
      assert hs[k - 1] == States2Distr(PySlice(ys, lo, hi), nchannels);
      PrefixStep(ys, nchannels, lo, hi);
    }
  }

  /** The d blocks of key d tile the first d * (npoints / d) states. */
  lemma BlocksTilePrefix(ys: seq<int>, nchannels: nat, npoints: nat, d: nat)
    requires d >= 1
    ensures VectorSum(BlockHistograms(ys, nchannels, npoints, d), Pow2(nchannels))
         == States2Distr(PySlice(ys, 0, d * (npoints / d)), nchannels)
  {
    var hs := BlockHistograms(ys, nchannels, npoints, d);
    assert hs[..d] == hs;
    PrefixTiling(ys, nchannels, npoints, d, d);
  }

  lemma DivMul(n: nat, d: nat)
    requires d >= 1
    ensures d * (n / d) <= n
    ensures n % d == 0 ==> d * (n / d) == n
  {
  }

  /** A histogram of a prefix is bounded by the histogram of a longer prefix, in every
      bin, and by the prefix length in total. */
  lemma PrefixWithin(ys: seq<int>, nchannels: nat, m: nat, npoints: nat)
    requires m <= npoints
    ensures Sum(States2Distr(PySlice(ys, 0, m), nchannels)) <= m
    ensures forall j :: 0 <= j < Pow2(nchannels) ==>
      States2Distr(PySlice(ys, 0, m), nchannels)[j] <= States2Distr(PySlice(ys, 0, npoints), nchannels)[j]
  {
    var n := Pow2(nchannels);
    SliceSplit(ys, 0, m, npoints);
    HistogramAppend(PySlice(ys, 0, m), PySlice(ys, m, npoints), n);
    HistogramConservesCount(PySlice(ys, 0, m), n);
  }

  /** The single block of key 1 is the histogram of the first npoints states. */
  lemma WholeBlock(ys: seq<int>, nchannels: nat, npoints: nat)
    ensures BlockHistograms(ys, nchannels, npoints, 1)[0] == States2Distr(PySlice(ys, 0, npoints), nchannels)
  {
    assert npoints / 1 == npoints;
    assert BlockSlice(ys, npoints, 0) == PySlice(ys, 0, npoints);
  }

  /** Summing the blocks of any key d gives at most the single d = 1 histogram in every
      bin and at most npoints in total; when d divides npoints the sum is the d = 1
      histogram exactly. */
  lemma BlocksWithinWhole(ys: seq<int>, nchannels: nat, npoints: nat, d: nat)
    requires d >= 1
    ensures Sum(VectorSum(BlockHistograms(ys, nchannels, npoints, d), Pow2(nchannels))) <= npoints
    ensures forall j :: 0 <= j < Pow2(nchannels) ==>
      VectorSum(BlockHistograms(ys, nchannels, npoints, d), Pow2(nchannels))[j]
        <= BlockHistograms(ys, nchannels, npoints, 1)[0][j]
    ensures npoints % d == 0 ==>
      VectorSum(BlockHistograms(ys, nchannels, npoints, d), Pow2(nchannels))
        == BlockHistograms(ys, nchannels, npoints, 1)[0]
  {
    DivMul(npoints, d);
    var m := d * (npoints / d);
    BlocksTilePrefix(ys, nchannels, npoints, d);
    WholeBlock(ys, nchannels, npoints);
    PrefixWithin(ys, nchannels, m, npoints);
  }

  /** On a long enough sequence of valid states, block i of key d is the histogram of
      the states at positions i * (npoints / d) up to (i + 1) * (npoints / d): entry s
      counts state s there, and the block holds npoints / d states in all. */
  lemma BlockCountsSlice(ys: seq<int>, nchannels: nat, npoints: nat, d: nat, i: nat)
    requires 1 <= d && i < d
    requires npoints <= |ys| && AllBelow(ys, Pow2(nchannels))
    ensures var bl := npoints / d;
      && |PySlice(ys, i * bl, (i + 1) * bl)| == bl
      && (forall s :: 0 <= s < Pow2(nchannels) ==>
            BlockHistograms(ys, nchannels, npoints, d)[i][s] == Count(PySlice(ys, i * bl, (i + 1) * bl), s))
      && Sum(BlockHistograms(ys, nchannels, npoints, d)[i]) == bl
  {
    var bl := npoints / d;
    MulMono(i + 1, d, bl);
    assert (i + 1) * bl == i * bl + bl;
    DivMul(npoints, d);
    var part := BlockSlice(ys, bl, i);
    assert AllBelow(part, Pow2(nchannels));
    HistogramOfStates(part, Pow2(nchannels));
  }

  /** The partition with its consistency check, for the non-shuffled call. */
  function States2Dict(ys: seq<int>, nchannels: nat, npoints: nat, fractions: seq<nat>): (r: Result<map<nat, seq<seq<nat>>>, Error>)
    requires PositiveCounts(fractions)
    ensures r.Failure? <==> (2 in fractions || 4 in fractions) && 1 !in fractions
    ensures r.Failure? ==> r.error == MissingKey(1)
    ensures r.Success? ==> (forall d :: d in r.value <==> d in fractions) && WellFormed(r.value, Pow2(nchannels))
    ensures r.Success? ==> r.value == Partition(ys, nchannels, npoints, fractions)
  {
    var distr := Partition(ys, nchannels, npoints, fractions);
    PartitionAlwaysConsistent(ys, nchannels, npoints, fractions);
    match CheckConsistency(distr, npoints, Pow2(nchannels))
    case Pass => Success(distr)
    case Fail(e) => Failure(e)
  }

  /** The assertions of the consistency check always hold on a freshly built partition;
      only the lookup of key 1 can fail. */
  lemma PartitionAlwaysConsistent(ys: seq<int>, nchannels: nat, npoints: nat, fractions: seq<nat>)
    requires PositiveCounts(fractions)
    ensures var distr := Partition(ys, nchannels, npoints, fractions);
      && (1 in fractions ==> CheckConsistency(distr, npoints, Pow2(nchannels)) == Pass)
      && (1 !in fractions && (2 in fractions || 4 in fractions) ==>
            CheckConsistency(distr, npoints, Pow2(nchannels)) == Fail(MissingKey(1)))
  {
    var distr := Partition(ys, nchannels, npoints, fractions);
    var n := Pow2(nchannels);
    forall d | d in fractions
      ensures Sum(VectorSum(distr[d], n)) <= npoints
      ensures 1 in fractions ==> forall j :: 0 <= j < n ==> VectorSum(distr[d], n)[j] <= distr[1][0][j]
    {
      BlocksWithinWhole(ys, nchannels, npoints, d);
    }
    if 1 !in fractions && 2 !in fractions && 4 in fractions {
      assert CheckBlockCount(distr, 2, npoints, n) == Pass;
    }
  }

  /** With the default block counts 1, 2 and 4 the partition is always returned. */
  lemma DefaultFractionsSucceed(ys: seq<int>, nchannels: nat, npoints: nat)
    ensures States2Dict(ys, nchannels, npoints, [1, 2, 4]).Success?
  {
    assert PositiveCounts([1, 2, 4]);
    assert 1 in [1, 2, 4];
  }
}
