/** Transition counts: the joint histogram of the pairs (y[t], y[t + dt]) over the
    states 0 .. nstates - 1, using the same bins on both axes as the one-dimensional
    histogram (the last bin also holds the value nstates), and its block partition. */
module Transitions {
  import opened Wrappers
  import opened Bits
  import opened Histogram
  import opened Blocks

  /** The number of pairs (t, t + dt) in a sequence of n states. */
  function NumPairs(n: nat, dt: nat): nat {
    if n > dt then n - dt else 0
  }

  /** y[:-dt]: the first state of every pair. */
  function Starts(y: seq<int>, dt: nat): (xs: seq<int>)
    requires dt >= 1
    ensures |xs| == NumPairs(|y|, dt)
    ensures forall t :: 0 <= t < |xs| ==> xs[t] == y[t]
  {
    y[..NumPairs(|y|, dt)]
  }

  /** y[dt:]: the second state of every pair. */
  function Ends(y: seq<int>, dt: nat): (zs: seq<int>)
    requires dt >= 1
    ensures |zs| == NumPairs(|y|, dt)
    ensures forall t :: 0 <= t < |zs| ==> t + dt < |y| && zs[t] == y[t + dt]
  {
    if |y| <= dt then [] else y[dt..]
  }

  predicate IsSquare(m: seq<seq<nat>>, n: nat) {
    |m| == n && forall a :: 0 <= a < n ==> |m[a]| == n
  }

  function ZeroMatrix(n: nat): (m: seq<seq<nat>>)
    ensures IsSquare(m, n)
  {
    seq(n, _ => Zeros(n))
  }

  /** Add one to cell (a, b), if both samples fell in a bin. */
  function Bump2(m: seq<seq<nat>>, n: nat, a: Option<nat>, b: Option<nat>): (m': seq<seq<nat>>)
    requires IsSquare(m, n)
    requires a.Some? ==> a.value < n
    requires b.Some? ==> b.value < n
    ensures IsSquare(m', n)
  {
    if a.Some? && b.Some? then m[a.value := m[a.value][b.value := m[a.value][b.value] + 1]] else m
  }

  /** The sample v falls in bin b of n bins: it is b, or it is the right edge n and b is
      the last bin. */
  predicate Lands(v: int, b: nat, n: nat) {
    v == b || (b == n - 1 && v == n)
  }

  /** The number of positions t whose pair (xs[t], zs[t]) falls in cell (a, b). */
  function PairBinCount(xs: seq<int>, zs: seq<int>, a: nat, b: nat, n: nat): nat
    requires |xs| == |zs|
  {
    if |xs| == 0 then 0
    else
      PairBinCount(xs[..|xs| - 1], zs[..|zs| - 1], a, b, n)
      + (if Lands(xs[|xs| - 1], a, n) && Lands(zs[|zs| - 1], b, n) then 1 else 0)
  }

  /** The number of positions t with xs[t] == u and zs[t] == v. */
  function PairCount(xs: seq<int>, zs: seq<int>, u: int, v: int): nat
    requires |xs| == |zs|
  {
    if |xs| == 0 then 0
    else
      PairCount(xs[..|xs| - 1], zs[..|zs| - 1], u, v)
      + (if xs[|xs| - 1] == u && zs[|zs| - 1] == v then 1 else 0)
  }

  /** The two-dimensional histogram, built one pair at a time; cell (a, b) ends up
      holding the number of pairs that fall in it. */
  function PairHistogram(xs: seq<int>, zs: seq<int>, n: nat): (m: seq<seq<nat>>)
    requires |xs| == |zs|
    ensures IsSquare(m, n)
    ensures forall a, b :: 0 <= a < n && 0 <= b < n ==> m[a][b] == PairBinCount(xs, zs, a, b, n)
  {
    if |xs| == 0 then ZeroMatrix(n)
    else
      var k := |xs| - 1;
      var m := PairHistogram(xs[..k], zs[..k], n);
      var x, z := xs[k], zs[k];
      assert forall a :: 0 <= a < n ==> (Lands(x, a, n) <==> BinOf(x, n) == Some(a));
      assert forall b :: 0 <= b < n ==> (Lands(z, b, n) <==> BinOf(z, n) == Some(b));
      Bump2(m, n, BinOf(x, n), BinOf(z, n))
  }

  /** The transition-count matrix of y with lag dt over nstates states. The edge list
      0, 1, ..., nstates has nstates + 1 entries; with fewer than three numpy does not
      read it as edges and raises, so at least two states are needed. Cell (a, b) holds
      the number of lagged pairs that fall in bins a and b. */
  function TransitionMatrix(y: seq<int>, nstates: nat, dt: nat): (r: Result<seq<seq<nat>>, Error>)
    requires dt >= 1
    ensures r.Failure? <==> nstates < 2
    ensures r.Failure? ==> r.error == BinsReadAsCounts
    ensures r.Success? ==> IsSquare(r.value, nstates)
    ensures r.Success? ==> forall a, b :: 0 <= a < nstates && 0 <= b < nstates ==>
      r.value[a][b] == PairBinCount(Starts(y, dt), Ends(y, dt), a, b, nstates)
  {
    if nstates < 2 then Failure(BinsReadAsCounts)
    else Success(PairHistogram(Starts(y, dt), Ends(y, dt), nstates))
  }

  /** Sum of all cells of a matrix of counts. */
  function Total(m: seq<seq<nat>>): nat {
    if |m| == 0 then 0 else Total(m[..|m| - 1]) + Sum(m[|m| - 1])
  }

  /** Pairs with a sample outside every bin. */
  function PairsOutside(xs: seq<int>, zs: seq<int>, n: nat): nat
    requires |xs| == |zs|
  {
    if |xs| == 0 then 0
    else
      PairsOutside(xs[..|xs| - 1], zs[..|zs| - 1], n)
      + (if BinOf(xs[|xs| - 1], n).None? || BinOf(zs[|zs| - 1], n).None? then 1 else 0)
  }

  lemma {:induction false} TotalAt(m: seq<seq<nat>>, a: nat, r: seq<nat>)
    requires a < |m|
    ensures Total(m[a := r]) + Sum(m[a]) == Total(m) + Sum(r)
  {
    var k := |m|;
    if a < k - 1 {
      assert m[a := r][..k - 1] == m[..k - 1][a := r];
      TotalAt(m[..k - 1], a, r);
    } else {
      assert m[a := r][..k - 1] == m[..k - 1];
    }
  }

  lemma {:induction false} TotalZero(k: nat, n: nat)
    requires k <= n
    ensures Total(ZeroMatrix(n)[..k]) == 0
  {
    if k > 0 {
      assert ZeroMatrix(n)[..k][..k - 1] == ZeroMatrix(n)[..k - 1];
      TotalZero(k - 1, n);
      SumZeros(n);
    }
  }

  lemma TotalBump2(m: seq<seq<nat>>, n: nat, a: Option<nat>, b: Option<nat>)
    requires IsSquare(m, n)
    requires a.Some? ==> a.value < n
    requires b.Some? ==> b.value < n
    ensures Total(Bump2(m, n, a, b)) == Total(m) + (if a.Some? && b.Some? then 1 else 0)
  {
    if a.Some? && b.Some? {
      var row := m[a.value];
      SumAt(row, b.value, row[b.value] + 1);
      TotalAt(m, a.value, row[b.value := row[b.value] + 1]);
    }
  }

  /** Every pair is either counted once or has a sample outside all bins. */
  lemma {:induction false} PairHistogramTotal(xs: seq<int>, zs: seq<int>, n: nat)
    requires |xs| == |zs|
    ensures Total(PairHistogram(xs, zs, n)) + PairsOutside(xs, zs, n) == |xs|
  {
    if |xs| == 0 {
      TotalZero(n, n);
      assert ZeroMatrix(n)[..n] == ZeroMatrix(n);
    } else {
      var k := |xs| - 1;
      var m := PairHistogram(xs[..k], zs[..k], n);
      PairHistogramTotal(xs[..k], zs[..k], n);
      var x, z := BinOf(xs[k], n), BinOf(zs[k], n);
      assert PairHistogram(xs, zs, n) == Bump2(m, n, x, z);
      TotalBump2(m, n, x, z);
    }
  }

  lemma {:induction false} PairsOutsideZero(xs: seq<int>, zs: seq<int>, n: nat)
    requires |xs| == |zs|
    requires n >= 1
    requires forall t :: 0 <= t < |xs| ==> 0 <= xs[t] <= n && 0 <= zs[t] <= n
    ensures PairsOutside(xs, zs, n) == 0
  {
    if |xs| > 0 {
      var k := |xs| - 1;
      PairsOutsideZero(xs[..k], zs[..k], n);
    }
  }

  lemma {:induction false} PairBinCountOfStates(xs: seq<int>, zs: seq<int>, a: nat, b: nat, n: nat)
    requires |xs| == |zs| && a < n && b < n
    requires forall t :: 0 <= t < |xs| ==> 0 <= xs[t] < n && 0 <= zs[t] < n
    ensures PairBinCount(xs, zs, a, b, n) == PairCount(xs, zs, a, b)
  {
    if |xs| > 0 {
      var k := |xs| - 1;
      PairBinCountOfStates(xs[..k], zs[..k], a, b, n);
    }
  }

  /** The cells total the number of lagged pairs, less those with a sample outside
      [0, nstates]. */
  lemma TransitionTotal(y: seq<int>, nstates: nat, dt: nat)
    requires nstates >= 2 && dt >= 1
    ensures Total(TransitionMatrix(y, nstates, dt).value) + PairsOutside(Starts(y, dt), Ends(y, dt), nstates)
         == NumPairs(|y|, dt)
  {
    PairHistogramTotal(Starts(y, dt), Ends(y, dt), nstates);
  }

  /** For a sequence of valid states, cell (a, b) counts the t < |y| - dt with y[t] == a
      and y[t + dt] == b, and the cells total max(0, |y| - dt). */
  lemma TransitionCounts(y: seq<int>, nstates: nat, dt: nat)
    requires nstates >= 2 && dt >= 1
    requires AllBelow(y, nstates)
    ensures forall a, b :: 0 <= a < nstates && 0 <= b < nstates ==>
      TransitionMatrix(y, nstates, dt).value[a][b] == PairCount(Starts(y, dt), Ends(y, dt), a, b)
    ensures Total(TransitionMatrix(y, nstates, dt).value) == NumPairs(|y|, dt)
  {
    var xs, zs := Starts(y, dt), Ends(y, dt);
    forall a, b | 0 <= a < nstates && 0 <= b < nstates
      ensures TransitionMatrix(y, nstates, dt).value[a][b] == PairCount(xs, zs, a, b)
    {
      PairBinCountOfStates(xs, zs, a, b, nstates);
    }
    TransitionTotalOfStates(y, nstates, dt);
  }

  lemma TransitionTotalOfStates(y: seq<int>, nstates: nat, dt: nat)
    requires nstates >= 2 && dt >= 1
    requires AllBelow(y, nstates)
    ensures Total(TransitionMatrix(y, nstates, dt).value) == NumPairs(|y|, dt)
  {
    PairsOutsideZero(Starts(y, dt), Ends(y, dt), nstates);
    TransitionTotal(y, nstates, dt);
  }

  /** Block i of d blocks of n / d items ends within the n items. */
  lemma BlockFits(n: nat, d: nat, i: nat)
    requires d >= 1 && i < d
    ensures (i + 1) * (n / d) == i * (n / d) + n / d
    ensures (i + 1) * (n / d) <= n
  {
    var bl := n / d;
    MulMono(i + 1, d, bl);
    DivMul(n, d);
    assert (i + 1) * bl == i * bl + bl;
  }

  /** Block i of key d: states[i * (|states| / d) : (i + 1) * (|states| / d)]. The
      blocks never run past the end of the states, so each one is a full run of
      |states| / d states (starting at i * (|states| / d), by BlockSlice). */
  function TransitionSlice(states: seq<int>, d: nat, i: nat): (part: seq<int>)
    requires d >= 1 && i < d
    ensures |part| == |states| / d
  {
    BlockFits(|states|, d, i);
    BlockSlice(states, |states| / d, i)
  }

  /** The d transition matrices for block count d. They fail, as the first call of
      transition_matrix does, when there are no channels: 2^0 = 1 state is too few. */
  function TransitionBlocks(states: seq<int>, nchannels: nat, dt: nat, d: nat): (r: Result<seq<seq<seq<nat>>>, Error>)
    requires dt >= 1 && d >= 1
    ensures r.Failure? <==> nchannels == 0
    ensures r.Failure? ==> r.error == BinsReadAsCounts
    ensures r.Success? ==> |r.value| == d
    ensures r.Success? ==> forall i :: 0 <= i < d ==>
      TransitionMatrix(TransitionSlice(states, d, i), Pow2(nchannels), dt) == Success(r.value[i])
  {
    if nchannels == 0 then Failure(BinsReadAsCounts)
    else
      Success(seq(d, i requires 0 <= i < d =>
        TransitionMatrix(TransitionSlice(states, d, i), Pow2(nchannels), dt).value))
  }

  /** The dictionary of transition matrices for the block counts ds (no independence
      assumption); unlike the state partition, it is not checked for consistency. It
      fails when there are no channels and some block count is requested. */
  function States2TransitionDict(states: seq<int>, nchannels: nat, dt: nat, ds: seq<nat>): (r: Result<map<nat, seq<seq<seq<nat>>>>, Error>)
    requires dt >= 1 && PositiveCounts(ds)
    ensures r.Failure? <==> nchannels == 0 && |ds| > 0
    ensures r.Failure? ==> r.error == BinsReadAsCounts
    ensures r.Success? ==> forall d :: d in r.value <==> d in ds
    ensures r.Success? ==> forall d :: d in r.value ==>
      |r.value[d]| == d && forall i :: 0 <= i < d ==> IsSquare(r.value[d][i], Pow2(nchannels))
  {
    if nchannels == 0 && |ds| > 0 then Failure(BinsReadAsCounts)
    else
      Success(map d | d in ds :: TransitionBlocks(states, nchannels, dt, d).value)
  }

  /** For valid states of at least one channel, the dictionary is returned and each
      transition block of key d totals max(0, |states| / d - dt) pairs. */
  lemma TransitionBlockTotal(states: seq<int>, nchannels: nat, dt: nat, ds: seq<nat>, d: nat, i: nat)
    requires dt >= 1 && nchannels >= 1 && PositiveCounts(ds) && d in ds && i < d
    requires AllBelow(states, Pow2(nchannels))
    ensures States2TransitionDict(states, nchannels, dt, ds).Success?
    ensures Total(States2TransitionDict(states, nchannels, dt, ds).value[d][i]) == NumPairs(|states| / d, dt)
  {
    var part := TransitionSlice(states, d, i);
    assert AllBelow(part, Pow2(nchannels));
    TransitionTotalOfStates(part, Pow2(nchannels), dt);
  }

  /** Concrete case: the states 0, 1, 1, 0 of one channel with lag 1 hold the
      transitions 0 -> 1, 1 -> 1 and 1 -> 0 once each. */
  lemma OneChannelExample()
    ensures TransitionMatrix([0, 1, 1, 0], 2, 1) == Success([[0, 1], [1, 1]])
  {
    var y := [0, 1, 1, 0];
    assert Starts(y, 1) == [0, 1, 1];
    assert Ends(y, 1) == [1, 1, 0];
    assert [0, 1, 1][..2] == [0, 1] && [0, 1][..1] == [0] && [0][..0] == [];
    assert [1, 1, 0][..2] == [1, 1] && [1, 1][..1] == [1] && [1][..0] == [];
    var m := TransitionMatrix(y, 2, 1).value;
    assert m[0][0] == 0 && m[0][1] == 1 && m[1][0] == 1 && m[1][1] == 1;
    assert m[0] == [0, 1] && m[1] == [1, 1];
    assert m == [[0, 1], [1, 1]];
  }
}
