/** Unnormalised histograms over integer bins with edges 0, 1, ..., nbins: bin b holds
    the values in [b, b+1), except the last bin, which is closed and also holds the
    value nbins. Values below 0 or above nbins fall in no bin. */
module Histogram {
  import opened Wrappers
  import opened Bits

  /** Number of occurrences of v in ys. */
  function Count(ys: seq<int>, v: int): (n: nat)
    ensures n <= |ys|
  {
    if |ys| == 0 then 0
    else Count(ys[..|ys| - 1], v) + (if ys[|ys| - 1] == v then 1 else 0)
  }

  /** The bin an integer sample falls into, if any. */
  function BinOf(v: int, nbins: nat): (b: Option<nat>)
    ensures b.Some? ==> b.value < nbins
    ensures b.Some? <==> 0 <= v <= nbins && nbins > 0
  {
    if 0 <= v < nbins then Some(v)
    else if v == nbins && nbins > 0 then Some(nbins - 1)
    else None
  }

  /** Number of samples outside every bin. */
  function Outside(ys: seq<int>, nbins: nat): (n: nat)
    ensures n <= |ys|
  {
    if |ys| == 0 then 0
    else Outside(ys[..|ys| - 1], nbins) + (if BinOf(ys[|ys| - 1], nbins).None? then 1 else 0)
  }

  /** What bin b should hold: the occurrences of b, and for the last bin also those of
      the right edge nbins. */
  function BinCount(ys: seq<int>, b: nat, nbins: nat): nat
  {
    Count(ys, b) + (if b == nbins - 1 then Count(ys, nbins) else 0)
  }

  function Zeros(n: nat): (z: seq<nat>)
    ensures |z| == n
    ensures forall i :: 0 <= i < n ==> z[i] == 0
  {
    seq(n, _ => 0)
  }

  /** Add one to bin b, if the sample fell in a bin. */
  function Bump(h: seq<nat>, b: Option<nat>): (h': seq<nat>)
    requires b.Some? ==> b.value < |h|
    ensures |h'| == |h|
  {
    match b
    case None => h
    case Some(i) => h[i := h[i] + 1]
  }

  /** The histogram, built one sample at a time; bin b ends up holding BinCount. */
  function Histogram(ys: seq<int>, nbins: nat): (h: seq<nat>)
    ensures |h| == nbins
    ensures forall b :: 0 <= b < nbins ==> h[b] == BinCount(ys, b, nbins)
  {
    if |ys| == 0 then Zeros(nbins)
    else Bump(Histogram(ys[..|ys| - 1], nbins), BinOf(ys[|ys| - 1], nbins))
  }

  /** Sum of the entries of a vector of counts. */
  function Sum(h: seq<nat>): nat
  {
    if |h| == 0 then 0 else Sum(h[..|h| - 1]) + h[|h| - 1]
  }

  /** Element-wise sum of two count vectors of the same length. */
  function Add(u: seq<nat>, v: seq<nat>): (w: seq<nat>)
    requires |u| == |v|
    ensures |w| == |u|
    ensures forall i :: 0 <= i < |u| ==> w[i] == u[i] + v[i]
  {
    seq(|u|, i requires 0 <= i < |u| => u[i] + v[i])
  }

  /** The total of an element-wise sum is the sum of the totals. */
  lemma {:induction false} SumAdd(u: seq<nat>, v: seq<nat>)
    requires |u| == |v|
    ensures Sum(Add(u, v)) == Sum(u) + Sum(v)
  {
    if |u| > 0 {
      var n := |u|;
      assert Add(u, v)[..n - 1] == Add(u[..n - 1], v[..n - 1]);
      SumAdd(u[..n - 1], v[..n - 1]);
    }
  }

  /** Unnormalised distribution over the 2^C states of C channels (the `normed=False`
      call): bin s counts the occurrences of state s. */
  function States2Distr(states: seq<int>, nchannels: nat): (h: seq<nat>)
    ensures |h| == Pow2(nchannels)
  {
    Histogram(states, Pow2(nchannels))
  }

  /** Every sample is a state of the histogram's range [0, nbins). */
  predicate AllBelow(ys: seq<int>, nbins: nat) {
    forall i :: 0 <= i < |ys| ==> 0 <= ys[i] < nbins
  }

  lemma {:induction false} SumAt(h: seq<nat>, i: nat, x: nat)
    requires i < |h|
    ensures Sum(h[i := x]) + h[i] == Sum(h) + x
  {
    var n := |h|;
    if i < n - 1 {
      assert h[i := x][..n - 1] == h[..n - 1][i := x];
      SumAt(h[..n - 1], i, x);
    } else {
      assert h[i := x][..n - 1] == h[..n - 1];
    }
  }

  lemma {:induction false} SumZeros(n: nat)
    ensures Sum(Zeros(n)) == 0
  {
    if n > 0 {
      assert Zeros(n)[..n - 1] == Zeros(n - 1);
      SumZeros(n - 1);
    }
  }

  /** Every sample is either counted once or falls outside all bins. */
  lemma {:induction false} HistogramTotal(ys: seq<int>, nbins: nat)
    ensures Sum(Histogram(ys, nbins)) + Outside(ys, nbins) == |ys|
  {
    if |ys| == 0 {
      SumZeros(nbins);
    } else {
      var init := ys[..|ys| - 1];
      var h := Histogram(init, nbins);
      HistogramTotal(init, nbins);
      match BinOf(ys[|ys| - 1], nbins)
      case None =>
      case Some(b) =>
        SumAt(h, b, h[b] + 1);
    }
  }

  lemma {:induction false} OutsideZero(ys: seq<int>, nbins: nat)
    ensures Outside(ys, nbins) == 0 <==> forall i :: 0 <= i < |ys| ==> BinOf(ys[i], nbins).Some?
  {
    if |ys| > 0 {
      var init := ys[..|ys| - 1];
      OutsideZero(init, nbins);
      assert forall i :: 0 <= i < |init| ==> init[i] == ys[i];
    }
  }

  /** The counts add up to the number of samples exactly when every sample lies in
      [0, nbins]; otherwise they add up to less. */
  lemma HistogramConservesCount(ys: seq<int>, nbins: nat)
    requires nbins > 0
    ensures Sum(Histogram(ys, nbins)) <= |ys|
    ensures Sum(Histogram(ys, nbins)) == |ys| <==> forall i :: 0 <= i < |ys| ==> 0 <= ys[i] <= nbins
  {
    HistogramTotal(ys, nbins);
    OutsideZero(ys, nbins);
  }

  lemma {:induction false} CountAbsent(ys: seq<int>, v: int)
    requires forall i :: 0 <= i < |ys| ==> ys[i] != v
    ensures Count(ys, v) == 0
  {
    if |ys| > 0 {
      CountAbsent(ys[..|ys| - 1], v);
    }
  }

  /** For a sequence of valid states, bin s is the number of occurrences of s and the
      bins add up to the length of the sequence. */
  lemma HistogramOfStates(ys: seq<int>, nbins: nat)
    requires nbins > 0 && AllBelow(ys, nbins)
    ensures forall s :: 0 <= s < nbins ==> Histogram(ys, nbins)[s] == Count(ys, s)
    ensures Sum(Histogram(ys, nbins)) == |ys|
  {
    CountAbsent(ys, nbins);
    HistogramConservesCount(ys, nbins);
  }

  /** States2Distr on states of C channels: entry s counts state s, and the entries add
      up to the number of states. */
  lemma States2DistrCounts(states: seq<int>, nchannels: nat)
    requires AllBelow(states, Pow2(nchannels))
    ensures forall s :: 0 <= s < Pow2(nchannels) ==> States2Distr(states, nchannels)[s] == Count(states, s)
    ensures Sum(States2Distr(states, nchannels)) == |states|
  {
    HistogramOfStates(states, Pow2(nchannels));
  }

  lemma {:induction false} CountAppend(a: seq<int>, b: seq<int>, v: int)
    ensures Count(a + b, v) == Count(a, v) + Count(b, v)
  {
    if |b| > 0 {
      assert (a + b)[..|a + b| - 1] == a + b[..|b| - 1];
      CountAppend(a, b[..|b| - 1], v);
    } else {
      assert a + b == a;
    }
  }

  /** The histogram of two consecutive pieces is the element-wise sum of their
      histograms. */
  lemma HistogramAppend(a: seq<int>, b: seq<int>, nbins: nat)
    ensures Histogram(a + b, nbins) == Add(Histogram(a, nbins), Histogram(b, nbins))
  {
    forall s | 0 <= s < nbins
      ensures Histogram(a + b, nbins)[s] == Add(Histogram(a, nbins), Histogram(b, nbins))[s]
    {
      CountAppend(a, b, s);
      CountAppend(a, b, nbins);
    }
  }

  /** Concrete case: the states 0, 2, 1, 3 of two channels occur once each. */
  lemma FourStatesExample()
    ensures States2Distr([0, 2, 1, 3], 2) == [1, 1, 1, 1]
  {
    var ys := [0, 2, 1, 3];
    assert Pow2(2) == 4;
    assert AllBelow(ys, 4);
    States2DistrCounts(ys, 2);
    assert ys[..3] == [0, 2, 1];
    assert [0, 2, 1][..2] == [0, 2];
    assert [0, 2][..1] == [0];
    assert [0][..0] == [];
    forall s | 0 <= s < 4
      ensures Count(ys, s) == 1
    {
      assert Count([0], s) == (if s == 0 then 1 else 0);
      assert Count([0, 2], s) == Count([0], s) + (if s == 2 then 1 else 0);
      assert Count([0, 2, 1], s) == Count([0, 2], s) + (if s == 1 then 1 else 0);
      assert Count(ys, s) == Count([0, 2, 1], s) + (if s == 3 then 1 else 0);
    }
    var h := States2Distr(ys, 2);
    assert h[0] == 1 && h[1] == 1 && h[2] == 1 && h[3] == 1;
  }

  /** Concrete case: the histogram of n zero states over C channels holds n in bin 0
      and nothing elsewhere. */
  lemma {:induction false} ZeroStatesHistogram(n: nat, nchannels: nat)
    ensures States2Distr(seq(n, _ => 0), nchannels) == [n] + Zeros(Pow2(nchannels) - 1)
  {
    var ys: seq<int> := seq(n, _ => 0);
    assert AllBelow(ys, Pow2(nchannels));
    States2DistrCounts(ys, nchannels);
    AllZeroCount(n);
    forall s | 0 < s < Pow2(nchannels)
      ensures Count(ys, s) == 0
    {
      CountAbsent(ys, s);
    }
  }

  lemma {:induction false} AllZeroCount(n: nat)
    ensures Count(seq(n, _ => 0), 0) == n
  {
    if n > 0 {
      assert seq(n, _ => 0)[..n - 1] == seq(n - 1, _ => 0);
      AllZeroCount(n - 1);
    }
  }

  /** The edge value nbins is counted in the last bin: the states2distr of the single
      value 4 over two channels is [0, 0, 0, 1]. */
  lemma RightEdgeExample()
    ensures States2Distr([4], 2) == [0, 0, 0, 1]
  {
    assert Pow2(2) == 4;
    assert [4][..0] == [];
    var h := States2Distr([4], 2);
    assert h[0] == 0 && h[1] == 0 && h[2] == 0 && h[3] == 1;
  }
}
