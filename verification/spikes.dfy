/** The state encoder: a recording of binarised spikes, one row per time step and one
    column per channel, becomes one integer state per time step. */
module Spikes {
  import opened Wrappers
  import opened Bits

  /** A recording as a two-dimensional array: `rows[t][k]` is channel k at time step t.
      Entries are numbers, not necessarily integers, as in a floating-point array. */
  datatype SpikeMatrix = SpikeMatrix(channels: nat, rows: seq<seq<real>>) {
    /** Every row has one entry per channel. */
    predicate WellShaped() {
      forall t :: 0 <= t < |rows| ==> |rows[t]| == channels
    }
  }

  /** The entry test the encoder applies: the value lies in [0, 1]. */
  predicate InUnitInterval(x: real) {
    0.0 <= x <= 1.0
  }

  /** The entry is one of the two spike values. */
  predicate IsBinaryEntry(x: real) {
    x == 0.0 || x == 1.0
  }

  predicate PassesRangeCheck(m: SpikeMatrix) {
    forall t, k :: 0 <= t < |m.rows| && 0 <= k < |m.rows[t]| ==> InUnitInterval(m.rows[t][k])
  }

  predicate IsBinary(m: SpikeMatrix) {
    forall t, k :: 0 <= t < |m.rows| && 0 <= k < |m.rows[t]| ==> IsBinaryEntry(m.rows[t][k])
  }

  /** The bits of a binary row. */
  function ToBits(row: seq<real>): (bits: seq<Bit>)
    requires forall k :: 0 <= k < |row| ==> IsBinaryEntry(row[k])
    ensures |bits| == |row|
    ensures forall k :: 0 <= k < |row| ==> bits[k] as real == row[k]
  {
    var bits: seq<Bit> := seq(|row|, k requires 0 <= k < |row| => if row[k] == 1.0 then 1 else 0);
    assert forall k :: 0 <= k < |row| ==> bits[k] as real == row[k] by {
      forall k | 0 <= k < |row| ensures bits[k] as real == row[k] {
        assert IsBinaryEntry(row[k]);
      }
    }
    bits
  }

  /** The row with every channel active, as array entries. */
  function AllActive(c: nat): (row: seq<real>)
    ensures |row| == c
    ensures forall k :: 0 <= k < c ==> IsBinaryEntry(row[k])
  {
    seq(c, _ => 1.0)
  }

  /** Sum of row[k] * w[k] in real arithmetic. */
  function RealDot(row: seq<real>, w: seq<nat>): real
    requires |row| == |w|
  {
    if |row| == 0 then 0.0
    else RealDot(row[..|row| - 1], w[..|w| - 1]) + row[|row| - 1] * (w[|w| - 1] as real)
  }

  lemma ScaleWithin(x: real, y: real)
    requires InUnitInterval(x) && 0.0 <= y
    ensures 0.0 <= x * y <= y
  {
    assert (1.0 - x) * y >= 0.0;
  }

  /** With every entry in [0, 1], the real weighted sum lies between 0 and the weighted
      sum of the all-active row. */
  lemma {:induction false} RealDotWithin(row: seq<real>, w: seq<nat>)
    requires |row| == |w|
    requires forall k :: 0 <= k < |row| ==> InUnitInterval(row[k])
    ensures 0.0 <= RealDot(row, w) <= RealDot(AllActive(|w|), w)
  {
    if |row| > 0 {
      var n := |row|;
      var head, tail := row[..n - 1], w[..n - 1];
      var x, y := row[n - 1], w[n - 1] as real;
      assert forall k :: 0 <= k < |head| ==> InUnitInterval(head[k]);
      RealDotWithin(head, tail);
      assert RealDot(row, w) == RealDot(head, tail) + x * y;
      assert AllActive(n)[..n - 1] == AllActive(n - 1);
      assert RealDot(AllActive(n), w) == RealDot(AllActive(n - 1), tail) + 1.0 * y;
      ScaleWithin(x, y);
    }
  }

  /** The all-active row of c channels has a weighted sum below 2^c. */
  lemma AllActiveBelow(c: nat)
    ensures RealDot(AllActive(c), PowerVector(c)) < Pow2(c) as real
  {
    RealDotOfBits(AllActive(c), PowerVector(c));
    EncodeIsWeightedSum(ToBits(AllActive(c)));
  }

  /** The encoder as the source writes it: reject any entry outside [0, 1], then weight
      each row with [2^(C-1), ..., 1] and sum. A fractional entry passes the check, so
      the values are reals in [0, 2^C), not necessarily whole. */
  function Spikes2StatesAsWritten(m: SpikeMatrix): (r: Result<seq<real>, Error>)
    requires m.WellShaped()
    ensures r.Failure? <==>
      exists t, k :: 0 <= t < |m.rows| && 0 <= k < m.channels && !InUnitInterval(m.rows[t][k])
    ensures r.Failure? ==> r.error == NotBinary
    ensures r.Success? ==> |r.value| == |m.rows|
    ensures r.Success? ==> forall t :: 0 <= t < |m.rows| ==> 0.0 <= r.value[t] < Pow2(m.channels) as real
  {
    if PassesRangeCheck(m) then
      var c := m.channels;
      var states := seq(|m.rows|, t requires 0 <= t < |m.rows| => RealDot(m.rows[t], PowerVector(c)));
      assert forall t :: 0 <= t < |m.rows| ==> 0.0 <= states[t] < Pow2(c) as real by {
        AllActiveBelow(c);
        forall t | 0 <= t < |m.rows|
          ensures 0.0 <= states[t] < Pow2(c) as real
        {
          RealDotWithin(m.rows[t], PowerVector(c));
        }
      }
      Success(states)
    else
      Failure(NotBinary)
  }

  lemma AllRowsRoundTrip(m: SpikeMatrix)
    requires m.WellShaped() && IsBinary(m)
    ensures forall t :: 0 <= t < |m.rows| ==>
      EncodeRow(ToBits(m.rows[t])) < Pow2(m.channels) &&
      Decode(EncodeRow(ToBits(m.rows[t])), m.channels) == ToBits(m.rows[t])
  {
    forall t | 0 <= t < |m.rows|
      ensures EncodeRow(ToBits(m.rows[t])) < Pow2(m.channels)
      ensures Decode(EncodeRow(ToBits(m.rows[t])), m.channels) == ToBits(m.rows[t])
    {
      DecodeEncode(ToBits(m.rows[t]));
    }
  }

  /** The encoder with the check its error message promises: it fails exactly when some
      entry is neither 0 nor 1; otherwise it yields one state per time step, below 2^C,
      whose C binary digits (channel 0 first) are that time step's row. */
  function Spikes2States(m: SpikeMatrix): (r: Result<seq<nat>, Error>)
    requires m.WellShaped()
    ensures r.Failure? <==>
      exists t, k :: 0 <= t < |m.rows| && 0 <= k < m.channels && !IsBinaryEntry(m.rows[t][k])
    ensures r.Failure? ==> r.error == NotBinary
    ensures r.Success? ==> |r.value| == |m.rows|
    ensures r.Success? ==> forall t :: 0 <= t < |m.rows| ==> r.value[t] < Pow2(m.channels)
    ensures r.Success? ==> forall t, k :: 0 <= t < |m.rows| && 0 <= k < m.channels ==>
      Decode(r.value[t], m.channels)[k] as real == m.rows[t][k]
  {
    if IsBinary(m) then
      AllRowsRoundTrip(m);
      Success(seq(|m.rows|, t requires 0 <= t < |m.rows| => EncodeRow(ToBits(m.rows[t]))))
    else
      Failure(NotBinary)
  }

  /** Two time steps get the same state exactly when their rows are equal. */
  lemma StatesIdentifyRows(m: SpikeMatrix, t1: nat, t2: nat)
    requires m.WellShaped() && Spikes2States(m).Success?
    requires t1 < |m.rows| && t2 < |m.rows|
    ensures Spikes2States(m).value[t1] == Spikes2States(m).value[t2] <==> m.rows[t1] == m.rows[t2]
  {
    var s := Spikes2States(m).value;
    if s[t1] == s[t2] {
      forall k | 0 <= k < m.channels
        ensures m.rows[t1][k] == m.rows[t2][k]
      {
        assert Decode(s[t1], m.channels)[k] as real == m.rows[t1][k];
        assert Decode(s[t2], m.channels)[k] as real == m.rows[t2][k];
      }
    }
  }

  lemma {:induction false} RealDotOfBits(row: seq<real>, w: seq<nat>)
    requires |row| == |w|
    requires forall k :: 0 <= k < |row| ==> IsBinaryEntry(row[k])
    ensures RealDot(row, w) == Dot(ToBits(row), w) as real
  {
    if |row| > 0 {
      var n := |row|;
      assert ToBits(row)[..n - 1] == ToBits(row[..n - 1]);
      RealDotOfBits(row[..n - 1], w[..n - 1]);
      var b := ToBits(row)[n - 1];
      assert (b * w[n - 1]) as real == (b as real) * (w[n - 1] as real);
    }
  }

  /** On binary input both encoders accept, and they compute the same states. */
  lemma AsWrittenAgreesOnBinary(m: SpikeMatrix)
    requires m.WellShaped() && IsBinary(m)
    ensures Spikes2StatesAsWritten(m).Success? && Spikes2States(m).Success?
    ensures forall t :: 0 <= t < |m.rows| ==>
      Spikes2StatesAsWritten(m).value[t] == Spikes2States(m).value[t] as real
  {
    assert PassesRangeCheck(m);
    forall t | 0 <= t < |m.rows|
      ensures Spikes2StatesAsWritten(m).value[t] == Spikes2States(m).value[t] as real
    {
      RealDotOfBits(m.rows[t], PowerVector(m.channels));
      EncodeIsWeightedSum(ToBits(m.rows[t]));
    }
  }

  /** For integer-valued arrays the range check is exactly the binary check, so the two
      encoders differ only on fractional entries. */
  lemma RangeCheckExactOnIntegers(m: SpikeMatrix)
    requires forall t, k :: 0 <= t < |m.rows| && 0 <= k < |m.rows[t]| ==>
      m.rows[t][k] == m.rows[t][k].Floor as real
    ensures PassesRangeCheck(m) <==> IsBinary(m)
  {
    if PassesRangeCheck(m) {
      forall t, k | 0 <= t < |m.rows| && 0 <= k < |m.rows[t]|
        ensures IsBinaryEntry(m.rows[t][k])
      {
        var x := m.rows[t][k];
        assert InUnitInterval(x);
        assert 0 <= x.Floor <= 1;
      }
    }
  }

  /** A recording with one channel at half a spike passes the source's check and becomes
      the fractional state 0.5; the binary check rejects it. */
  lemma HalfSpikeExample()
    ensures Spikes2StatesAsWritten(SpikeMatrix(1, [[0.5]])) == Success([0.5])
    ensures Spikes2States(SpikeMatrix(1, [[0.5]])) == Failure(NotBinary)
  {
    var m := SpikeMatrix(1, [[0.5]]);
    assert PowerVector(1) == [1];
    assert [[0.5]][0] == [0.5];
    assert RealDot([0.5], [1]) == 0.5;
    assert !IsBinaryEntry(m.rows[0][0]);
    var r := Spikes2StatesAsWritten(m).value;
    assert |r| == 1 && r[0] == 0.5;
    assert r == [0.5];
  }

  /** The recording with n time steps and no spike on any of c channels. */
  function Silence(n: nat, c: nat): (m: SpikeMatrix)
    ensures m.WellShaped() && IsBinary(m)
  {
    SpikeMatrix(c, seq(n, _ => seq(c, _ => 0.0)))
  }

  /** A silent recording is the zero state at every time step. */
  lemma SilenceIsStateZero(n: nat, c: nat)
    ensures Spikes2States(Silence(n, c)) == Success(seq(n, _ => 0))
  {
    var m := Silence(n, c);
    forall t | 0 <= t < n
      ensures EncodeRow(ToBits(m.rows[t])) == 0
    {
      DecodeZero(c);
      assert ToBits(m.rows[t]) == Decode(0, c);
      EncodeDecode(0, c);
    }
    assert Spikes2States(m).value == seq(n, _ => 0);
  }

  lemma TwoBitCode(x: Bit, y: Bit)
    ensures EncodeRow([x, y]) == 2 * x + y
  {
    EncodeSnoc([], x);
    EncodeSnoc([x], y);
    assert [] + [x] == [x];
    assert [x] + [y] == [x, y];
  }

  /** Two channels: the four patterns 00, 10, 01, 11 are the states 0, 2, 1, 3. */
  lemma TwoChannelExample()
    ensures Spikes2States(SpikeMatrix(2, [[0.0, 0.0], [1.0, 0.0], [0.0, 1.0], [1.0, 1.0]]))
         == Success([0, 2, 1, 3])
  {
    var m := SpikeMatrix(2, [[0.0, 0.0], [1.0, 0.0], [0.0, 1.0], [1.0, 1.0]]);
    assert IsBinary(m);
    assert ToBits(m.rows[0]) == [0, 0];
    assert ToBits(m.rows[1]) == [1, 0];
    assert ToBits(m.rows[2]) == [0, 1];
    assert ToBits(m.rows[3]) == [1, 1];
    TwoBitCode(0, 0);
    TwoBitCode(1, 0);
    TwoBitCode(0, 1);
    TwoBitCode(1, 1);
    var r := Spikes2States(m).value;
    assert r == [0, 2, 1, 3];
  }
}
