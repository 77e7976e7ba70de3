/** Binary words over C channels and their integer codes, channel 0 being the most
    significant bit (the pattern 1 0 1 0 on four channels is state 10). */
module Bits {

  /** One channel's activity in a binarised time step. */
  type Bit = b: int | 0 <= b <= 1

  /** The weight 2^n; it exceeds n, so it is at least 1, and at least 2 from n = 1 on. */
  function Pow2(n: nat): (r: nat)
    ensures r > n
  {
    if n == 0 then 1 else 2 * Pow2(n - 1)
  }

  /** The weight vector [2^(c-1), ..., 2, 1] the encoder multiplies each row with. */
  function PowerVector(c: nat): (w: seq<nat>)
    ensures |w| == c
  {
    seq(c, k requires 0 <= k < c => Pow2(c - 1 - k))
  }

  /** Sum of the element-wise products of a row and a weight vector. */
  function Dot(row: seq<Bit>, w: seq<nat>): nat
    requires |row| == |w|
  {
    if |row| == 0 then 0
    else Dot(row[..|row| - 1], w[..|w| - 1]) + row[|row| - 1] * w[|w| - 1]
  }

  /** The state of one row, read as a binary number with channel 0 the most significant
      digit (Horner's rule); EncodeIsWeightedSum shows it is the weighted sum
      Dot(row, PowerVector(|row|)). A row of C bits has a state below 2^C. */
  function EncodeRow(row: seq<Bit>): (s: nat)
    ensures s < Pow2(|row|)
  {
    if |row| == 0 then 0 else 2 * EncodeRow(row[..|row| - 1]) + row[|row| - 1]
  }

  /** The width-c binary digits of s, most significant first (a binary representation
      padded with zeros to c digits). */
  function Decode(s: nat, c: nat): (bits: seq<Bit>)
    ensures |bits| == c
  {
    if c == 0 then [] else Decode(s / 2, c - 1) + [s % 2]
  }

  function Double(w: seq<nat>): (v: seq<nat>)
    ensures |v| == |w|
    ensures forall k :: 0 <= k < |w| ==> v[k] == 2 * w[k]
  {
    seq(|w|, k requires 0 <= k < |w| => 2 * w[k])
  }

  /** Doubling every weight doubles the weighted sum. */
  lemma {:induction false} DotDouble(row: seq<Bit>, w: seq<nat>)
    requires |row| == |w|
    ensures Dot(row, Double(w)) == 2 * Dot(row, w)
  {
    if |row| > 0 {
      var n := |row|;
      assert Double(w)[..n - 1] == Double(w[..n - 1]);
      DotDouble(row[..n - 1], w[..n - 1]);
    }
  }

  /** Appending a channel shifts the code one bit to the left and adds the new bit. */
  lemma EncodeSnoc(row: seq<Bit>, b: Bit)
    ensures EncodeRow(row + [b]) == 2 * EncodeRow(row) + b
  {
    assert (row + [b])[..|row|] == row;
  }

  /** Adding a channel doubles every earlier weight and gives the new last channel
      weight 1. */
  lemma PowerVectorSnoc(c: nat)
    ensures PowerVector(c + 1) == Double(PowerVector(c)) + [1]
  {
    forall k | 0 <= k < c
      ensures PowerVector(c + 1)[k] == Double(PowerVector(c))[k]
    {
      assert Pow2(c - k) == 2 * Pow2(c - 1 - k);
    }
    assert Pow2(0) == 1;
    assert PowerVector(c + 1)[c] == Pow2(c + 1 - 1 - c);
  }

  /** Appending a channel to the weighted sum doubles every earlier weight and gives
      the new channel weight 1. */
  lemma WeightedSumSnoc(row: seq<Bit>, b: Bit)
    ensures Dot(row + [b], PowerVector(|row| + 1)) == 2 * Dot(row, PowerVector(|row|)) + b
  {
    var c := |row|;
    var r := row + [b];
    assert r[..c] == row;
    PowerVectorSnoc(c);
    assert PowerVector(c + 1)[..c] == Double(PowerVector(c));
    assert Dot(r, PowerVector(c + 1)) == Dot(row, Double(PowerVector(c))) + b;
    DotDouble(row, PowerVector(c));
  }

  /** The binary reading of a row is the weighted sum of its channels with the weights
      [2^(C-1), ..., 2, 1]. */
  lemma {:induction false} EncodeIsWeightedSum(row: seq<Bit>)
    ensures EncodeRow(row) == Dot(row, PowerVector(|row|))
  {
    if |row| > 0 {
      var n := |row|;
      var init := row[..n - 1];
      assert row == init + [row[n - 1]];
      EncodeIsWeightedSum(init);
      WeightedSumSnoc(init, row[n - 1]);
    }
  }

  /** Decoding a row's state into |row| binary digits gives the row back. */
  lemma {:induction false} DecodeEncode(row: seq<Bit>)
    ensures Decode(EncodeRow(row), |row|) == row
  {
    if |row| > 0 {
      var n := |row|;
      var init := row[..n - 1];
      assert row == init + [row[n - 1]];
      EncodeSnoc(init, row[n - 1]);
      DecodeEncode(init);
    }
  }

  /** Every state below 2^c is the code of its own c-digit binary pattern. */
  lemma {:induction false} EncodeDecode(s: nat, c: nat)
    requires s < Pow2(c)
    ensures EncodeRow(Decode(s, c)) == s
  {
    if c > 0 {
      EncodeDecode(s / 2, c - 1);
      EncodeSnoc(Decode(s / 2, c - 1), s % 2);
    }
  }

  /** Two rows of the same width with the same state are the same row. */
  lemma EncodeInjective(r1: seq<Bit>, r2: seq<Bit>)
    requires |r1| == |r2|
    requires EncodeRow(r1) == EncodeRow(r2)
    ensures r1 == r2
  {
    DecodeEncode(r1);
    DecodeEncode(r2);
  }

  /** The zero state is special-cased as a string of c zeros; the general digit
      expansion gives the same pattern. */
  lemma {:induction false} DecodeZero(c: nat)
    ensures Decode(0, c) == seq(c, _ => 0)
  {
    if c > 0 {
      DecodeZero(c - 1);
    }
  }

  /** On four channels the pattern 1 0 1 0 is state 10. */
  lemma FourChannelExample()
    ensures EncodeRow([1, 0, 1, 0]) == 10
    ensures Decode(10, 4) == [1, 0, 1, 0]
  {
    EncodeSnoc([1, 0, 1], 0);
    EncodeSnoc([1, 0], 1);
    EncodeSnoc([1], 0);
    EncodeSnoc([], 1);
    assert [1, 0, 1] + [0] == [1, 0, 1, 0];
    assert [1, 0] + [1] == [1, 0, 1];
    assert [1] + [0] == [1, 0];
    assert [] + [1] == [1];
  }
}
