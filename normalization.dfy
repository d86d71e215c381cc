/** Min-max normalisation of a vector of scores, over exact reals. */
module Normalization {

  /** The smallest entry of a non-empty vector (`data.min()`). */
  function SeqMin(s: seq<real>): (m: real)
    requires |s| > 0
    ensures m in s
    ensures forall i :: 0 <= i < |s| ==> m <= s[i]
  {
    if |s| == 1 then s[0]
    else
      var rest := SeqMin(s[1..]);
      if s[0] <= rest then s[0] else rest
  }

  /** The largest entry of a non-empty vector (`data.max()`). */
  function SeqMax(s: seq<real>): (m: real)
    requires |s| > 0
    ensures m in s
    ensures forall i :: 0 <= i < |s| ==> s[i] <= m
  {
    if |s| == 1 then s[0]
    else
      var rest := SeqMax(s[1..]);
      if s[0] >= rest then s[0] else rest
  }

  /** `normalize`: an empty vector is returned as is; otherwise every entry is
      shifted by the minimum and, unless all entries are equal, divided by the
      spread `max - min`. */
  function Normalize(data: seq<real>): (r: seq<real>)
    ensures |r| == |data|
    ensures data == [] ==> r == data
  {
    if |data| == 0 then data
    else
      var lo, hi := SeqMin(data), SeqMax(data);
      seq(|data|, i requires 0 <= i < |data| => Rescaled(data[i], lo, hi))
  }

  /** One entry of `normalize`: shifted by the minimum and, when the spread is
      not zero, divided by it. */
  function Rescaled(x: real, lo: real, hi: real): real {
    if hi - lo != 0.0 then (x - lo) / (hi - lo) else x - lo
  }

  /** Entry `i` of the normalised vector, by case. */
  lemma NormalizeAt(data: seq<real>, i: nat)
    requires i < |data|
    ensures var lo, hi := SeqMin(data), SeqMax(data);
      Normalize(data)[i] == Rescaled(data[i], lo, hi)
  {
  }

  /** With a positive spread, a value between the extremes lands in `[0, 1]`;
      with no spread, the only such value lands on 0. */
  lemma RescaledInUnit(x: real, lo: real, hi: real)
    requires lo <= x <= hi
    ensures 0.0 <= Rescaled(x, lo, hi) <= 1.0
  {
    if lo < hi {
      var d := hi - lo;
      var q := (x - lo) / d;
      assert q * d == x - lo;
    }
  }

  /** The minimum lands on 0 and, with a positive spread, the maximum on 1. */
  lemma RescaledEnds(lo: real, hi: real)
    ensures Rescaled(lo, lo, hi) == 0.0
    ensures hi != lo ==> Rescaled(hi, lo, hi) == 1.0
  {
    if hi != lo {
      var d := hi - lo;
      assert (hi - lo) / d * d == d;
    }
  }

  /** With a positive spread, rescaling keeps the order of two values, both ways. */
  lemma RescaledOrder(x: real, y: real, lo: real, hi: real)
    requires lo < hi
    ensures x <= y <==> Rescaled(x, lo, hi) <= Rescaled(y, lo, hi)
  {
    var d := hi - lo;
    var p, q := (x - lo) / d, (y - lo) / d;
    assert p * d == x - lo && q * d == y - lo;
    assert (q - p) * d == y - x;
  }

  /** Every normalised value lies in `[0, 1]`, including the all-equal case,
      where every value is 0. */
  lemma NormalizeInUnitRange(data: seq<real>)
    ensures forall i :: 0 <= i < |data| ==> 0.0 <= Normalize(data)[i] <= 1.0
  {
    if |data| > 0 {
      var hi, lo := SeqMax(data), SeqMin(data);
      forall i | 0 <= i < |data| ensures 0.0 <= Normalize(data)[i] <= 1.0 {
        if hi - lo != 0.0 {
          RescaledInUnit(data[i], lo, hi);
        }
      }
    }
  }

  /** When the maximum equals the minimum the result is `data - min`, that is
      all zeros. */
  lemma NormalizeConstant(data: seq<real>)
    requires |data| > 0 && SeqMax(data) == SeqMin(data)
    ensures forall i :: 0 <= i < |data| ==> Normalize(data)[i] == data[i] - SeqMin(data) == 0.0
  {
  }

  /** With distinct extremes, a minimal entry maps to 0 and a maximal one to 1. */
  lemma NormalizeExtremes(data: seq<real>)
    requires |data| > 0 && SeqMax(data) != SeqMin(data)
    ensures forall i :: 0 <= i < |data| && data[i] == SeqMin(data) ==> Normalize(data)[i] == 0.0
    ensures forall i :: 0 <= i < |data| && data[i] == SeqMax(data) ==> Normalize(data)[i] == 1.0
    ensures exists i :: 0 <= i < |data| && Normalize(data)[i] == 0.0
    ensures exists i :: 0 <= i < |data| && Normalize(data)[i] == 1.0
  {
    var lo, hi := SeqMin(data), SeqMax(data);
    var a :| 0 <= a < |data| && data[a] == lo;
    var b :| 0 <= b < |data| && data[b] == hi;
    RescaledEnds(lo, hi);
    forall i | 0 <= i < |data| && data[i] == lo ensures Normalize(data)[i] == 0.0 {
      NormalizeAt(data, i);
    }
    forall i | 0 <= i < |data| && data[i] == hi ensures Normalize(data)[i] == 1.0 {
      NormalizeAt(data, i);
    }
    NormalizeAt(data, a);
    NormalizeAt(data, b);
  }

  /** Normalisation preserves the relative order of the entries — entry i is
      at most entry j before exactly when it is after — except in the
      all-equal case, where everything collapses to 0. */
  lemma NormalizeOrder(data: seq<real>, i: nat, j: nat)
    requires i < |data| && j < |data|
    requires SeqMax(data) != SeqMin(data)
    ensures data[i] <= data[j] <==> Normalize(data)[i] <= Normalize(data)[j]
  {
    NormalizeAt(data, i);
    NormalizeAt(data, j);
    RescaledOrder(data[i], data[j], SeqMin(data), SeqMax(data));
  }

  /** In every case, an order between entries survives normalisation. */
  lemma NormalizeMonotone(data: seq<real>, i: nat, j: nat)
    requires i < |data| && j < |data| && data[i] <= data[j]
    ensures Normalize(data)[i] <= Normalize(data)[j]
  {
    if SeqMax(data) != SeqMin(data) {
      NormalizeOrder(data, i, j);
    }
  }
}
