/**
 Sentiment distributions over the three labels, the rescaling of raw
 scores to percentages, and the choice of the overall label by Python's
 `max(sentiments, key=sentiments.get)`.
 */
module Sentiment {

  datatype Label = Positive | Neutral | Negative

  /** The `{'positive': …, 'neutral': …, 'negative': …}` score dictionary. */
  datatype Dist = Dist(positive: real, neutral: real, negative: real) {

    function Value(l: Label): real {
      match l
      case Positive => positive
      case Neutral => neutral
      case Negative => negative
    }

    function Total(): real {
      positive + neutral + negative
    }

    predicate NonNegative() {
      positive >= 0.0 && neutral >= 0.0 && negative >= 0.0
    }
  }

  /** The insertion order of the `sentiments` dictionary, which is the order
      `max` visits its keys in. */
  const Order: seq<Label> := [Positive, Neutral, Negative]

  /** `v / total * 100` for each label. Every value becomes its share of
      the total in percent: the three add up to 100, the ratios between
      them are kept, and for non-negative scores each lies in [0, 100]. */
  function Rescale(d: Dist): (r: Dist)
    requires d.Total() > 0.0
    ensures forall l: Label :: r.Value(l) * d.Total() == d.Value(l) * 100.0
    ensures r.Total() == 100.0
    ensures d.NonNegative() ==> forall l: Label :: 0.0 <= r.Value(l) <= 100.0
  {
    var t := d.Total();
    SharesAddUp(d.positive, d.neutral, d.negative);
    Dist(Share(d.positive, t), Share(d.neutral, t), Share(d.negative, t))
  }

  /** `v / t * 100`: the percentage `v` is of `t`. */
  function Share(v: real, t: real): (r: real)
    requires t > 0.0
    ensures r * t == v * 100.0
    ensures 0.0 <= v <= t ==> 0.0 <= r <= 100.0
  {
    assert v / t * t == v;
    v / t * 100.0
  }

  /** The three shares of a positive total add up to 100. */
  lemma SharesAddUp(a: real, b: real, c: real)
    requires a + b + c > 0.0
    ensures Share(a, a + b + c) + Share(b, a + b + c) + Share(c, a + b + c) == 100.0
  {
    var t := a + b + c;
    SumOfShares(Share(a, t), Share(b, t), Share(c, t), a, b, c);
  }

  lemma SumOfShares(x: real, y: real, z: real, a: real, b: real, c: real)
    requires a + b + c > 0.0
    requires x * (a + b + c) == a * 100.0 && y * (a + b + c) == b * 100.0 && z * (a + b + c) == c * 100.0
    ensures x + y + z == 100.0
  {
    var t := a + b + c;
    Distributes(x, y, z, t);
    CancelPositive(x + y + z, 100.0, t);
  }

  lemma Distributes(x: real, y: real, z: real, t: real)
    ensures (x + y + z) * t == x * t + y * t + z * t
  {
  }

  /** Rescaling keeps the ratio between any two labels: `a : b` before is
      `a : b` after. */
  lemma RescaleKeepsRatios(d: Dist, a: Label, b: Label)
    requires d.Total() > 0.0
    ensures Rescale(d).Value(a) * d.Value(b) == Rescale(d).Value(b) * d.Value(a)
  {
    var r := Rescale(d);
    RatioKept(r.Value(a), r.Value(b), d.Value(a), d.Value(b), d.Total());
  }

  lemma RatioKept(x: real, y: real, a: real, b: real, t: real)
    requires t > 0.0 && x * t == a * 100.0 && y * t == b * 100.0
    ensures x * b == y * a
  {
    assert x * b * t == y * a * t;
    CancelPositive(x * b, y * a, t);
  }

  lemma CancelPositive(x: real, y: real, t: real)
    requires t > 0.0 && x * t == y * t
    ensures x == y
  {
    assert x == x * t / t;
  }

  /** A distribution that is already in percent is left as it is, so
      rescaling twice is rescaling once. */
  lemma RescaleIdempotent(d: Dist)
    requires d.Total() > 0.0
    ensures Rescale(Rescale(d)) == Rescale(d)
  {
    var r := Rescale(d);
    var rr := Rescale(r);
    assert rr.positive * 100.0 == r.positive * 100.0;
    assert rr.neutral * 100.0 == r.neutral * 100.0;
    assert rr.negative * 100.0 == r.negative * 100.0;
  }

  /** The loop inside `max`: `best` is the first key so far with the largest
      value, and a later key replaces it only when strictly larger. The result
      is the first position whose value no key exceeds. */
  function FirstMax(d: Dist, keys: seq<Label>, best: nat, i: nat): (r: nat)
    requires best < i <= |keys|
    requires forall j | 0 <= j < i :: d.Value(keys[j]) <= d.Value(keys[best])
    requires forall j | 0 <= j < best :: d.Value(keys[j]) < d.Value(keys[best])
    ensures r < |keys|
    ensures forall j | 0 <= j < |keys| :: d.Value(keys[j]) <= d.Value(keys[r])
    ensures forall j | 0 <= j < r :: d.Value(keys[j]) < d.Value(keys[r])
    decreases |keys| - i
  {
    if i == |keys| then best
    else FirstMax(d, keys, if d.Value(keys[i]) > d.Value(keys[best]) then i else best, i + 1)
  }

  /** No label scores higher than `l`. */
  predicate Highest(d: Dist, l: Label) {
    d.positive <= d.Value(l) && d.neutral <= d.Value(l) && d.negative <= d.Value(l)
  }

  /** The overall label: the one with the largest score, ties going to
      Positive, then Neutral, then Negative. */
  function Overall(d: Dist): (r: Label)
    ensures Highest(d, r)
    ensures r == Positive <==> d.positive >= d.neutral && d.positive >= d.negative
    ensures r == Neutral <==> d.neutral > d.positive && d.neutral >= d.negative
    ensures r == Negative <==> d.negative > d.positive && d.negative > d.neutral
  {
    var i := FirstMax(d, Order, 0, 1);
    assert d.Value(Order[0]) == d.positive && d.Value(Order[1]) == d.neutral;
    assert d.Value(Order[2]) == d.negative;
    Order[i]
  }

  /** No label scores higher than the overall one. */
  lemma OverallIsMaximal(d: Dist, l: Label)
    ensures d.Value(l) <= d.Value(Overall(d))
  {
  }

  /** Scaling all three scores by the same positive factor does not change
      the overall label, so the label of the rescaled percentages is the
      label of the raw scores. */
  lemma OverallOfRescaled(d: Dist)
    requires d.Total() > 0.0
    ensures Overall(Rescale(d)) == Overall(d)
  {
    var r := Rescale(d);
    var t := d.Total();
    SameOrder(d.positive, d.neutral, t);
    SameOrder(d.neutral, d.positive, t);
    SameOrder(d.positive, d.negative, t);
    SameOrder(d.negative, d.positive, t);
    SameOrder(d.neutral, d.negative, t);
    SameOrder(d.negative, d.neutral, t);
  }

  lemma SameOrder(a: real, b: real, t: real)
    requires t > 0.0
    ensures a <= b <==> a / t * 100.0 <= b / t * 100.0
  {
    assert a / t * t == a && b / t * t == b;
  }
}
