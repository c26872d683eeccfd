/** The reference semantics behind both missing-data calculations: the probability that
    independent Bernoulli trials with the given success probabilities produce at least a
    given number of successes. classification.py computes it by convolution and
    decision_v3.py by enumerating bit masks; both are proved equal to AtLeast. */
module Bernoulli {

  predicate Probabilities(ps: seq<real>) {
    forall i :: 0 <= i < |ps| ==> 0.0 <= ps[i] <= 1.0
  }

  /** Mixture of two outcomes: x with weight p, y with weight 1 - p. */
  function Mix(p: real, x: real, y: real): real {
    p * x + (1.0 - p) * y
  }

  /** P(at least `need` of the trials succeed), by conditioning on the last trial. */
  function AtLeast(ps: seq<real>, need: int): real
    decreases |ps|
  {
    if ps == [] then (if need <= 0 then 1.0 else 0.0)
    else Mix(ps[|ps| - 1], AtLeast(ps[..|ps| - 1], need - 1), AtLeast(ps[..|ps| - 1], need))
  }

  /** P(exactly k of the trials succeed), by conditioning on the last trial. */
  function Exactly(ps: seq<real>, k: int): real
    decreases |ps|
  {
    if ps == [] then (if k == 0 then 1.0 else 0.0)
    else Mix(ps[|ps| - 1], Exactly(ps[..|ps| - 1], k - 1), Exactly(ps[..|ps| - 1], k))
  }

  /** The trials with trial j left out. */
  function RemoveAt(ps: seq<real>, j: nat): (r: seq<real>)
    requires j < |ps|
    ensures |r| == |ps| - 1
  {
    ps[..j] + ps[j + 1..]
  }

  // ---------------------------------------------------------------------------
  // Arithmetic of mixtures

  lemma MixBounds(p: real, x: real, y: real)
    requires 0.0 <= p <= 1.0 && 0.0 <= x <= 1.0 && 0.0 <= y <= 1.0
    ensures 0.0 <= Mix(p, x, y) <= 1.0
  {
    assert 0.0 <= p * x <= p;
    assert 0.0 <= (1.0 - p) * y <= 1.0 - p;
  }

  lemma MixNonNegative(p: real, x: real, y: real)
    requires 0.0 <= p <= 1.0 && 0.0 <= x && 0.0 <= y
    ensures 0.0 <= Mix(p, x, y)
  {
    assert 0.0 <= p * x;
    assert 0.0 <= (1.0 - p) * y;
  }

  lemma MixAdd(p: real, x0: real, y0: real, x1: real, y1: real)
    ensures Mix(p, x0 + x1, y0 + y1) == Mix(p, x0, y0) + Mix(p, x1, y1)
  {
  }

  lemma MixSame(p: real, x: real)
    ensures Mix(p, x, x) == x
  {
  }

  lemma MixSwap(q: real, p: real, a: real, b: real, c: real)
    ensures Mix(q, Mix(p, a, b), Mix(p, b, c)) == Mix(p, Mix(q, a, b), Mix(q, b, c))
  {
  }

  // ---------------------------------------------------------------------------
  // Properties of AtLeast and Exactly

  /** A probability: never below 0, never above 1. */
  lemma {:induction false} AtLeastBounds(ps: seq<real>, need: int)
    requires Probabilities(ps)
    ensures 0.0 <= AtLeast(ps, need) <= 1.0
    decreases |ps|
  {
    if ps != [] {
      var rest := ps[..|ps| - 1];
      AtLeastBounds(rest, need - 1);
      AtLeastBounds(rest, need);
      MixBounds(ps[|ps| - 1], AtLeast(rest, need - 1), AtLeast(rest, need));
    }
  }

  /** Needing no success is certain, whatever the probabilities. */
  lemma {:induction false} AtLeastCertain(ps: seq<real>, need: int)
    requires need <= 0
    ensures AtLeast(ps, need) == 1.0
    decreases |ps|
  {
    if ps != [] {
      AtLeastCertain(ps[..|ps| - 1], need - 1);
      AtLeastCertain(ps[..|ps| - 1], need);
      MixSame(ps[|ps| - 1], 1.0);
    }
  }

  /** Needing more successes than there are trials is impossible. */
  lemma {:induction false} AtLeastImpossible(ps: seq<real>, need: int)
    requires need > |ps|
    ensures AtLeast(ps, need) == 0.0
    decreases |ps|
  {
    if ps != [] {
      AtLeastImpossible(ps[..|ps| - 1], need - 1);
      AtLeastImpossible(ps[..|ps| - 1], need);
      MixSame(ps[|ps| - 1], 0.0);
    }
  }

  /** A probability mass is never negative. */
  lemma {:induction false} ExactlyNonNegative(ps: seq<real>, k: int)
    requires Probabilities(ps)
    ensures Exactly(ps, k) >= 0.0
    decreases |ps|
  {
    if ps != [] {
      var rest := ps[..|ps| - 1];
      ExactlyNonNegative(rest, k - 1);
      ExactlyNonNegative(rest, k);
      MixNonNegative(ps[|ps| - 1], Exactly(rest, k - 1), Exactly(rest, k));
    }
  }

  /** At least `need` splits into exactly `need` or at least `need + 1`. */
  lemma {:induction false} AtLeastStep(ps: seq<real>, need: int)
    ensures AtLeast(ps, need) == AtLeast(ps, need + 1) + Exactly(ps, need)
    decreases |ps|
  {
    if ps != [] {
      var rest := ps[..|ps| - 1];
      AtLeastStep(rest, need - 1);
      AtLeastStep(rest, need);
      MixAdd(ps[|ps| - 1], AtLeast(rest, need), AtLeast(rest, need + 1),
             Exactly(rest, need - 1), Exactly(rest, need));
    }
  }

  /** Needing one more success never makes it likelier. */
  lemma AtLeastAntitone(ps: seq<real>, need: int)
    requires Probabilities(ps)
    ensures AtLeast(ps, need + 1) <= AtLeast(ps, need)
  {
    AtLeastStep(ps, need);
    ExactlyNonNegative(ps, need);
  }

  /** Antitone over any distance. */
  lemma {:induction false} AtLeastAntitoneFar(ps: seq<real>, lo: int, hi: int)
    requires Probabilities(ps) && lo <= hi
    ensures AtLeast(ps, hi) <= AtLeast(ps, lo)
    decreases hi - lo
  {
    if lo < hi {
      AtLeastAntitone(ps, hi - 1);
      AtLeastAntitoneFar(ps, lo, hi - 1);
    }
  }

  /** Law of total probability: condition on any one trial j, not just the last. */
  lemma {:induction false} AtLeastCondition(ps: seq<real>, j: nat, need: int)
    requires j < |ps|
    ensures AtLeast(ps, need)
         == Mix(ps[j], AtLeast(RemoveAt(ps, j), need - 1), AtLeast(RemoveAt(ps, j), need))
    decreases |ps|
  {
    var last := |ps| - 1;
    if j == last {
      assert RemoveAt(ps, j) == ps[..last];
    } else {
      var rest := ps[..last];
      var r := RemoveAt(rest, j);
      assert rest[j] == ps[j];
      var rq := r + [ps[last]];
      assert RemoveAt(ps, j) == rq;
      assert rq[..|rq| - 1] == r && rq[|rq| - 1] == ps[last];
      AtLeastCondition(rest, j, need - 1);
      AtLeastCondition(rest, j, need);
      MixSwap(ps[last], ps[j], AtLeast(r, need - 2), AtLeast(r, need - 1), AtLeast(r, need));
    }
  }
}
