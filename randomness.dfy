// lib_cgtools.Random is not part of this model: its successive results are
// an explicit stream of reals that the caller supplies.
module Randomness {

  /** The values Random.random() returns, in the order they are drawn. */
  type Stream = seq<real>

  /** The k-th value of the stream; a stream that has run dry yields 0. */
  function At(s: Stream, k: nat): real
  {
    if k < |s| then s[k] else 0.0
  }

  /**
   * One call of Random.random(): the value drawn and the stream left over.
   * The value is the stream's next one, and the stream left over yields
   * every later value in the same order.
   */
  function Draw(s: Stream): (r: (real, Stream))
    ensures r.0 == At(s, 0)
    ensures forall k: nat :: At(r.1, k) == At(s, k + 1)
    ensures |r.1| == if s == [] then 0 else |s| - 1
  {
    if s == [] then (0.0, []) else (s[0], s[1..])
  }

  /** The stream after k draws: it yields the values from the k-th on. */
  function Drop(s: Stream, k: nat): (r: Stream)
    ensures |r| == if k <= |s| then |s| - k else 0
    ensures forall m: nat :: At(r, m) == At(s, k + m)
  {
    if k <= |s| then s[k..] else []
  }

  /** Drawing from the stream after k draws is the (k+1)-th draw. */
  lemma DrawAfterDrop(s: Stream, k: nat)
    ensures Draw(Drop(s, k)) == (At(s, k), Drop(s, k + 1))
  {
    if k < |s| {
      assert s[k..][1..] == s[k + 1..];
    }
  }

  /** k draws and then m more are k + m draws. */
  lemma DropDrop(s: Stream, k: nat, m: nat)
    ensures Drop(Drop(s, k), m) == Drop(s, k + m)
  {
    if k + m <= |s| {
      assert s[k..][m..] == s[k + m..];
    }
  }

  /** Every value lies in [0, 1), as Math.random-style generators promise. */
  predicate UnitValues(s: Stream)
  {
    forall i :: 0 <= i < |s| ==> 0.0 <= s[i] < 1.0
  }

  lemma AtUnit(s: Stream, k: nat)
    requires UnitValues(s)
    ensures 0.0 <= At(s, k) < 1.0
  {
  }
}
