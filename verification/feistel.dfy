/**
 A balanced Feistel network over [0, 2^(2h)).  The round function is a parameter: every result
 holds for any function from round number and right half to a number.
 */
module Feistel {
  import opened Arithmetic
  import opened Bitwise
  import opened Bytes
  import opened CycleWalk

  const ROUNDS: nat := 6

  type RoundFn = (nat, nat) -> nat

  /** One round: swap the halves and mix the masked round value into the old left half. */
  function Round(f: RoundFn, h: nat, i: nat, halves: (nat, nat)): (nat, nat) {
    (halves.1, Xor(halves.0, f(i, halves.1) % Pow2(h)))
  }

  function Unround(f: RoundFn, h: nat, i: nat, halves: (nat, nat)): (nat, nat) {
    (Xor(halves.1, f(i, halves.0) % Pow2(h)), halves.0)
  }

  predicate Bounded(h: nat, halves: (nat, nat)) {
    halves.0 < Pow2(h) && halves.1 < Pow2(h)
  }

  lemma RoundFacts(f: RoundFn, h: nat, i: nat, halves: (nat, nat))
    requires Bounded(h, halves)
    ensures Bounded(h, Round(f, h, i, halves)) && Bounded(h, Unround(f, h, i, halves))
    ensures Unround(f, h, i, Round(f, h, i, halves)) == halves
    ensures Round(f, h, i, Unround(f, h, i, halves)) == halves
  {
    XorBounded(halves.0, f(i, halves.1) % Pow2(h), h);
    XorBounded(halves.1, f(i, halves.0) % Pow2(h), h);
    XorCancels(halves.0, f(i, halves.1) % Pow2(h));
    XorCancels(halves.1, f(i, halves.0) % Pow2(h));
  }

  /** Rounds 0 to k - 1 in order. */
  function Forward(f: RoundFn, h: nat, k: nat, halves: (nat, nat)): (nat, nat) {
    if k == 0 then halves else Round(f, h, k - 1, Forward(f, h, k - 1, halves))
  }

  /** Rounds k - 1 to 0, each undone. */
  function Backward(f: RoundFn, h: nat, k: nat, halves: (nat, nat)): (nat, nat) {
    if k == 0 then halves else Backward(f, h, k - 1, Unround(f, h, k - 1, halves))
  }

  lemma {:induction false} ForwardThenBackward(f: RoundFn, h: nat, k: nat, halves: (nat, nat))
    requires Bounded(h, halves)
    ensures Bounded(h, Forward(f, h, k, halves))
    ensures Backward(f, h, k, Forward(f, h, k, halves)) == halves
  {
    if k > 0 {
      ForwardThenBackward(f, h, k - 1, halves);
      RoundFacts(f, h, k - 1, Forward(f, h, k - 1, halves));
    }
  }

  lemma {:induction false} BackwardThenForward(f: RoundFn, h: nat, k: nat, halves: (nat, nat))
    requires Bounded(h, halves)
    ensures Bounded(h, Backward(f, h, k, halves))
    ensures Forward(f, h, k, Backward(f, h, k, halves)) == halves
  {
    if k > 0 {
      RoundFacts(f, h, k - 1, halves);
      BackwardThenForward(f, h, k - 1, Unround(f, h, k - 1, halves));
    }
  }

  function Split(h: nat, x: nat): (nat, nat) {
    DivMod(x, Pow2(h));
    (x / Pow2(h), x % Pow2(h))
  }

  function Join(h: nat, halves: (nat, nat)): nat {
    halves.0 * Pow2(h) + halves.1
  }

  function Encipher(f: RoundFn, h: nat, x: nat): nat {
    Join(h, Forward(f, h, ROUNDS, Split(h, x)))
  }

  function Decipher(f: RoundFn, h: nat, x: nat): nat {
    Join(h, Backward(f, h, ROUNDS, Split(h, x)))
  }

  lemma SplitJoin(h: nat, halves: (nat, nat))
    requires Bounded(h, halves)
    ensures Split(h, Join(h, halves)) == halves && Join(h, halves) < Pow2(2 * h)
  {
    DivModUnique(halves.0, halves.1, Pow2(h));
    Pow2Add(h, h);
    SquareBound(halves.0, halves.1, Pow2(h));
  }

  lemma JoinSplit(h: nat, x: nat)
    requires x < Pow2(2 * h)
    ensures Bounded(h, Split(h, x)) && Join(h, Split(h, x)) == x
  {
    Pow2Add(h, h);
    DivMod(x, Pow2(h));
    QuotientBound(x, Pow2(h), Pow2(h));
  }

  /** The network permutes [0, 2^(2h)) for every round function, and Decipher is its inverse. */
  lemma EncipherPermutes(f: RoundFn, h: nat)
    ensures Permutes((x: nat) => Encipher(f, h, x), (x: nat) => Decipher(f, h, x), Pow2(2 * h))
  {
    var p, q := (x: nat) => Encipher(f, h, x), (x: nat) => Decipher(f, h, x);
    forall x: nat | x < Pow2(2 * h) ensures PermutesAt(p, q, Pow2(2 * h), x) {
      JoinSplit(h, x);
      ForwardThenBackward(f, h, ROUNDS, Split(h, x));
      BackwardThenForward(f, h, ROUNDS, Split(h, x));
      SplitJoin(h, Forward(f, h, ROUNDS, Split(h, x)));
      SplitJoin(h, Backward(f, h, ROUNDS, Split(h, x)));
    }
  }
}
