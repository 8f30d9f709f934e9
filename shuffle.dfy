/** `shuffleArray` (src/lib/allocate.ts:113-118): an in-place Fisher–Yates
    shuffle. `Math.random` is replaced by an arbitrary oracle: the t-th call of
    a run yields `draw(t)`, and the swap partner of position i is
    `draw(t) % (i + 1)`, so every index in [0, i] can occur. Every property is
    proved for every oracle, hence for every outcome of the shuffles. */
module Shuffle {

  /** How many random numbers a shuffle of `n` elements consumes. */
  function Draws(n: nat): nat {
    if n == 0 then 0 else n - 1
  }

  /** Swaps position i with a drawn position j <= i, for i from the last
      position down to 1. */
  method ShuffleArray<T>(a: array<T>, draw: nat -> nat, tick: nat) returns (next: nat)
    modifies a
    ensures multiset(a[..]) == old(multiset(a[..]))
    ensures next == tick + Draws(a.Length)
  {
    next := tick;
    var i := a.Length - 1;
    while i > 0
      invariant -1 <= i < a.Length
      invariant a.Length > 0 ==> 0 <= i && next == tick + (a.Length - 1 - i)
      invariant a.Length == 0 ==> next == tick
      invariant multiset(a[..]) == old(multiset(a[..]))
    {
      var j := draw(next) % (i + 1);
      a[i], a[j] := a[j], a[i];
      next := next + 1;
      i := i - 1;
    }
  }

  /** `const copy = [...s]; shuffleArray(copy)`: a shuffled copy of `s`. */
  method ShuffledCopy<T>(s: seq<T>, draw: nat -> nat, tick: nat) returns (r: seq<T>, next: nat)
    ensures |r| == |s| && multiset(r) == multiset(s)
    ensures next == tick + Draws(|s|)
  {
    var a := new T[|s|](i requires 0 <= i < |s| => s[i]);
    assert a[..] == s;
    next := ShuffleArray(a, draw, tick);
    r := a[..];
  }
}
