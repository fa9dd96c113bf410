/** java.util.Random as an oracle: the model does not say how values are
    drawn, only that the k-th call nextInt(bound) answers some value
    Draw(k, bound) in [0, bound). Every property proved with it holds for
    every such oracle. */
module JavaRandom {

  class Random {
    /** The answer of the k-th call of nextInt(bound). */
    const draw: (nat, int) -> int
    /** How many calls of nextInt have been made. */
    var calls: nat

    /** The oracle answers nextInt(bound) within [0, bound). */
    ghost predicate InRange() {
      forall k: nat, bound: int :: bound > 0 ==> 0 <= draw(k, bound) < bound
    }

    /** A generator that answers with draw. */
    constructor (draw: (nat, int) -> int)
      requires forall k: nat, bound: int :: bound > 0 ==> 0 <= draw(k, bound) < bound
      ensures InRange() && this.draw == draw && calls == 0
    {
      this.draw := draw;
      calls := 0;
    }

    /** nextInt(bound): a value in [0, bound); the call is counted. */
    method NextInt(bound: int) returns (r: int)
      requires InRange() && bound > 0
      modifies this`calls
      ensures r == draw(old(calls), bound) && calls == old(calls) + 1
      ensures 0 <= r < bound
    {
      r := draw(calls, bound);
      calls := calls + 1;
    }
  }
}
