/**
 * `Math.random()`, modelled as an object holding a stream of draws in [0, 1)
 * and a cursor: every call returns the next draw of the stream. Which stream
 * it is stays unknown: every contract holds for all of them.
 */
module Random {
  type Roll = r: real | 0.0 <= r < 1.0

  class Rng {
    const draw: nat -> Roll
    var pos: nat

    constructor (draw: nat -> Roll)
      ensures this.draw == draw && pos == 0
    {
      this.draw := draw;
      pos := 0;
    }

    /** One call of `Math.random()`. */
    method Next() returns (r: Roll)
      modifies this
      ensures r == draw(old(pos)) && pos == old(pos) + 1
    {
      r := draw(pos);
      pos := pos + 1;
    }
  }

  /**
   * `Math.random() * span + low`: the source's spawn coordinates, e.g.
   * `Math.random() * (WORLD_SIZE - 200) + 100` for players.
   */
  function SpawnCoord(r: Roll, span: real, low: real): (c: real)
    requires span > 0.0
    ensures low <= c < low + span
  {
    ScaledBelow(r, span);
    r * span + low
  }

  lemma ScaledBelow(r: real, span: real)
    requires 0.0 <= r < 1.0 && span > 0.0
    ensures 0.0 <= r * span < span
  {
    assert span - r * span == (1.0 - r) * span;
  }
}
