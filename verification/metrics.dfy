/** The move metrics of lista2/src/main.cpp that the game hands to the board
    as its evaluation: `first_strategy` (Manhattan distance) and
    `third_strategy` (Chebyshev distance). */
module Metrics {
  import opened Board
  import opened Moves

  function Abs(n: int): (a: int)
    ensures a >= 0 && (a == n || a == -n)
  {
    if n < 0 then -n else n
  }

  /** `first_strategy`: how many single orthogonal steps the move spans. */
  function FirstStrategy(m: Move): (d: int)
    ensures d >= 0
    ensures d == 0 <==> m.from == m.to
    ensures d >= Abs(m.from.x - m.to.x) && d >= Abs(m.from.y - m.to.y)
  {
    Abs(m.from.x - m.to.x) + Abs(m.from.y - m.to.y)
  }

  /** `third_strategy`: how many king steps the move spans. It is 1 exactly
      for the single steps the board generates. */
  function ThirdStrategy(m: Move): (d: int)
    ensures d >= 0
    ensures d == 0 <==> m.from == m.to
    ensures d <= FirstStrategy(m) <= 2 * d
    ensures d == 1 <==> IsStep(m.from, m.to)
  {
    var dx := Abs(m.from.x - m.to.x);
    var dy := Abs(m.from.y - m.to.y);
    if dx < dy then dy else dx
  }

  /** Reversing a move changes neither metric. */
  lemma Symmetric(m: Move)
    ensures FirstStrategy(Move(m.to, m.from)) == FirstStrategy(m)
    ensures ThirdStrategy(Move(m.to, m.from)) == ThirdStrategy(m)
  {
  }

  /** A single jump spans two king steps, and two or four orthogonal ones. */
  lemma JumpMetrics(b: Board, p: Square, q: Square)
    requires Shaped(b) && IsJump(b, p, q)
    ensures ThirdStrategy(Move(p, q)) == 2
    ensures FirstStrategy(Move(p, q)) == 2 || FirstStrategy(Move(p, q)) == 4
  {
  }
}
