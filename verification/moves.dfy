/** Legal-move generation of lista2/src/board.cpp: single steps to the eight
    neighbours and chains of jumps, explored depth first with a per-piece
    visited set. */
module Moves {
  import opened Board

  /** `board::move`: from `(x1, y1)` to `(x2, y2)`. */
  datatype Move = Move(from: Square, to: Square)

  /** `single_moves`, in the source's order. */
  const Directions: seq<Square> := [
    Square(-1, -1), Square(-1, 0), Square(-1, 1), Square(0, -1),
    Square(0, 1), Square(1, -1), Square(1, 0), Square(1, 1)
  ]

  /** Every bit a square of the board can set in `visited`. */
  const AllPos: set<int> := set n | 0 <= n < Size * Size

  function Add(p: Square, d: Square): Square {
    Square(p.x + d.x, p.y + d.y)
  }

  /** Where a jump over `Add(p, d)` lands. */
  function JumpTarget(p: Square, d: Square): Square {
    Add(Add(p, d), d)
  }

  /** One of the eight neighbours: Chebyshev distance 1. */
  predicate IsStep(p: Square, q: Square) {
    && -1 <= q.x - p.x <= 1
    && -1 <= q.y - p.y <= 1
    && p != q
  }

  /** A jump, stated without directions: two squares away along a row, a
      column or a diagonal, over an occupied square, onto an empty one. */
  predicate IsJump(b: Board, p: Square, q: Square)
    requires Shaped(b)
  {
    var dx := q.x - p.x;
    var dy := q.y - p.y;
    var mid := Square(p.x + dx / 2, p.y + dy / 2);
    && (dx == -2 || dx == 0 || dx == 2)
    && (dy == -2 || dy == 0 || dy == 2)
    && p != q
    && InBoard(mid) && InBoard(q)
    && Cell(b, mid) != 0 && Cell(b, q) == 0
  }

  /** The test for a step along direction `d`. */
  predicate StepOpen(b: Board, p: Square, d: Square)
    requires Shaped(b)
  {
    InBoard(Add(p, d)) && Cell(b, Add(p, d)) == 0
  }

  /** The test both loops apply before jumping along direction `d`. */
  predicate LegalJump(b: Board, p: Square, d: Square)
    requires Shaped(b)
  {
    && InBoard(Add(p, d)) && InBoard(JumpTarget(p, d))
    && Cell(b, Add(p, d)) != 0 && Cell(b, JumpTarget(p, d)) == 0
  }

  /** Both coordinates differ by an even amount: what jumps preserve and a
      step never has. */
  predicate Even(p: Square, q: Square) {
    (q.x - p.x) % 2 == 0 && (q.y - p.y) % 2 == 0
  }

  /** The position of a unit offset in `Directions`. */
  function DirectionIndex(d: Square): (k: nat)
    requires -1 <= d.x <= 1 && -1 <= d.y <= 1 && d != Square(0, 0)
    ensures k < |Directions| && Directions[k] == d
  {
    var t := (d.x + 1) * 3 + (d.y + 1);
    if t < 4 then t else t - 1
  }

  /** The directions are exactly the eight steps. */
  lemma StepDirection(p: Square, q: Square) returns (k: nat)
    requires IsStep(p, q)
    ensures k < |Directions| && q == Add(p, Directions[k])
  {
    k := DirectionIndex(Square(q.x - p.x, q.y - p.y));
  }

  lemma DirectionStep(p: Square, k: nat)
    requires k < |Directions|
    ensures IsStep(p, Add(p, Directions[k]))
  {
  }

  /** A direction passing the jump test gives a jump, and every jump comes
      from some direction passing the test. */
  lemma LegalJumpIsJump(b: Board, p: Square, k: nat)
    requires Shaped(b) && k < |Directions| && LegalJump(b, p, Directions[k])
    ensures IsJump(b, p, JumpTarget(p, Directions[k]))
  {
  }

  lemma JumpDirection(b: Board, p: Square, q: Square) returns (k: nat)
    requires Shaped(b) && IsJump(b, p, q)
    ensures k < |Directions| && LegalJump(b, p, Directions[k]) && q == JumpTarget(p, Directions[k])
  {
    k := DirectionIndex(Square((q.x - p.x) / 2, (q.y - p.y) / 2));
  }

  /** `in_board(jump_dest)` implies `in_board(dest)`, so the inner loop may
      read the square jumped over without testing it. */
  lemma MidInBoard(p: Square, k: nat)
    requires k < |Directions| && InBoard(p) && InBoard(JumpTarget(p, Directions[k]))
    ensures InBoard(Add(p, Directions[k]))
  {
  }

  /** The bits of the jump destinations among the moves: the squares a
      piece's search marks in `visited`. Steps are told apart by parity. */
  function Dests(ms: seq<Move>): set<int> {
    set m | m in ms && Even(m.from, m.to) :: ToPos(m.to)
  }

  lemma DestsAppend(a: seq<Move>, c: seq<Move>)
    ensures Dests(a + c) == Dests(a) + Dests(c)
  {
    assert forall m :: m in a + c <==> m in a || m in c;
  }

  /** Every move goes from `from` to an empty square of the board, an even
      distance away. */
  predicate Lands(b: Board, from: Square, ms: seq<Move>)
    requires Shaped(b)
  {
    forall m :: m in ms ==> m.from == from && InBoard(m.to) && Cell(b, m.to) == 0 && Even(from, m.to)
  }

  /** The destination of the `i`-th move. */
  function DestAt(ms: seq<Move>, i: nat): Square
    requires i < |ms|
  {
    ms[i].to
  }

  /** Each destination is a jump from `origin` or from an earlier
      destination. (The trigger keeps the witness `j` from feeding the
      outer quantifier.) */
  predicate ChainedFrom(b: Board, origin: Square, ms: seq<Move>)
    requires Shaped(b)
  {
    forall i {:trigger DestAt(ms, i)} :: 0 <= i < |ms| ==>
      || IsJump(b, origin, DestAt(ms, i))
      || exists j :: 0 <= j < i && IsJump(b, ms[j].to, DestAt(ms, i))
  }

  /** Every legal jump out of a jump destination lands on a square in
      `vis`. */
  predicate JumpsClosed(b: Board, ms: seq<Move>, vis: set<int>)
    requires Shaped(b)
  {
    forall m, k :: m in ms && Even(m.from, m.to) && 0 <= k < |Directions| && LegalJump(b, m.to, Directions[k]) ==>
      ToPos(JumpTarget(m.to, Directions[k])) in vis
  }

  lemma {:induction false} ChainedCons(b: Board, origin: Square, m: Move, rest: seq<Move>)
    requires Shaped(b) && IsJump(b, origin, m.to) && ChainedFrom(b, m.to, rest)
    ensures ChainedFrom(b, origin, [m] + rest)
  {
    var ms := [m] + rest;
    forall i | 0 <= i < |ms|
      ensures IsJump(b, origin, DestAt(ms, i)) || exists j :: 0 <= j < i && IsJump(b, ms[j].to, DestAt(ms, i))
    {
      if i == 0 {
        assert ms[0] == m;
      } else {
        ChainedConsAt(b, m, rest, i - 1);
      }
    }
  }

  lemma ChainedConsAt(b: Board, m: Move, rest: seq<Move>, i: nat)
    requires Shaped(b) && ChainedFrom(b, m.to, rest) && i < |rest|
    ensures exists j :: 0 <= j < i + 1 && IsJump(b, ([m] + rest)[j].to, ([m] + rest)[i + 1].to)
  {
    var ms := [m] + rest;
    assert ms[i + 1] == rest[i];
    if IsJump(b, m.to, DestAt(rest, i)) {
      assert ms[0] == m;
      JumpWitness(b, ms, 0, i + 1);
    } else {
      var j :| 0 <= j < i && IsJump(b, rest[j].to, DestAt(rest, i));
      assert ms[j + 1] == rest[j];
      JumpWitness(b, ms, j + 1, i + 1);
    }
  }

  /** A concrete earlier jump source is a witness for the chain. */
  lemma JumpWitness(b: Board, ms: seq<Move>, j: nat, i: nat)
    requires Shaped(b) && j < i < |ms| && IsJump(b, ms[j].to, ms[i].to)
    ensures exists j' :: 0 <= j' < i && IsJump(b, ms[j'].to, ms[i].to)
  {
  }

  lemma {:induction false} ChainedAppend(b: Board, origin: Square, a: seq<Move>, c: seq<Move>)
    requires Shaped(b) && ChainedFrom(b, origin, a) && ChainedFrom(b, origin, c)
    ensures ChainedFrom(b, origin, a + c)
  {
    var ms := a + c;
    forall i | 0 <= i < |ms|
      ensures IsJump(b, origin, DestAt(ms, i)) || exists j :: 0 <= j < i && IsJump(b, ms[j].to, DestAt(ms, i))
    {
      if i < |a| {
        assert ms[i] == a[i];
        if !IsJump(b, origin, DestAt(a, i)) {
          var j :| 0 <= j < i && IsJump(b, a[j].to, DestAt(a, i));
          assert ms[j] == a[j];
          assert IsJump(b, ms[j].to, ms[i].to);
        }
      } else {
        assert ms[i] == c[i - |a|];
        if !IsJump(b, origin, DestAt(c, i - |a|)) {
          var j :| 0 <= j < i - |a| && IsJump(b, c[j].to, DestAt(c, i - |a|));
          assert ms[j + |a|] == c[j];
          assert 0 <= j + |a| < i && IsJump(b, ms[j + |a|].to, ms[i].to);
        }
      }
    }
  }

  /** Marking one more board square leaves fewer unmarked; marking more
      never leaves more. */
  lemma MarkShrinks(vis: set<int>, n: int)
    requires n in AllPos && n !in vis
    ensures |AllPos - (vis + {n})| < |AllPos - vis|
  {
    assert AllPos - vis == (AllPos - (vis + {n})) + {n};
  }

  lemma GrowShrinks(vis: set<int>, more: set<int>)
    requires vis <= more
    ensures |AllPos - more| <= |AllPos - vis|
  {
    var a := AllPos - more;
    var c := AllPos - vis;
    assert c == a + (c - a);
  }

  /** `rec_add_jump_moves(out, visited, from, pos)`: mark `pos`, emit
      `from -> pos`, then try every direction whose landing square is on the
      board and unmarked. Returns the moves emitted and the final marks. */
  function Jump(b: Board, from: Square, pos: Square, vis: set<int>): (r: (seq<Move>, set<int>))
    requires Shaped(b) && InBoard(pos) && Cell(b, pos) == 0 && Even(from, pos)
    ensures |r.0| >= 1 && r.0[0] == Move(from, pos)
    ensures r.1 == vis + Dests(r.0)
    ensures Dests(r.0[1..]) !! vis + {ToPos(pos)}
    ensures Lands(b, from, r.0)
    ensures ChainedFrom(b, pos, r.0[1..])
    ensures JumpsClosed(b, r.0, r.1)
    decreases |AllPos - (vis + {ToPos(pos)})|, 1, 0
  {
    var rest := JumpDirs(b, from, pos, 0, vis + {ToPos(pos)});
    JumpStep(b, from, pos, vis, rest);
    ([Move(from, pos)] + rest.0, rest.1)
  }

  /** Emitting `from -> pos` ahead of the direction loop's moves. */
  lemma JumpStep(b: Board, from: Square, pos: Square, vis: set<int>, rest: (seq<Move>, set<int>))
    requires Shaped(b) && InBoard(pos) && Cell(b, pos) == 0 && Even(from, pos)
    requires rest.1 == vis + {ToPos(pos)} + Dests(rest.0) && Dests(rest.0) !! vis + {ToPos(pos)}
    requires Lands(b, from, rest.0)
    requires ChainedFrom(b, pos, rest.0)
    requires forall j :: 0 <= j < |Directions| && LegalJump(b, pos, Directions[j]) ==>
      ToPos(JumpTarget(pos, Directions[j])) in rest.1
    requires JumpsClosed(b, rest.0, rest.1)
    ensures rest.1 == vis + Dests([Move(from, pos)] + rest.0)
    ensures ([Move(from, pos)] + rest.0)[1..] == rest.0
    ensures Lands(b, from, [Move(from, pos)] + rest.0)
    ensures JumpsClosed(b, [Move(from, pos)] + rest.0, rest.1)
  {
    var ms := [Move(from, pos)] + rest.0;
    assert ms[1..] == rest.0;
    DestsAppend([Move(from, pos)], rest.0);
    assert Dests([Move(from, pos)]) == {ToPos(pos)};
  }

  /** A jump keeps the parity of the offset from the piece. */
  lemma EvenJump(from: Square, pos: Square, k: nat)
    requires k < |Directions| && Even(from, pos)
    ensures Even(from, JumpTarget(pos, Directions[k]))
  {
  }

  /** The direction loop of `rec_add_jump_moves`, from direction `k` on. */
  function JumpDirs(b: Board, from: Square, pos: Square, k: nat, vis: set<int>): (r: (seq<Move>, set<int>))
    requires Shaped(b) && InBoard(pos) && Even(from, pos) && k <= |Directions|
    ensures r.1 == vis + Dests(r.0) && Dests(r.0) !! vis
    ensures Lands(b, from, r.0)
    ensures ChainedFrom(b, pos, r.0)
    ensures forall j :: k <= j < |Directions| && LegalJump(b, pos, Directions[j]) ==>
      ToPos(JumpTarget(pos, Directions[j])) in r.1
    ensures JumpsClosed(b, r.0, r.1)
    decreases |AllPos - vis|, 0, |Directions| - k
  {
    if k == |Directions| then ([], vis)
    else
      var d := Directions[k];
      var dest := Add(pos, d);
      var jd := JumpTarget(pos, d);
      if !InBoard(jd) || ToPos(jd) in vis then
        var rest := JumpDirs(b, from, pos, k + 1, vis);
        JumpDirsSkip(b, pos, k, vis, rest);
        rest
      else
        MidInBoard(pos, k);
        if Cell(b, dest) != 0 && Cell(b, jd) == 0 then
          MarkShrinks(vis, ToPos(jd));
          EvenJump(from, pos, k);
          var sub := Jump(b, from, jd, vis);
          GrowShrinks(vis, sub.1);
          var rest := JumpDirs(b, from, pos, k + 1, sub.1);
          JumpDirsStep(b, from, pos, k, vis, sub, rest);
          (sub.0 + rest.0, rest.1)
        else
          var rest := JumpDirs(b, from, pos, k + 1, vis);
          JumpDirsSkip(b, pos, k, vis, rest);
          rest
  }

  /** A direction the loop skips is closed already: its landing square is
      marked, or the direction is no jump. */
  lemma JumpDirsSkip(b: Board, pos: Square, k: nat, vis: set<int>, rest: (seq<Move>, set<int>))
    requires Shaped(b) && InBoard(pos) && k < |Directions|
    requires !LegalJump(b, pos, Directions[k]) || ToPos(JumpTarget(pos, Directions[k])) in vis
    requires vis <= rest.1
    requires forall j :: k + 1 <= j < |Directions| && LegalJump(b, pos, Directions[j]) ==>
      ToPos(JumpTarget(pos, Directions[j])) in rest.1
    ensures forall j :: k <= j < |Directions| && LegalJump(b, pos, Directions[j]) ==>
      ToPos(JumpTarget(pos, Directions[j])) in rest.1
  {
  }

  /** The jump branch of the direction loop: the chain rooted at the landing
      square followed by the remaining directions keeps every property. */
  lemma JumpDirsStep(b: Board, from: Square, pos: Square, k: nat, vis: set<int>,
                     sub: (seq<Move>, set<int>), rest: (seq<Move>, set<int>))
    requires Shaped(b) && InBoard(pos) && k < |Directions|
    requires LegalJump(b, pos, Directions[k])
    requires ToPos(JumpTarget(pos, Directions[k])) !in vis
    requires |sub.0| >= 1 && sub.0[0] == Move(from, JumpTarget(pos, Directions[k]))
    requires sub.1 == vis + Dests(sub.0)
    requires Dests(sub.0[1..]) !! vis + {ToPos(JumpTarget(pos, Directions[k]))}
    requires Lands(b, from, sub.0)
    requires ChainedFrom(b, JumpTarget(pos, Directions[k]), sub.0[1..])
    requires JumpsClosed(b, sub.0, sub.1)
    requires rest.1 == sub.1 + Dests(rest.0) && Dests(rest.0) !! sub.1
    requires Lands(b, from, rest.0)
    requires ChainedFrom(b, pos, rest.0)
    requires forall j :: k + 1 <= j < |Directions| && LegalJump(b, pos, Directions[j]) ==>
      ToPos(JumpTarget(pos, Directions[j])) in rest.1
    requires JumpsClosed(b, rest.0, rest.1)
    ensures rest.1 == vis + Dests(sub.0 + rest.0) && Dests(sub.0 + rest.0) !! vis
    ensures Lands(b, from, sub.0 + rest.0)
    ensures ChainedFrom(b, pos, sub.0 + rest.0)
    ensures forall j :: k <= j < |Directions| && LegalJump(b, pos, Directions[j]) ==>
      ToPos(JumpTarget(pos, Directions[j])) in rest.1
    ensures JumpsClosed(b, sub.0 + rest.0, rest.1)
  {
    var jd := JumpTarget(pos, Directions[k]);
    DestsAppend(sub.0, rest.0);
    DestsAppend([sub.0[0]], sub.0[1..]);
    assert sub.0 == [sub.0[0]] + sub.0[1..];
    assert Dests([sub.0[0]]) == {ToPos(jd)};
    LegalJumpIsJump(b, pos, k);
    ChainedCons(b, pos, sub.0[0], sub.0[1..]);
    ChainedAppend(b, pos, sub.0, rest.0);
    assert ToPos(jd) in rest.1;
  }

  /** Each move is a step or a jump from its piece, or a jump from an
      earlier destination of the same piece that was itself reached by
      jumps, so every move is a step or a chain of jumps. */
  predicate Sound(b: Board, ms: seq<Move>)
    requires Shaped(b)
  {
    forall i {:trigger DestAt(ms, i)} :: 0 <= i < |ms| ==>
      || IsStep(ms[i].from, DestAt(ms, i))
      || IsJump(b, ms[i].from, DestAt(ms, i))
      || exists j :: 0 <= j < i && ms[j].from == ms[i].from && !IsStep(ms[j].from, ms[j].to) && IsJump(b, ms[j].to, DestAt(ms, i))
  }

  lemma SoundWitness(b: Board, ms: seq<Move>, j: nat, i: nat)
    requires Shaped(b) && j < i < |ms| && ms[j].from == ms[i].from && !IsStep(ms[j].from, ms[j].to) && IsJump(b, ms[j].to, ms[i].to)
    ensures exists j' :: 0 <= j' < i && ms[j'].from == ms[i].from && !IsStep(ms[j'].from, ms[j'].to) && IsJump(b, ms[j'].to, ms[i].to)
  {
  }

  lemma {:induction false} SoundAppend(b: Board, a: seq<Move>, c: seq<Move>)
    requires Shaped(b) && Sound(b, a) && Sound(b, c)
    ensures Sound(b, a + c)
  {
    var ms := a + c;
    forall i | 0 <= i < |ms|
      ensures || IsStep(ms[i].from, DestAt(ms, i))
              || IsJump(b, ms[i].from, DestAt(ms, i))
              || exists j :: 0 <= j < i && ms[j].from == ms[i].from && !IsStep(ms[j].from, ms[j].to) && IsJump(b, ms[j].to, DestAt(ms, i))
    {
      if i < |a| {
        SoundAppendLeft(b, a, c, i);
      } else {
        SoundAppendRight(b, a, c, i - |a|);
      }
    }
  }

  lemma SoundAppendLeft(b: Board, a: seq<Move>, c: seq<Move>, i: nat)
    requires Shaped(b) && Sound(b, a) && i < |a|
    ensures var ms := a + c;
      || IsStep(ms[i].from, ms[i].to)
      || IsJump(b, ms[i].from, ms[i].to)
      || exists j :: 0 <= j < i && ms[j].from == ms[i].from && !IsStep(ms[j].from, ms[j].to) && IsJump(b, ms[j].to, ms[i].to)
  {
    var ms := a + c;
    assert ms[i] == a[i];
    if !IsStep(a[i].from, DestAt(a, i)) && !IsJump(b, a[i].from, DestAt(a, i)) {
      var j :| 0 <= j < i && a[j].from == a[i].from && !IsStep(a[j].from, a[j].to) && IsJump(b, a[j].to, DestAt(a, i));
      assert ms[j] == a[j];
      SoundWitness(b, ms, j, i);
    }
  }

  lemma SoundAppendRight(b: Board, a: seq<Move>, c: seq<Move>, i: nat)
    requires Shaped(b) && Sound(b, c) && i < |c|
    ensures var ms := a + c;
      || IsStep(ms[|a| + i].from, ms[|a| + i].to)
      || IsJump(b, ms[|a| + i].from, ms[|a| + i].to)
      || exists j :: 0 <= j < |a| + i && ms[j].from == ms[|a| + i].from && !IsStep(ms[j].from, ms[j].to) && IsJump(b, ms[j].to, ms[|a| + i].to)
  {
    var ms := a + c;
    assert ms[|a| + i] == c[i];
    if !IsStep(c[i].from, DestAt(c, i)) && !IsJump(b, c[i].from, DestAt(c, i)) {
      var j :| 0 <= j < i && c[j].from == c[i].from && !IsStep(c[j].from, c[j].to) && IsJump(b, c[j].to, DestAt(c, i));
      assert ms[j + |a|] == c[j];
      SoundWitness(b, ms, j + |a|, |a| + i);
    }
  }

  /** A sound move is a step or an even displacement: a chain of jumps
      never ends an odd distance from its piece. */
  lemma {:induction false} SoundParity(b: Board, ms: seq<Move>, i: nat)
    requires Shaped(b) && Sound(b, ms) && i < |ms|
    ensures IsStep(ms[i].from, ms[i].to) || Even(ms[i].from, ms[i].to)
    decreases i
  {
    assert DestAt(ms, i) == ms[i].to;
    if !IsStep(ms[i].from, ms[i].to) && !IsJump(b, ms[i].from, ms[i].to) {
      var j :| 0 <= j < i && ms[j].from == ms[i].from && !IsStep(ms[j].from, ms[j].to) && IsJump(b, ms[j].to, DestAt(ms, i));
      SoundParity(b, ms, j);
      JumpKeepsParity(b, ms[i].from, ms[j].to, ms[i].to);
    } else if !IsStep(ms[i].from, ms[i].to) {
      JumpKeepsParity(b, ms[i].from, ms[i].from, ms[i].to);
    }
  }

  /** A jump moves each coordinate by -2, 0 or 2, so it keeps the parity
      of the displacement from any origin. */
  lemma JumpKeepsParity(b: Board, origin: Square, p: Square, q: Square)
    requires Shaped(b) && IsJump(b, p, q) && Even(origin, p)
    ensures Even(origin, q)
  {
    EvenShift(p.x - origin.x, q.x - p.x);
    EvenShift(p.y - origin.y, q.y - p.y);
  }

  lemma EvenShift(a: int, d: int)
    requires a % 2 == 0 && (d == -2 || d == 0 || d == 2)
    ensures (a + d) % 2 == 0
  {
  }

  /** The same, for every move of a sound list. */
  lemma SoundParityAll(b: Board, ms: seq<Move>)
    requires Shaped(b) && Sound(b, ms)
    ensures forall m :: m in ms ==> IsStep(m.from, m.to) || Even(m.from, m.to)
  {
    forall i | 0 <= i < |ms| ensures IsStep(ms[i].from, ms[i].to) || Even(ms[i].from, ms[i].to) {
      SoundParity(b, ms, i);
    }
  }

  /** The moves of a jump search started from `piece` are sound. */
  lemma {:induction false} ChainSound(b: Board, piece: Square, ms: seq<Move>)
    requires Shaped(b) && |ms| >= 1 && Lands(b, piece, ms)
    requires IsJump(b, piece, ms[0].to) && ChainedFrom(b, ms[0].to, ms[1..])
    ensures Sound(b, ms)
  {
    assert ms == [ms[0]] + ms[1..];
    ChainedCons(b, piece, ms[0], ms[1..]);
    forall i | 0 <= i < |ms|
      ensures || IsStep(ms[i].from, DestAt(ms, i))
              || IsJump(b, ms[i].from, DestAt(ms, i))
              || exists j :: 0 <= j < i && ms[j].from == ms[i].from && !IsStep(ms[j].from, ms[j].to) && IsJump(b, ms[j].to, DestAt(ms, i))
    {
      assert ms[i] in ms;
      if !IsJump(b, piece, DestAt(ms, i)) {
        var j :| 0 <= j < i && IsJump(b, ms[j].to, DestAt(ms, i));
        assert ms[j] in ms;
        EvenNotStep(piece, ms[j].to);
        SoundWitness(b, ms, j, i);
      }
    }
  }

  /** A move set that is the piece's own: it starts at `piece`, lands on an
      empty square and is a step or an even (jump) displacement. */
  predicate FromPiece(b: Board, piece: Square, ms: seq<Move>)
    requires Shaped(b)
  {
    forall m :: m in ms ==>
      m.from == piece && InBoard(m.to) && Cell(b, m.to) == 0 && (IsStep(piece, m.to) || Even(piece, m.to))
  }

  /** One pass of the direction loop of `get_legal_moves` for `piece`,
      along direction `k`: a step to an empty neighbour, or a jump search
      from the landing square behind an occupied neighbour (not checked
      against `visited`), or nothing. Returns the moves and the marks. */
  function DirectionMoves(b: Board, piece: Square, k: nat, vis: set<int>): (r: (seq<Move>, set<int>))
    requires Shaped(b) && InBoard(piece) && k < |Directions|
    ensures r.1 == vis + Dests(r.0)
    ensures FromPiece(b, piece, r.0) && Sound(b, r.0) && JumpsClosed(b, r.0, r.1)
    ensures StepOpen(b, piece, Directions[k]) ==> Move(piece, Add(piece, Directions[k])) in r.0
    ensures LegalJump(b, piece, Directions[k]) ==> Move(piece, JumpTarget(piece, Directions[k])) in r.0
  {
    var d := Directions[k];
    var dest := Add(piece, d);
    var jd := JumpTarget(piece, d);
    if !InBoard(dest) then
      ([], vis)
    else if Cell(b, dest) == 0 then
      DirectionStep(piece, k);
      StepOnly(b, Move(piece, dest));
      ([Move(piece, dest)], vis)
    else if InBoard(jd) && Cell(b, jd) == 0 then
      var sub := Jump(b, piece, jd, vis);
      LegalJumpIsJump(b, piece, k);
      ChainSound(b, piece, sub.0);
      sub
    else
      ([], vis)
  }

  /** The direction loop of `get_legal_moves` for one piece, from direction
      `k` on, threading `visited` from one direction to the next. */
  function PieceMoves(b: Board, piece: Square, k: nat, vis: set<int>): (r: (seq<Move>, set<int>))
    requires Shaped(b) && InBoard(piece) && k <= |Directions|
    ensures r.1 == vis + Dests(r.0)
    ensures FromPiece(b, piece, r.0)
    ensures Sound(b, r.0)
    ensures forall j :: k <= j < |Directions| && StepOpen(b, piece, Directions[j]) ==>
      Move(piece, Add(piece, Directions[j])) in r.0
    ensures forall j :: k <= j < |Directions| && LegalJump(b, piece, Directions[j]) ==>
      Move(piece, JumpTarget(piece, Directions[j])) in r.0
    ensures JumpsClosed(b, r.0, r.1)
    decreases |Directions| - k
  {
    if k == |Directions| then ([], vis)
    else
      var head := DirectionMoves(b, piece, k, vis);
      var rest := PieceMoves(b, piece, k + 1, head.1);
      PieceMovesStep(b, piece, k, vis, head, rest);
      (head.0 + rest.0, rest.1)
  }

  /** One direction's moves followed by the remaining directions' moves
      keep every property of the loop. */
  lemma PieceMovesStep(b: Board, piece: Square, k: nat, vis: set<int>,
                       head: (seq<Move>, set<int>), rest: (seq<Move>, set<int>))
    requires Shaped(b) && InBoard(piece) && k < |Directions|
    requires head.1 == vis + Dests(head.0)
    requires FromPiece(b, piece, head.0) && Sound(b, head.0) && JumpsClosed(b, head.0, head.1)
    requires StepOpen(b, piece, Directions[k]) ==> Move(piece, Add(piece, Directions[k])) in head.0
    requires LegalJump(b, piece, Directions[k]) ==> Move(piece, JumpTarget(piece, Directions[k])) in head.0
    requires rest.1 == head.1 + Dests(rest.0)
    requires FromPiece(b, piece, rest.0) && Sound(b, rest.0) && JumpsClosed(b, rest.0, rest.1)
    requires forall j :: k + 1 <= j < |Directions| && StepOpen(b, piece, Directions[j]) ==>
      Move(piece, Add(piece, Directions[j])) in rest.0
    requires forall j :: k + 1 <= j < |Directions| && LegalJump(b, piece, Directions[j]) ==>
      Move(piece, JumpTarget(piece, Directions[j])) in rest.0
    ensures rest.1 == vis + Dests(head.0 + rest.0)
    ensures FromPiece(b, piece, head.0 + rest.0)
    ensures Sound(b, head.0 + rest.0)
    ensures forall j :: k <= j < |Directions| && StepOpen(b, piece, Directions[j]) ==>
      Move(piece, Add(piece, Directions[j])) in head.0 + rest.0
    ensures forall j :: k <= j < |Directions| && LegalJump(b, piece, Directions[j]) ==>
      Move(piece, JumpTarget(piece, Directions[j])) in head.0 + rest.0
    ensures JumpsClosed(b, head.0 + rest.0, rest.1)
  {
    DestsAppend(head.0, rest.0);
    SoundAppend(b, head.0, rest.0);
  }

  /** A step is never an even displacement, so a lone step marks nothing,
      is sound and has no jumps to follow. */
  lemma StepOnly(b: Board, m: Move)
    requires Shaped(b) && IsStep(m.from, m.to)
    ensures Dests([m]) == {} && Sound(b, [m]) && forall vis :: JumpsClosed(b, [m], vis)
  {
    StepOdd(m.from, m.to);
    assert DestAt([m], 0) == m.to;
  }

  /** An even displacement is never a step. */
  lemma EvenNotStep(p: Square, q: Square)
    requires Even(p, q)
    ensures !IsStep(p, q)
  {
  }

  lemma StepOdd(p: Square, q: Square)
    requires IsStep(p, q)
    ensures !Even(p, q)
  {
    var dx := q.x - p.x;
    var dy := q.y - p.y;
    assert dx == -1 || dx == 0 || dx == 1;
    assert dy == -1 || dy == 0 || dy == 1;
  }

  lemma ClosedAppend(b: Board, a: seq<Move>, c: seq<Move>, vis: set<int>)
    requires Shaped(b) && JumpsClosed(b, a, vis) && JumpsClosed(b, c, vis)
    ensures JumpsClosed(b, a + c, vis)
  {
  }

  /** The jump search of one piece reaches every square reachable by jumps:
      any legal jump out of a jump destination lands on another one. */
  lemma {:induction false} ClosedMoves(b: Board, piece: Square, ms: seq<Move>, vis: set<int>)
    requires Shaped(b) && InBoard(piece) && Cell(b, piece) != 0
    requires vis == {ToPos(piece)} + Dests(ms)
    requires FromPiece(b, piece, ms) && JumpsClosed(b, ms, vis)
    ensures forall m, k :: m in ms && !IsStep(piece, m.to) && 0 <= k < |Directions| && LegalJump(b, m.to, Directions[k]) ==>
      Move(piece, JumpTarget(m.to, Directions[k])) in ms
  {
    forall m, k | m in ms && !IsStep(piece, m.to) && 0 <= k < |Directions| && LegalJump(b, m.to, Directions[k])
      ensures Move(piece, JumpTarget(m.to, Directions[k])) in ms
    {
      var t := JumpTarget(m.to, Directions[k]);
      assert ToPos(t) in vis;
      if ToPos(t) == ToPos(piece) {
        ToPosInjective(t, piece);
        assert false;
      }
      var m' :| m' in ms && Even(m'.from, m'.to) && ToPos(m'.to) == ToPos(t);
      ToPosInjective(m'.to, t);
    }
  }

  /** The moves `get_legal_moves` generates for one piece: its direction
      loop with `visited` holding only the piece's own square. Every move
      leaves the piece for an empty square; every empty neighbour and every
      first jump is offered; and the jump destinations are closed under
      further jumps. */
  function PieceMovesOf(b: Board, piece: Square): (r: seq<Move>)
    requires Shaped(b) && InBoard(piece) && Cell(b, piece) != 0
    ensures forall m :: m in r ==> m.from == piece && InBoard(m.to) && Cell(b, m.to) == 0 && m.to != piece
    ensures Sound(b, r)
    ensures forall k :: 0 <= k < |Directions| && StepOpen(b, piece, Directions[k]) ==>
      Move(piece, Add(piece, Directions[k])) in r
    ensures forall k :: 0 <= k < |Directions| && LegalJump(b, piece, Directions[k]) ==>
      Move(piece, JumpTarget(piece, Directions[k])) in r
    ensures forall m, k :: m in r && !IsStep(piece, m.to) && 0 <= k < |Directions| && LegalJump(b, m.to, Directions[k]) ==>
      Move(piece, JumpTarget(m.to, Directions[k])) in r
  {
    var res := PieceMoves(b, piece, 0, {ToPos(piece)});
    ClosedMoves(b, piece, res.0, res.1);
    res.0
  }

  /** Every listed piece is on the board and occupied. */
  predicate Occupied(b: Board, ps: seq<Square>)
    requires Shaped(b)
  {
    forall i :: 0 <= i < |ps| ==> InBoard(ps[i]) && Cell(b, ps[i]) != 0
  }

  /** The outer loop of `get_legal_moves`: each piece's moves in list
      order. */
  function AllMoves(b: Board, ps: seq<Square>): (r: seq<Move>)
    requires Shaped(b) && Occupied(b, ps)
    ensures forall m :: m in r ==> m.from in ps && InBoard(m.to) && Cell(b, m.to) == 0 && m.to != m.from
    ensures Sound(b, r)
    ensures forall p, k :: p in ps && 0 <= k < |Directions| && StepOpen(b, p, Directions[k]) ==>
      Move(p, Add(p, Directions[k])) in r
    ensures forall p, k :: p in ps && 0 <= k < |Directions| && LegalJump(b, p, Directions[k]) ==>
      Move(p, JumpTarget(p, Directions[k])) in r
    ensures forall m, k :: m in r && !IsStep(m.from, m.to) && 0 <= k < |Directions| && LegalJump(b, m.to, Directions[k]) ==>
      Move(m.from, JumpTarget(m.to, Directions[k])) in r
    decreases |ps|
  {
    if |ps| == 0 then []
    else
      var first := PieceMovesOf(b, ps[0]);
      var rest := AllMoves(b, ps[1..]);
      AllMovesStep(b, ps, first, rest);
      first + rest
  }

  /** The first piece's moves followed by the other pieces' moves keep every
      property of the loop. */
  lemma AllMovesStep(b: Board, ps: seq<Square>, first: seq<Move>, rest: seq<Move>)
    requires Shaped(b) && |ps| > 0
    requires forall m :: m in first ==> m.from == ps[0] && InBoard(m.to) && Cell(b, m.to) == 0 && m.to != ps[0]
    requires Sound(b, first)
    requires forall k :: 0 <= k < |Directions| && StepOpen(b, ps[0], Directions[k]) ==>
      Move(ps[0], Add(ps[0], Directions[k])) in first
    requires forall k :: 0 <= k < |Directions| && LegalJump(b, ps[0], Directions[k]) ==>
      Move(ps[0], JumpTarget(ps[0], Directions[k])) in first
    requires forall m, k :: m in first && !IsStep(ps[0], m.to) && 0 <= k < |Directions| && LegalJump(b, m.to, Directions[k]) ==>
      Move(ps[0], JumpTarget(m.to, Directions[k])) in first
    requires forall m :: m in rest ==> m.from in ps[1..] && InBoard(m.to) && Cell(b, m.to) == 0 && m.to != m.from
    requires Sound(b, rest)
    requires forall p, k :: p in ps[1..] && 0 <= k < |Directions| && StepOpen(b, p, Directions[k]) ==>
      Move(p, Add(p, Directions[k])) in rest
    requires forall p, k :: p in ps[1..] && 0 <= k < |Directions| && LegalJump(b, p, Directions[k]) ==>
      Move(p, JumpTarget(p, Directions[k])) in rest
    requires forall m, k :: m in rest && !IsStep(m.from, m.to) && 0 <= k < |Directions| && LegalJump(b, m.to, Directions[k]) ==>
      Move(m.from, JumpTarget(m.to, Directions[k])) in rest
    ensures forall m :: m in first + rest ==> m.from in ps && InBoard(m.to) && Cell(b, m.to) == 0 && m.to != m.from
    ensures Sound(b, first + rest)
    ensures forall p, k :: p in ps && 0 <= k < |Directions| && StepOpen(b, p, Directions[k]) ==>
      Move(p, Add(p, Directions[k])) in first + rest
    ensures forall p, k :: p in ps && 0 <= k < |Directions| && LegalJump(b, p, Directions[k]) ==>
      Move(p, JumpTarget(p, Directions[k])) in first + rest
    ensures forall m, k :: m in first + rest && !IsStep(m.from, m.to) && 0 <= k < |Directions| && LegalJump(b, m.to, Directions[k]) ==>
      Move(m.from, JumpTarget(m.to, Directions[k])) in first + rest
  {
    SoundAppend(b, first, rest);
    assert forall p :: p in ps ==> p == ps[0] || p in ps[1..];
  }

  /** A valid board's pieces for `player` are on the board and hold
      `player`. */
  lemma OwnPieces(b: Board, player: int)
    requires Valid(b) && (player == 1 || player == 2)
    ensures forall i :: 0 <= i < |Pieces(b, player)| ==>
      InBoard(Pieces(b, player)[i]) && Cell(b, Pieces(b, player)[i]) == player
  {
    var ps := Pieces(b, player);
    forall i | 0 <= i < |ps| ensures InBoard(ps[i]) && Cell(b, ps[i]) == player {
      assert ps[i] in multiset(ps);
    }
  }

  /** `get_legal_moves(player)`: every move starts at one of the player's
      pieces and ends on a different, empty square of the board, by a step
      or a chain of jumps; every empty neighbour and every square reachable
      by jumps from a piece is offered. Duplicates are possible. */
  function LegalMoves(b: Board, player: int): (r: seq<Move>)
    requires Valid(b) && (player == 1 || player == 2)
    ensures forall m :: m in r ==>
      m.from in Pieces(b, player) && InBoard(m.to) && Cell(b, m.to) == 0 && m.to != m.from
    ensures Sound(b, r)
    ensures forall m :: m in r ==> IsStep(m.from, m.to) || Even(m.from, m.to)
    ensures forall p, k :: p in Pieces(b, player) && 0 <= k < |Directions| && StepOpen(b, p, Directions[k]) ==>
      Move(p, Add(p, Directions[k])) in r
    ensures forall p, k :: p in Pieces(b, player) && 0 <= k < |Directions| && LegalJump(b, p, Directions[k]) ==>
      Move(p, JumpTarget(p, Directions[k])) in r
    ensures forall m, k :: m in r && !IsStep(m.from, m.to) && 0 <= k < |Directions| && LegalJump(b, m.to, Directions[k]) ==>
      Move(m.from, JumpTarget(m.to, Directions[k])) in r
  {
    OwnPieces(b, player);
    var r := AllMoves(b, Pieces(b, player));
    SoundParityAll(b, r);
    r
  }
}
