/** The Halma board of lista2/src/board.cpp as a value: the grid of owners
    and the two players' piece lists, which `set_piece`, `remove_piece` and
    `move_piece` keep in step with the grid. */
module Board {
  /** `BOARD_SIZE`. */
  const Size: int := 16

  /** A square `(x, y)`, the source's `std::pair<int, int>`. */
  datatype Square = Square(x: int, y: int)

  /** `in_board`. */
  predicate InBoard(p: Square) {
    0 <= p.x < Size && 0 <= p.y < Size
  }

  /** `to_pos`: the square's bit in the visited set. */
  function ToPos(p: Square): (n: int)
    ensures InBoard(p) ==> 0 <= n < Size * Size
  {
    p.x * Size + p.y
  }

  /** Distinct squares of the board get distinct bits. */
  lemma ToPosInjective(p: Square, q: Square)
    requires InBoard(p) && InBoard(q) && ToPos(p) == ToPos(q)
    ensures p == q
  {
  }

  /** `_pieces` (0 empty, 1 or 2 the owner) and the two piece lists. */
  datatype Board = Board(cells: seq<seq<int>>, one: seq<Square>, two: seq<Square>)

  predicate Shaped(b: Board) {
    |b.cells| == Size && forall x :: 0 <= x < Size ==> |b.cells[x]| == Size
  }

  function Cell(b: Board, p: Square): int
    requires Shaped(b) && InBoard(p)
  {
    b.cells[p.x][p.y]
  }

  function Pieces(b: Board, player: int): seq<Square>
    requires player == 1 || player == 2
  {
    if player == 1 then b.one else b.two
  }

  /** Every cell holds 0, 1 or 2. */
  ghost predicate CellsInRange(b: Board)
    requires Shaped(b)
  {
    forall p :: InBoard(p) ==> 0 <= Cell(b, p) <= 2
  }

  /** Every listed square is on the board. */
  predicate OnBoard(s: seq<Square>) {
    forall i :: 0 <= i < |s| ==> InBoard(s[i])
  }

  /** `player`'s list holds a square of the board once exactly when the grid
      gives it to `player`, and not at all otherwise. */
  ghost predicate Counted(b: Board, player: int)
    requires Shaped(b) && (player == 1 || player == 2)
  {
    forall p :: InBoard(p) ==> multiset(Pieces(b, player))[p] == if Cell(b, p) == player then 1 else 0
  }

  /** The invariant the three mutators keep: the grid and the two piece lists
      describe the same position. */
  ghost predicate Valid(b: Board) {
    && Shaped(b)
    && CellsInRange(b)
    && OnBoard(b.one) && OnBoard(b.two)
    && Counted(b, 1) && Counted(b, 2)
  }

  /** `board::board()`: every square empty, no pieces. */
  function Empty(): (b: Board)
    ensures Valid(b)
    ensures forall p :: InBoard(p) ==> Cell(b, p) == 0
    ensures b.one == [] && b.two == []
  {
    Board(seq(Size, _ => seq(Size, _ => 0)), [], [])
  }

  /** The grid with one square overwritten. */
  function WithCell(b: Board, p: Square, v: int): (r: Board)
    requires Shaped(b) && InBoard(p)
    ensures Shaped(r) && r.one == b.one && r.two == b.two
    ensures Cell(r, p) == v
    ensures forall q :: InBoard(q) && q != p ==> Cell(r, q) == Cell(b, q)
  {
    Board(b.cells[p.x := b.cells[p.x][p.y := v]], b.one, b.two)
  }

  /** The erase-first loop of `remove_piece`. */
  function RemoveFirst(s: seq<Square>, p: Square): (r: seq<Square>)
    ensures |r| == if p in s then |s| - 1 else |s|
    ensures p !in s ==> r == s
  {
    if |s| == 0 then []
    else if s[0] == p then s[1..]
    else [s[0]] + RemoveFirst(s[1..], p)
  }

  /** One copy of p leaves the list. */
  lemma {:induction false} RemoveFirstCount(s: seq<Square>, p: Square)
    ensures multiset(RemoveFirst(s, p)) == multiset(s) - multiset{p}
  {
    if |s| > 0 {
      assert s == [s[0]] + s[1..];
      if s[0] != p {
        RemoveFirstCount(s[1..], p);
      }
    }
  }

  /** The copy removed is the first one, and the rest keep their order. */
  lemma {:induction false} RemoveFirstShape(s: seq<Square>, p: Square, i: nat)
    requires i < |s| && s[i] == p && forall j :: 0 <= j < i ==> s[j] != p
    ensures RemoveFirst(s, p) == s[..i] + s[i + 1..]
  {
    if i == 0 {
      assert s[..0] + s[1..] == s[1..];
    } else {
      var t := s[1..];
      RemoveFirstShape(t, p, i - 1);
      assert RemoveFirst(s, p) == [s[0]] + RemoveFirst(t, p);
      assert [s[0]] + (t[..i - 1] + t[i..]) == s[..i] + s[i + 1..];
    }
  }

  /** A list drawn from a list of board squares, plus perhaps one more board
      square, holds only board squares. */
  lemma OnBoardSub(s: seq<Square>, t: seq<Square>, extra: Square)
    requires OnBoard(s) && InBoard(extra) && multiset(t) <= multiset(s) + multiset{extra}
    ensures OnBoard(t)
  {
    forall i | 0 <= i < |t| ensures InBoard(t[i]) {
      assert t[i] in multiset(t);
      if t[i] != extra {
        assert t[i] in multiset(s);
        assert t[i] in s;
        var j :| 0 <= j < |s| && s[j] == t[i];
      }
    }
  }

  /** Clearing a square keeps `player`'s count, which is now 0 there. */
  lemma ClearCount(b: Board, p: Square, r: Board, player: int)
    requires Shaped(b) && Shaped(r) && InBoard(p) && (player == 1 || player == 2)
    requires Counted(b, player) && Cell(r, p) == 0
    requires forall q :: InBoard(q) && q != p ==> Cell(r, q) == Cell(b, q)
    requires multiset(Pieces(r, player)) ==
      if Cell(b, p) == player then multiset(Pieces(b, player)) - multiset{p} else multiset(Pieces(b, player))
    ensures Counted(r, player) && p !in Pieces(r, player)
  {
    assert multiset(Pieces(r, player))[p] == 0;
  }

  /** `remove_piece`: the square becomes empty and, when a player owned it,
      its first entry leaves that player's list; the other list is
      untouched. A valid board stays valid and the square leaves both
      lists. */
  function RemovePiece(b: Board, p: Square): (r: Board)
    requires Shaped(b) && InBoard(p)
    ensures Shaped(r) && Cell(r, p) == 0
    ensures forall q :: InBoard(q) && q != p ==> Cell(r, q) == Cell(b, q)
    ensures Cell(b, p) != 1 ==> r.one == b.one
    ensures Cell(b, p) != 2 ==> r.two == b.two
    ensures multiset(r.one) == if Cell(b, p) == 1 then multiset(b.one) - multiset{p} else multiset(b.one)
    ensures multiset(r.two) == if Cell(b, p) == 2 then multiset(b.two) - multiset{p} else multiset(b.two)
    ensures Valid(b) ==> Valid(r) && p !in r.one && p !in r.two
  {
    var c := Cell(b, p);
    RemoveFirstCount(b.one, p);
    RemoveFirstCount(b.two, p);
    var one := if c == 1 then RemoveFirst(b.one, p) else b.one;
    var two := if c == 2 then RemoveFirst(b.two, p) else b.two;
    var r := WithCell(Board(b.cells, one, two), p, 0);
    ClearValid(b, p, r);
    r
  }

  lemma ClearValid(b: Board, p: Square, r: Board)
    requires Shaped(b) && InBoard(p) && Shaped(r) && Cell(r, p) == 0
    requires forall q :: InBoard(q) && q != p ==> Cell(r, q) == Cell(b, q)
    requires multiset(r.one) == if Cell(b, p) == 1 then multiset(b.one) - multiset{p} else multiset(b.one)
    requires multiset(r.two) == if Cell(b, p) == 2 then multiset(b.two) - multiset{p} else multiset(b.two)
    ensures Valid(b) ==> Valid(r) && p !in r.one && p !in r.two
  {
    if Valid(b) {
      assert CellsInRange(r);
      assert OnBoard(r.one) && OnBoard(r.two) by {
        OnBoardSub(b.one, r.one, p);
        OnBoardSub(b.two, r.two, p);
      }
      ClearCount(b, p, r, 1);
      ClearCount(b, p, r, 2);
    }
  }

  /** Giving an empty square to a player, with the square appended to that
      player's list, keeps `pl`'s count. */
  lemma PlaceCount(c: Board, p: Square, player: int, r: Board, pl: int)
    requires Shaped(c) && Shaped(r) && InBoard(p) && 0 <= player <= 2 && (pl == 1 || pl == 2)
    requires Counted(c, pl) && Cell(c, p) == 0 && Cell(r, p) == player
    requires forall q :: InBoard(q) && q != p ==> Cell(r, q) == Cell(c, q)
    requires Pieces(r, pl) == if player == pl then Pieces(c, pl) + [p] else Pieces(c, pl)
    ensures Counted(r, pl)
  {
    assert multiset(Pieces(c, pl))[p] == 0;
  }

  lemma PlaceValid(c: Board, p: Square, player: int, r: Board)
    requires Shaped(c) && InBoard(p) && Cell(c, p) == 0 && 0 <= player <= 2
    requires Shaped(r) && Cell(r, p) == player
    requires forall q :: InBoard(q) && q != p ==> Cell(r, q) == Cell(c, q)
    requires r.one == (if player == 1 then c.one + [p] else c.one)
    requires r.two == (if player == 2 then c.two + [p] else c.two)
    ensures Valid(c) ==> Valid(r)
  {
    if Valid(c) {
      assert CellsInRange(r);
      assert OnBoard(r.one) && OnBoard(r.two);
      assert Counted(r, 1) by {
        PlaceCount(c, p, player, r, 1);
      }
      assert Counted(r, 2) by {
        PlaceCount(c, p, player, r, 2);
      }
    }
  }

  /** `set_piece`: the square is cleared as by `remove_piece`, then given to
      `player`, whose list gains it at the end. A valid board stays valid,
      and the lists change by the square only. */
  function SetPiece(b: Board, p: Square, player: int): (r: Board)
    requires Shaped(b) && InBoard(p) && 0 <= player <= 2
    ensures Shaped(r) && Cell(r, p) == player
    ensures forall q :: InBoard(q) && q != p ==> Cell(r, q) == Cell(b, q)
    ensures Valid(b) ==> Valid(r)
    ensures Valid(b) ==>
      && multiset(r.one) == multiset(b.one) - multiset{p} + (if player == 1 then multiset{p} else multiset{})
      && multiset(r.two) == multiset(b.two) - multiset{p} + (if player == 2 then multiset{p} else multiset{})
  {
    var cleared := RemovePiece(b, p);
    var r := WithCell(cleared, p, player);
    var one := if player == 1 then r.one + [p] else r.one;
    var two := if player == 2 then r.two + [p] else r.two;
    var result := Board(r.cells, one, two);
    assert Cell(result, p) == player;
    PlaceValid(cleared, p, player, result);
    SetPieceLists(b, p, player, cleared, result);
    result
  }

  lemma SetPieceLists(b: Board, p: Square, player: int, cleared: Board, r: Board)
    requires Shaped(b) && InBoard(p)
    requires Cell(b, p) != 1 ==> cleared.one == b.one
    requires Cell(b, p) != 2 ==> cleared.two == b.two
    requires multiset(cleared.one) == if Cell(b, p) == 1 then multiset(b.one) - multiset{p} else multiset(b.one)
    requires multiset(cleared.two) == if Cell(b, p) == 2 then multiset(b.two) - multiset{p} else multiset(b.two)
    requires r.one == (if player == 1 then cleared.one + [p] else cleared.one)
    requires r.two == (if player == 2 then cleared.two + [p] else cleared.two)
    ensures Valid(b) ==>
      && multiset(r.one) == multiset(b.one) - multiset{p} + (if player == 1 then multiset{p} else multiset{})
      && multiset(r.two) == multiset(b.two) - multiset{p} + (if player == 2 then multiset{p} else multiset{})
  {
    if Valid(b) {
      ListAfterSet(b.one, cleared.one, r.one, p, Cell(b, p) == 1, player == 1);
      ListAfterSet(b.two, cleared.two, r.two, p, Cell(b, p) == 2, player == 2);
    }
  }

  /** One list through `set_piece`: its copy of the square, if any, goes,
      and the square comes back when the list's player gets it. */
  lemma ListAfterSet(before: seq<Square>, cleared: seq<Square>, after: seq<Square>, p: Square, owned: bool, gets: bool)
    requires owned ==> multiset(cleared) == multiset(before) - multiset{p}
    requires !owned ==> cleared == before && multiset(before)[p] == 0
    requires after == if gets then cleared + [p] else cleared
    ensures multiset(after) == multiset(before) - multiset{p} + (if gets then multiset{p} else multiset{})
  {
    if !owned {
      assert multiset(before) - multiset{p} == multiset(before);
    }
  }

  /** The rewrite loop of `move_piece`: every entry equal to a becomes c. */
  function ReplaceAll(s: seq<Square>, a: Square, c: Square): (r: seq<Square>)
    ensures |r| == |s|
    ensures a != c ==> a !in r
    ensures forall x :: x in s && x != a ==> x in r
  {
    if |s| == 0 then []
    else [if s[0] == a then c else s[0]] + ReplaceAll(s[1..], a, c)
  }

  /** Each entry is rewritten in place. */
  lemma {:induction false} ReplaceAllAt(s: seq<Square>, a: Square, c: Square)
    ensures forall i :: 0 <= i < |s| ==> ReplaceAll(s, a, c)[i] == if s[i] == a then c else s[i]
  {
    if |s| > 0 {
      ReplaceAllAt(s[1..], a, c);
    }
  }

  /** `after` is `before` with every copy of a moved onto c. */
  ghost predicate Moved(after: multiset<Square>, before: multiset<Square>, a: Square, c: Square) {
    && after[a] == 0
    && after[c] == before[c] + before[a]
    && forall x :: x != a && x != c ==> after[x] == before[x]
  }

  /** Rewriting moves every copy of a onto c. */
  lemma {:induction false} ReplaceAllCount(s: seq<Square>, a: Square, c: Square)
    requires a != c
    ensures Moved(multiset(ReplaceAll(s, a, c)), multiset(s), a, c)
  {
    if |s| > 0 {
      var t := s[1..];
      var h := if s[0] == a then c else s[0];
      ReplaceAllCount(t, a, c);
      assert multiset(s) == multiset{s[0]} + multiset(t) by {
        assert s == [s[0]] + t;
      }
      assert multiset(ReplaceAll(s, a, c)) == multiset{h} + multiset(ReplaceAll(t, a, c));
      MovedCons(s[0], multiset(t), multiset(ReplaceAll(t, a, c)), a, c);
    }
  }

  lemma MovedCons(x: Square, before: multiset<Square>, after: multiset<Square>, a: Square, c: Square)
    requires a != c && Moved(after, before, a, c)
    ensures Moved(multiset{if x == a then c else x} + after, multiset{x} + before, a, c)
  {
  }

  /** Moving `from`'s owner onto the empty `to` keeps `pl`'s count. */
  lemma MoveCount(b: Board, from: Square, to: Square, r: Board, pl: int)
    requires Shaped(b) && Shaped(r) && InBoard(from) && InBoard(to) && from != to && (pl == 1 || pl == 2)
    requires Counted(b, pl) && Cell(b, to) == 0
    requires Cell(r, to) == Cell(b, from) && Cell(r, from) == 0
    requires forall q :: InBoard(q) && q != from && q != to ==> Cell(r, q) == Cell(b, q)
    requires Cell(b, from) == pl ==> Moved(multiset(Pieces(r, pl)), multiset(Pieces(b, pl)), from, to)
    requires Cell(b, from) != pl ==> Pieces(r, pl) == Pieces(b, pl)
    ensures Counted(r, pl)
    ensures Cell(b, from) == pl ==>
      multiset(Pieces(r, pl)) == multiset(Pieces(b, pl)) - multiset{from} + multiset{to}
  {
    if Cell(b, from) == pl {
      var after, before := multiset(Pieces(r, pl)), multiset(Pieces(b, pl));
      assert before[from] == 1 && before[to] == 0;
      assert after == before - multiset{from} + multiset{to};
    }
  }

  /** A rewrite onto a board square keeps a list on the board. */
  lemma ReplaceOnBoard(s: seq<Square>, a: Square, c: Square)
    requires OnBoard(s) && InBoard(c)
    ensures OnBoard(ReplaceAll(s, a, c))
  {
    ReplaceAllAt(s, a, c);
  }

  lemma MoveValid(b: Board, from: Square, to: Square, r: Board)
    requires Shaped(b) && InBoard(from) && InBoard(to) && from != to
    requires (Cell(b, from) == 1 || Cell(b, from) == 2) && Cell(b, to) == 0
    requires Shaped(r) && Cell(r, to) == Cell(b, from) && Cell(r, from) == 0
    requires forall q :: InBoard(q) && q != from && q != to ==> Cell(r, q) == Cell(b, q)
    requires r.one == if Cell(b, from) == 1 then ReplaceAll(b.one, from, to) else b.one
    requires r.two == if Cell(b, from) == 2 then ReplaceAll(b.two, from, to) else b.two
    ensures Valid(b) ==> Valid(r)
    ensures Valid(b) ==>
      multiset(Pieces(r, Cell(b, from))) == multiset(Pieces(b, Cell(b, from))) - multiset{from} + multiset{to}
  {
    if Valid(b) {
      assert OnBoard(r.one) && OnBoard(r.two) by {
        ReplaceOnBoard(b.one, from, to);
        ReplaceOnBoard(b.two, from, to);
      }
      assert CellsInRange(r);
      assert Counted(r, 1) by {
        ReplaceAllCount(b.one, from, to);
        MoveCount(b, from, to, r, 1);
      }
      assert Counted(r, 2) by {
        ReplaceAllCount(b.two, from, to);
        MoveCount(b, from, to, r, 2);
      }
      ReplaceAllCount(Pieces(b, Cell(b, from)), from, to);
      MoveCount(b, from, to, r, Cell(b, from));
    }
  }

  /** `move_piece`: the owner of the occupied `from` moves to the empty `to`:
      `from` becomes empty and the owner's list entries for `from` now read
      `to`, in place; the other list is untouched. A valid board stays
      valid. */
  function MovePiece(b: Board, from: Square, to: Square): (r: Board)
    requires Shaped(b) && InBoard(from) && InBoard(to)
    requires (Cell(b, from) == 1 || Cell(b, from) == 2) && Cell(b, to) == 0
    ensures Shaped(r) && Cell(r, to) == Cell(b, from) && Cell(r, from) == 0
    ensures forall q :: InBoard(q) && q != from && q != to ==> Cell(r, q) == Cell(b, q)
    ensures |Pieces(r, Cell(b, from))| == |Pieces(b, Cell(b, from))|
    ensures forall i :: 0 <= i < |Pieces(b, Cell(b, from))| ==>
      Pieces(r, Cell(b, from))[i] == if Pieces(b, Cell(b, from))[i] == from then to else Pieces(b, Cell(b, from))[i]
    ensures Pieces(r, 3 - Cell(b, from)) == Pieces(b, 3 - Cell(b, from))
    ensures Valid(b) ==> Valid(r)
    ensures Valid(b) ==>
      multiset(Pieces(r, Cell(b, from))) == multiset(Pieces(b, Cell(b, from))) - multiset{from} + multiset{to}
  {
    var c := Cell(b, from);
    var one := if c == 1 then ReplaceAll(b.one, from, to) else b.one;
    var two := if c == 2 then ReplaceAll(b.two, from, to) else b.two;
    ReplaceAllAt(Pieces(b, c), from, to);
    var r := WithCell(WithCell(Board(b.cells, one, two), to, c), from, 0);
    MoveValid(b, from, to, r);
    r
  }
}
