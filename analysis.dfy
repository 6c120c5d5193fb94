/** Declarative definitions of what the board analysis computes: connected
    groups, expansion frontiers, isolated cells and the existence of a legal
    move, with the facts about them that the game relies on. */
module Analysis {
  import opened Types
  import opened Boards

  /** `p` is a non-empty chain of in-bounds cells of colour `color`, each
      sharing a side with the next. */
  ghost predicate IsPath(b: Board, rows: nat, cols: nat, color: Player, p: seq<Coord>)
    requires IsBoard(b, rows, cols)
  {
    |p| > 0 &&
    (forall i :: 0 <= i < |p| ==> InBounds(p[i], rows, cols) && At(b, rows, cols, p[i]) == color) &&
    (forall i :: 0 <= i < |p| - 1 ==> Adjacent(p[i], p[i + 1]))
  }

  /** `y` is reachable from `x` by 4-adjacent steps through cells of colour `color`. */
  ghost predicate Connected(b: Board, rows: nat, cols: nat, color: Player, x: Coord, y: Coord)
    requires IsBoard(b, rows, cols)
  {
    exists p :: IsPath(b, rows, cols, color, p) && p[0] == x && p[|p| - 1] == y
  }

  /** The connected group of the cell `x`: every cell of x's colour reachable
      from `x`; no group for an empty cell. */
  ghost function Group(b: Board, rows: nat, cols: nat, x: Coord): set<Coord>
    requires IsBoard(b, rows, cols) && InBounds(x, rows, cols)
  {
    var color := At(b, rows, cols, x);
    if color == Empty then {}
    else set y | y in AllCells(rows, cols) && Connected(b, rows, cols, color, x, y)
  }

  /** The expansion frontier of a set of cells: the in-bounds empty cells that
      share a side with at least one of them. */
  ghost function Frontier(b: Board, rows: nat, cols: nat, g: set<Coord>): (f: set<Coord>)
    requires IsBoard(b, rows, cols)
    ensures forall z :: z in f ==> InBounds(z, rows, cols) && At(b, rows, cols, z) == Empty
  {
    set z | z in AllCells(rows, cols) && At(b, rows, cols, z) == Empty &&
      exists y :: y in g && Adjacent(y, z)
  }

  /** The in-bounds cells that hold `color`. */
  ghost function CellsOf(b: Board, rows: nat, cols: nat, color: Player): set<Coord>
    requires IsBoard(b, rows, cols)
  {
    set y | y in AllCells(rows, cols) && At(b, rows, cols, y) == color
  }

  /** The in-bounds cells that share a side with some cell of `src`. */
  ghost function NeighbourSet(rows: nat, cols: nat, src: set<Coord>): set<Coord> {
    set z | z in AllCells(rows, cols) && exists y :: y in src && Adjacent(y, z)
  }

  /** Every in-bounds cell that shares a side with a cell of colour `color`,
      occupied or not. */
  ghost function FriendNeighbours(b: Board, rows: nat, cols: nat, color: Player): set<Coord>
    requires IsBoard(b, rows, cols)
  {
    NeighbourSet(rows, cols, CellsOf(b, rows, cols, color))
  }

  /** The empty cells none of whose neighbours has colour `color`. */
  ghost function Isolated(b: Board, rows: nat, cols: nat, color: Player): set<Coord>
    requires IsBoard(b, rows, cols)
  {
    set z | z in AllCells(rows, cols) && At(b, rows, cols, z) == Empty &&
      !exists y :: InBounds(y, rows, cols) && Adjacent(z, y) && At(b, rows, cols, y) == color
  }

  ghost function EmptyCells(b: Board, rows: nat, cols: nat): set<Coord>
    requires IsBoard(b, rows, cols)
  {
    set z | z in AllCells(rows, cols) && At(b, rows, cols, z) == Empty
  }

  /** `color` can move: some group of that colour has a non-empty frontier or,
      in the void-expansion variant, some empty cell is isolated from it. */
  ghost predicate HasMoves(b: Board, rows: nat, cols: nat, color: Player, variant: GameVariant)
    requires IsBoard(b, rows, cols)
  {
    (exists x :: InBounds(x, rows, cols) && At(b, rows, cols, x) == color &&
       Frontier(b, rows, cols, Group(b, rows, cols, x)) != {}) ||
    (variant == VoidExpansion && Isolated(b, rows, cols, color) != {})
  }

  ghost predicate HasEmptyNeighbour(b: Board, rows: nat, cols: nat, x: Coord)
    requires IsBoard(b, rows, cols)
  {
    exists z :: InBounds(z, rows, cols) && Adjacent(x, z) && At(b, rows, cols, z) == Empty
  }

  /** A set of cells of colour `color` that contains every same-coloured
      neighbour of each of its members. */
  ghost predicate Closed(b: Board, rows: nat, cols: nat, color: Player, s: set<Coord>)
    requires IsBoard(b, rows, cols)
  {
    forall y, z ::
      (y in s && InBounds(z, rows, cols) && Adjacent(y, z) && At(b, rows, cols, z) == color) ==> z in s
  }

  // ---- paths ----

  lemma ConnectedRefl(b: Board, rows: nat, cols: nat, x: Coord)
    requires IsBoard(b, rows, cols) && InBounds(x, rows, cols)
    ensures Connected(b, rows, cols, At(b, rows, cols, x), x, x)
  {
    assert IsPath(b, rows, cols, At(b, rows, cols, x), [x]);
  }

  lemma ConnectedExtend(b: Board, rows: nat, cols: nat, color: Player, x: Coord, y: Coord, z: Coord)
    requires IsBoard(b, rows, cols)
    requires Connected(b, rows, cols, color, x, y)
    requires InBounds(z, rows, cols) && At(b, rows, cols, z) == color && Adjacent(y, z)
    ensures Connected(b, rows, cols, color, x, z)
  {
    var p :| IsPath(b, rows, cols, color, p) && p[0] == x && p[|p| - 1] == y;
    var q := p + [z];
    assert IsPath(b, rows, cols, color, q);
  }

  lemma ConnectedSymmetric(b: Board, rows: nat, cols: nat, color: Player, x: Coord, y: Coord)
    requires IsBoard(b, rows, cols)
    requires Connected(b, rows, cols, color, x, y)
    ensures Connected(b, rows, cols, color, y, x)
  {
    var p :| IsPath(b, rows, cols, color, p) && p[0] == x && p[|p| - 1] == y;
    var q := seq(|p|, i requires 0 <= i < |p| => p[|p| - 1 - i]);
    forall i | 0 <= i < |q| - 1
      ensures Adjacent(q[i], q[i + 1])
    {
      assert Adjacent(p[|p| - 2 - i], p[|p| - 1 - i]);
    }
    assert IsPath(b, rows, cols, color, q);
  }

  lemma ConnectedTransitive(b: Board, rows: nat, cols: nat, color: Player, x: Coord, y: Coord, z: Coord)
    requires IsBoard(b, rows, cols)
    requires Connected(b, rows, cols, color, x, y) && Connected(b, rows, cols, color, y, z)
    ensures Connected(b, rows, cols, color, x, z)
  {
    var p :| IsPath(b, rows, cols, color, p) && p[0] == x && p[|p| - 1] == y;
    var q :| IsPath(b, rows, cols, color, q) && q[0] == y && q[|q| - 1] == z;
    var pq := p + q[1..];
    forall i | 0 <= i < |pq| - 1
      ensures Adjacent(pq[i], pq[i + 1])
    {
      if i < |p| - 1 {
        assert pq[i] == p[i] && pq[i + 1] == p[i + 1];
      } else {
        assert pq[i] == q[i - |p| + 1] && pq[i + 1] == q[i - |p| + 2];
      }
    }
    assert IsPath(b, rows, cols, color, pq);
  }

  /** The cells of a colour-`color` path hold that colour. */
  lemma ConnectedColour(b: Board, rows: nat, cols: nat, color: Player, x: Coord, y: Coord)
    requires IsBoard(b, rows, cols)
    requires Connected(b, rows, cols, color, x, y)
    ensures InBounds(x, rows, cols) && At(b, rows, cols, x) == color
    ensures InBounds(y, rows, cols) && At(b, rows, cols, y) == color
  {
    var p :| IsPath(b, rows, cols, color, p) && p[0] == x && p[|p| - 1] == y;
    assert p[|p| - 1] in p;
  }

  lemma {:induction false} ClosedContainsPath(b: Board, rows: nat, cols: nat, color: Player,
                                               s: set<Coord>, p: seq<Coord>)
    requires IsBoard(b, rows, cols)
    requires Closed(b, rows, cols, color, s)
    requires IsPath(b, rows, cols, color, p) && p[0] in s
    ensures p[|p| - 1] in s
  {
    if |p| > 1 {
      var q := p[..|p| - 1];
      assert IsPath(b, rows, cols, color, q);
      ClosedContainsPath(b, rows, cols, color, s, q);
      assert Adjacent(p[|p| - 2], p[|p| - 1]);
    }
  }

  /** A closed set contains everything reachable from any of its members. */
  lemma ClosedContainsConnected(b: Board, rows: nat, cols: nat, color: Player,
                                s: set<Coord>, x: Coord, y: Coord)
    requires IsBoard(b, rows, cols)
    requires Closed(b, rows, cols, color, s) && x in s
    requires Connected(b, rows, cols, color, x, y)
    ensures y in s
  {
    var p :| IsPath(b, rows, cols, color, p) && p[0] == x && p[|p| - 1] == y;
    ClosedContainsPath(b, rows, cols, color, s, p);
  }

  // ---- groups ----

  /** The group of a non-empty cell contains it, holds only in-bounds cells of
      its colour, and is closed under same-coloured 4-adjacency; so it is the
      maximal 4-connected component through the cell. */
  lemma GroupIsComponent(b: Board, rows: nat, cols: nat, x: Coord)
    requires IsBoard(b, rows, cols) && InBounds(x, rows, cols)
    requires At(b, rows, cols, x) != Empty
    ensures x in Group(b, rows, cols, x)
    ensures forall y :: y in Group(b, rows, cols, x) ==>
      InBounds(y, rows, cols) && At(b, rows, cols, y) == At(b, rows, cols, x)
    ensures Closed(b, rows, cols, At(b, rows, cols, x), Group(b, rows, cols, x))
  {
    var color := At(b, rows, cols, x);
    var g := Group(b, rows, cols, x);
    ConnectedRefl(b, rows, cols, x);
    forall y | y in g
      ensures InBounds(y, rows, cols) && At(b, rows, cols, y) == color
    {
      ConnectedColour(b, rows, cols, color, x, y);
    }
    forall y, z | y in g && InBounds(z, rows, cols) && Adjacent(y, z) && At(b, rows, cols, z) == color
      ensures z in g
    {
      ConnectedExtend(b, rows, cols, color, x, y, z);
    }
  }

  /** Started from any of its members, the flood fill yields the same group. */
  lemma GroupOfMember(b: Board, rows: nat, cols: nat, x: Coord, y: Coord)
    requires IsBoard(b, rows, cols) && InBounds(x, rows, cols)
    requires y in Group(b, rows, cols, x)
    ensures InBounds(y, rows, cols) && Group(b, rows, cols, y) == Group(b, rows, cols, x)
  {
    var color := At(b, rows, cols, x);
    ConnectedColour(b, rows, cols, color, x, y);
    ConnectedSymmetric(b, rows, cols, color, x, y);
    forall z | z in Group(b, rows, cols, x)
      ensures z in Group(b, rows, cols, y)
    {
      ConnectedTransitive(b, rows, cols, color, y, x, z);
    }
    forall z | z in Group(b, rows, cols, y)
      ensures z in Group(b, rows, cols, x)
    {
      ConnectedTransitive(b, rows, cols, color, x, y, z);
    }
  }

  /** Whether some group can expand depends only on whether some cell of the
      colour has an empty neighbour. */
  lemma HasMovesLocal(b: Board, rows: nat, cols: nat, color: Player, variant: GameVariant)
    requires IsBoard(b, rows, cols) && color != Empty
    ensures HasMoves(b, rows, cols, color, variant) <==>
      (exists x :: InBounds(x, rows, cols) && At(b, rows, cols, x) == color &&
         HasEmptyNeighbour(b, rows, cols, x)) ||
      (variant == VoidExpansion && Isolated(b, rows, cols, color) != {})
  {
    if x :| InBounds(x, rows, cols) && At(b, rows, cols, x) == color &&
            Frontier(b, rows, cols, Group(b, rows, cols, x)) != {} {
      var g := Group(b, rows, cols, x);
      var z :| z in Frontier(b, rows, cols, g);
      var y :| y in g && Adjacent(y, z);
      GroupIsComponent(b, rows, cols, x);
      assert InBounds(y, rows, cols) && At(b, rows, cols, y) == color && HasEmptyNeighbour(b, rows, cols, y);
    }
    if x :| InBounds(x, rows, cols) && At(b, rows, cols, x) == color && HasEmptyNeighbour(b, rows, cols, x) {
      var z :| InBounds(z, rows, cols) && Adjacent(x, z) && At(b, rows, cols, z) == Empty;
      GroupIsComponent(b, rows, cols, x);
      assert z in Frontier(b, rows, cols, Group(b, rows, cols, x));
    }
  }

  // ---- isolated cells ----

  /** The isolated cells are exactly the empty cells outside the neighbour
      set of the colour: the two are disjoint and together cover every empty
      cell. */
  lemma IsolatedComplement(b: Board, rows: nat, cols: nat, color: Player)
    requires IsBoard(b, rows, cols)
    ensures Isolated(b, rows, cols, color) == EmptyCells(b, rows, cols) - FriendNeighbours(b, rows, cols, color)
    ensures Isolated(b, rows, cols, color) !! FriendNeighbours(b, rows, cols, color)
    ensures Isolated(b, rows, cols, color) + (FriendNeighbours(b, rows, cols, color) * EmptyCells(b, rows, cols))
            == EmptyCells(b, rows, cols)
  {
    var iso := Isolated(b, rows, cols, color);
    var fr := FriendNeighbours(b, rows, cols, color);
    var em := EmptyCells(b, rows, cols);
    forall z | z in em
      ensures z in iso <==> z !in fr
    {
      if z !in iso {
        var y :| InBounds(y, rows, cols) && Adjacent(z, y) && At(b, rows, cols, y) == color;
        assert y in CellsOf(b, rows, cols, color) && Adjacent(y, z);
      }
    }
  }
}
