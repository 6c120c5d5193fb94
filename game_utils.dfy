/** The board analysis routines: flood fill, expansion frontier, isolated
    squares and the legal-move test, each proved equal to its declarative
    counterpart in module Analysis. */
module GameUtils {
  import opened Types
  import opened Boards
  import opened Analysis

  /** The cells listed in `s`. */
  function Elements(s: seq<Coord>): set<Coord> {
    set x | x in s
  }

  predicate Distinct(s: seq<Coord>) {
    forall i, j :: 0 <= i < j < |s| ==> s[i] != s[j]
  }

  /** Appending distinct cells that are none of the old ones keeps a list distinct. */
  lemma DistinctAppend(s: seq<Coord>, t: seq<Coord>)
    requires Distinct(s) && Distinct(t)
    requires forall x :: x in t ==> x !in s
    ensures Distinct(s + t)
  {
    forall i, j | 0 <= i < j < |s + t|
      ensures (s + t)[i] != (s + t)[j]
    {
      if j < |s| {
        assert (s + t)[i] == s[i] && (s + t)[j] == s[j];
      } else if i >= |s| {
        assert (s + t)[i] == t[i - |s|] && (s + t)[j] == t[j - |s|];
      } else {
        assert (s + t)[i] == s[i] && (s + t)[j] == t[j - |s|];
        assert t[j - |s|] in t;
      }
    }
  }

  function RowCells(r: int, n: nat): set<Coord> {
    set c | 0 <= c < n :: Coord(r, c)
  }

  lemma {:induction false} RowCellsCard(r: int, n: nat)
    ensures |RowCells(r, n)| == n
  {
    if n == 0 {
      assert RowCells(r, 0) == {};
    } else {
      RowCellsCard(r, n - 1);
      assert RowCells(r, n) == RowCells(r, n - 1) + {Coord(r, n - 1)};
    }
  }

  /** The cells of a board with one more row are the old cells plus the new
      row, which shares no cell with them. */
  lemma AllCellsLastRow(rows: nat, cols: nat)
    requires rows > 0
    ensures AllCells(rows, cols) == AllCells(rows - 1, cols) + RowCells(rows - 1, cols)
    ensures AllCells(rows - 1, cols) !! RowCells(rows - 1, cols)
  {
    forall x | x in AllCells(rows, cols) && x.r == rows - 1
      ensures x in RowCells(rows - 1, cols)
    {
      assert x == Coord(rows - 1, x.c);
    }
  }

  /** A rows x cols board has rows * cols cells. */
  lemma {:induction false} AllCellsCard(rows: nat, cols: nat)
    ensures |AllCells(rows, cols)| == rows * cols
  {
    if rows == 0 {
      assert AllCells(0, cols) == {};
    } else {
      AllCellsCard(rows - 1, cols);
      RowCellsCard(rows - 1, cols);
      AllCellsLastRow(rows, cols);
      var top, last := AllCells(rows - 1, cols), RowCells(rows - 1, cols);
      assert |top + last| == |top| + |last|;
      assert rows * cols == (rows - 1) * cols + cols;
    }
  }

  lemma {:induction false} DistinctCard(s: seq<Coord>)
    requires Distinct(s)
    ensures |Elements(s)| == |s|
  {
    if |s| > 0 {
      var t := s[..|s| - 1];
      DistinctCard(t);
      assert Elements(s) == Elements(t) + {s[|s| - 1]};
    }
  }

  /** A list of distinct in-bounds cells is no longer than the board has cells. */
  lemma DistinctCellsBound(s: seq<Coord>, rows: nat, cols: nat)
    requires Distinct(s)
    requires forall x :: x in s ==> InBounds(x, rows, cols)
    ensures |s| <= rows * cols
  {
    DistinctCard(s);
    AllCellsCard(rows, cols);
    var e := Elements(s);
    assert e <= AllCells(rows, cols);
    assert |AllCells(rows, cols)| == |e| + |AllCells(rows, cols) - e|;
  }

  /** `getConnectedGroup`'s pass over the four directions around `curr`: every
      in-bounds neighbour of colour `color` not yet visited is marked visited
      and then pushed on the queue. `added` is what was pushed. */
  method VisitNeighbours(board: Board, rows: nat, cols: nat, color: Player, curr: Coord,
                         visited: set<Coord>, queue: seq<Coord>)
    returns (visited': set<Coord>, queue': seq<Coord>, ghost added: seq<Coord>)
    requires IsBoard(board, rows, cols)
    ensures queue' == queue + added
    ensures visited' == visited + Elements(added)
    ensures Distinct(added)
    ensures forall x :: x in added ==>
      x !in visited && InBounds(x, rows, cols) && At(board, rows, cols, x) == color && Adjacent(curr, x)
    ensures forall d ::
      (0 <= d < |Directions| &&
       InBounds(Neighbour(curr, d), rows, cols) && At(board, rows, cols, Neighbour(curr, d)) == color) ==>
      Neighbour(curr, d) in visited'
  {
    visited', queue', added := visited, queue, [];
    for d := 0 to |Directions|
      invariant queue' == queue + added
      invariant visited' == visited + Elements(added)
      invariant Distinct(added)
      invariant forall x :: x in added ==>
        x !in visited && InBounds(x, rows, cols) && At(board, rows, cols, x) == color && Adjacent(curr, x)
      invariant forall d' ::
        (0 <= d' < d &&
         InBounds(Neighbour(curr, d'), rows, cols) && At(board, rows, cols, Neighbour(curr, d')) == color) ==>
        Neighbour(curr, d') in visited'
    {
      var nr := curr.r + Directions[d].0;
      var nc := curr.c + Directions[d].1;
      if 0 <= nr < rows && 0 <= nc < cols {
        var n := Coord(nr, nc);
        assert n == Neighbour(curr, d);
        if n !in visited' && board[nr][nc] == color {
          visited' := visited' + {n};
          queue' := queue' + [n];
          added := added + [n];
        }
      }
    }
  }

  /** Every cell in `s` lies on the board in colour `color` and is connected
      to `start`. */
  ghost predicate AllReached(board: Board, rows: nat, cols: nat, color: Player, start: Coord, s: seq<Coord>)
    requires IsBoard(board, rows, cols)
  {
    forall x :: x in s ==>
      InBounds(x, rows, cols) && At(board, rows, cols, x) == color &&
      Connected(board, rows, cols, color, start, x)
  }

  /** Every same-coloured neighbour of a member of `group` has been visited. */
  ghost predicate NeighboursVisited(board: Board, rows: nat, cols: nat, color: Player,
                                    group: set<Coord>, visited: set<Coord>)
    requires IsBoard(board, rows, cols)
  {
    forall x, d ::
      (x in group && 0 <= d < |Directions| &&
       InBounds(Neighbour(x, d), rows, cols) && At(board, rows, cols, Neighbour(x, d)) == color) ==>
      Neighbour(x, d) in visited
  }

  /** The state of the flood fill between iterations. `enqueued` is every
      cell ever pushed, in order; the first `dequeues` of them have been
      taken off the queue and form `group`, the rest are the queue. */
  ghost predicate BfsState(board: Board, rows: nat, cols: nat, color: Player, start: Coord,
                           visited: set<Coord>, queue: seq<Coord>, group: set<Coord>,
                           enqueued: seq<Coord>, dequeues: nat)
    requires IsBoard(board, rows, cols)
  {
    && dequeues <= |enqueued| <= rows * cols && |enqueued| > 0
    && queue == enqueued[dequeues..]
    && enqueued[0] == start
    && Distinct(enqueued)
    && visited == Elements(enqueued)
    && group == Elements(enqueued[..dequeues])
    && dequeues == |group|
    && AllReached(board, rows, cols, color, start, enqueued)
    && NeighboursVisited(board, rows, cols, color, group, visited)
  }

  lemma BfsStart(board: Board, rows: nat, cols: nat, start: Coord)
    requires IsBoard(board, rows, cols) && InBounds(start, rows, cols)
    ensures BfsState(board, rows, cols, At(board, rows, cols, start), start, {start}, [start], {}, [start], 0)
  {
    ConnectedRefl(board, rows, cols, start);
    DistinctCellsBound([start], rows, cols);
    assert Elements([start]) == {start};
    assert Elements([start][..0]) == {};
  }

  /** The pushed cells are connected to the start through the dequeued cell. */
  lemma StepReached(board: Board, rows: nat, cols: nat, color: Player, start: Coord,
                    enqueued: seq<Coord>, curr: Coord, added: seq<Coord>)
    requires IsBoard(board, rows, cols)
    requires AllReached(board, rows, cols, color, start, enqueued) && curr in enqueued
    requires forall x :: x in added ==>
      InBounds(x, rows, cols) && At(board, rows, cols, x) == color && Adjacent(curr, x)
    ensures AllReached(board, rows, cols, color, start, enqueued + added)
  {
    forall x | x in enqueued + added
      ensures InBounds(x, rows, cols) && At(board, rows, cols, x) == color &&
              Connected(board, rows, cols, color, start, x)
    {
      if x !in enqueued {
        ConnectedExtend(board, rows, cols, color, start, curr, x);
      }
    }
  }

  /** Once the dequeued cell's neighbours are visited, the grown group keeps
      the neighbour property. */
  lemma StepNeighbours(board: Board, rows: nat, cols: nat, color: Player,
                       group: set<Coord>, visited: set<Coord>, curr: Coord, visited': set<Coord>)
    requires IsBoard(board, rows, cols)
    requires NeighboursVisited(board, rows, cols, color, group, visited) && visited <= visited'
    requires forall d ::
      (0 <= d < |Directions| &&
       InBounds(Neighbour(curr, d), rows, cols) && At(board, rows, cols, Neighbour(curr, d)) == color) ==>
      Neighbour(curr, d) in visited'
    ensures NeighboursVisited(board, rows, cols, color, group + {curr}, visited')
  {
  }

  /** The bookkeeping of the queue: the grown list of pushed cells is still
      distinct and on the board, the queue is its undequeued suffix, and the
      group is its dequeued prefix. */
  lemma StepQueue(rows: nat, cols: nat, queue: seq<Coord>, group: set<Coord>,
                  enqueued: seq<Coord>, dequeues: nat, added: seq<Coord>)
    requires dequeues < |enqueued| && queue == enqueued[dequeues..]
    requires Distinct(enqueued) && Distinct(added)
    requires group == Elements(enqueued[..dequeues]) && dequeues == |group|
    requires forall x :: x in enqueued ==> InBounds(x, rows, cols)
    requires forall x :: x in added ==> x !in enqueued && InBounds(x, rows, cols)
    ensures |enqueued + added| <= rows * cols
    ensures queue[1..] + added == (enqueued + added)[dequeues + 1..]
    ensures Distinct(enqueued + added)
    ensures group + {queue[0]} == Elements((enqueued + added)[..dequeues + 1])
    ensures dequeues + 1 == |group + {queue[0]}|
  {
    var enqueued' := enqueued + added;
    var curr := queue[0];
    assert curr == enqueued[dequeues];
    assert curr !in group by {
      forall i | 0 <= i < dequeues
        ensures enqueued[i] != curr
      {
      }
    }
    assert enqueued'[..dequeues + 1] == enqueued[..dequeues] + [curr];
    assert enqueued'[dequeues + 1..] == queue[1..] + added;
    DistinctAppend(enqueued, added);
    DistinctCellsBound(enqueued', rows, cols);
  }

  /** One iteration: dequeue the head, add it to the group and push its
      unvisited same-coloured neighbours (as VisitNeighbours promises). */
  lemma BfsStep(board: Board, rows: nat, cols: nat, color: Player, start: Coord,
                visited: set<Coord>, queue: seq<Coord>, group: set<Coord>,
                enqueued: seq<Coord>, dequeues: nat,
                visited': set<Coord>, queue': seq<Coord>, added: seq<Coord>)
    requires IsBoard(board, rows, cols)
    requires BfsState(board, rows, cols, color, start, visited, queue, group, enqueued, dequeues)
    requires |queue| > 0
    requires queue' == queue[1..] + added
    requires visited' == visited + Elements(added)
    requires Distinct(added)
    requires forall x :: x in added ==>
      x !in visited && InBounds(x, rows, cols) && At(board, rows, cols, x) == color && Adjacent(queue[0], x)
    requires forall d ::
      (0 <= d < |Directions| &&
       InBounds(Neighbour(queue[0], d), rows, cols) && At(board, rows, cols, Neighbour(queue[0], d)) == color) ==>
      Neighbour(queue[0], d) in visited'
    ensures BfsState(board, rows, cols, color, start, visited', queue', group + {queue[0]},
                     enqueued + added, dequeues + 1)
  {
    var curr := queue[0];
    assert curr == enqueued[dequeues];
    StepReached(board, rows, cols, color, start, enqueued, curr, added);
    StepNeighbours(board, rows, cols, color, group, visited, curr, visited');
    StepQueue(rows, cols, queue, group, enqueued, dequeues, added);
    assert visited' == Elements(enqueued + added);
    assert (enqueued + added)[0] == start;
  }

  /** When the queue is empty the group is closed under same-coloured
      neighbours, so it holds the whole connected group of the start. */
  lemma BfsFinish(board: Board, rows: nat, cols: nat, start: Coord,
                  visited: set<Coord>, group: set<Coord>, enqueued: seq<Coord>, dequeues: nat)
    requires IsBoard(board, rows, cols) && InBounds(start, rows, cols)
    requires At(board, rows, cols, start) != Empty
    requires BfsState(board, rows, cols, At(board, rows, cols, start), start, visited, [], group, enqueued, dequeues)
    ensures group == Group(board, rows, cols, start)
  {
    var color := At(board, rows, cols, start);
    assert enqueued[..dequeues] == enqueued;
    assert start in group;
    assert Closed(board, rows, cols, color, group) by {
      forall y, z | y in group && InBounds(z, rows, cols) && Adjacent(y, z) && At(board, rows, cols, z) == color
        ensures z in group
      {
        AdjacentIsNeighbour(y, z);
      }
    }
    forall y | y in Group(board, rows, cols, start)
      ensures y in group
    {
      ClosedContainsConnected(board, rows, cols, color, group, start, y);
    }
  }

  /** Breadth-first flood fill from (r, c). Every cell is marked visited when
      it is enqueued, so it is enqueued at most once and the loop dequeues at
      most rows * cols times (`dequeues` counts them). */
  method GetConnectedGroup(board: Board, r: int, c: int, rows: nat, cols: nat)
    returns (group: set<Coord>, ghost dequeues: nat)
    requires IsBoard(board, rows, cols) && InBounds(Coord(r, c), rows, cols)
    ensures group == Group(board, rows, cols, Coord(r, c))
    ensures dequeues == |group| <= rows * cols
  {
    var start := Coord(r, c);
    var color := board[r][c];
    if color == Empty {
      return {}, 0;
    }
    group := {};
    var visited: set<Coord> := {start};
    var queue: seq<Coord> := [start];
    ghost var enqueued: seq<Coord> := [start];
    dequeues := 0;
    BfsStart(board, rows, cols, start);
    while |queue| > 0
      invariant BfsState(board, rows, cols, color, start, visited, queue, group, enqueued, dequeues)
      decreases rows * cols - dequeues
    {
      ghost var visited0, queue0, group0, dequeues0 := visited, queue, group, dequeues;
      var curr := queue[0];
      queue := queue[1..];
      group := group + {curr};
      dequeues := dequeues + 1;
      ghost var added;
      visited, queue, added := VisitNeighbours(board, rows, cols, color, curr, visited, queue);
      BfsStep(board, rows, cols, color, start, visited0, queue0, group0, enqueued, dequeues0,
              visited, queue, added);
      enqueued := enqueued + added;
    }
    BfsFinish(board, rows, cols, start, visited, group, enqueued, dequeues);
  }

  /** The in-bounds empty cells among the first `k` neighbours of `x`. */
  ghost function EmptyNeighbours(b: Board, rows: nat, cols: nat, x: Coord, k: nat): set<Coord>
    requires IsBoard(b, rows, cols) && k <= |Directions|
  {
    set d | 0 <= d < k && InBounds(Neighbour(x, d), rows, cols) &&
      At(b, rows, cols, Neighbour(x, d)) == Empty :: Neighbour(x, d)
  }

  lemma FrontierAddMember(b: Board, rows: nat, cols: nat, s: set<Coord>, x: Coord)
    requires IsBoard(b, rows, cols)
    ensures Frontier(b, rows, cols, s + {x}) ==
      Frontier(b, rows, cols, s) + EmptyNeighbours(b, rows, cols, x, |Directions|)
  {
    forall z | z in Frontier(b, rows, cols, s + {x}) && z !in Frontier(b, rows, cols, s)
      ensures z in EmptyNeighbours(b, rows, cols, x, |Directions|)
    {
      AdjacentIsNeighbour(x, z);
    }
  }

  lemma EmptyNeighboursStep(b: Board, rows: nat, cols: nat, x: Coord, d: nat)
    requires IsBoard(b, rows, cols) && d < |Directions|
    ensures EmptyNeighbours(b, rows, cols, x, d + 1) ==
      EmptyNeighbours(b, rows, cols, x, d) +
      (if InBounds(Neighbour(x, d), rows, cols) && At(b, rows, cols, Neighbour(x, d)) == Empty
       then {Neighbour(x, d)} else {})
  {
  }

  /** `getExpansionCells`' pass over the four directions around the group member `x`:
      each in-bounds empty neighbour is added to `expansion`. */
  method AddEmptyNeighbours(board: Board, rows: nat, cols: nat, x: Coord, expansion: set<Coord>)
    returns (expansion': set<Coord>)
    requires IsBoard(board, rows, cols)
    ensures expansion' == expansion + EmptyNeighbours(board, rows, cols, x, |Directions|)
  {
    expansion' := expansion;
    for d := 0 to |Directions|
      invariant expansion' == expansion + EmptyNeighbours(board, rows, cols, x, d)
    {
      var nr := x.r + Directions[d].0;
      var nc := x.c + Directions[d].1;
      if 0 <= nr < rows && 0 <= nc < cols {
        if board[nr][nc] == Empty {
          expansion' := expansion' + {Coord(nr, nc)};
        }
      }
      EmptyNeighboursStep(board, rows, cols, x, d);
    }
  }

  /** The empty in-bounds cells next to some member of `groupSet`. */
  method GetExpansionCells(board: Board, groupSet: set<Coord>, rows: nat, cols: nat)
    returns (expansion: set<Coord>)
    requires IsBoard(board, rows, cols)
    ensures expansion == Frontier(board, rows, cols, groupSet)
  {
    expansion := {};
    var rest := groupSet;
    while rest != {}
      invariant rest <= groupSet
      invariant expansion == Frontier(board, rows, cols, groupSet - rest)
      decreases |rest|
    {
      var x :| x in rest;
      expansion := AddEmptyNeighbours(board, rows, cols, x, expansion);
      FrontierAddMember(board, rows, cols, groupSet - rest, x);
      assert groupSet - (rest - {x}) == (groupSet - rest) + {x};
      rest := rest - {x};
    }
  }

  /** In-bounds neighbours among the first `k` directions around `x`. */
  ghost function InBoundsNeighbours(rows: nat, cols: nat, x: Coord, k: nat): set<Coord>
    requires k <= |Directions|
  {
    set d | 0 <= d < k && InBounds(Neighbour(x, d), rows, cols) :: Neighbour(x, d)
  }

  lemma NeighbourSetAddMember(rows: nat, cols: nat, s: set<Coord>, x: Coord)
    ensures NeighbourSet(rows, cols, s + {x}) ==
      NeighbourSet(rows, cols, s) + InBoundsNeighbours(rows, cols, x, |Directions|)
  {
    forall z | z in NeighbourSet(rows, cols, s + {x}) && z !in NeighbourSet(rows, cols, s)
      ensures z in InBoundsNeighbours(rows, cols, x, |Directions|)
    {
      AdjacentIsNeighbour(x, z);
    }
  }

  /** The cells of colour `color` that come before `x` in row-major order. */
  ghost function CellsOfBefore(b: Board, rows: nat, cols: nat, color: Player, x: Coord): set<Coord>
    requires IsBoard(b, rows, cols)
  {
    set y | y in CellsOf(b, rows, cols, color) && RowMajorBefore(y, x)
  }

  /** `getIsolatedSquares`' pass over the four directions around a piece at `x`:
      every in-bounds neighbour is added to `s`. */
  method AddInBoundsNeighbours(rows: nat, cols: nat, x: Coord, s: set<Coord>)
    returns (s': set<Coord>)
    ensures s' == s + InBoundsNeighbours(rows, cols, x, |Directions|)
  {
    s' := s;
    for d := 0 to |Directions|
      invariant s' == s + InBoundsNeighbours(rows, cols, x, d)
    {
      var nr := x.r + Directions[d].0;
      var nc := x.c + Directions[d].1;
      if 0 <= nr < rows && 0 <= nc < cols {
        s' := s' + {Coord(nr, nc)};
      }
      assert InBoundsNeighbours(rows, cols, x, d + 1) ==
        InBoundsNeighbours(rows, cols, x, d) +
        (if InBounds(Neighbour(x, d), rows, cols) then {Neighbour(x, d)} else {});
    }
  }

  /** Moving the scan past cell (r, c) adds that cell to the cells of
      `color` seen so far exactly when it holds `color`. */
  lemma CellsOfBeforeNext(b: Board, rows: nat, cols: nat, color: Player, r: nat, c: nat)
    requires IsBoard(b, rows, cols) && r < rows && c < cols
    ensures CellsOfBefore(b, rows, cols, color, Coord(r, c + 1)) ==
      CellsOfBefore(b, rows, cols, color, Coord(r, c)) + (if b[r][c] == color then {Coord(r, c)} else {})
  {
  }

  lemma CellsOfBeforeRowEnd(b: Board, rows: nat, cols: nat, color: Player, r: nat)
    requires IsBoard(b, rows, cols)
    ensures CellsOfBefore(b, rows, cols, color, Coord(r, cols)) ==
      CellsOfBefore(b, rows, cols, color, Coord(r + 1, 0))
  {
  }

  lemma CellsOfBeforeEnd(b: Board, rows: nat, cols: nat, color: Player)
    requires IsBoard(b, rows, cols)
    ensures CellsOfBefore(b, rows, cols, color, Coord(rows, 0)) == CellsOf(b, rows, cols, color)
  {
  }

  /** The first half of the isolated-squares computation: every in-bounds
      cell next to a piece of `color`, collected by a row-major scan. */
  method AdjacentToFriends(board: Board, color: Player, rows: nat, cols: nat)
    returns (adjacentToFriends: set<Coord>)
    requires IsBoard(board, rows, cols)
    ensures adjacentToFriends == FriendNeighbours(board, rows, cols, color)
  {
    adjacentToFriends := {};
    for r := 0 to rows
      invariant adjacentToFriends ==
        NeighbourSet(rows, cols, CellsOfBefore(board, rows, cols, color, Coord(r, 0)))
    {
      for c := 0 to cols
        invariant adjacentToFriends ==
          NeighbourSet(rows, cols, CellsOfBefore(board, rows, cols, color, Coord(r, c)))
      {
        ghost var before := CellsOfBefore(board, rows, cols, color, Coord(r, c));
        CellsOfBeforeNext(board, rows, cols, color, r, c);
        if board[r][c] == color {
          adjacentToFriends := AddInBoundsNeighbours(rows, cols, Coord(r, c), adjacentToFriends);
          NeighbourSetAddMember(rows, cols, before, Coord(r, c));
        }
      }
      CellsOfBeforeRowEnd(board, rows, cols, color, r);
    }
    CellsOfBeforeEnd(board, rows, cols, color);
  }

  /** The empty cells not next to any cell of `color`, in row-major order
      and without repetition. */
  method GetIsolatedSquares(board: Board, color: Player, rows: nat, cols: nat)
    returns (isolated: seq<Coord>)
    requires IsBoard(board, rows, cols)
    ensures forall z :: z in isolated <==> z in Isolated(board, rows, cols, color)
    ensures forall i, j :: 0 <= i < j < |isolated| ==> RowMajorBefore(isolated[i], isolated[j])
    ensures Distinct(isolated)
  {
    var adjacentToFriends := AdjacentToFriends(board, color, rows, cols);
    IsolatedComplement(board, rows, cols, color);

    // The empty cells outside that set, row by row.
    isolated := [];
    for r := 0 to rows
      invariant forall z :: z in isolated <==>
        z in Isolated(board, rows, cols, color) && RowMajorBefore(z, Coord(r, 0))
      invariant forall i, j :: 0 <= i < j < |isolated| ==> RowMajorBefore(isolated[i], isolated[j])
    {
      for c := 0 to cols
        invariant forall z :: z in isolated <==>
          z in Isolated(board, rows, cols, color) && RowMajorBefore(z, Coord(r, c))
        invariant forall i, j :: 0 <= i < j < |isolated| ==> RowMajorBefore(isolated[i], isolated[j])
      {
        if board[r][c] == Empty && Coord(r, c) !in adjacentToFriends {
          isolated := isolated + [Coord(r, c)];
        }
      }
    }
  }

  /** Whether `color` has a legal move. Cells of a group already examined are
      skipped; that does not change the answer, because every member of a
      group has the same group. */
  method HasAnyMoves(board: Board, color: Player, variant: GameVariant, rows: nat, cols: nat)
    returns (has: bool)
    requires IsBoard(board, rows, cols)
    ensures has == HasMoves(board, rows, cols, color, variant)
  {
    var visited: set<Coord> := {};
    for r := 0 to rows
      invariant forall y :: y in visited ==>
        InBounds(y, rows, cols) && Frontier(board, rows, cols, Group(board, rows, cols, y)) == {}
      invariant forall y ::
        (InBounds(y, rows, cols) && RowMajorBefore(y, Coord(r, 0)) && At(board, rows, cols, y) == color) ==>
        Frontier(board, rows, cols, Group(board, rows, cols, y)) == {}
    {
      for c := 0 to cols
        invariant forall y :: y in visited ==>
          InBounds(y, rows, cols) && Frontier(board, rows, cols, Group(board, rows, cols, y)) == {}
        invariant forall y ::
          (InBounds(y, rows, cols) && RowMajorBefore(y, Coord(r, c)) && At(board, rows, cols, y) == color) ==>
          Frontier(board, rows, cols, Group(board, rows, cols, y)) == {}
      {
        var x := Coord(r, c);
        if board[r][c] == color && x !in visited {
          var group, _ := GetConnectedGroup(board, r, c, rows, cols);
          forall y | y in group
            ensures InBounds(y, rows, cols) && Group(board, rows, cols, y) == group
          {
            GroupOfMember(board, rows, cols, x, y);
          }
          visited := visited + group;
          var expansion := GetExpansionCells(board, group, rows, cols);
          if |expansion| > 0 {
            return true;
          }
        }
      }
    }
    if variant == VoidExpansion {
      var isolated := GetIsolatedSquares(board, color, rows, cols);
      if |isolated| > 0 {
        assert isolated[0] in Isolated(board, rows, cols, color);
        return true;
      }
    }
    return false;
  }
}
