/**
 * The rule engine: a 10 x 10 board of cells with 5 mines, the two player
 * actions (reveal, toggle a flag), the breadth-first flood fill that a
 * zero cell triggers, the win/loss state, and the end-of-game disclosure.
 */
module Engine {
  import opened Rules
  import opened CellRecord
  import opened Flood
  import opened Play

  /** The cells of a ROWS x COLS `seen` array that are marked. */
  ghost function SeenSet(seen: array2<bool>): set<Pos>
    reads seen
    requires seen.Length0 == ROWS && seen.Length1 == COLS
  {
    set p | p in Grid() && seen[p.0, p.1]
  }

  /** A fresh seen array for a flood fill from p: only p marked. */
  method NewSeen(p: Pos) returns (seen: array2<bool>)
    requires InBounds(p.0, p.1)
    ensures fresh(seen) && seen.Length0 == ROWS && seen.Length1 == COLS
    ensures SeenSet(seen) == {p}
  {
    seen := new bool[ROWS, COLS]((i, j) => false);
    assert SeenSet(seen) == {};
    MarkSeen(seen, p);
  }

  /** Marks p in the seen array of a flood fill. */
  method MarkSeen(seen: array2<bool>, p: Pos)
    requires seen.Length0 == ROWS && seen.Length1 == COLS && InBounds(p.0, p.1)
    modifies seen
    ensures SeenSet(seen) == old(SeenSet(seen)) + {p}
  {
    seen[p.0, p.1] := true;
  }

  /**
   * rows is a ROWS x COLS grid whose cells sit at their own coordinates and
   * all belong to cells.
   */
  ghost predicate Laid(rows: seq<seq<Cell>>, cells: set<Cell>)
  {
    |rows| == ROWS &&
    (forall i | 0 <= i < ROWS :: |rows[i]| == COLS) &&
    (forall i, j | 0 <= i < ROWS && 0 <= j < COLS ::
       rows[i][j] in cells && rows[i][j].r == i && rows[i][j].c == j)
  }

  /** The loops of the constructor that fill the board with fresh, blank cells. */
  method NewBoard() returns (rows: seq<seq<Cell>>, ghost cells: set<Cell>)
    ensures Laid(rows, cells) && fresh(cells)
    ensures forall x | x in cells :: !x.isMine && !x.isFlagged && !x.isRevealed && x.adj == 0
  {
    rows, cells := [], {};
    for i := 0 to ROWS
      invariant |rows| == i
      invariant forall a | 0 <= a < i :: |rows[a]| == COLS
      invariant forall a, b | 0 <= a < i && 0 <= b < COLS ::
        rows[a][b] in cells && rows[a][b].r == a && rows[a][b].c == b
      invariant fresh(cells)
      invariant forall x | x in cells :: !x.isMine && !x.isFlagged && !x.isRevealed && x.adj == 0
    {
      var row: seq<Cell> := [];
      for j := 0 to COLS
        invariant |row| == j
        invariant forall b | 0 <= b < j :: row[b] in cells && row[b].r == i && row[b].c == b
        invariant forall a, b | 0 <= a < i && 0 <= b < COLS ::
          rows[a][b] in cells && rows[a][b].r == a && rows[a][b].c == b
        invariant fresh(cells)
        invariant forall x | x in cells :: !x.isMine && !x.isFlagged && !x.isRevealed && x.adj == 0
      {
        var cell := new Cell(i, j);
        row := row + [cell];
        cells := cells + {cell};
      }
      rows := rows + [row];
    }
  }

  class GameEngine {
    /** The grid of cells; the rows and the cells in them are never replaced. */
    const board: seq<seq<Cell>>
    /** Every cell of the board. */
    ghost const Repr: set<Cell>

    var gameOver: bool
    var won: bool
    /** How many safe cells reveal has opened; the win test compares it with ROWS * COLS - MINES. */
    var revealedSafe: int
    /** Set once revealAll has run; the counter and the flag invariants describe play before it. */
    ghost var disclosed: bool

    /** board is ROWS x COLS, each cell sits at its own coordinates, and all cells are in Repr. */
    ghost predicate Shape()
    {
      Laid(board, Repr)
    }

    ghost function At(p: Pos): (cell: Cell)
      requires Shape() && InBounds(p.0, p.1)
      ensures cell in Repr && cell.r == p.0 && cell.c == p.1
    {
      board[p.0][p.1]
    }

    // The abstract state of the board: one set or map per mutable cell field.

    ghost function MineSet(): set<Pos>
      reads Repr`isMine
      requires Shape()
    {
      set p | p in Grid() && At(p).isMine
    }

    ghost function FlagSet(): set<Pos>
      reads Repr`isFlagged
      requires Shape()
    {
      set p | p in Grid() && At(p).isFlagged
    }

    ghost function RevealedSet(): set<Pos>
      reads Repr`isRevealed
      requires Shape()
    {
      set p | p in Grid() && At(p).isRevealed
    }

    ghost function Adj(): (m: map<Pos, int>)
      reads Repr`adj
      requires Shape()
      ensures m.Keys == Grid()
    {
      map p | p in Grid() :: At(p).adj
    }

    /** Every safe cell holds the number of mines around it. */
    ghost predicate AdjacencyCorrect()
      reads Repr`isMine, Repr`adj
      requires Shape()
    {
      CountsHeld(MineSet(), Adj())
    }

    /** The engine's state as a value. */
    ghost function State(): Game
      reads this, Repr
      requires Shape()
    {
      Game(MineSet(), FlagSet(), RevealedSet(), Adj(), gameOver, won, revealedSafe, disclosed)
    }

    ghost predicate Valid()
      reads this, Repr
    {
      Shape() && Consistent(State())
    }

    /**
     * A new game. The random indices the mine placement draws are the
     * parameter `draws`; they must lie in [0, ROWS * COLS) and contain at
     * least MINES distinct values, so that the rejection loop finishes.
     */
    constructor (draws: seq<int>)
      requires forall k | 0 <= k < |draws| :: 0 <= draws[k] < ROWS * COLS
      requires |Elems(draws)| >= MINES
      ensures Valid() && fresh(Repr)
      ensures !gameOver && !won && revealedSafe == 0 && !disclosed
      ensures MineSet() == PosOf(Sample(draws, 0, {}))
      ensures FlagSet() == {} && RevealedSet() == {}
      ensures forall p | p in MineSet() :: Adj()[p] == 0
    {
      var rows;
      ghost var cells;
      rows, cells := NewBoard();
      board, Repr := rows, cells;
      gameOver, won, revealedSafe := false, false, 0;
      disclosed := false;
      new;
      assert MineSet() == {} && FlagSet() == {} && RevealedSet() == {};
      assert forall p | p in Grid() :: Adj()[p] == 0;
      Arm(draws);
    }

    /** The two set-up steps of the constructor: mine placement, then the counts. */
    method Arm(draws: seq<int>)
      requires Shape() && MineSet() == {} && FlagSet() == {} && RevealedSet() == {}
      requires forall k | 0 <= k < |draws| :: 0 <= draws[k] < ROWS * COLS
      requires |Elems(draws)| >= MINES
      requires !gameOver && !won && revealedSafe == 0 && !disclosed
      requires forall p | p in Grid() :: Adj()[p] == 0
      modifies Repr`isMine, Repr`adj
      ensures unchanged(this)
      ensures Valid()
      ensures MineSet() == PosOf(Sample(draws, 0, {}))
      ensures FlagSet() == {} && RevealedSet() == {}
      ensures forall p | p in MineSet() :: Adj()[p] == 0
    {
      PlaceMines(draws);
      ComputeAdjacency();
      DrawnAll(draws);
      SampleSize(draws, 0, {});
      PosOfSize(Sample(draws, 0, {}));
      FreshConsistent(MineSet(), Adj());
    }

    // Single-field writes to one cell, each with its effect on the abstract board.

    method MarkMine(r: int, c: int)
      requires Shape() && InBounds(r, c)
      modifies At((r, c))`isMine
      ensures MineSet() == old(MineSet()) + {(r, c)}
      ensures FlagSet() == old(FlagSet()) && RevealedSet() == old(RevealedSet()) && Adj() == old(Adj())
    {
      board[r][c].isMine := true;
    }

    method StoreAdj(r: int, c: int, count: int)
      requires Shape() && InBounds(r, c)
      modifies At((r, c))`adj
      ensures Adj() == old(Adj())[(r, c) := count]
      ensures MineSet() == old(MineSet()) && FlagSet() == old(FlagSet()) && RevealedSet() == old(RevealedSet())
    {
      board[r][c].adj := count;
    }

    method MarkRevealed(r: int, c: int)
      requires Shape() && InBounds(r, c)
      modifies At((r, c))`isRevealed
      ensures RevealedSet() == old(RevealedSet()) + {(r, c)}
      ensures MineSet() == old(MineSet()) && FlagSet() == old(FlagSet()) && Adj() == old(Adj())
    {
      board[r][c].isRevealed := true;
    }

    method SetFlag(r: int, c: int, flagged: bool)
      requires Shape() && InBounds(r, c)
      modifies At((r, c))`isFlagged
      ensures FlagSet() == if flagged then old(FlagSet()) + {(r, c)} else old(FlagSet()) - {(r, c)}
      ensures MineSet() == old(MineSet()) && RevealedSet() == old(RevealedSet()) && Adj() == old(Adj())
    {
      board[r][c].isFlagged := flagged;
    }

    /**
     * The rejection loop of mine placement: each draw that the index set
     * does not yet hold is added to it and mines its cell, until the set
     * holds MINES indices.
     */
    method PlaceMines(draws: seq<int>)
      requires Shape()
      requires forall k | 0 <= k < |draws| :: 0 <= draws[k] < ROWS * COLS
      requires |Elems(draws)| >= MINES
      modifies Repr`isMine
      ensures unchanged(this)
      ensures MineSet() == old(MineSet()) + PosOf(Sample(draws, 0, {}))
      ensures FlagSet() == old(FlagSet()) && RevealedSet() == old(RevealedSet()) && Adj() == old(Adj())
    {
      var used: set<int> := {};
      var k := 0;
      ghost var goal := Sample(draws, 0, {});
      while |used| < MINES
        invariant 0 <= k <= |draws|
        invariant used == Drawn(draws, 0, k) && |used| <= MINES
        invariant Sample(draws, k, used) == goal
        invariant MineSet() == old(MineSet()) + PosOf(used)
        decreases |draws| - k
      {
        DrawStep(draws, k, used, goal);
        var idx := draws[k];
        k := k + 1;
        var added := idx !in used;
        used := used + {idx};
        if added {
          MarkMine(idx / COLS, idx % COLS);
        }
      }
    }

    /** The number of in-bounds mined cells among the eight around (r, c), scanned offset by offset. */
    method CountMinedNeighbours(r: int, c: int) returns (count: int)
      requires Shape() && InBounds(r, c)
      ensures count == MinesAround(MineSet(), (r, c))
    {
      ghost var p := (r, c);
      ghost var mines := MineSet();
      count := 0;
      for dr := -1 to 2
        invariant count == Tally(mines, p, dr)
      {
        for dc := -1 to 2
          invariant count == Tally(mines, p, dr) + RowTally(mines, p, dr, dc)
        {
          if !(dr == 0 && dc == 0) {
            var nr, nc := r + dr, c + dc;
            if InBounds(nr, nc) {
              assert At((nr, nc)) == board[nr][nc];
              if board[nr][nc].isMine {
                count := count + 1;
              }
            }
          }
        }
      }
      TallyIsMinesAround(mines, p);
    }

    /** Stores in every safe cell the number of mines around it; mine cells keep their count. */
    method ComputeAdjacency()
      requires Shape()
      modifies Repr`adj
      ensures unchanged(this)
      ensures MineSet() == old(MineSet()) && FlagSet() == old(FlagSet()) && RevealedSet() == old(RevealedSet())
      ensures AdjacencyCorrect()
      ensures forall p | p in MineSet() :: Adj()[p] == old(Adj())[p]
    {
      ghost var mines, flags, revealed, adj0 := MineSet(), FlagSet(), RevealedSet(), Adj();
      ghost var target := Targets(mines);
      for r := 0 to ROWS
        invariant MineSet() == mines && FlagSet() == flags && RevealedSet() == revealed
        invariant Adj() == Counts(adj0, target, r, 0)
      {
        for c := 0 to COLS
          invariant MineSet() == mines && FlagSet() == flags && RevealedSet() == revealed
          invariant Adj() == Counts(adj0, target, r, c)
        {
          assert At((r, c)) == board[r][c];
          if !board[r][c].isMine {
            CountsStore(adj0, mines, r, c);
            var count := CountMinedNeighbours(r, c);
            StoreAdj(r, c, count);
          } else {
            CountsSkip(adj0, mines, r, c);
          }
        }
        CountsRow(adj0, target, r);
      }
      CountsDone(adj0, target);
      forall p | p in Grid() && p !in mines
        ensures CountHeld(mines, Adj(), p)
      {
      }
    }

    /**
     * One pass of the flood fill's inner loop body, on the board, the seen
     * array and the queue: the step Visit describes.
     */
    method VisitNeighbour(seen: array2<bool>, q: seq<Pos>, cur: Pos, dr: int, dc: int, ghost o: Origin)
      returns (q': seq<Pos>)
      requires Shape() && seen.Length0 == ROWS && seen.Length1 == COLS
      requires o.mines == MineSet() && o.flags == FlagSet() && o.adj == Adj()
      requires -1 <= dr <= 1 && -1 <= dc <= 1
      modifies seen, this`revealedSafe, Repr`isRevealed
      ensures Fill(SeenSet(seen), RevealedSet(), revealedSafe, q') ==
              Visit(o, Fill(old(SeenSet(seen)), old(RevealedSet()), old(revealedSafe), q), cur, dr, dc)
      ensures MineSet() == o.mines && FlagSet() == o.flags && Adj() == o.adj
    {
      VisitCases(o, Fill(SeenSet(seen), RevealedSet(), revealedSafe, q), cur, dr, dc);
      q' := q;
      if dr == 0 && dc == 0 {
        return;
      }
      var nr, nc := cur.0 + dr, cur.1 + dc;
      if !InBounds(nr, nc) || seen[nr, nc] {
        return;
      }
      assert At((nr, nc)) == board[nr][nc];
      var n := board[nr][nc];
      MarkSeen(seen, (nr, nc));
      if n.isMine || n.isFlagged || n.isRevealed {
        return;
      }
      MarkRevealed(nr, nc);
      revealedSafe := revealedSafe + 1;
      if n.adj == 0 {
        q' := q + [(nr, nc)];
      }
    }

    /**
     * The breadth-first flood fill from the revealed zero cell (r, c): it
     * reveals and counts exactly the region of hidden, unflagged safe cells
     * reachable from (r, c) through zero cells.
     */
    method FloodFillFromZero(r: int, c: int)
      requires Shape() && InBounds(r, c) && AdjacencyCorrect()
      requires (r, c) in RevealedSet() && (r, c) !in MineSet() && Adj()[(r, c)] == 0
      modifies this`revealedSafe, Repr`isRevealed
      ensures MineSet() == old(MineSet()) && FlagSet() == old(FlagSet()) && Adj() == old(Adj())
      ensures RevealedSet() == old(RevealedSet()) + Region(Origin(MineSet(), FlagSet(), Adj(), (r, c), old(RevealedSet())))
      ensures revealedSafe == old(revealedSafe) + |Region(Origin(MineSet(), FlagSet(), Adj(), (r, c), old(RevealedSet())))|
    {
      ghost var o := Origin(MineSet(), FlagSet(), Adj(), (r, c), RevealedSet());
      ghost var base := revealedSafe;
      assert RevealedSet() <= Grid();
      assert Ready(o);
      var q: seq<Pos> := [(r, c)];
      var seen := NewSeen((r, c));
      assert MineSet() == o.mines && FlagSet() == o.flags && Adj() == o.adj;
      assert RevealedSet() == o.revealed0 && revealedSafe == base;
      ghost var done: set<Pos> := {};
      ghost var parent: map<Pos, Pos> := map[];
      ghost var depth: map<Pos, nat> := map[(r, c) := 0];
      FillStarts(o, base);
      while q != []
        invariant seen.Length0 == ROWS && seen.Length1 == COLS
        invariant MineSet() == o.mines && FlagSet() == o.flags && Adj() == o.adj
        invariant Inv(o, base, Fill(SeenSet(seen), RevealedSet(), revealedSafe, q), done, parent, depth)
        invariant Expanded(done, SeenSet(seen))
        decreases Measure(Fill(SeenSet(seen), RevealedSet(), revealedSafe, q))
      {
        q, done, parent, depth := ExpandHead(seen, q, o, base, done, parent, depth);
      }
      FillIsRegion(o, base, Fill(SeenSet(seen), RevealedSet(), revealedSafe, q), done, parent, depth);
    }

    /**
     * One turn of the flood fill's queue loop: poll the head of the queue and
     * scan the cells around it.
     */
    method ExpandHead(seen: array2<bool>, q: seq<Pos>, ghost o: Origin, ghost base: int,
                      ghost done: set<Pos>, ghost parent: map<Pos, Pos>, ghost depth: map<Pos, nat>)
      returns (q': seq<Pos>, ghost done': set<Pos>, ghost parent': map<Pos, Pos>, ghost depth': map<Pos, nat>)
      requires Shape() && seen.Length0 == ROWS && seen.Length1 == COLS
      requires Ready(o) && o.mines == MineSet() && o.flags == FlagSet() && o.adj == Adj()
      requires Inv(o, base, Fill(SeenSet(seen), RevealedSet(), revealedSafe, q), done, parent, depth)
      requires Expanded(done, SeenSet(seen)) && q != []
      modifies seen, this`revealedSafe, Repr`isRevealed
      ensures MineSet() == o.mines && FlagSet() == o.flags && Adj() == o.adj
      ensures Inv(o, base, Fill(SeenSet(seen), RevealedSet(), revealedSafe, q'), done', parent', depth')
      ensures Expanded(done', SeenSet(seen))
      ensures Measure(Fill(SeenSet(seen), RevealedSet(), revealedSafe, q')) <
              Measure(Fill(old(SeenSet(seen)), old(RevealedSet()), old(revealedSafe), q))
    {
      ghost var s0 := Fill(SeenSet(seen), RevealedSet(), revealedSafe, q);
      Pop(o, base, s0, done, parent, depth);
      var cur := q[0];
      q' := q[1..];
      assert Fill(SeenSet(seen), RevealedSet(), revealedSafe, q') == s0.(queue := s0.queue[1..]);
      q', parent', depth' := ScanAround(seen, q', cur, o, base, done + {cur}, parent, depth);
      ExpandedGrow(done, cur, s0.seen, SeenSet(seen));
      done' := done + {cur};
    }

    /**
     * The two offset loops of the flood fill around the zero cell cur: every
     * neighbour of cur ends up seen, and the fill invariant is kept.
     */
    method ScanAround(seen: array2<bool>, q: seq<Pos>, cur: Pos, ghost o: Origin, ghost base: int,
                      ghost open: set<Pos>, ghost parent: map<Pos, Pos>, ghost depth: map<Pos, nat>)
      returns (q': seq<Pos>, ghost parent': map<Pos, Pos>, ghost depth': map<Pos, nat>)
      requires Shape() && seen.Length0 == ROWS && seen.Length1 == COLS
      requires Ready(o) && o.mines == MineSet() && o.flags == FlagSet() && o.adj == Adj()
      requires Inv(o, base, Fill(SeenSet(seen), RevealedSet(), revealedSafe, q), open, parent, depth)
      requires cur in Zeros(o, RevealedSet())
      modifies seen, this`revealedSafe, Repr`isRevealed
      ensures MineSet() == o.mines && FlagSet() == o.flags && Adj() == o.adj
      ensures Inv(o, base, Fill(SeenSet(seen), RevealedSet(), revealedSafe, q'), open, parent', depth')
      ensures Neighbours(cur) <= SeenSet(seen) && old(SeenSet(seen)) <= SeenSet(seen)
      ensures Measure(Fill(SeenSet(seen), RevealedSet(), revealedSafe, q')) <=
              Measure(Fill(old(SeenSet(seen)), old(RevealedSet()), old(revealedSafe), q))
    {
      ghost var s0 := Fill(SeenSet(seen), RevealedSet(), revealedSafe, q);
      q', parent', depth' := q, parent, depth;
      ScanEnds(cur);
      for dr := -1 to 2
        invariant MineSet() == o.mines && FlagSet() == o.flags && Adj() == o.adj
        invariant Inv(o, base, Fill(SeenSet(seen), RevealedSet(), revealedSafe, q'), open, parent', depth')
        invariant cur in Zeros(o, RevealedSet())
        invariant ScannedBefore(cur, dr, -1) <= SeenSet(seen) && s0.seen <= SeenSet(seen)
        invariant Measure(Fill(SeenSet(seen), RevealedSet(), revealedSafe, q')) <= Measure(s0)
      {
        for dc := -1 to 2
          invariant MineSet() == o.mines && FlagSet() == o.flags && Adj() == o.adj
          invariant Inv(o, base, Fill(SeenSet(seen), RevealedSet(), revealedSafe, q'), open, parent', depth')
          invariant cur in Zeros(o, RevealedSet())
          invariant ScannedBefore(cur, dr, dc) <= SeenSet(seen) && s0.seen <= SeenSet(seen)
          invariant Measure(Fill(SeenSet(seen), RevealedSet(), revealedSafe, q')) <= Measure(s0)
        {
          ghost var s := Fill(SeenSet(seen), RevealedSet(), revealedSafe, q');
          q' := VisitNeighbour(seen, q', cur, dr, dc, o);
          parent', depth' := VisitKeeps(o, base, s, open, parent', depth', cur, dr, dc);
        }
        ScanRow(cur, dr);
      }
    }

    /**
     * The player reveals (r, c). Nothing changes once the game is over or when
     * the cell is flagged or already revealed. Otherwise the cell is revealed:
     * a mine ends the game lost; a safe cell is counted, a zero cell also
     * opens its flood-fill region, and revealing the last safe cell ends the
     * game won.
     */
    method Reveal(r: int, c: int) returns (changed: bool)
      requires Valid() && InBounds(r, c)
      modifies this`gameOver, this`won, this`revealedSafe, Repr`isRevealed
      ensures Valid()
      ensures (State(), changed) == RevealStep(old(State()), (r, c))
    {
      RevealKeeps(State(), (r, c));
      if gameOver {
        return false;
      }
      assert At((r, c)) == board[r][c];
      var cell := board[r][c];
      if cell.isFlagged || cell.isRevealed {
        return false;
      }
      Uncover(r, c);
      return true;
    }

    /**
     * Reveal past its guards: mark (r, c) revealed; a mine ends the game
     * lost, a safe cell is counted with its cascade and ends the game won
     * once every safe cell is revealed.
     */
    method Uncover(r: int, c: int)
      requires Shape() && InBounds(r, c) && AdjacencyCorrect()
      requires !gameOver && (r, c) !in FlagSet() && (r, c) !in RevealedSet()
      modifies this`gameOver, this`won, this`revealedSafe, Repr`isRevealed
      ensures State() == RevealStep(old(State()), (r, c)).0
    {
      MarkRevealed(r, c);
      assert At((r, c)) == board[r][c];
      if board[r][c].isMine {
        gameOver, won := true, false;
        return;
      }
      OpenSafe(r, c);
    }

    /**
     * The safe tail of reveal once (r, c) is marked revealed: count it, open
     * its flood-fill region when it has no mined neighbour, and end the game
     * won when every safe cell is revealed.
     */
    method OpenSafe(r: int, c: int)
      requires Shape() && InBounds(r, c) && AdjacencyCorrect()
      requires (r, c) in RevealedSet() && (r, c) !in MineSet()
      modifies this`gameOver, this`won, this`revealedSafe, Repr`isRevealed
      ensures State() == OpenStep(old(State()), (r, c))
    {
      ghost var g := State();
      ghost var cascade := Cascade(g.mines, g.flags, g.adj, (r, c), g.revealed);
      CountAndFill(r, c);
      assert State() == g.(revealed := g.revealed + cascade, revealedSafe := g.revealedSafe + 1 + |cascade|);
      Settle();
    }

    /** The win test of reveal: the game is over and won once every safe cell is revealed. */
    method Settle()
      requires Shape()
      modifies this`gameOver, this`won
      ensures old(revealedSafe) == ROWS * COLS - MINES ==> State() == old(State()).(gameOver := true, won := true)
      ensures old(revealedSafe) != ROWS * COLS - MINES ==> State() == old(State())
    {
      if revealedSafe == ROWS * COLS - MINES {
        gameOver, won := true, true;
      }
    }

    /** Counts the safe cell (r, c) and, when it has no mined neighbour, reveals and counts its cascade. */
    method CountAndFill(r: int, c: int)
      requires Shape() && InBounds(r, c) && AdjacencyCorrect()
      requires (r, c) in RevealedSet() && (r, c) !in MineSet()
      modifies this`revealedSafe, Repr`isRevealed
      ensures MineSet() == old(MineSet()) && FlagSet() == old(FlagSet()) && Adj() == old(Adj())
      ensures RevealedSet() == old(RevealedSet()) + Cascade(MineSet(), FlagSet(), Adj(), (r, c), old(RevealedSet()))
      ensures revealedSafe == old(revealedSafe) + 1 + |Cascade(MineSet(), FlagSet(), Adj(), (r, c), old(RevealedSet()))|
    {
      revealedSafe := revealedSafe + 1;
      assert At((r, c)) == board[r][c];
      if board[r][c].adj == 0 {
        FloodFillFromZero(r, c);
      }
    }

    /**
     * The player toggles the flag on (r, c); this is refused once the game is
     * over and on a revealed cell.
     */
    method ToggleFlag(r: int, c: int) returns (changed: bool)
      requires Valid() && InBounds(r, c)
      modifies Repr`isFlagged
      ensures Valid()
      ensures (State(), changed) == ToggleStep(old(State()), (r, c))
    {
      ToggleKeeps(State(), (r, c));
      if gameOver {
        return false;
      }
      assert At((r, c)) == board[r][c];
      var cell := board[r][c];
      if cell.isRevealed {
        return false;
      }
      assert cell.isFlagged <==> (r, c) in FlagSet();
      SetFlag(r, c, !cell.isFlagged);
      return true;
    }

    /** Reveals every cell of the board, as the end-of-game display does. */
    method RevealAll()
      requires Valid()
      modifies this`disclosed, Repr`isRevealed
      ensures Valid()
      ensures State() == Disclose(old(State()))
    {
      ghost var g := State();
      DiscloseKeeps(g);
      RevealEvery();
      disclosed := true;
      assert State() == Disclose(g);
    }

    /** The loops of revealAll: every cell, row by row, is marked revealed. */
    method RevealEvery()
      requires Shape()
      modifies Repr`isRevealed
      ensures RevealedSet() == Grid()
      ensures MineSet() == old(MineSet()) && FlagSet() == old(FlagSet()) && Adj() == old(Adj())
    {
      for r := 0 to ROWS
        invariant RevealedSet() == old(RevealedSet()) + RowsUpTo(r)
        invariant MineSet() == old(MineSet()) && FlagSet() == old(FlagSet()) && Adj() == old(Adj())
      {
        for c := 0 to COLS
          invariant RevealedSet() == old(RevealedSet()) + RowsUpTo(r) + RowPrefix(r, c)
          invariant MineSet() == old(MineSet()) && FlagSet() == old(FlagSet()) && Adj() == old(Adj())
        {
          MarkRevealed(r, c);
          RowScan(r, c);
        }
        RowScan(r, 0);
      }
      RowScan(0, 0);
    }
  }
}
