/**
 * The fixed geometry of the Minesweeper board and the pure facts the engine
 * relies on: which cells are neighbours, how many mines surround a cell, how
 * the rejection loop of mine placement chooses its cells, and how many cells
 * there are to reveal.
 */
module Rules {

  /** The board is ROWS x COLS cells, MINES of them mined. */
  const ROWS: int := 10
  const COLS: int := 10
  const MINES: int := 5

  /** A (row, column) coordinate. */
  type Pos = (int, int)

  predicate InBounds(r: int, c: int) {
    0 <= r < ROWS && 0 <= c < COLS
  }

  /** Every coordinate of the board. */
  function Grid(): (g: set<Pos>)
    ensures forall p: Pos :: p in g <==> InBounds(p.0, p.1)
  {
    set r, c | 0 <= r < ROWS && 0 <= c < COLS :: (r, c)
  }

  /** q is one of the up to eight cells around p: both offsets in {-1, 0, 1}, not both 0. */
  predicate Adjacent(p: Pos, q: Pos) {
    p != q && -1 <= q.0 - p.0 <= 1 && -1 <= q.1 - p.1 <= 1
  }

  /** The in-bounds neighbours of p. */
  function Neighbours(p: Pos): (ns: set<Pos>)
  {
    set q | q in Grid() && Adjacent(p, q)
  }

  /** The in-bounds cell at a non-zero offset in {-1, 0, 1}^2 from p is a neighbour of p. */
  lemma OffsetNeighbour(p: Pos, dr: int, dc: int)
    requires -1 <= dr <= 1 && -1 <= dc <= 1 && !(dr == 0 && dc == 0) && InBounds(p.0 + dr, p.1 + dc)
    ensures (p.0 + dr, p.1 + dc) in Neighbours(p)
  {
  }

  /** The number of mined in-bounds neighbours of p: the value a safe cell's `adj` must hold. */
  function MinesAround(mines: set<Pos>, p: Pos): (n: nat)
    ensures n <= 8
    ensures n == 0 <==> forall q | q in Neighbours(p) :: q !in mines
  {
    var around := Neighbours(p) * mines;
    NeighboursAtMostEight(p);
    SubsetCard(around, Neighbours(p));
    assert around == {} <==> forall q | q in Neighbours(p) :: q !in mines by {
      if around != {} {
        var q := Pick(around);
        assert q in Neighbours(p) && q in mines;
      } else {
        forall q | q in Neighbours(p) ensures q !in mines {
          assert q !in around;
        }
      }
    }
    |around|
  }

  /** The safe cell p holds the number of mines around it. */
  predicate CountHeld(mines: set<Pos>, adj: map<Pos, int>, p: Pos)
  {
    p in adj && adj[p] == MinesAround(mines, p)
  }

  /** Every safe cell of the board holds the number of mines around it. */
  ghost predicate CountsHeld(mines: set<Pos>, adj: map<Pos, int>)
  {
    forall p {:trigger CountHeld(mines, adj, p)} | p in Grid() && p !in mines :: CountHeld(mines, adj, p)
  }

  lemma {:induction false} SubsetCard<T>(a: set<T>, b: set<T>)
    requires a <= b
    ensures |a| <= |b|
    decreases |a|
  {
    if a != {} {
      var x :| x in a;
      SubsetCard(a - {x}, b - {x});
    }
  }

  /** Some element of a non-empty set. */
  lemma Pick<T>(s: set<T>) returns (x: T)
    requires s != {}
    ensures x in s
  {
    x :| x in s;
  }

  lemma StrictSubsetCard<T>(a: set<T>, b: set<T>)
    requires a < b
    ensures |a| < |b|
  {
    assert b == a + (b - a);
  }

  lemma NeighboursAtMostEight(p: Pos)
    ensures |Neighbours(p)| <= 8
  {
    var (r, c) := p;
    var ring := {(r - 1, c - 1), (r - 1, c), (r - 1, c + 1), (r, c - 1),
                 (r, c + 1), (r + 1, c - 1), (r + 1, c), (r + 1, c + 1)};
    assert Neighbours(p) <= ring;
    SubsetCard(Neighbours(p), ring);
  }

  // ---------------------------------------------------------------------
  // The scan over the offsets (dr, dc) in row-major order, as the loops of
  // computeAdjacency and floodFillFromZero perform it.

  /** The neighbours of p that a row-major scan of offsets has passed before reaching (dr, dc). */
  function ScannedBefore(p: Pos, dr: int, dc: int): set<Pos>
  {
    set q | q in Neighbours(p) && (q.0 - p.0 < dr || (q.0 - p.0 == dr && q.1 - p.1 < dc))
  }

  /** Before the first offset nothing is scanned; after the last, every neighbour is. */
  lemma ScanEnds(p: Pos)
    ensures ScannedBefore(p, -1, -1) == {}
    ensures ScannedBefore(p, 2, -1) == Neighbours(p)
  {
  }

  /** Finishing a row of offsets is the same as starting the next one. */
  lemma ScanRow(p: Pos, dr: int)
    ensures ScannedBefore(p, dr, 2) == ScannedBefore(p, dr + 1, -1)
  {
  }

  /** 1 when the cell at offset (dr, dc) from p is an in-bounds mined neighbour, else 0. */
  function Hit(mines: set<Pos>, p: Pos, dr: int, dc: int): int
  {
    if !(dr == 0 && dc == 0) && InBounds(p.0 + dr, p.1 + dc) && (p.0 + dr, p.1 + dc) in mines then 1 else 0
  }

  /** The hits at offsets (dr, -1) up to (dr, dc - 1): the inner loop of the scan. */
  function RowTally(mines: set<Pos>, p: Pos, dr: int, dc: int): int
    decreases dc + 1
  {
    if dc <= -1 then 0 else RowTally(mines, p, dr, dc - 1) + Hit(mines, p, dr, dc - 1)
  }

  /** The hits in the offset rows -1 up to dr - 1: the outer loop of the scan. */
  function Tally(mines: set<Pos>, p: Pos, dr: int): int
    decreases dr + 1
  {
    if dr <= -1 then 0 else Tally(mines, p, dr - 1) + RowTally(mines, p, dr - 1, 2)
  }

  /** One step of the scan adds the cell at offset (dr, dc) exactly when it is an in-bounds neighbour. */
  lemma ScanStep(mines: set<Pos>, p: Pos, dr: int, dc: int)
    requires -1 <= dr <= 1 && -1 <= dc <= 1
    ensures |ScannedBefore(p, dr, dc + 1) * mines| == |ScannedBefore(p, dr, dc) * mines| + Hit(mines, p, dr, dc)
  {
    var n := (p.0 + dr, p.1 + dc);
    ScanAdds(p, dr, dc);
    var before := ScannedBefore(p, dr, dc);
    if !(dr == 0 && dc == 0) && InBounds(n.0, n.1) {
      assert ScannedBefore(p, dr, dc + 1) == before + {n};
      AddOneMeet(before, n, mines);
    } else {
      assert ScannedBefore(p, dr, dc + 1) == before;
    }
  }

  /** Scanning offset (dr, dc) adds that cell exactly when it is an in-bounds neighbour. */
  lemma ScanAdds(p: Pos, dr: int, dc: int)
    requires -1 <= dr <= 1 && -1 <= dc <= 1
    ensures (p.0 + dr, p.1 + dc) !in ScannedBefore(p, dr, dc)
    ensures ScannedBefore(p, dr, dc + 1) ==
            ScannedBefore(p, dr, dc) +
            (if !(dr == 0 && dc == 0) && InBounds(p.0 + dr, p.1 + dc) then {(p.0 + dr, p.1 + dc)} else {})
  {
  }

  /** Adding an element outside a adds one to the meet with m exactly when it lies in m. */
  lemma AddOneMeet<T>(a: set<T>, x: T, m: set<T>)
    requires x !in a
    ensures |(a + {x}) * m| == |a * m| + (if x in m then 1 else 0)
  {
    if x in m {
      assert (a + {x}) * m == a * m + {x};
    } else {
      assert (a + {x}) * m == a * m;
    }
  }

  /** Within one offset row, the inner tally counts the mined neighbours scanned in that row. */
  lemma {:induction false} RowTallyCountsScanned(mines: set<Pos>, p: Pos, dr: int, dc: int)
    requires -1 <= dr <= 1 && -1 <= dc <= 2
    ensures |ScannedBefore(p, dr, -1) * mines| + RowTally(mines, p, dr, dc) == |ScannedBefore(p, dr, dc) * mines|
    decreases dc + 1
  {
    if dc >= 0 {
      RowTallyCountsScanned(mines, p, dr, dc - 1);
      RowTallyStep(mines, p, dr, dc);
    }
  }

  /** One inner-loop step keeps the row tally equal to the scanned count. */
  lemma RowTallyStep(mines: set<Pos>, p: Pos, dr: int, dc: int)
    requires -1 <= dr <= 1 && 0 <= dc <= 2
    requires |ScannedBefore(p, dr, -1) * mines| + RowTally(mines, p, dr, dc - 1) == |ScannedBefore(p, dr, dc - 1) * mines|
    ensures |ScannedBefore(p, dr, -1) * mines| + RowTally(mines, p, dr, dc) == |ScannedBefore(p, dr, dc) * mines|
  {
    ScanStep(mines, p, dr, dc - 1);
  }

  /** The outer tally counts the mined neighbours in the offset rows scanned so far. */
  lemma {:induction false} TallyCountsScanned(mines: set<Pos>, p: Pos, dr: int)
    requires -1 <= dr <= 2
    ensures Tally(mines, p, dr) == |ScannedBefore(p, dr, -1) * mines|
    decreases dr + 1
  {
    if dr >= 0 {
      TallyCountsScanned(mines, p, dr - 1);
      RowTallyCountsScanned(mines, p, dr - 1, 2);
      TallyStep(mines, p, dr);
    } else {
      ScanEnds(p);
      assert ScannedBefore(p, dr, -1) * mines == {};
    }
  }

  /** One outer-loop step keeps the tally equal to the scanned count. */
  lemma TallyStep(mines: set<Pos>, p: Pos, dr: int)
    requires 0 <= dr <= 2
    requires Tally(mines, p, dr - 1) == |ScannedBefore(p, dr - 1, -1) * mines|
    requires |ScannedBefore(p, dr - 1, -1) * mines| + RowTally(mines, p, dr - 1, 2) == |ScannedBefore(p, dr - 1, 2) * mines|
    ensures Tally(mines, p, dr) == |ScannedBefore(p, dr, -1) * mines|
  {
    ScanRow(p, dr - 1);
  }

  /** The whole scan counts MinesAround. */
  lemma TallyIsMinesAround(mines: set<Pos>, p: Pos)
    ensures Tally(mines, p, 2) == MinesAround(mines, p)
  {
    TallyCountsScanned(mines, p, 2);
    ScanEnds(p);
  }

  // ---------------------------------------------------------------------
  // The row-major pass of computeAdjacency over the board.

  /** The count every safe cell should hold. */
  function Targets(mines: set<Pos>): (t: map<Pos, int>)
    ensures t.Keys == Grid() - mines
  {
    map p | p in Grid() - mines :: MinesAround(mines, p)
  }

  /**
   * The counts once the pass has reached cell (r, c): every cell before it
   * that has a target holds the target, every other cell its old value.
   */
  function Counts(adj0: map<Pos, int>, target: map<Pos, int>, r: int, c: int): (m: map<Pos, int>)
    ensures m.Keys == adj0.Keys
  {
    map p | p in adj0 :: if p in target && (p.0 < r || (p.0 == r && p.1 < c)) then target[p] else adj0[p]
  }

  /** Visiting (r, c) stores its target when it has one and changes nothing otherwise. */
  lemma CountsStep(adj0: map<Pos, int>, target: map<Pos, int>, r: int, c: int)
    requires InBounds(r, c) && adj0.Keys == Grid()
    ensures Counts(adj0, target, r, c + 1) ==
            if (r, c) !in target then Counts(adj0, target, r, c)
            else Counts(adj0, target, r, c)[(r, c) := target[(r, c)]]
  {
  }

  /** Visiting a safe cell stores the number of mines around it. */
  lemma CountsStore(adj0: map<Pos, int>, mines: set<Pos>, r: int, c: int)
    requires InBounds(r, c) && adj0.Keys == Grid() && (r, c) !in mines
    ensures Counts(adj0, Targets(mines), r, c + 1) ==
            Counts(adj0, Targets(mines), r, c)[(r, c) := MinesAround(mines, (r, c))]
  {
    var target := Targets(mines);
    assert (r, c) in target && target[(r, c)] == MinesAround(mines, (r, c));
    CountsStep(adj0, target, r, c);
  }

  /** Visiting a mine changes nothing. */
  lemma CountsSkip(adj0: map<Pos, int>, mines: set<Pos>, r: int, c: int)
    requires InBounds(r, c) && adj0.Keys == Grid() && (r, c) in mines
    ensures Counts(adj0, Targets(mines), r, c + 1) == Counts(adj0, Targets(mines), r, c)
  {
    CountsStep(adj0, Targets(mines), r, c);
  }

  /** The end of a row is the start of the next. */
  lemma CountsRow(adj0: map<Pos, int>, target: map<Pos, int>, r: int)
    requires adj0.Keys == Grid()
    ensures Counts(adj0, target, r, COLS) == Counts(adj0, target, r + 1, 0)
  {
  }

  /** After the last row every cell with a target holds it and every other cell its old value. */
  lemma CountsDone(adj0: map<Pos, int>, target: map<Pos, int>)
    requires adj0.Keys == Grid()
    ensures forall p | p in Grid() :: Counts(adj0, target, ROWS, 0)[p] == if p in target then target[p] else adj0[p]
  {
  }

  // ---------------------------------------------------------------------
  // Counting the board.

  function RowPrefix(r: int, m: int): set<Pos>
  {
    set c | 0 <= c < m :: (r, c)
  }

  function RowsUpTo(n: int): set<Pos>
  {
    set r, c | 0 <= r < n && 0 <= c < COLS :: (r, c)
  }

  /** A row-major scan of the board: one more column, one more row, all rows. */
  lemma RowScan(r: nat, c: nat)
    ensures RowPrefix(r, c + 1) == RowPrefix(r, c) + {(r, c)}
    ensures RowsUpTo(r + 1) == RowsUpTo(r) + RowPrefix(r, COLS)
    ensures RowsUpTo(ROWS) == Grid()
  {
    assert RowPrefix(r, c + 1) == RowPrefix(r, c) + {(r, c)};
    assert RowsUpTo(r + 1) == RowsUpTo(r) + RowPrefix(r, COLS);
  }

  lemma {:induction false} RowPrefixSize(r: int, m: nat)
    ensures |RowPrefix(r, m)| == m
  {
    if m > 0 {
      RowPrefixSize(r, m - 1);
      assert RowPrefix(r, m) == RowPrefix(r, m - 1) + {(r, m - 1)};
    }
  }

  lemma {:induction false} RowsUpToSize(n: nat)
    ensures |RowsUpTo(n)| == n * COLS
  {
    if n > 0 {
      RowsUpToSize(n - 1);
      RowPrefixSize(n - 1, COLS);
      assert RowsUpTo(n) == RowsUpTo(n - 1) + RowPrefix(n - 1, COLS);
      assert RowsUpTo(n - 1) * RowPrefix(n - 1, COLS) == {};
    }
  }

  /** The board has ROWS * COLS cells. */
  lemma GridSize()
    ensures |Grid()| == ROWS * COLS
  {
    RowsUpToSize(ROWS);
    assert Grid() == RowsUpTo(ROWS);
  }

  /** With MINES cells mined, exactly ROWS * COLS - MINES cells are safe. */
  lemma SafeCellCount(mines: set<Pos>)
    requires mines <= Grid() && |mines| == MINES
    ensures |Grid() - mines| == ROWS * COLS - MINES
  {
    GridSize();
    assert (Grid() - mines) + mines == Grid();
    assert (Grid() - mines) * mines == {};
  }

  /**
   * The win test: the number of revealed safe cells reaches ROWS * COLS - MINES
   * exactly when every safe cell is revealed, and never exceeds it.
   */
  lemma SafeCounterFull(revealed: set<Pos>, mines: set<Pos>)
    requires revealed <= Grid() && mines <= Grid() && |mines| == MINES
    ensures |revealed - mines| <= ROWS * COLS - MINES
    ensures |revealed - mines| == ROWS * COLS - MINES <==> Grid() - mines <= revealed
  {
    SafeCellCount(mines);
    SubsetCard(revealed - mines, Grid() - mines);
    if Grid() - mines <= revealed {
      assert revealed - mines == Grid() - mines;
    } else {
      StrictSubsetCard(revealed - mines, Grid() - mines);
    }
  }

  // ---------------------------------------------------------------------
  // Mine placement: draws over the flattened index space.

  /** The cell that flattened index idx names: row idx / COLS, column idx % COLS. */
  function CellOf(idx: int): Pos
  {
    (idx / COLS, idx % COLS)
  }

  /** The cells that a set of flattened indices names. */
  function PosOf(s: set<int>): set<Pos>
  {
    set i | i in s :: CellOf(i)
  }

  /** The values a sequence of draws contains. */
  function Elems(draws: seq<int>): set<int>
  {
    set x | x in draws
  }

  /** The values draws[lo], ..., draws[hi - 1]. */
  function Drawn(draws: seq<int>, lo: int, hi: int): set<int>
    requires 0 <= lo <= hi <= |draws|
  {
    set i | lo <= i < hi :: draws[i]
  }

  /** In range, distinct flattened indices name distinct board cells. */
  lemma CellOfInjective(i: int, j: int)
    requires 0 <= i < ROWS * COLS && 0 <= j < ROWS * COLS
    ensures InBounds(CellOf(i).0, CellOf(i).1)
    ensures CellOf(i) == CellOf(j) ==> i == j
  {
  }

  /**
   * The rejection loop of mine placement, continued from the index set `used`
   * with the draws from position k on: each draw is added to the set, and the
   * loop stops once the set holds MINES indices.
   */
  function Sample(draws: seq<int>, k: int, used: set<int>): set<int>
    requires 0 <= k <= |draws|
    decreases |draws| - k
  {
    if |used| >= MINES || k == |draws| then used else Sample(draws, k + 1, used + {draws[k]})
  }

  /** Drawing from position lo takes draws[lo] and then the rest. */
  lemma DrawnSplit(draws: seq<int>, lo: int, hi: int)
    requires 0 <= lo < hi <= |draws|
    ensures Drawn(draws, lo, hi) == {draws[lo]} + Drawn(draws, lo + 1, hi)
    ensures Drawn(draws, 0, lo + 1) == Drawn(draws, 0, lo) + {draws[lo]}
  {
  }

  /** Given enough distinct draws, the loop ends holding exactly MINES indices, all of them drawn. */
  lemma {:induction false} SampleSize(draws: seq<int>, k: int, used: set<int>)
    requires 0 <= k <= |draws|
    requires |used| <= MINES && |used + Drawn(draws, k, |draws|)| >= MINES
    ensures |Sample(draws, k, used)| == MINES
    ensures used <= Sample(draws, k, used) <= used + Drawn(draws, k, |draws|)
    decreases |draws| - k
  {
    if |used| < MINES {
      assert k < |draws|;
      DrawnSplit(draws, k, |draws|);
      assert used + Drawn(draws, k, |draws|) == (used + {draws[k]}) + Drawn(draws, k + 1, |draws|);
      SampleSize(draws, k + 1, used + {draws[k]});
    }
  }

  /** The whole sequence of draws holds the values it contains. */
  lemma DrawnAll(draws: seq<int>)
    ensures Drawn(draws, 0, |draws|) == Elems(draws)
  {
    forall x | x in Elems(draws) ensures x in Drawn(draws, 0, |draws|) {
      var i :| 0 <= i < |draws| && draws[i] == x;
    }
  }

  /**
   * One turn of the rejection loop while it still runs: a draw remains, and
   * taking it adds that index to the drawn set and its cell to the mined ones.
   */
  lemma DrawStep(draws: seq<int>, k: int, used: set<int>, goal: set<int>)
    requires 0 <= k <= |draws| && used == Drawn(draws, 0, k) && |used| < MINES
    requires |Elems(draws)| >= MINES
    requires Sample(draws, k, used) == goal
    ensures k < |draws|
    ensures Drawn(draws, 0, k + 1) == used + {draws[k]}
    ensures Sample(draws, k + 1, used + {draws[k]}) == goal
    ensures PosOf(used + {draws[k]}) == PosOf(used) + {CellOf(draws[k])}
  {
    if k == |draws| {
      DrawnAll(draws);
    }
    DrawnSplit(draws, k, |draws|);
  }

  /** The placed mines: MINES distinct in-bounds cells, for draws in range. */
  lemma {:induction false} PosOfSize(s: set<int>)
    requires forall i | i in s :: 0 <= i < ROWS * COLS
    ensures |PosOf(s)| == |s| && PosOf(s) <= Grid()
    decreases |s|
  {
    if s != {} {
      var x := Pick(s);
      PosOfSize(s - {x});
      assert PosOf(s) == PosOf(s - {x}) + {CellOf(x)};
      forall i | i in s - {x} ensures CellOf(i) != CellOf(x) {
        CellOfInjective(i, x);
      }
      CellOfInjective(x, x);
    }
  }
}
