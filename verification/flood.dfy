/**
 * The breadth-first flood fill that revealing a zero cell triggers, on
 * abstract values: the board it works on (an Origin), the state it changes
 * (a Fill), one step of its inner loop (Visit), the invariant its loops keep,
 * and the region it is meant to open (Region), defined independently as the
 * cells reachable from the start through zero cells.
 */
module Flood {
  import opened Rules

  /**
   * What a fill works on and never changes: the mined and flagged cells, the
   * stored counts, the zero cell it starts from, and the cells already
   * revealed when it starts (the start among them).
   */
  datatype Origin = Origin(mines: set<Pos>, flags: set<Pos>, adj: map<Pos, int>, start: Pos, revealed0: set<Pos>)

  /** What a fill changes: the cells marked seen, the revealed cells, the safe-cell counter and the queue. */
  datatype Fill = Fill(seen: set<Pos>, revealed: set<Pos>, counter: int, queue: seq<Pos>)

  /** The board a fill may start on: counts stored for every safe cell, a revealed safe zero start. */
  ghost predicate Ready(o: Origin)
  {
    o.adj.Keys == Grid() &&
    o.start in Grid() && o.start !in o.mines && o.start in o.revealed0 && o.adj[o.start] == 0 &&
    o.revealed0 <= Grid() &&
    CountsHeld(o.mines, o.adj)
  }

  // ---------------------------------------------------------------------
  // The reference definition: the region a fill from o.start should reveal.

  /** n is hidden, unflagged and safe, and next to the start or to a zero cell of x. */
  ghost predicate Exposed(o: Origin, x: set<Pos>, n: Pos)
  {
    n !in o.revealed0 && n !in o.flags && n !in o.mines &&
    exists z | z in x + {o.start} :: z in o.adj && o.adj[z] == 0 && n in Neighbours(z)
  }

  /** One round of spreading: x together with every cell it exposes. */
  ghost function Spread(o: Origin, x: set<Pos>): (y: set<Pos>)
    ensures x <= y
  {
    x + set n | n in Grid() && Exposed(o, x, n)
  }

  /** The cells opened after k rounds of spreading. */
  ghost function Rounds(o: Origin, k: nat): set<Pos>
  {
    if k == 0 then {} else Spread(o, Rounds(o, k - 1))
  }

  /**
   * The region a fill from o.start opens: ROWS * COLS rounds of spreading,
   * enough for any chain of cells on the board.
   */
  ghost function Region(o: Origin): set<Pos>
  {
    Rounds(o, ROWS * COLS)
  }

  /** Every round holds only cells of the board that were hidden, unflagged and safe. */
  lemma {:induction false} RoundsHidden(o: Origin, k: nat)
    ensures Rounds(o, k) <= Grid()
    ensures Rounds(o, k) * (o.revealed0 + o.mines + o.flags) == {}
  {
    if k > 0 {
      RoundsHidden(o, k - 1);
    }
  }

  /** The region lies on the board and contains no cell that was revealed, flagged or mined. */
  lemma RegionHidden(o: Origin)
    ensures Region(o) <= Grid()
    ensures Region(o) * (o.revealed0 + o.mines + o.flags) == {}
  {
    RoundsHidden(o, ROWS * COLS);
  }

  // ---------------------------------------------------------------------
  // The fill itself.

  /** The cells a fill has revealed so far. */
  ghost function Added(o: Origin, revealed: set<Pos>): set<Pos>
  {
    revealed - o.revealed0
  }

  /** The zero cells a fill has reached: the start and every zero cell it revealed. */
  ghost function Zeros(o: Origin, revealed: set<Pos>): set<Pos>
  {
    set z | z in Added(o, revealed) + {o.start} && z in o.adj && o.adj[z] == 0
  }

  /** Revealing one more cell adds it to the revealed cells, and to the zero cells when its count is zero. */
  lemma ZerosAdd(o: Origin, revealed: set<Pos>, n: Pos)
    requires n !in revealed && n !in o.revealed0 && n in o.adj && o.start in o.revealed0
    ensures Added(o, revealed + {n}) == Added(o, revealed) + {n}
    ensures n !in Added(o, revealed)
    ensures Zeros(o, revealed + {n}) == Zeros(o, revealed) + (if o.adj[n] == 0 then {n} else {})
  {
  }

  /** Marking an unseen cell of the board leaves one cell fewer unseen. */
  lemma SeeOne(seen: set<Pos>, n: Pos)
    requires n in Grid() && n !in seen
    ensures |Grid() - (seen + {n})| == |Grid() - seen| - 1
  {
    assert Grid() - seen == (Grid() - (seen + {n})) + {n};
  }

  /**
   * One pass of the inner loop body for offset (dr, dc) around cur: skip the
   * centre, off-board and seen cells; otherwise mark the cell seen, and unless
   * it is mined, flagged or revealed, reveal it, count it, and queue it when
   * its count is zero.
   */
  ghost function Visit(o: Origin, s: Fill, cur: Pos, dr: int, dc: int): Fill
    requires o.adj.Keys == Grid()
  {
    var n := (cur.0 + dr, cur.1 + dc);
    if (dr == 0 && dc == 0) || !InBounds(n.0, n.1) || n in s.seen then s
    else if n in o.mines || n in o.flags || n in s.revealed then s.(seen := s.seen + {n})
    else s.(seen := s.seen + {n}, revealed := s.revealed + {n}, counter := s.counter + 1,
            queue := if o.adj[n] == 0 then s.queue + [n] else s.queue)
  }

  /** The work left: unseen cells of the board plus queued cells. */
  ghost function Measure(s: Fill): nat
  {
    |Grid() - s.seen| + |s.queue|
  }

  /**
   * The loop invariant of the fill. `open` holds the zero cells taken off the
   * queue; `parent` and `depth` record, for each revealed cell, the zero cell
   * that revealed it and how many steps it lies from the start.
   */
  ghost predicate Inv(o: Origin, base: int, s: Fill, open: set<Pos>, parent: map<Pos, Pos>, depth: map<Pos, nat>)
  {
    o.revealed0 <= s.revealed <= Grid() &&
    Added(o, s.revealed) * (o.mines + o.flags) == {} &&
    s.counter == base + |Added(o, s.revealed)| &&
    s.seen <= Grid() &&
    s.seen <= s.revealed + o.mines + o.flags &&
    Queued(s.queue, Zeros(o, s.revealed), open) &&
    Chained(o, s.revealed, parent, depth)
  }

  /** The queue holds only reached zero cells, and every reached zero cell is queued or open. */
  ghost predicate Queued(queue: seq<Pos>, zeros: set<Pos>, open: set<Pos>)
  {
    (forall i | 0 <= i < |queue| :: queue[i] in zeros) &&
    (forall z | z in zeros :: z in open || z in queue)
  }

  /**
   * Every revealed cell hangs off a zero cell next to it that is one step
   * closer to the start.
   */
  ghost predicate Chained(o: Origin, revealed: set<Pos>, parent: map<Pos, Pos>, depth: map<Pos, nat>)
  {
    parent.Keys == revealed - o.revealed0 &&
    depth.Keys == (revealed - o.revealed0) + {o.start} && depth[o.start] == 0 &&
    (forall n {:trigger Link(o, parent, depth, n)} | n in parent :: Link(o, parent, depth, n))
  }

  /** n was revealed from parent[n], a zero cell next to it one step closer to the start. */
  ghost predicate Link(o: Origin, parent: map<Pos, Pos>, depth: map<Pos, nat>, n: Pos)
    requires n in parent && n in depth
  {
    parent[n] in depth && parent[n] in o.adj && o.adj[parent[n]] == 0 &&
    n in Neighbours(parent[n]) && depth[n] == depth[parent[n]] + 1
  }

  /** The state a fill starts in: only the start seen and queued. */
  lemma FillStarts(o: Origin, base: int)
    requires Ready(o)
    ensures Inv(o, base, Fill({o.start}, o.revealed0, base, [o.start]), {}, map[], map[o.start := 0])
  {
    var s := Fill({o.start}, o.revealed0, base, [o.start]);
    assert Added(o, s.revealed) == {};
    assert Zeros(o, s.revealed) == {o.start};
  }

  /** Taking the head of the queue moves it to the open cells. */
  lemma Pop(o: Origin, base: int, s: Fill, open: set<Pos>, parent: map<Pos, Pos>, depth: map<Pos, nat>)
    requires Inv(o, base, s, open, parent, depth) && s.queue != []
    ensures s.queue[0] in Zeros(o, s.revealed)
    ensures Inv(o, base, s.(queue := s.queue[1..]), open + {s.queue[0]}, parent, depth)
    ensures Measure(s.(queue := s.queue[1..])) < Measure(s)
  {
    QueuePop(s.queue, Zeros(o, s.revealed), open);
  }

  lemma QueuePop(queue: seq<Pos>, zeros: set<Pos>, open: set<Pos>)
    requires Queued(queue, zeros, open) && queue != []
    ensures queue[0] in zeros
    ensures Queued(queue[1..], zeros, open + {queue[0]})
  {
    forall z | z in zeros
      ensures z in open + {queue[0]} || z in queue[1..]
    {
      if z in queue && z != queue[0] {
        var i :| 0 <= i < |queue| && queue[i] == z;
        assert i != 0;
        assert queue[1..][i - 1] == z;
      }
    }
  }

  /** A newly reached cell joins the reached zero cells exactly when it is queued. */
  lemma QueuePush(queue: seq<Pos>, zeros: set<Pos>, open: set<Pos>, n: Pos, zero: bool)
    requires Queued(queue, zeros, open)
    ensures Queued(if zero then queue + [n] else queue, zeros + (if zero then {n} else {}), open)
  {
    if zero {
      var queue' := queue + [n];
      forall i | 0 <= i < |queue'|
        ensures queue'[i] in zeros + {n}
      {
        if i < |queue| {
          assert queue'[i] == queue[i];
        }
      }
      forall z | z in zeros + {n}
        ensures z in open || z in queue'
      {
        if z == n {
          assert queue'[|queue|] == n;
        } else if z !in open {
          var i :| 0 <= i < |queue| && queue[i] == z;
          assert queue'[i] == z;
        }
      }
    }
  }

  /** A cell revealed from a reached zero cell next to it extends the chain. */
  lemma ChainExtend(o: Origin, revealed: set<Pos>, parent: map<Pos, Pos>, depth: map<Pos, nat>, cur: Pos, n: Pos)
    requires Chained(o, revealed, parent, depth) && o.start in o.revealed0 && o.revealed0 <= revealed
    requires cur in depth && cur in o.adj && o.adj[cur] == 0 && n in Neighbours(cur) && n !in revealed
    ensures Chained(o, revealed + {n}, parent[n := cur], depth[n := depth[cur] + 1])
  {
    var parent', depth' := parent[n := cur], depth[n := depth[cur] + 1];
    assert (revealed + {n}) - o.revealed0 == (revealed - o.revealed0) + {n};
    forall m | m in parent'
      ensures Link(o, parent', depth', m)
    {
      if m != n {
        assert Link(o, parent, depth, m);
      }
    }
  }

  /** A visit keeps the invariant, shrinks the work left, and marks the cell at its offset seen. */
  lemma VisitKeeps(o: Origin, base: int, s: Fill, open: set<Pos>, parent: map<Pos, Pos>, depth: map<Pos, nat>,
                   cur: Pos, dr: int, dc: int)
    returns (parent': map<Pos, Pos>, depth': map<Pos, nat>)
    requires Ready(o) && Inv(o, base, s, open, parent, depth)
    requires cur in Zeros(o, s.revealed)
    requires -1 <= dr <= 1 && -1 <= dc <= 1
    requires ScannedBefore(cur, dr, dc) <= s.seen
    ensures Inv(o, base, Visit(o, s, cur, dr, dc), open, parent', depth')
    ensures ScannedBefore(cur, dr, dc + 1) <= Visit(o, s, cur, dr, dc).seen
    ensures Measure(Visit(o, s, cur, dr, dc)) <= Measure(s)
    ensures cur in Zeros(o, Visit(o, s, cur, dr, dc).revealed)
    ensures s.seen <= Visit(o, s, cur, dr, dc).seen
  {
    VisitScans(o, s, cur, dr, dc);
    VisitCases(o, s, cur, dr, dc);
    var n := (cur.0 + dr, cur.1 + dc);
    if (dr == 0 && dc == 0) || !InBounds(n.0, n.1) || n in s.seen {
      parent', depth' := parent, depth;
    } else if n in o.mines || n in o.flags || n in s.revealed {
      parent', depth' := parent, depth;
      VisitMarks(o, base, s, open, parent, depth, cur, dr, dc);
    } else {
      parent', depth' := VisitReveals(o, base, s, open, parent, depth, cur, dr, dc);
    }
  }

  /** The three outcomes of a visit: nothing, a seen mark, or a reveal. */
  lemma VisitCases(o: Origin, s: Fill, cur: Pos, dr: int, dc: int)
    requires o.adj.Keys == Grid() && -1 <= dr <= 1 && -1 <= dc <= 1
    ensures var n := (cur.0 + dr, cur.1 + dc);
      if (dr == 0 && dc == 0) || !InBounds(n.0, n.1) || n in s.seen then
        Visit(o, s, cur, dr, dc) == s
      else if n in o.mines || n in o.flags || n in s.revealed then
        Visit(o, s, cur, dr, dc) == s.(seen := s.seen + {n})
      else
        Visit(o, s, cur, dr, dc) == s.(seen := s.seen + {n}, revealed := s.revealed + {n}, counter := s.counter + 1,
                                        queue := if o.adj[n] == 0 then s.queue + [n] else s.queue)
    ensures s.seen <= Visit(o, s, cur, dr, dc).seen && s.revealed <= Visit(o, s, cur, dr, dc).revealed
  {
  }

  /** A visit never unmarks a cell and marks the cell at its offset, so the scan moves one offset on. */
  lemma VisitScans(o: Origin, s: Fill, cur: Pos, dr: int, dc: int)
    requires o.adj.Keys == Grid() && -1 <= dr <= 1 && -1 <= dc <= 1
    requires ScannedBefore(cur, dr, dc) <= s.seen
    ensures ScannedBefore(cur, dr, dc + 1) <= Visit(o, s, cur, dr, dc).seen
  {
    VisitCases(o, s, cur, dr, dc);
    ScanAdds(cur, dr, dc);
  }

  /** Marking a mined, flagged or revealed cell seen changes nothing else. */
  lemma VisitMarks(o: Origin, base: int, s: Fill, open: set<Pos>, parent: map<Pos, Pos>, depth: map<Pos, nat>,
                   cur: Pos, dr: int, dc: int)
    requires Ready(o) && Inv(o, base, s, open, parent, depth)
    requires -1 <= dr <= 1 && -1 <= dc <= 1
    requires var n := (cur.0 + dr, cur.1 + dc);
      !(dr == 0 && dc == 0) && InBounds(n.0, n.1) && n !in s.seen && (n in o.mines || n in o.flags || n in s.revealed)
    ensures Inv(o, base, Visit(o, s, cur, dr, dc), open, parent, depth)
    ensures Measure(Visit(o, s, cur, dr, dc)) < Measure(s)
  {
    VisitCases(o, s, cur, dr, dc);
    SeeOne(s.seen, (cur.0 + dr, cur.1 + dc));
  }

  /** Revealing a hidden, safe, unflagged neighbour of cur records cur as its parent. */
  lemma VisitReveals(o: Origin, base: int, s: Fill, open: set<Pos>, parent: map<Pos, Pos>, depth: map<Pos, nat>,
                     cur: Pos, dr: int, dc: int)
    returns (parent': map<Pos, Pos>, depth': map<Pos, nat>)
    requires Ready(o) && Inv(o, base, s, open, parent, depth)
    requires cur in Zeros(o, s.revealed) && -1 <= dr <= 1 && -1 <= dc <= 1
    requires var n := (cur.0 + dr, cur.1 + dc);
      !(dr == 0 && dc == 0) && InBounds(n.0, n.1) && n !in s.seen && n !in o.mines && n !in o.flags && n !in s.revealed
    ensures Inv(o, base, Visit(o, s, cur, dr, dc), open, parent', depth')
    ensures Measure(Visit(o, s, cur, dr, dc)) <= Measure(s)
    ensures parent' == parent[(cur.0 + dr, cur.1 + dc) := cur]
    ensures depth' == depth[(cur.0 + dr, cur.1 + dc) := depth[cur] + 1]
  {
    var n := (cur.0 + dr, cur.1 + dc);
    VisitCases(o, s, cur, dr, dc);
    OffsetNeighbour(cur, dr, dc);
    parent' := parent[n := cur];
    depth' := depth[n := depth[cur] + 1];
    ZerosAdd(o, s.revealed, n);
    SeeOne(s.seen, n);
    QueuePush(s.queue, Zeros(o, s.revealed), open, n, o.adj[n] == 0);
    ChainExtend(o, s.revealed, parent, depth, cur, n);
  }

  /** Every zero cell that is open has all its neighbours marked seen. */
  ghost predicate Expanded(open: set<Pos>, seen: set<Pos>)
  {
    forall z {:trigger AllSeen(z, seen)} | z in open :: AllSeen(z, seen)
  }

  /** Every neighbour of z is marked seen. */
  ghost predicate AllSeen(z: Pos, seen: set<Pos>)
  {
    Neighbours(z) <= seen
  }

  /** Once all neighbours of z are seen, z joins the expanded cells; marking more cells keeps them expanded. */
  lemma ExpandedGrow(open: set<Pos>, z: Pos, seen: set<Pos>, seen': set<Pos>)
    requires Expanded(open, seen) && seen <= seen' && Neighbours(z) <= seen'
    ensures Expanded(open + {z}, seen')
  {
    forall y | y in open + {z}
      ensures AllSeen(y, seen')
    {
      if y != z {
        assert AllSeen(y, seen);
      }
    }
  }

  /**
   * Every zero cell among the start and the cells the fill revealed has all
   * its neighbours revealed or flagged: the region is closed.
   */
  ghost predicate Closed(o: Origin, revealed: set<Pos>)
  {
    forall z | z in (revealed - o.revealed0) + {o.start} && z in o.adj && o.adj[z] == 0 ::
      Neighbours(z) <= revealed + o.flags
  }

  /** A fill whose reached zero cells are all open and expanded is closed. */
  lemma FillCloses(o: Origin, revealed: set<Pos>, seen: set<Pos>, open: set<Pos>)
    requires Ready(o) && Added(o, revealed) * (o.mines + o.flags) == {}
    requires Zeros(o, revealed) <= open && Expanded(open, seen)
    requires seen <= revealed + o.mines + o.flags
    ensures Closed(o, revealed)
  {
    forall z | z in (revealed - o.revealed0) + {o.start} && z in o.adj && o.adj[z] == 0
      ensures Neighbours(z) <= revealed + o.flags
    {
      assert z in Zeros(o, revealed);
      assert AllSeen(z, seen);
      assert z !in Added(o, revealed) * (o.mines + o.flags);
      assert z !in o.mines;
      assert CountHeld(o.mines, o.adj, z);
      forall q | q in Neighbours(z)
        ensures q in revealed + o.flags
      {
        assert q !in o.mines;
      }
    }
  }

  /** A closed set of revealed cells contains every round of spreading. */
  lemma {:induction false} ClosedHoldsRounds(o: Origin, revealed: set<Pos>, k: nat)
    requires o.revealed0 <= revealed && Closed(o, revealed)
    ensures Rounds(o, k) <= revealed - o.revealed0
  {
    if k > 0 {
      ClosedHoldsRounds(o, revealed, k - 1);
      var x := Rounds(o, k - 1);
      forall n | n in Grid() && Exposed(o, x, n)
        ensures n in revealed - o.revealed0
      {
        var z :| z in x + {o.start} && z in o.adj && o.adj[z] == 0 && n in Neighbours(z);
        assert n in revealed + o.flags;
      }
    }
  }

  /** A revealed cell at depth at most d lies in the d-th round. */
  lemma {:induction false} ChainInRounds(o: Origin, revealed: set<Pos>, parent: map<Pos, Pos>, depth: map<Pos, nat>, d: nat)
    requires Chained(o, revealed, parent, depth)
    requires revealed <= Grid() && (revealed - o.revealed0) * (o.mines + o.flags) == {}
    ensures forall n | n in parent && depth[n] <= d :: n in Rounds(o, d)
  {
    if d == 0 {
      forall n | n in parent
        ensures depth[n] > 0
      {
        assert Link(o, parent, depth, n);
      }
    } else {
      ChainInRounds(o, revealed, parent, depth, d - 1);
      var x := Rounds(o, d - 1);
      forall n | n in parent && depth[n] <= d
        ensures n in Rounds(o, d)
      {
        assert Link(o, parent, depth, n);
        var z := parent[n];
        if z != o.start {
          assert z in x;
        }
        assert z in x + {o.start};
        assert n in revealed - o.revealed0;
        assert n !in (revealed - o.revealed0) * (o.mines + o.flags);
        assert Exposed(o, x, n);
      }
    }
  }

  /** The depths of a chain never exceed the number of revealed cells. */
  lemma DepthBound(o: Origin, revealed: set<Pos>, parent: map<Pos, Pos>, depth: map<Pos, nat>)
    requires Chained(o, revealed, parent, depth)
    ensures forall n | n in parent :: depth[n] <= |parent.Keys|
  {
    forall n | n in parent
      ensures depth[n] <= |parent.Keys|
    {
      DepthWalk(o, revealed, parent, depth, n);
    }
  }

  /** Walking parents back from n visits depth[n] distinct revealed cells. */
  lemma {:induction false} DepthWalk(o: Origin, revealed: set<Pos>, parent: map<Pos, Pos>, depth: map<Pos, nat>, n: Pos)
    requires Chained(o, revealed, parent, depth) && n in parent
    ensures depth[n] <= |set m | m in parent && depth[m] <= depth[n]|
    ensures depth[n] <= |parent.Keys|
    decreases depth[n]
  {
    var below := set m | m in parent && depth[m] <= depth[n];
    SubsetCard(below, parent.Keys);
    assert Link(o, parent, depth, n);
    var p := parent[n];
    if p != o.start {
      DepthWalk(o, revealed, parent, depth, p);
      var belowP := set m | m in parent && depth[m] <= depth[p];
      assert belowP <= below - {n};
      SubsetCard(belowP, below - {n});
    } else {
      assert n in below;
    }
  }

  /** A finished fill has revealed exactly the region. */
  lemma FillIsRegion(o: Origin, base: int, s: Fill, open: set<Pos>, parent: map<Pos, Pos>, depth: map<Pos, nat>)
    requires Ready(o) && Inv(o, base, s, open, parent, depth)
    requires s.queue == [] && Expanded(open, s.seen)
    ensures s.revealed == o.revealed0 + Region(o)
    ensures Added(o, s.revealed) == Region(o) && s.counter == base + |Added(o, s.revealed)|
  {
    QueueEmpty(s.queue, Zeros(o, s.revealed), open);
    FillCloses(o, s.revealed, s.seen, open);
    ChainIsRegion(o, s.revealed, parent, depth);
  }

  /** With the queue empty, every reached zero cell is open. */
  lemma QueueEmpty(queue: seq<Pos>, zeros: set<Pos>, open: set<Pos>)
    requires Queued(queue, zeros, open) && queue == []
    ensures zeros <= open
  {
  }

  /** Closed, chained revealed cells are exactly the region. */
  lemma ChainIsRegion(o: Origin, revealed: set<Pos>, parent: map<Pos, Pos>, depth: map<Pos, nat>)
    requires Chained(o, revealed, parent, depth) && Closed(o, revealed)
    requires o.revealed0 <= revealed <= Grid() && (revealed - o.revealed0) * (o.mines + o.flags) == {}
    ensures Added(o, revealed) == Region(o)
  {
    ClosedHoldsRounds(o, revealed, ROWS * COLS);
    DepthBound(o, revealed, parent, depth);
    GridSize();
    SubsetCard(parent.Keys, Grid());
    ChainInRounds(o, revealed, parent, depth, ROWS * COLS);
  }
}
