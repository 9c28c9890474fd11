/**
 * The engine's public operations on values: the state of a game, the
 * invariant the engine keeps, and what reveal, toggleFlag and revealAll do to
 * the state.
 */
module Play {
  import opened Rules
  import opened Flood

  /**
   * The state of a game as a value: the mined, flagged and revealed cells,
   * the stored neighbour counts, the two end-of-game flags, the counter of
   * revealed safe cells, and whether revealAll has run.
   */
  datatype Game = Game(
    mines: set<Pos>, flags: set<Pos>, revealed: set<Pos>, adj: map<Pos, int>,
    gameOver: bool, won: bool, revealedSafe: int, disclosed: bool)

  /**
   * The revealed safe cells: what the counter of revealed safe cells counts.
   * The invariant names them by this comprehension rather than by the set
   * difference `revealed - mines` because the verifier handles the
   * comprehension far more cheaply in the engine's heap proofs;
   * SafeRevealedIsDifference relates the two where the difference is handier.
   */
  function SafeRevealed(revealed: set<Pos>, mines: set<Pos>): set<Pos>
  {
    set p | p in revealed && p !in mines
  }

  /** The revealed safe cells are the revealed cells less the mines. */
  lemma SafeRevealedIsDifference(revealed: set<Pos>, mines: set<Pos>)
    ensures SafeRevealed(revealed, mines) == revealed - mines
  {
  }

  /** Adding cells disjoint from s to s adds exactly those cells. */
  lemma AddDisjoint(s: set<Pos>, t: set<Pos>)
    requires s * t == {}
    ensures (s + t) - s == t
  {
    forall x | x in t
      ensures x !in s
    {
      assert x !in s * t;
    }
  }

  /**
   * The invariant the engine keeps: MINES mines, correct counts on safe
   * cells, a won game is over and has every safe cell revealed, a lost game
   * has a revealed mine, a game in progress has not reached the target
   * count. Before revealAll the counter counts the revealed safe cells, no
   * revealed cell is flagged, and a game in progress has no revealed mine;
   * after it every cell is revealed.
   */
  ghost predicate Consistent(g: Game)
  {
    g.mines <= Grid() && g.revealed <= Grid() && |g.mines| == MINES &&
    CountsHeld(g.mines, g.adj) && g.adj.Keys == Grid() &&
    (g.won ==> g.gameOver) &&
    (g.won ==> Grid() - g.mines <= g.revealed) &&
    (g.gameOver && !g.won ==> g.mines * g.revealed != {}) &&
    (!g.gameOver ==> g.revealedSafe < ROWS * COLS - MINES) &&
    (g.disclosed ==> g.revealed == Grid()) &&
    (!g.disclosed ==>
       g.revealedSafe == |SafeRevealed(g.revealed, g.mines)| &&
       g.flags * g.revealed == {} &&
       (!g.gameOver ==> g.mines * g.revealed == {}))
  }

  /** A fresh board with its mines laid and counted is consistent. */
  lemma FreshConsistent(mines: set<Pos>, adj: map<Pos, int>)
    requires mines <= Grid() && |mines| == MINES && CountsHeld(mines, adj) && adj.Keys == Grid()
    ensures Consistent(Game(mines, {}, {}, adj, false, false, 0, false))
  {
    SafeCellCount(mines);
    SafeRevealedIsDifference({}, mines);
  }

  // ---------------------------------------------------------------------
  // reveal

  /**
   * What revealing the safe cell p opens besides itself: its flood-fill
   * region when it has no mined neighbour, nothing otherwise.
   */
  ghost function Cascade(mines: set<Pos>, flags: set<Pos>, adj: map<Pos, int>, p: Pos, revealed: set<Pos>): set<Pos>
    requires p in adj
  {
    if adj[p] == 0 then Region(Origin(mines, flags, adj, p, revealed)) else {}
  }

  /** The cascade opens only cells of the board that were hidden, unflagged and safe. */
  lemma CascadeHidden(mines: set<Pos>, flags: set<Pos>, adj: map<Pos, int>, p: Pos, revealed: set<Pos>)
    requires p in adj
    ensures Cascade(mines, flags, adj, p, revealed) <= Grid()
    ensures Cascade(mines, flags, adj, p, revealed) * (revealed + mines + flags) == {}
  {
    RegionHidden(Origin(mines, flags, adj, p, revealed));
  }

  /**
   * Revealing the hidden safe cell p together with the hidden, unflagged,
   * safe cells g keeps the revealed cells clear of mines and flags and adds
   * 1 + |g| revealed safe cells.
   */
  lemma OpenCount(revealed: set<Pos>, mines: set<Pos>, flags: set<Pos>, p: Pos, g: set<Pos>)
    requires p !in revealed + mines + flags && g * (revealed + {p} + mines + flags) == {}
    requires flags * revealed == {} && mines * revealed == {}
    ensures |(revealed + {p} + g) - mines| == |revealed - mines| + 1 + |g|
    ensures flags * (revealed + {p} + g) == {} && mines * (revealed + {p} + g) == {}
  {
    var before := revealed - mines;
    assert (revealed + {p} + g) - mines == before + {p} + g;
    assert p !in before && g * (before + {p}) == {};
    assert |before + {p}| == |before| + 1;
  }

  /**
   * Revealing the hidden safe cell p and its cascade keeps the revealed cells
   * clear of mines and flags and adds one revealed safe cell per cell opened;
   * every safe cell is then revealed exactly when the count reaches
   * ROWS * COLS - MINES.
   */
  lemma CascadeCount(mines: set<Pos>, flags: set<Pos>, adj: map<Pos, int>, p: Pos, revealed: set<Pos>)
    requires revealed <= Grid() && mines <= Grid() && |mines| == MINES
    requires p in Grid() && p in adj && p !in revealed + mines + flags
    requires flags * revealed == {} && mines * revealed == {}
    ensures var after := revealed + {p} + Cascade(mines, flags, adj, p, revealed + {p});
      |after - mines| == |revealed - mines| + 1 + |Cascade(mines, flags, adj, p, revealed + {p})| &&
      flags * after == {} && mines * after == {} &&
      |after - mines| <= ROWS * COLS - MINES &&
      (|after - mines| == ROWS * COLS - MINES <==> Grid() - mines <= after)
  {
    var g := Cascade(mines, flags, adj, p, revealed + {p});
    CascadeHidden(mines, flags, adj, p, revealed + {p});
    OpenCount(revealed, mines, flags, p, g);
    SafeCounterFull(revealed + {p} + g, mines);
  }

  /**
   * What reveal does to g at p, and whether it changed anything: nothing once
   * the game is over or on a flagged or revealed cell; otherwise p is
   * revealed, and then a mine loses the game and a safe cell goes on to
   * OpenStep.
   */
  ghost function RevealStep(g: Game, p: Pos): (Game, bool)
    requires p in g.adj
  {
    if g.gameOver || p in g.flags || p in g.revealed then (g, false)
    else
      var marked := g.(revealed := g.revealed + {p});
      if p in g.mines then (marked.(gameOver := true, won := false), true)
      else (OpenStep(marked, p), true)
  }

  /**
   * The safe tail of reveal once p is revealed: p is counted, its cascade is
   * revealed and counted, and the game is won when the count reaches
   * ROWS * COLS - MINES.
   */
  ghost function OpenStep(g: Game, p: Pos): Game
    requires p in g.adj
  {
    var cascade := Cascade(g.mines, g.flags, g.adj, p, g.revealed);
    var count := g.revealedSafe + 1 + |cascade|;
    var next := g.(revealed := g.revealed + cascade, revealedSafe := count);
    if count == ROWS * COLS - MINES then next.(gameOver := true, won := true) else next
  }

  /** Revealing a hidden, unflagged mine in a game in progress loses it and keeps the invariant. */
  lemma MineKeeps(g: Game, p: Pos)
    requires Consistent(g) && !g.gameOver && p in g.mines && p !in g.revealed + g.flags
    ensures Consistent(g.(revealed := g.revealed + {p}, gameOver := true, won := false))
  {
    SafeRevealedIsDifference(g.revealed, g.mines);
    SafeRevealedIsDifference(g.revealed + {p}, g.mines);
    assert (g.revealed + {p}) - g.mines == g.revealed - g.mines;
  }

  /**
   * Revealing a hidden, unflagged safe cell of a game in progress reveals it
   * and its cascade, counts them, and keeps the invariant; the game is then
   * over exactly when it is won, and won exactly when every safe cell is
   * revealed.
   */
  lemma SafeKeeps(g: Game, p: Pos)
    requires Consistent(g) && !g.gameOver && p in Grid() && p !in g.mines + g.revealed + g.flags
    ensures var g' := OpenStep(g.(revealed := g.revealed + {p}), p);
      Consistent(g') && (g'.won <==> Grid() - g.mines <= g'.revealed) && g'.gameOver == g'.won &&
      g'.revealed == g.revealed + {p} + Cascade(g.mines, g.flags, g.adj, p, g.revealed + {p}) &&
      g'.revealedSafe == g.revealedSafe + 1 + |Cascade(g.mines, g.flags, g.adj, p, g.revealed + {p})|
  {
    var cascade := Cascade(g.mines, g.flags, g.adj, p, g.revealed + {p});
    CascadeHidden(g.mines, g.flags, g.adj, p, g.revealed + {p});
    CascadeCount(g.mines, g.flags, g.adj, p, g.revealed);
    SafeRevealedIsDifference(g.revealed, g.mines);
    SafeRevealedIsDifference(g.revealed + {p} + cascade, g.mines);
    assert g.revealed + {p} + cascade <= Grid();
  }

  /** reveal keeps the invariant. */
  lemma RevealKeeps(g: Game, p: Pos)
    requires Consistent(g) && p in Grid()
    ensures Consistent(RevealStep(g, p).0)
  {
    if !g.gameOver && p !in g.flags && p !in g.revealed {
      if p in g.mines {
        MineKeeps(g, p);
      } else {
        SafeKeeps(g, p);
      }
    }
  }

  /**
   * reveal acts exactly on a hidden, unflagged cell of a game in progress and
   * then reveals that cell; it never touches mines, flags or counts.
   */
  lemma RevealActs(g: Game, p: Pos)
    requires p in g.adj
    ensures var (g', changed) := RevealStep(g, p);
      (changed <==> !g.gameOver && p !in g.flags && p !in g.revealed) &&
      (!changed ==> g' == g) &&
      g'.mines == g.mines && g'.flags == g.flags && g'.adj == g.adj && g'.disclosed == g.disclosed &&
      (changed ==> g.revealed + {p} <= g'.revealed)
  {
  }

  /** Revealing a hidden, unflagged mine of a game in progress reveals only it and loses the game. */
  lemma RevealMine(g: Game, p: Pos)
    requires p in g.adj && !g.gameOver && p in g.mines && p !in g.flags + g.revealed
    ensures var g' := RevealStep(g, p).0;
      g'.revealed == g.revealed + {p} && g'.gameOver && !g'.won
  {
  }

  /**
   * Revealing a hidden, unflagged safe cell of a game in progress reveals only
   * hidden, unflagged, safe cells, and only the cell itself when it has a
   * mined neighbour.
   */
  lemma RevealSafe(g: Game, p: Pos)
    requires Consistent(g) && p in Grid() && !g.gameOver && p !in g.mines + g.flags + g.revealed
    ensures var g' := RevealStep(g, p).0;
      (g'.revealed - g.revealed) * (g.mines + g.flags) == {} &&
      (g.adj[p] != 0 ==> g'.revealed == g.revealed + {p})
  {
    SafeKeeps(g, p);
    CascadeHidden(g.mines, g.flags, g.adj, p, g.revealed + {p});
  }

  /**
   * Revealing a hidden, unflagged safe cell of a game in progress counts each
   * newly revealed cell once and wins exactly when every safe cell is
   * revealed.
   */
  lemma RevealSafeCounts(g: Game, p: Pos)
    requires Consistent(g) && p in Grid() && !g.gameOver && p !in g.mines + g.flags + g.revealed
    ensures var g' := RevealStep(g, p).0;
      g'.revealedSafe == g.revealedSafe + |g'.revealed - g.revealed| &&
      (g'.won <==> Grid() - g.mines <= g'.revealed) && g'.gameOver == g'.won &&
      (g'.won <==> g'.revealedSafe == ROWS * COLS - MINES)
  {
    var g' := RevealStep(g, p).0;
    var cascade := Cascade(g.mines, g.flags, g.adj, p, g.revealed + {p});
    CascadeHidden(g.mines, g.flags, g.adj, p, g.revealed + {p});
    SafeKeeps(g, p);
    assert p !in cascade && g.revealed * ({p} + cascade) == {};
    AddDisjoint(g.revealed, {p} + cascade);
  }

  // ---------------------------------------------------------------------
  // toggleFlag

  /** s with p added when it is missing and removed when it is present. */
  function Toggled(s: set<Pos>, p: Pos): (t: set<Pos>)
    ensures p in t <==> p !in s
    ensures forall q | q != p :: q in t <==> q in s
  {
    if p in s then s - {p} else s + {p}
  }

  /** Toggling the same cell twice restores the set. */
  lemma ToggledTwice(s: set<Pos>, p: Pos)
    ensures Toggled(Toggled(s, p), p) == s
  {
  }

  /**
   * What toggleFlag does to g at p, and whether it changed anything: nothing
   * once the game is over or on a revealed cell, otherwise the flag on p flips.
   */
  function ToggleStep(g: Game, p: Pos): (Game, bool)
  {
    if g.gameOver || p in g.revealed then (g, false) else (g.(flags := Toggled(g.flags, p)), true)
  }

  /**
   * toggleFlag acts exactly on an unrevealed cell of a game in progress, and
   * then flips the flag on that cell alone; nothing but the flags changes.
   */
  lemma ToggleActs(g: Game, p: Pos)
    ensures var (g', changed) := ToggleStep(g, p);
      (changed <==> !g.gameOver && p !in g.revealed) &&
      (!changed ==> g' == g) &&
      (changed ==> (p in g'.flags <==> p !in g.flags)) &&
      (forall q | q != p :: q in g'.flags <==> q in g.flags) &&
      g'.mines == g.mines && g'.revealed == g.revealed && g'.adj == g.adj &&
      g'.gameOver == g.gameOver && g'.won == g.won && g'.revealedSafe == g.revealedSafe && g'.disclosed == g.disclosed
  {
  }

  /** toggleFlag keeps the invariant. */
  lemma ToggleKeeps(g: Game, p: Pos)
    requires Consistent(g)
    ensures Consistent(ToggleStep(g, p).0)
  {
    if !g.gameOver && p !in g.revealed {
      assert Toggled(g.flags, p) * g.revealed <= g.flags * g.revealed;
    }
  }

  /** Toggling the same cell twice leaves the game as it was. */
  lemma ToggleTwice(g: Game, p: Pos)
    ensures ToggleStep(ToggleStep(g, p).0, p).0 == g
  {
    if !g.gameOver && p !in g.revealed {
      ToggledTwice(g.flags, p);
    }
  }

  // ---------------------------------------------------------------------
  // revealAll

  /** What revealAll does to g: every cell revealed; nothing else changes. */
  function Disclose(g: Game): Game
  {
    g.(revealed := Grid(), disclosed := true)
  }

  /**
   * revealAll reveals every cell and changes neither the flags, the counter
   * nor the game's outcome.
   */
  lemma DiscloseActs(g: Game)
    ensures var d := Disclose(g);
      (forall p | p in Grid() :: p in d.revealed) &&
      d.mines == g.mines && d.flags == g.flags && d.adj == g.adj &&
      d.gameOver == g.gameOver && d.won == g.won && d.revealedSafe == g.revealedSafe
  {
  }

  /** No step hides a revealed cell or resumes a finished game. */
  lemma Monotone(g: Game, p: Pos)
    requires Consistent(g) && p in Grid()
    ensures var (r, _) := RevealStep(g, p); g.revealed <= r.revealed && (g.gameOver ==> r.gameOver)
    ensures var (t, _) := ToggleStep(g, p); g.revealed <= t.revealed && (g.gameOver ==> t.gameOver)
    ensures var d := Disclose(g); g.revealed <= d.revealed && (g.gameOver ==> d.gameOver)
  {
  }

  /** Revealing every cell keeps the invariant once the counter is set aside. */
  lemma DiscloseKeeps(g: Game)
    requires Consistent(g)
    ensures Consistent(Disclose(g))
  {
    var m := Pick(g.mines);
    assert m in g.mines * Grid();
  }

}
