/**
 * What MinesweeperAI.add_knowledge does to the AI's knowledge, stated on
 * values: the known safe cells, the known mines and the values of the
 * sentences before and after each of its steps.  The methods of
 * Player.MinesweeperAI are proved to follow these functions exactly, and the
 * lemmas here say what the functions promise: nothing false is ever
 * concluded, and every cell concluded safe or a mine was a cell of some
 * sentence.
 */
module KnowledgeBase {
  import opened Board
  import opened Sentences
  import opened Inference

  /** What the AI knows: its safe cells, its mines and the values of its sentences. */
  datatype Knowledge = Knowledge(safes: set<Cell>, mines: set<Cell>, facts: seq<Constraint>)

  /**
   * Everything `st` records is true of a board whose mines are `board`: its
   * mines are mines, its safe cells are not, and every sentence holds.
   */
  ghost predicate TrueOf(board: set<Cell>, st: Knowledge)
  {
    && st.mines <= board
    && st.safes !! board
    && AllHold(board, st.facts)
  }

  /**
   * No constraint of `vs` mentions a cell of `safes` or of `mines`, or a
   * cell off the `height` by `width` board.
   */
  ghost predicate Unresolved(vs: seq<Constraint>, safes: set<Cell>, mines: set<Cell>, height: int, width: int)
  {
    forall k, c :: 0 <= k < |vs| && c in vs[k].cells ==> c !in safes && c !in mines && OnBoard(c, height, width)
  }

  /** Clearing the cells of `x` everywhere lets them join the safe cells. */
  lemma UnresolvedCleared(vs: seq<Constraint>, safes: set<Cell>, mines: set<Cell>, height: int, width: int, x: set<Cell>)
    requires Unresolved(vs, safes, mines, height, width)
    ensures Unresolved(ClearedAll(vs, x), safes + x, mines, height, width)
  {
    forall k, c | 0 <= k < |vs| && c in ClearedAll(vs, x)[k].cells
      ensures c !in safes + x && c !in mines && OnBoard(c, height, width)
    {
      assert c in vs[k].cells;
    }
  }

  /** Marking the cells of `x` everywhere lets them join the mines. */
  lemma UnresolvedMarked(vs: seq<Constraint>, safes: set<Cell>, mines: set<Cell>, height: int, width: int, x: set<Cell>)
    requires Unresolved(vs, safes, mines, height, width)
    ensures Unresolved(MarkedAll(vs, x), safes, mines + x, height, width)
  {
    forall k, c | 0 <= k < |vs| && c in MarkedAll(vs, x)[k].cells
      ensures c !in safes && c !in mines + x && OnBoard(c, height, width)
    {
      assert c in vs[k].cells;
    }
  }

  /** Appending constraints that mention no resolved cell keeps the list so. */
  lemma UnresolvedConcat(vs: seq<Constraint>, ws: seq<Constraint>, safes: set<Cell>, mines: set<Cell>, height: int, width: int)
    requires Unresolved(vs, safes, mines, height, width) && Unresolved(ws, safes, mines, height, width)
    ensures Unresolved(vs + ws, safes, mines, height, width)
  {
    forall k, c | 0 <= k < |vs + ws| && c in (vs + ws)[k].cells
      ensures c !in safes && c !in mines && OnBoard(c, height, width)
    {
      if k < |vs| {
        assert (vs + ws)[k] == vs[k];
      } else {
        assert (vs + ws)[k] == ws[k - |vs|];
      }
    }
  }

  /** A derived constraint mentions only cells of the constraints it came from. */
  lemma UnresolvedPairwise(vs: seq<Constraint>, safes: set<Cell>, mines: set<Cell>, height: int, width: int)
    requires Unresolved(vs, safes, mines, height, width)
    ensures Unresolved(Pairwise(vs), safes, mines, height, width)
  {
    var ds := Pairwise(vs);
    forall k, c | 0 <= k < |ds| && c in ds[k].cells
      ensures c !in safes && c !in mines && OnBoard(c, height, width)
    {
      PairwiseWithinCells(vs, ds[k]);
    }
  }

  /** The sweep keeps only constraints that were there. */
  lemma UnresolvedSweep(vs: seq<Constraint>, safes: set<Cell>, mines: set<Cell>, height: int, width: int)
    requires Unresolved(vs, safes, mines, height, width)
    ensures Unresolved(Sweep(vs, 0), safes, mines, height, width)
  {
    var r := Sweep(vs, 0);
    SweepRemovesOnlyEmpty(vs, 0);
    forall k, c | 0 <= k < |r| && c in r[k].cells
      ensures c !in safes && c !in mines && OnBoard(c, height, width)
    {
      assert r[k] in multiset(r);
      assert r[k] in vs;
    }
  }

  /** Every cell that some constraint of `vs` mentions. */
  ghost function Mentioned(vs: seq<Constraint>): set<Cell>
  {
    set k, c | 0 <= k < |vs| && c in vs[k].cells :: c
  }

  /** Clearing safe cells and marking mines never adds a cell to any constraint. */
  lemma MentionedShrinks(vs: seq<Constraint>, safe: set<Cell>, mined: set<Cell>)
    ensures Mentioned(MarkedAll(ClearedAll(vs, safe), mined)) <= Mentioned(vs)
  {
    var ws := MarkedAll(ClearedAll(vs, safe), mined);
    forall c | c in Mentioned(ws)
      ensures c in Mentioned(vs)
    {
      var k :| 0 <= k < |ws| && c in ws[k].cells;
      assert c in vs[k].cells;
    }
  }

  /**
   * The first steps of add_knowledge for the revealed `cell` with `count`
   * mines around it, `clicked` being the moves made before: the cell becomes
   * safe and is cleared from every sentence, and a sentence is appended
   * whose cells are the neighbours of the cell not clicked, not known safe
   * and not known mines, and whose count is `count` less the known mines
   * among the neighbours not clicked or known safe.
   */
  function Observed(st: Knowledge, clicked: set<Cell>, cell: Cell, count: int, height: int, width: int): (r: Knowledge)
    ensures |r.facts| == |st.facts| + 1
  {
    var around := Neighbours(cell, height, width) - (clicked + {cell}) - (st.safes + {cell});
    Knowledge(st.safes + {cell}, st.mines,
              ClearedAll(st.facts, {cell}) + [Constraint(around - st.mines, count - |around * st.mines|)])
  }

  /**
   * What the first steps know: the cell is added to the safe cells, the
   * sentences known before are cleared of it, and the new sentence holds the
   * neighbours of the cell that are on the board, not clicked, not known
   * safe and not known mines, with the known mines among the neighbours
   * taken off the count.
   */
  lemma ObservedConcludes(st: Knowledge, clicked: set<Cell>, cell: Cell, count: int, height: int, width: int)
    ensures var r := Observed(st, clicked, cell, count, height, width);
      && r.safes == st.safes + {cell} && r.mines == st.mines
      && r.facts[..|st.facts|] == ClearedAll(st.facts, {cell})
      && (forall c :: c in r.facts[|st.facts|].cells <==>
            Adjacent(c, cell) && OnBoard(c, height, width) && c !in clicked && c !in st.safes && c !in st.mines)
      && r.facts[|st.facts|].cells <= Neighbours(cell, height, width)
      && r.facts[|st.facts|].count == count - |(Neighbours(cell, height, width) - clicked - st.safes) * st.mines|
  {
    var around := Neighbours(cell, height, width) - (clicked + {cell}) - (st.safes + {cell});
    assert around == Neighbours(cell, height, width) - clicked - st.safes;
  }

  /**
   * When the revealed cell is no mine of `board`, `count` is the number of
   * mines around it, every move made was safe, and `st` is true of `board`,
   * then so is what the first steps make of it.
   */
  lemma ObservedIsTrue(board: set<Cell>, st: Knowledge, clicked: set<Cell>, cell: Cell, count: int, height: int, width: int)
    requires TrueOf(board, st) && clicked <= st.safes
    requires cell !in board && count == NearbyMines(board, cell, height, width)
    ensures TrueOf(board, Observed(st, clicked, cell, count, height, width))
  {
    var r := Observed(st, clicked, cell, count, height, width);
    var cleared := ClearedAll(st.facts, {cell});
    ResolutionKeepsTruth(board, st.facts, {cell}, {});
    ResolvingNothingAll(cleared);
    NeighbourSentenceHolds(board, Neighbours(cell, height, width), clicked + {cell}, st.safes + {cell}, st.mines);
    AllHoldAppend(board, cleared, r.facts[|st.facts|]);
    assert r.facts == cleared + [r.facts[|st.facts|]];
  }

  /**
   * The conclusions of the sentence at position `k` (one round of the
   * resolution loop of add_knowledge): the cells it proves safe that are
   * neither known safe nor clicked are cleared from every sentence, then the
   * cells it proves mines that are neither known mines nor clicked are
   * marked in every sentence.
   */
  function ResolveAt(st: Knowledge, k: nat, clicked: set<Cell>): (r: Knowledge)
    requires k < |st.facts|
    ensures |r.facts| == |st.facts|
  {
    var v := st.facts[k];
    var safe := v.KnownSafes() - st.safes - clicked;
    var mined := v.KnownMines() - st.mines - clicked;
    Knowledge(st.safes + safe, st.mines + mined, MarkedAll(ClearedAll(st.facts, safe), mined))
  }

  /**
   * The conclusions of one sentence only add to the safe cells and the
   * mines, only cells of that sentence, never a clicked cell and never one
   * cell to both; no sentence gains a cell.
   */
  lemma ResolveAtConcludes(st: Knowledge, k: nat, clicked: set<Cell>)
    requires k < |st.facts|
    ensures var r := ResolveAt(st, k, clicked);
            && st.safes <= r.safes && st.mines <= r.mines
            && r.safes - st.safes <= st.facts[k].cells && r.mines - st.mines <= st.facts[k].cells
            && (r.safes - st.safes) !! clicked && (r.mines - st.mines) !! clicked
            && (r.safes - st.safes) !! (r.mines - st.mines)
            && Mentioned(r.facts) <= Mentioned(st.facts)
  {
    var v := st.facts[k];
    KnownSafesAndMinesExclusive(v);
    MentionedShrinks(st.facts, v.KnownSafes() - st.safes - clicked, v.KnownMines() - st.mines - clicked);
  }

  /** The conclusions of a true sentence keep the knowledge true. */
  lemma ResolveAtIsTrue(board: set<Cell>, st: Knowledge, k: nat, clicked: set<Cell>)
    requires k < |st.facts| && TrueOf(board, st)
    ensures TrueOf(board, ResolveAt(st, k, clicked))
  {
    var v := st.facts[k];
    KnownSafesAreSafe(v, board);
    KnownMinesAreMines(v, board);
    ResolutionKeepsTruth(board, st.facts, v.KnownSafes() - st.safes - clicked, v.KnownMines() - st.mines - clicked);
  }

  /**
   * The conclusions of one sentence keep a knowledge base well formed: no
   * sentence mentions a resolved cell or a cell off the board, the cells
   * concluded lie on the board, and safe cells and mines stay apart.
   */
  lemma ResolveAtKeepsApart(st: Knowledge, k: nat, clicked: set<Cell>, height: int, width: int)
    requires k < |st.facts| && Unresolved(st.facts, st.safes, st.mines, height, width)
    ensures var r := ResolveAt(st, k, clicked);
            && Unresolved(r.facts, r.safes, r.mines, height, width)
            && OnBoardAll(r.safes - st.safes, height, width) && OnBoardAll(r.mines - st.mines, height, width)
            && (st.safes !! st.mines ==> r.safes !! r.mines)
  {
    var v := st.facts[k];
    var safe := v.KnownSafes() - st.safes - clicked;
    var mined := v.KnownMines() - st.mines - clicked;
    KnownSafesAndMinesExclusive(v);
    UnresolvedCleared(st.facts, st.safes, st.mines, height, width, safe);
    UnresolvedMarked(ClearedAll(st.facts, safe), st.safes + safe, st.mines, height, width, mined);
    forall c | c in v.cells
      ensures c !in st.safes && c !in st.mines && OnBoard(c, height, width)
    {
    }
  }

  /**
   * The resolution loop of add_knowledge from position `k` on: the
   * conclusions of each sentence in list order, each drawn on the knowledge
   * the rounds before it left.
   */
  function ResolveFrom(st: Knowledge, k: nat, clicked: set<Cell>): (r: Knowledge)
    requires k <= |st.facts|
    ensures |r.facts| == |st.facts|
    decreases |st.facts| - k
  {
    if k == |st.facts| then st else ResolveFrom(ResolveAt(st, k, clicked), k + 1, clicked)
  }

  /**
   * The rounds of the resolution loop only add to the safe cells and the
   * mines, only cells some sentence mentioned, never a clicked cell; no
   * sentence gains a cell.
   */
  lemma {:induction false} ResolveFromConcludes(st: Knowledge, k: nat, clicked: set<Cell>)
    requires k <= |st.facts|
    ensures var r := ResolveFrom(st, k, clicked);
            && st.safes <= r.safes && st.mines <= r.mines
            && (r.safes - st.safes) + (r.mines - st.mines) <= Mentioned(st.facts)
            && (r.safes - st.safes) !! clicked && (r.mines - st.mines) !! clicked
            && Mentioned(r.facts) <= Mentioned(st.facts)
    decreases |st.facts| - k
  {
    if k < |st.facts| {
      var next := ResolveAt(st, k, clicked);
      var r := ResolveFrom(next, k + 1, clicked);
      assert r == ResolveFrom(st, k, clicked);
      ResolveAtConcludes(st, k, clicked);
      ResolveFromConcludes(next, k + 1, clicked);
      var known := Mentioned(st.facts);
      forall c | c in (r.safes - st.safes) + (r.mines - st.mines)
        ensures c in known
      {
        if c in (r.safes - next.safes) + (r.mines - next.mines) {
          assert c in Mentioned(next.facts);
        } else {
          assert c in st.facts[k].cells;
        }
      }
    } else {
      assert ResolveFrom(st, k, clicked) == st;
    }
  }

  /** The resolution loop keeps true knowledge true. */
  lemma {:induction false} ResolveFromIsTrue(board: set<Cell>, st: Knowledge, k: nat, clicked: set<Cell>)
    requires k <= |st.facts| && TrueOf(board, st)
    ensures TrueOf(board, ResolveFrom(st, k, clicked))
    decreases |st.facts| - k
  {
    if k < |st.facts| {
      ResolveAtIsTrue(board, st, k, clicked);
      ResolveFromIsTrue(board, ResolveAt(st, k, clicked), k + 1, clicked);
    }
  }

  /** The resolution loop keeps a knowledge base well formed, as ResolveAtKeepsApart says. */
  lemma {:induction false} ResolveFromKeepsApart(st: Knowledge, k: nat, clicked: set<Cell>, height: int, width: int)
    requires k <= |st.facts| && Unresolved(st.facts, st.safes, st.mines, height, width)
    ensures var r := ResolveFrom(st, k, clicked);
            && Unresolved(r.facts, r.safes, r.mines, height, width)
            && OnBoardAll(r.safes - st.safes, height, width) && OnBoardAll(r.mines - st.mines, height, width)
            && (st.safes !! st.mines ==> r.safes !! r.mines)
    decreases |st.facts| - k
  {
    if k < |st.facts| {
      var next := ResolveAt(st, k, clicked);
      var r := ResolveFrom(next, k + 1, clicked);
      assert r == ResolveFrom(st, k, clicked);
      ResolveAtKeepsApart(st, k, clicked, height, width);
      ResolveFromKeepsApart(next, k + 1, clicked, height, width);
      assert Unresolved(r.facts, r.safes, r.mines, height, width);
      assert r.safes - st.safes <= (r.safes - next.safes) + (next.safes - st.safes);
      assert r.mines - st.mines <= (r.mines - next.mines) + (next.mines - st.mines);
    } else {
      assert ResolveFrom(st, k, clicked) == st;
      assert Unresolved(ResolveFrom(st, k, clicked).facts, st.safes, st.mines, height, width);
    }
  }

  /**
   * The deductions that end add_knowledge: the sentences of one pairwise
   * pass are appended, the conclusions of every sentence are drawn in list
   * order, and empty sentences are swept out.
   */
  function Deduced(st: Knowledge, clicked: set<Cell>): Knowledge
  {
    var vs := st.facts + Pairwise(st.facts);
    var resolved := ResolveFrom(Knowledge(st.safes, st.mines, vs), 0, clicked);
    Knowledge(resolved.safes, resolved.mines, Sweep(resolved.facts, 0))
  }

  /** The deductions keep true knowledge true. */
  lemma DeducedIsTrue(board: set<Cell>, st: Knowledge, clicked: set<Cell>)
    requires TrueOf(board, st)
    ensures TrueOf(board, Deduced(st, clicked))
  {
    var vs := st.facts + Pairwise(st.facts);
    forall k | 0 <= k < |vs|
      ensures Holds(board, vs[k])
    {
      if k >= |st.facts| {
        PairwiseSound(board, st.facts, vs[k]);
      }
    }
    var resolved := ResolveFrom(Knowledge(st.safes, st.mines, vs), 0, clicked);
    ResolveFromIsTrue(board, Knowledge(st.safes, st.mines, vs), 0, clicked);
    SweepKeepsTruth(board, resolved.facts);
  }

  /**
   * The deductions only add to the safe cells and the mines, only cells
   * some sentence mentioned before them, and never a clicked cell.
   */
  lemma DeducedConcludes(st: Knowledge, clicked: set<Cell>)
    ensures var r := Deduced(st, clicked);
            && st.safes <= r.safes && st.mines <= r.mines
            && (r.safes - st.safes) + (r.mines - st.mines) <= Mentioned(st.facts)
            && (r.safes - st.safes) !! clicked && (r.mines - st.mines) !! clicked
  {
    var vs := st.facts + Pairwise(st.facts);
    ResolveFromConcludes(Knowledge(st.safes, st.mines, vs), 0, clicked);
    forall c | c in Mentioned(vs)
      ensures c in Mentioned(st.facts)
    {
      var k :| 0 <= k < |vs| && c in vs[k].cells;
      if k >= |st.facts| {
        PairwiseWithinCells(st.facts, vs[k]);
        var a :| 0 <= a < |st.facts| && vs[k].cells <= st.facts[a].cells;
        assert c in st.facts[a].cells;
      } else {
        assert c in st.facts[k].cells;
      }
    }
  }

  /**
   * The whole of add_knowledge: the first steps, the conclusions of the new
   * sentence (the last one), then the deductions; `clicked` are the moves
   * made before.
   */
  function Added(st: Knowledge, clicked: set<Cell>, cell: Cell, count: int, height: int, width: int): Knowledge
  {
    var observed := Observed(st, clicked, cell, count, height, width);
    Deduced(ResolveAt(observed, |st.facts|, clicked + {cell}), clicked + {cell})
  }

  /**
   * What add_knowledge concludes is true of every board that agrees with
   * what the AI was told: when the revealed cell is no mine of `board`,
   * `count` is the number of mines around it, every move made was safe and
   * everything known before is true of `board`, everything known after is
   * true of `board` too.
   */
  lemma AddedIsTrue(board: set<Cell>, st: Knowledge, clicked: set<Cell>, cell: Cell, count: int, height: int, width: int)
    requires TrueOf(board, st) && clicked <= st.safes
    requires cell !in board && count == NearbyMines(board, cell, height, width)
    ensures TrueOf(board, Added(st, clicked, cell, count, height, width))
  {
    var observed := Observed(st, clicked, cell, count, height, width);
    ObservedIsTrue(board, st, clicked, cell, count, height, width);
    ResolveAtIsTrue(board, observed, |st.facts|, clicked + {cell});
    DeducedIsTrue(board, ResolveAt(observed, |st.facts|, clicked + {cell}), clicked + {cell});
  }

  /** The first steps mention only cells mentioned before and neighbours of the revealed cell. */
  lemma ObservedMentions(st: Knowledge, clicked: set<Cell>, cell: Cell, count: int, height: int, width: int)
    ensures Mentioned(Observed(st, clicked, cell, count, height, width).facts) <= Mentioned(st.facts) + Neighbours(cell, height, width)
  {
    var vs := Observed(st, clicked, cell, count, height, width).facts;
    var n := |st.facts|;
    forall c | c in Mentioned(vs)
      ensures c in Mentioned(st.facts) + Neighbours(cell, height, width)
    {
      var k :| 0 <= k < |vs| && c in vs[k].cells;
      if k < n {
        assert vs[k] == vs[..n][k];
        assert c in st.facts[k].cells;
      }
    }
  }

  /**
   * add_knowledge makes the revealed cell safe and otherwise only adds to
   * the safe cells and the mines, never a clicked cell.
   */
  lemma AddedConcludes(st: Knowledge, clicked: set<Cell>, cell: Cell, count: int, height: int, width: int)
    ensures var r := Added(st, clicked, cell, count, height, width);
            && st.safes + {cell} <= r.safes && st.mines <= r.mines
            && (r.safes - st.safes - {cell}) !! clicked + {cell} && (r.mines - st.mines) !! clicked + {cell}
  {
    var observed := Observed(st, clicked, cell, count, height, width);
    var resolved := ResolveAt(observed, |st.facts|, clicked + {cell});
    assert Deduced(resolved, clicked + {cell}) == Added(st, clicked, cell, count, height, width);
    ResolveAtConcludes(observed, |st.facts|, clicked + {cell});
    DeducedConcludes(resolved, clicked + {cell});
  }

  /**
   * The conclusions of the sentence at position `n` followed by the
   * deductions only conclude cells that some sentence mentioned before them.
   */
  lemma ResolvedAndDeducedWereMentioned(st: Knowledge, n: nat, clicked: set<Cell>)
    requires n < |st.facts|
    ensures var r := Deduced(ResolveAt(st, n, clicked), clicked);
            (r.safes - st.safes) + (r.mines - st.mines) <= Mentioned(st.facts)
  {
    var resolved := ResolveAt(st, n, clicked);
    var r := Deduced(resolved, clicked);
    ResolveAtConcludes(st, n, clicked);
    DeducedConcludes(resolved, clicked);
    var known := Mentioned(st.facts);
    forall c | c in (r.safes - st.safes) + (r.mines - st.mines)
      ensures c in known
    {
      if c in (r.safes - resolved.safes) + (r.mines - resolved.mines) {
        assert c in Mentioned(resolved.facts);
      } else {
        assert c in st.facts[n].cells;
      }
    }
  }

  /**
   * Every cell add_knowledge concludes safe or a mine, other than the
   * revealed cell, is a neighbour of it or a cell some sentence mentioned.
   */
  lemma AddedCellsWereMentioned(st: Knowledge, clicked: set<Cell>, cell: Cell, count: int, height: int, width: int)
    ensures var r := Added(st, clicked, cell, count, height, width);
            (r.safes - st.safes - {cell}) + (r.mines - st.mines) <= Mentioned(st.facts) + Neighbours(cell, height, width)
  {
    var observed := Observed(st, clicked, cell, count, height, width);
    ObservedMentions(st, clicked, cell, count, height, width);
    ResolvedAndDeducedWereMentioned(observed, |st.facts|, clicked + {cell});
  }
}
