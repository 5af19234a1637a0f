/**
 * The Minesweeper AI player (class MinesweeperAI of minesweeper.py): the cells
 * it has clicked, the cells it knows to be safe or mines, and its list of
 * sentences, with the knowledge-update protocol and the two move selectors.
 */
module Player {
  import opened Wrappers
  import opened Sentences
  import opened Board
  import opened Inference
  import opened KnowledgeBase

  class MinesweeperAI {
    const height: int
    const width: int
    var movesMade: set<Cell>
    var mines: set<Cell>
    var safes: set<Cell>
    var knowledge: seq<Sentence>

    /**
     * The knowledge base is well formed: every sentence was created afresh,
     * so none appears twice, and no sentence mentions a resolved cell or a
     * cell off the board.
     */
    ghost predicate KnowledgeValid()
      reads this, knowledge
    {
      && Distinct(knowledge)
      && Unresolved(Facts(knowledge), safes, mines, height, width)
    }

    /** Every cell of `cells` lies on the board and has not been clicked. */
    ghost predicate UnclickedOnBoard(cells: set<Cell>)
      reads this
    {
      OnBoardAll(cells, height, width) && cells !! movesMade
    }

    /** The object invariant: a well-formed knowledge base, and every move made is known safe. */
    ghost predicate Valid()
      reads this, knowledge
    {
      KnowledgeValid() && movesMade <= safes
    }

    /** What the AI knows, as a value: its safe cells, its mines and the values of its sentences. */
    ghost function State(): Knowledge
      reads this, knowledge
    {
      Knowledge(safes, mines, Facts(knowledge))
    }

    /**
     * What the AI knows is true of a board whose mines are `board`: its mines
     * are mines, its safe cells are not, and every sentence holds.
     */
    ghost predicate Sound(board: set<Cell>)
      reads this, knowledge
    {
      TrueOf(board, State())
    }

    constructor (height: int := 8, width: int := 8)
      ensures Valid()
      ensures this.height == height && this.width == width
      ensures movesMade == {} && mines == {} && safes == {} && knowledge == []
    {
      this.height := height;
      this.width := width;
      movesMade := {};
      mines := {};
      safes := {};
      knowledge := [];
    }

    /**
     * Records `cell` as a mine and removes it from every sentence, lowering
     * the count of each sentence that held it.
     */
    method MarkMine(cell: Cell)
      requires KnowledgeValid()
      modifies this`mines, knowledge
      ensures KnowledgeValid()
      ensures mines == old(mines) + {cell} && knowledge == old(knowledge)
      ensures Facts(knowledge) == MarkedAll(old(Facts(knowledge)), {cell})
    {
      ghost var vs := Facts(knowledge);
      mines := mines + {cell};
      TellMine(cell);
      UnresolvedMarked(vs, safes, old(mines), height, width, {cell});
    }

    /** The loop of mark_mine: every sentence is told that `cell` is a mine. */
    method TellMine(cell: Cell)
      requires Distinct(knowledge)
      modifies knowledge
      ensures Facts(knowledge) == MarkedAll(old(Facts(knowledge)), {cell})
    {
      ghost var vs := Facts(knowledge);
      for k := 0 to |knowledge|
        invariant forall j :: 0 <= j < k ==>
                    && knowledge[j].cells == old(knowledge[j].cells) - {cell}
                    && knowledge[j].count == if cell in old(knowledge[j].cells) then old(knowledge[j].count) - 1
                                             else old(knowledge[j].count)
        invariant forall j :: k <= j < |knowledge| ==>
                    knowledge[j].cells == old(knowledge[j].cells) && knowledge[j].count == old(knowledge[j].count)
      {
        knowledge[k].MarkMine(cell);
      }
      forall k | 0 <= k < |knowledge|
        ensures Facts(knowledge)[k] == MarkedAll(vs, {cell})[k]
      {
        MarkedOne(vs[k], cell);
      }
      assert Facts(knowledge) == MarkedAll(vs, {cell});
    }

    /**
     * Records `cell` as safe and removes it from every sentence; counts are
     * unchanged.
     */
    method MarkSafe(cell: Cell)
      requires KnowledgeValid()
      modifies this`safes, knowledge
      ensures KnowledgeValid()
      ensures safes == old(safes) + {cell} && knowledge == old(knowledge)
      ensures Facts(knowledge) == ClearedAll(old(Facts(knowledge)), {cell})
    {
      ghost var vs := Facts(knowledge);
      safes := safes + {cell};
      TellSafe(cell);
      UnresolvedCleared(vs, old(safes), mines, height, width, {cell});
    }

    /** The loop of mark_safe: every sentence is told that `cell` is safe. */
    method TellSafe(cell: Cell)
      requires Distinct(knowledge)
      modifies knowledge
      ensures Facts(knowledge) == ClearedAll(old(Facts(knowledge)), {cell})
    {
      ghost var vs := Facts(knowledge);
      for k := 0 to |knowledge|
        invariant forall j :: 0 <= j < k ==>
                    knowledge[j].cells == old(knowledge[j].cells) - {cell} && knowledge[j].count == old(knowledge[j].count)
        invariant forall j :: k <= j < |knowledge| ==>
                    knowledge[j].cells == old(knowledge[j].cells) && knowledge[j].count == old(knowledge[j].count)
      {
        knowledge[k].MarkSafe(cell);
      }
      assert forall k :: 0 <= k < |knowledge| ==> Facts(knowledge)[k] == ClearedAll(vs, {cell})[k];
      assert Facts(knowledge) == ClearedAll(vs, {cell});
    }

    /**
     * The list the source builds before marking: the cells of `known` that
     * are neither in `marked` (the safe set or the mine set) nor moves
     * already made, each once, in the set's iteration order.
     */
    method Unmarked(known: set<Cell>, marked: set<Cell>) returns (r: seq<Cell>)
      ensures Elements(r) == known - marked - movesMade
    {
      r := [];
      var rest := known;
      while rest != {}
        invariant rest <= known
        invariant forall c :: c in r <==> c in known && c !in rest && c !in marked && c !in movesMade
        decreases |rest|
      {
        var c :| c in rest;
        if c !in marked && c !in movesMade {
          r := r + [c];
        }
        rest := rest - {c};
      }
      assert Elements(r) == known - marked - movesMade;
    }

    /** Marks each cell of `cs` safe, one after the other. */
    method MarkEachSafe(cs: seq<Cell>)
      requires KnowledgeValid()
      modifies this`safes, knowledge
      ensures KnowledgeValid()
      ensures safes == old(safes) + Elements(cs)
      ensures Facts(knowledge) == ClearedAll(old(Facts(knowledge)), Elements(cs))
      ensures unchanged(this`mines, this`movesMade)
    {
      ghost var vs := Facts(knowledge);
      ResolvingNothingAll(vs);
      assert Elements(cs[..0]) == {};
      for i := 0 to |cs|
        invariant KnowledgeValid()
        invariant safes == old(safes) + Elements(cs[..i])
        invariant Facts(knowledge) == ClearedAll(vs, Elements(cs[..i]))
      {
        MarkSafe(cs[i]);
        ClearedAllTwice(vs, Elements(cs[..i]), {cs[i]});
        ElementsOfPrefix(cs, i);
      }
      assert cs[..|cs|] == cs;
    }

    /** Marks each cell of `cs` as a mine, one after the other. */
    method MarkEachMine(cs: seq<Cell>)
      requires KnowledgeValid()
      modifies this`mines, knowledge
      ensures KnowledgeValid()
      ensures mines == old(mines) + Elements(cs)
      ensures Facts(knowledge) == MarkedAll(old(Facts(knowledge)), Elements(cs))
      ensures unchanged(this`safes, this`movesMade)
    {
      ghost var vs := Facts(knowledge);
      ResolvingNothingAll(vs);
      assert Elements(cs[..0]) == {};
      for i := 0 to |cs|
        invariant KnowledgeValid()
        invariant mines == old(mines) + Elements(cs[..i])
        invariant Facts(knowledge) == MarkedAll(vs, Elements(cs[..i]))
      {
        MarkMine(cs[i]);
        MarkedAllTwice(vs, Elements(cs[..i]), {cs[i]});
        ElementsOfPrefix(cs, i);
      }
      assert cs[..|cs|] == cs;
    }

    /**
     * Marks safe each cell of a sentence `s` that proves its cells safe,
     * skipping cells already known safe and moves already made; the count
     * of `s` stays zero.
     */
    method MarkKnownSafes(s: Sentence, ghost k: nat)
      requires KnowledgeValid() && k < |knowledge| && knowledge[k] == s && s.KnownSafes() != {}
      modifies this`safes, knowledge
      ensures KnowledgeValid()
      ensures safes == old(safes) + (old(s.cells) - old(safes) - movesMade)
      ensures Facts(knowledge) == ClearedAll(old(Facts(knowledge)), old(s.cells) - old(safes) - movesMade)
      ensures s.count == 0
      ensures UnclickedOnBoard(safes - old(safes)) && (safes - old(safes)) !! mines
    {
      assert Facts(knowledge)[k] == s.Value();
      var known := s.KnownSafes();
      assert known == s.cells && s.count == 0;
      var safeCells := Unmarked(known, safes);
      ghost var v := s.Value();
      MarkEachSafe(safeCells);
      assert knowledge[k] == s && Facts(knowledge)[k].count == v.count;
    }

    /**
     * If `s` proves its cells safe, marks safe each of them not yet known
     * safe and not yet clicked (the first half of the conclusions drawn from
     * one sentence).
     */
    method ResolveSafes(s: Sentence, ghost k: nat)
      requires KnowledgeValid() && k < |knowledge| && knowledge[k] == s
      modifies this`safes, knowledge
      ensures KnowledgeValid()
      ensures safes == old(safes) + (old(s.KnownSafes()) - old(safes) - movesMade)
      ensures Facts(knowledge) == ClearedAll(old(Facts(knowledge)), old(s.KnownSafes()) - old(safes) - movesMade)
      ensures s.KnownMines() == old(s.KnownMines())
      ensures UnclickedOnBoard(safes - old(safes)) && (safes - old(safes)) !! mines
    {
      if s.KnownSafes() != {} {
        MarkKnownSafes(s, k);
        assert s.KnownMines() == {} by {
          if |s.cells| == 0 {
            assert s.cells == {};
          }
        }
      } else {
        assert s.KnownSafes() - safes - movesMade == {};
        ResolvingNothingAll(Facts(knowledge));
      }
    }

    /**
     * Marks as a mine each cell of a sentence `s` that proves its cells
     * mines, skipping cells already known mines and moves already made.
     */
    method MarkKnownMines(s: Sentence, ghost k: nat)
      requires KnowledgeValid() && k < |knowledge| && knowledge[k] == s && s.KnownMines() != {}
      modifies this`mines, knowledge
      ensures KnowledgeValid()
      ensures mines == old(mines) + (old(s.cells) - old(mines) - movesMade)
      ensures Facts(knowledge) == MarkedAll(old(Facts(knowledge)), old(s.cells) - old(mines) - movesMade)
      ensures UnclickedOnBoard(mines - old(mines)) && (mines - old(mines)) !! safes
    {
      assert Facts(knowledge)[k] == s.Value();
      var known := s.KnownMines();
      assert known == s.cells;
      var mineCells := Unmarked(known, mines);
      MarkEachMine(mineCells);
    }

    /**
     * If `s` proves its cells mines, marks as a mine each of them not yet
     * known a mine and not yet clicked (the second half of the conclusions
     * drawn from one sentence).
     */
    method ResolveMines(s: Sentence, ghost k: nat)
      requires KnowledgeValid() && k < |knowledge| && knowledge[k] == s
      modifies this`mines, knowledge
      ensures KnowledgeValid()
      ensures mines == old(mines) + (old(s.KnownMines()) - old(mines) - movesMade)
      ensures Facts(knowledge) == MarkedAll(old(Facts(knowledge)), old(s.KnownMines()) - old(mines) - movesMade)
      ensures UnclickedOnBoard(mines - old(mines)) && (mines - old(mines)) !! safes
    {
      if s.KnownMines() != {} {
        MarkKnownMines(s, k);
      } else {
        assert s.KnownMines() - mines - movesMade == {};
        ResolvingNothingAll(Facts(knowledge));
      }
    }

    /**
     * Draws the conclusions of one sentence: marks safe every cell it proves
     * safe, then marks as a mine every cell it proves a mine, skipping cells
     * already resolved and moves already made.  The cells it resolves lie
     * on the board and have not been clicked; a sentence never proves one
     * cell both safe and a mine, so known safe cells and known mines stay
     * apart.  When everything known is true of the board `board`, it stays
     * true.
     */
    method Resolve(s: Sentence, ghost k: nat, ghost board: set<Cell>)
      requires KnowledgeValid() && k < |knowledge| && knowledge[k] == s
      modifies this`safes, this`mines, knowledge
      ensures KnowledgeValid()
      ensures State() == ResolveAt(old(State()), k, movesMade)
      ensures safes == old(safes) + (old(s.KnownSafes()) - old(safes) - movesMade)
      ensures mines == old(mines) + (old(s.KnownMines()) - old(mines) - movesMade)
      ensures Facts(knowledge) == MarkedAll(ClearedAll(old(Facts(knowledge)), old(s.KnownSafes()) - old(safes) - movesMade),
                                            old(s.KnownMines()) - old(mines) - movesMade)
      ensures UnclickedOnBoard(safes - old(safes))
      ensures UnclickedOnBoard(mines - old(mines))
      ensures old(safes !! mines) ==> safes !! mines
      ensures old(Sound(board)) ==> Sound(board)
    {
      ghost var vs := Facts(knowledge);
      ghost var sound := Sound(board);
      assert vs[k] == s.Value();
      if sound {
        KnownSafesAreSafe(s.Value(), board);
        KnownMinesAreMines(s.Value(), board);
      }
      ResolveSafes(s, k);
      ResolveMines(s, k);
      if sound {
        ResolutionKeepsTruth(board, vs, old(s.KnownSafes()) - old(safes) - movesMade, old(s.KnownMines()) - old(mines) - movesMade);
      }
    }

    /**
     * The cells around `cell` the scan takes into account: on the board, not
     * yet clicked and not known safe.
     */
    ghost function Candidates(cell: Cell): set<Cell>
      reads this
    {
      Neighbours(cell, height, width) - movesMade - safes
    }

    /**
     * One row of the scan around `cell` (the inner loop): each candidate of
     * row `i` is added to `found` when it is not known to be a mine and
     * lowers the count `n` when it is.  `seen` holds the known mines counted
     * so far.
     */
    method ScanRow(cell: Cell, i: int, found: set<Cell>, ghost seen: set<Cell>, n: int)
      returns (found': set<Cell>, ghost seen': set<Cell>, n': int)
      requires cell.0 - 1 <= i <= cell.0 + 1
      requires forall p :: p in seen ==> p.0 != i
      ensures forall p :: p in found' <==> p in found || (p in Candidates(cell) && p.0 == i && p !in mines)
      ensures forall p :: p in seen' <==> p in seen || (p in Candidates(cell) && p.0 == i && p in mines)
      ensures n' + |seen'| == n + |seen|
    {
      found', seen', n' := found, seen, n;
      for j := cell.1 - 1 to cell.1 + 2
        invariant forall p :: p in found' <==> p in found || (p in Candidates(cell) && p.0 == i && p.1 < j && p !in mines)
        invariant forall p :: p in seen' <==> p in seen || (p in Candidates(cell) && p.0 == i && p.1 < j && p in mines)
        invariant n' + |seen'| == n + |seen|
      {
        assert (i, j) in Candidates(cell) <==>
               i >= 0 && j >= 0 && i < height && j < width && (i, j) !in movesMade && (i, j) != cell && (i, j) !in safes;
        if i >= 0 && j >= 0 && i < height && j < width {
          if (i, j) !in movesMade && (i, j) != cell && (i, j) !in safes {
            if (i, j) in mines {
              assert (i, j) !in seen';
              n' := n' - 1;
              seen' := seen' + {(i, j)};
            } else {
              found' := found' + {(i, j)};
            }
          }
        }
      }
    }

    /**
     * Scans the up to nine cells around `cell`, row by row (the outer loop):
     * the candidates not known to be mines are collected, and the count is
     * lowered by one for each candidate known to be a mine.
     */
    method ScanNeighbours(cell: Cell, count: int) returns (surCells: set<Cell>, n: int)
      ensures surCells == Neighbours(cell, height, width) - movesMade - safes - mines
      ensures n == count - |(Neighbours(cell, height, width) - movesMade - safes) * mines|
    {
      // the source collects a list; no cell is visited twice, so it never holds a duplicate
      surCells := {};
      ghost var minesSeen: set<Cell> := {};
      n := count;
      for i := cell.0 - 1 to cell.0 + 2
        invariant forall p :: p in surCells <==> p in Candidates(cell) && p.0 < i && p !in mines
        invariant forall p :: p in minesSeen <==> p in Candidates(cell) && p.0 < i && p in mines
        invariant n == count - |minesSeen|
      {
        surCells, minesSeen, n := ScanRow(cell, i, surCells, minesSeen, n);
      }
      assert minesSeen == Candidates(cell) * mines;
    }

    /**
     * Records `cell` as a move made and marks it safe.  When the cell is no
     * mine of `board`, what is true of `board` stays true.
     */
    method Click(cell: Cell, ghost board: set<Cell>)
      requires Valid()
      modifies this`movesMade, this`safes, knowledge
      ensures Valid()
      ensures movesMade == old(movesMade) + {cell} && safes == old(safes) + {cell}
      ensures Facts(knowledge) == ClearedAll(old(Facts(knowledge)), {cell})
      ensures old(Sound(board)) && cell !in board ==> Sound(board)
    {
      ghost var vs := Facts(knowledge);
      movesMade := movesMade + {cell};
      MarkSafe(cell);
      if old(Sound(board)) && cell !in board {
        ResolutionKeepsTruth(board, vs, {cell}, {});
        ResolvingNothingAll(ClearedAll(vs, {cell}));
      }
    }

    /**
     * Builds the sentence about the neighbours of a revealed cell and appends
     * it: its cells are the neighbours not yet clicked, known safe or known
     * mines, and its count is the reported count less the known mines among
     * the neighbours not yet clicked or known safe.
     */
    method AddNeighbourSentence(cell: Cell, count: int, ghost board: set<Cell>) returns (s: Sentence)
      requires KnowledgeValid()
      modifies this`knowledge
      ensures KnowledgeValid()
      ensures fresh(s) && knowledge == old(knowledge) + [s]
      ensures Facts(knowledge) == old(Facts(knowledge)) + [s.Value()]
      ensures s.cells == Neighbours(cell, height, width) - movesMade - safes - mines
      ensures s.count == count - |(Neighbours(cell, height, width) - movesMade - safes) * mines|
      ensures old(Sound(board)) && movesMade <= safes && count == NearbyMines(board, cell, height, width) ==> Sound(board)
    {
      var surCells, n := ScanNeighbours(cell, count);
      s := new Sentence(surCells, n);
      if Sound(board) && movesMade <= safes && count == NearbyMines(board, cell, height, width) {
        NeighbourSentenceHolds(board, Neighbours(cell, height, width), movesMade, safes, mines);
      }
      assert Unresolved([s.Value()], safes, mines, height, width);
      Append(s, board);
    }

    /** Appends a new sentence whose cells are all unresolved and on the board. */
    method Append(s: Sentence, ghost board: set<Cell>)
      requires KnowledgeValid() && s !in knowledge
      requires Unresolved([s.Value()], safes, mines, height, width)
      modifies this`knowledge
      ensures KnowledgeValid()
      ensures knowledge == old(knowledge) + [s]
      ensures Facts(knowledge) == old(Facts(knowledge)) + [s.Value()]
      ensures old(Sound(board)) && Holds(board, s.Value()) ==> Sound(board)
    {
      ghost var vs := Facts(knowledge);
      if Sound(board) && Holds(board, s.Value()) {
        AllHoldAppend(board, vs, s.Value());
      }
      UnresolvedConcat(vs, [s.Value()], safes, mines, height, width);
      DistinctConcat(knowledge, [s]);
      FactsAppend(knowledge, s);
      knowledge := knowledge + [s];
    }

    /**
     * The pairs (i, j) of one pass with `i` fixed (the inner loop): for
     * every later sentence, a subset difference is appended to `inferred`
     * when one's cells lie inside the other's.
     */
    method InferFrom(i: nat, inferred: seq<Sentence>) returns (inferred': seq<Sentence>)
      requires i < |knowledge| && Distinct(inferred)
      ensures Facts(inferred') == Facts(inferred) + Row(Derive, Facts(knowledge), i, |knowledge|)
      ensures |inferred| <= |inferred'| && inferred'[..|inferred|] == inferred
      ensures Distinct(inferred')
      ensures forall t :: t in inferred'[|inferred|..] ==> fresh(t)
    {
      ghost var vs := Facts(knowledge);
      ghost var base := Facts(inferred);
      inferred' := inferred;
      var s1 := knowledge[i];
      for j := i + 1 to |knowledge|
        invariant Facts(inferred') == base + Row(Derive, vs, i, j)
        invariant |inferred| <= |inferred'| && inferred'[..|inferred|] == inferred
        invariant Distinct(inferred')
        invariant forall t :: t in inferred'[|inferred|..] ==> fresh(t)
      {
        var s2 := knowledge[j];
        assert vs[i] == s1.Value() && vs[j] == s2.Value();
        assert Row(Derive, vs, i, j + 1) == Row(Derive, vs, i, j) + Derive(vs[i], vs[j]);
        // The source writes `s1.cells in s2.cells`, which never holds (see
        // Inference.ContainsAsWritten); the subset test it intends is used.
        if s1.cells <= s2.cells {
          inferred' := Collect(inferred', |inferred|, s2.cells - s1.cells, s2.count - s1.count);
        } else if s2.cells <= s1.cells {
          inferred' := Collect(inferred', |inferred|, s1.cells - s2.cells, s1.count - s2.count);
        }
      }
    }

    /** Appends a new sentence to those derived so far. */
    static method Collect(xs: seq<Sentence>, from: nat, cells: set<Cell>, count: int) returns (ys: seq<Sentence>)
      requires Distinct(xs) && from <= |xs|
      ensures Distinct(ys) && |ys| == |xs| + 1
      ensures Facts(ys) == old(Facts(xs)) + [Constraint(cells, count)]
      ensures ys[..from] == xs[..from] && fresh(ys[|xs|])
      ensures forall t :: t in ys[from..] ==> t in xs[from..] || fresh(t)
    {
      var t := new Sentence(cells, count);
      FactsAppend(xs, t);
      ys := xs + [t];
      assert ys[from..] == xs[from..] + [t];
    }

    /**
     * The scan of one pairwise pass (the outer loop): the sentences derived
     * from all pairs, in the order the scan derives them, each a new object.
     */
    method InferAll() returns (inferred: seq<Sentence>)
      ensures Facts(inferred) == Pairwise(Facts(knowledge))
      ensures Distinct(inferred)
      ensures forall t :: t in inferred ==> fresh(t)
    {
      ghost var vs := Facts(knowledge);
      inferred := [];
      for i := 0 to |knowledge|
        invariant Facts(inferred) == Upto(Derive, vs, i)
        invariant Distinct(inferred)
        invariant forall t :: t in inferred ==> fresh(t)
      {
        ghost var before := inferred;
        inferred := InferFrom(i, inferred);
        assert inferred == before + inferred[|before|..];
      }
    }

    /**
     * One pairwise pass: for every pair of sentences, the earlier one first,
     * a subset difference is built when one's cells lie inside the other's.
     * The new sentences are collected apart and appended after the scan.
     */
    method InferPairwise(ghost board: set<Cell>)
      requires KnowledgeValid()
      modifies this`knowledge
      ensures KnowledgeValid()
      ensures old(Sound(board)) ==> Sound(board)
      ensures |old(knowledge)| <= |knowledge| && knowledge[..|old(knowledge)|] == old(knowledge)
      ensures forall k :: 0 <= k < |knowledge| ==> knowledge[k] in old(knowledge) || fresh(knowledge[k])
      ensures Facts(knowledge) == old(Facts(knowledge)) + Pairwise(old(Facts(knowledge)))
    {
      ghost var vs := Facts(knowledge);
      var inferred := InferAll();
      UnresolvedPairwise(vs, safes, mines, height, width);
      UnresolvedConcat(vs, Pairwise(vs), safes, mines, height, width);
      FactsConcat(knowledge, inferred);
      DistinctConcat(knowledge, inferred);
      ghost var before := knowledge;
      knowledge := knowledge + inferred;
      forall k | 0 <= k < |knowledge|
        ensures knowledge[k] in before || fresh(knowledge[k])
      {
        if |before| <= k {
          assert knowledge[k] in inferred;
        }
      }
      if old(Sound(board)) {
        forall k | |before| <= k < |knowledge|
          ensures Holds(board, Facts(knowledge)[k])
        {
          PairwiseSound(board, vs, Facts(knowledge)[k]);
        }
      }
    }

    /**
     * The search of Python's list.remove: the first position holding a
     * sentence equal (same cells, same count) to `s`.
     */
    static method IndexOfEqual(ks: seq<Sentence>, s: Sentence) returns (j: nat)
      requires s in ks
      ensures j < |ks| && ks[j].Value() == s.Value()
      ensures forall k :: 0 <= k < j ==> ks[k].Value() != s.Value()
    {
      j := 0;
      while !ks[j].Equals(s)
        invariant j < |ks| && s in ks[j..]
        invariant forall k :: 0 <= k < j ==> ks[k].Value() != s.Value()
        decreases |ks| - j
      {
        assert ks[j..] == [ks[j]] + ks[j + 1..];
        j := j + 1;
      }
    }

    /**
     * Removes empty sentences while iterating over the list, and returns how
     * many it removed.  The removal takes out the first sentence EQUAL to
     * the empty one seen, and the sentence that slides into its place is
     * skipped, so an empty sentence may survive.
     */
    method CleanKnowledge(ghost board: set<Cell>) returns (removed: nat)
      requires KnowledgeValid()
      modifies this`knowledge
      ensures KnowledgeValid()
      ensures old(Sound(board)) ==> Sound(board)
      ensures Facts(knowledge) == Sweep(old(Facts(knowledge)), 0)
      ensures forall s :: s in knowledge ==> s in old(knowledge)
      ensures removed == |old(knowledge)| - |knowledge|
    {
      var kl := knowledge;
      removed := 0;
      var i := 0;
      while i < |kl|
        invariant knowledge == old(knowledge)
        invariant i <= |kl| + 1
        invariant Distinct(kl)
        invariant Sweep(Facts(kl), i) == Sweep(Facts(knowledge), 0)
        invariant forall s :: s in kl ==> s in knowledge
        invariant removed == |knowledge| - |kl|
        decreases |kl| + 1 - i
      {
        var s := kl[i];
        ghost var vs := Facts(kl);
        assert vs[i] == s.Value();
        i := i + 1;
        if s.cells == {} {
          assert Sweep(vs, i - 1) == Sweep(RemoveFirst(vs, vs[i - 1]), i);
          var j := IndexOfEqual(kl, s);
          RemoveFirstAt(vs, s.Value(), j);
          RemoveAt(kl, j);
          kl := kl[..j] + kl[j + 1..];
          removed := removed + 1;
        } else {
          assert Sweep(vs, i - 1) == Sweep(vs, i);
        }
      }
      assert Sweep(Facts(kl), i) == Facts(kl);
      UnresolvedSweep(Facts(knowledge), safes, mines, height, width);
      ghost var result := Facts(kl);
      knowledge := kl;
      assert Facts(knowledge) == result;
      if old(Sound(board)) {
        SweepKeepsTruth(board, old(Facts(knowledge)));
      }
    }

    /**
     * Draws the conclusions of every sentence once, in list order (the last
     * loop of add_knowledge); the list itself is unchanged.
     */
    method ResolveAll(ghost board: set<Cell>)
      requires KnowledgeValid()
      modifies this`safes, this`mines, knowledge
      ensures KnowledgeValid()
      ensures knowledge == old(knowledge)
      ensures old(safes) <= safes && old(mines) <= mines
      ensures UnclickedOnBoard(safes - old(safes))
      ensures UnclickedOnBoard(mines - old(mines))
      ensures old(safes !! mines) ==> safes !! mines
      ensures old(Sound(board)) ==> Sound(board)
      ensures State() == ResolveFrom(old(State()), 0, movesMade)
    {
      ghost var before := State();
      ResolveEach(board);
      ResolveFromConcludes(before, 0, movesMade);
      ResolveFromKeepsApart(before, 0, movesMade, height, width);
      if old(Sound(board)) {
        ResolveFromIsTrue(board, before, 0, movesMade);
      }
    }

    /** The loop of ResolveAll, stated against ResolveFrom. */
    method ResolveEach(ghost board: set<Cell>)
      requires KnowledgeValid()
      modifies this`safes, this`mines, knowledge
      ensures KnowledgeValid() && knowledge == old(knowledge)
      ensures State() == ResolveFrom(old(State()), 0, movesMade)
    {
      ghost var target := ResolveFrom(State(), 0, movesMade);
      ghost var cur := State();
      for k := 0 to |knowledge|
        invariant KnowledgeValid()
        invariant cur == State()
        invariant ResolveFrom(cur, k, movesMade) == target
      {
        cur := ResolveNext(k, cur, target, board);
      }
    }

    /** One round of the loop above: the conclusions of the sentence at position `k`. */
    method ResolveNext(k: nat, ghost cur: Knowledge, ghost target: Knowledge, ghost board: set<Cell>) returns (ghost next: Knowledge)
      requires KnowledgeValid() && k < |knowledge|
      requires cur == State() && ResolveFrom(cur, k, movesMade) == target
      modifies this`safes, this`mines, knowledge
      ensures KnowledgeValid() && knowledge == old(knowledge)
      ensures next == State() && ResolveFrom(next, k + 1, movesMade) == target
    {
      Resolve(knowledge[k], k, board);
      next := State();
    }

    /**
     * The first steps of add_knowledge: records the move, marks the cell
     * safe, and appends the sentence about its neighbours.  If the cell is
     * no mine of `board`, the count is what the board reports for it, and
     * everything known so far is true of `board`, then so is everything
     * known afterwards.
     */
    method Observe(cell: Cell, count: int, ghost board: set<Cell>) returns (s: Sentence)
      requires Valid()
      modifies this, knowledge
      ensures Valid()
      ensures movesMade == old(movesMade) + {cell} && safes == old(safes) + {cell} && mines == old(mines)
      ensures fresh(s) && knowledge == old(knowledge) + [s]
      ensures s.cells == Neighbours(cell, height, width) - movesMade - safes - mines
      ensures s.count == count - |(Neighbours(cell, height, width) - movesMade - safes) * mines|
      ensures Facts(knowledge) == ClearedAll(old(Facts(knowledge)), {cell}) + [s.Value()]
      ensures State() == Observed(old(State()), old(movesMade), cell, count, height, width)
      ensures old(Sound(board)) && cell !in board && count == NearbyMines(board, cell, height, width) ==> Sound(board)
    {
      ghost var before := State();
      Click(cell, board);
      s := AddNeighbourSentence(cell, count, board);
      assert s.Value() == Observed(before, old(movesMade), cell, count, height, width).facts[|before.facts|];
    }

    /**
     * The pairwise pass, the conclusions of every sentence, and the removal
     * of empty sentences.  Sets only grow, by cells on the board that have
     * not been clicked; known safe cells and known mines stay apart, and
     * what is true of `board` stays true.
     */
    method Deduce(ghost board: set<Cell>)
      requires KnowledgeValid()
      modifies this`safes, this`mines, this`knowledge, knowledge
      ensures KnowledgeValid()
      ensures old(safes) <= safes && old(mines) <= mines
      ensures UnclickedOnBoard(safes - old(safes))
      ensures UnclickedOnBoard(mines - old(mines))
      ensures old(safes !! mines) ==> safes !! mines
      ensures old(Sound(board)) ==> Sound(board)
      ensures State() == Deduced(old(State()), movesMade)
    {
      InferPairwise(board);
      ResolveAll(board);
      var _ := CleanKnowledge(board);
    }

    /**
     * The steps of add_knowledge after the new sentence `s` is appended: its
     * conclusions, then the deductions above, with the same guarantees.
     */
    method Conclude(s: Sentence, ghost k: nat, ghost board: set<Cell>)
      requires Valid() && k < |knowledge| && knowledge[k] == s
      modifies this`safes, this`mines, this`knowledge, knowledge
      ensures Valid() && movesMade == old(movesMade)
      ensures old(safes) <= safes && old(mines) <= mines
      ensures UnclickedOnBoard(safes - old(safes))
      ensures UnclickedOnBoard(mines - old(mines))
      ensures old(safes !! mines) ==> safes !! mines
      ensures old(Sound(board)) ==> Sound(board)
      ensures State() == Deduced(ResolveAt(old(State()), k, movesMade), movesMade)
    {
      Resolve(s, k, board);
      Deduce(board);
    }

    /**
     * Takes in what the board reports about the revealed `cell`: records the
     * move, marks the cell safe, appends the sentence about its neighbours,
     * draws that sentence's conclusions, runs one pairwise pass, draws the
     * conclusions of every sentence once, and removes empty sentences.
     *
     * Every cell it newly marks lies on the board and has not been clicked.
     * If the cell revealed is no mine of `board`, the count is what the board
     * reports for it, and everything known so far is true of `board`, then
     * everything known afterwards is true of `board` too: no mine is ever
     * marked safe and no safe cell a mine.
     */
    method AddKnowledge(cell: Cell, count: int, ghost board: set<Cell>)
      requires Valid()
      modifies this, knowledge
      ensures Valid()
      ensures movesMade == old(movesMade) + {cell}
      ensures old(safes) + {cell} <= safes && old(mines) <= mines
      ensures UnclickedOnBoard(safes - old(safes) - {cell})
      ensures UnclickedOnBoard(mines - old(mines))
      ensures old(safes !! mines) && cell !in old(mines) ==> safes !! mines
      ensures old(Sound(board)) && cell !in board && count == NearbyMines(board, cell, height, width) ==> Sound(board)
      ensures State() == Added(old(State()), old(movesMade), cell, count, height, width)
    {
      var newSentence := Observe(cell, count, board);
      Conclude(newSentence, |knowledge| - 1, board);
    }
    /**
     * A cell known to be safe that has not been clicked, if there is one;
     * any such cell may be returned.  Changes nothing.
     */
    method MakeSafeMove() returns (move: Option<Cell>)
      ensures move == None <==> safes - movesMade == {}
      ensures move.Some? ==> move.value in safes && move.value !in movesMade
    {
      if safes - movesMade == {} {
        return None;
      }
      var c :| c in safes - movesMade;
      return Some(c);
    }

    /**
     * A cell of the board that has not been clicked and is not known to be
     * a mine, if there is one; any such cell may be returned.  Changes nothing.
     */
    method MakeRandomMove() returns (move: Option<Cell>)
      ensures move == None <==> Grid(height, width) <= movesMade + mines
      ensures move.Some? ==> OnBoard(move.value, height, width) && move.value !in movesMade && move.value !in mines
    {
      var possibleMoves: seq<Cell> := [];
      var i := 0;
      while i < height
        invariant 0 <= i && (i <= height || i == 0)
        invariant forall p :: p in possibleMoves <==>
                    OnBoard(p, height, width) && p.0 < i && p !in movesMade && p !in mines
      {
        var j := 0;
        while j < width
          invariant 0 <= j && (j <= width || j == 0)
          invariant forall p :: p in possibleMoves <==>
                      OnBoard(p, height, width) && (p.0 < i || (p.0 == i && p.1 < j)) && p !in movesMade && p !in mines
        {
          if (i, j) !in movesMade && (i, j) !in mines {
            possibleMoves := possibleMoves + [(i, j)];
          }
          j := j + 1;
        }
        i := i + 1;
      }
      if |possibleMoves| == 0 {
        return None;
      }
      var k :| 0 <= k < |possibleMoves|;
      var choice := possibleMoves[k];
      assert choice in possibleMoves;
      assert choice in Grid(height, width) && choice !in movesMade + mines;
      return Some(choice);
    }
  }
}
