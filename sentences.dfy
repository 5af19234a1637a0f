/**
 * Sentences of the Minesweeper knowledge base: "exactly `count` of these
 * `cells` are mines".  A `Sentence` is a mutable object (the AI removes
 * resolved cells from it in place); a `Constraint` is its value at one moment,
 * used by the specifications.
 */
module Sentences {
  import opened Board

  /** The value of a sentence: exactly `count` of `cells` are mines. */
  datatype Constraint = Constraint(cells: set<Cell>, count: int)
  {
    /**
     * The cells this constraint alone proves to be mines: all of them when
     * it says every one of its cells is a mine, none otherwise.
     */
    function KnownMines(): (r: set<Cell>)
      ensures r != {} <==> cells != {} && |cells| == count
      ensures r != {} ==> r == cells
    {
      if |cells| == count then cells else {}
    }

    /**
     * The cells this constraint alone proves to be safe: all of them when it
     * says none of its cells is a mine; an empty constraint proves nothing.
     */
    function KnownSafes(): (r: set<Cell>)
      ensures r != {} <==> cells != {} && count == 0
      ensures r != {} ==> r == cells
    {
      if count == 0 && |cells| != 0 then cells else {}
    }
  }

  /**
   * The meaning of a constraint: it is true of a board whose mines are
   * `board` when exactly `count` of its cells are mines of that board.
   */
  ghost predicate Holds(board: set<Cell>, c: Constraint)
  {
    |c.cells * board| == c.count
  }

  class Sentence {
    var cells: set<Cell>
    var count: int

    constructor (cells: set<Cell>, count: int)
      ensures this.cells == cells && this.count == count
    {
      this.cells := cells;
      this.count := count;
    }

    /** The current value of this sentence. */
    function Value(): Constraint
      reads this
    {
      Constraint(cells, count)
    }

    /** Sentence equality compares cells and count, not identity. */
    predicate Equals(other: Sentence)
      reads this, other
      ensures Equals(other) ==> forall board :: Holds(board, Value()) == Holds(board, other.Value())
      ensures Equals(other) <==> Value() == other.Value()
    {
      cells == other.cells && count == other.count
    }

    /** The cells this sentence alone proves to be mines (see Constraint.KnownMines). */
    function KnownMines(): set<Cell>
      reads this
    {
      Value().KnownMines()
    }

    /** The cells this sentence alone proves to be safe (see Constraint.KnownSafes). */
    function KnownSafes(): set<Cell>
      reads this
    {
      Value().KnownSafes()
    }

    /** Removes a cell known to be a mine; it took one mine of the count with it. */
    method MarkMine(cell: Cell)
      modifies this
      ensures cells == old(cells) - {cell}
      ensures count == if cell in old(cells) then old(count) - 1 else old(count)
    {
      if cell in cells {
        cells := cells - {cell};
        count := count - 1;
      }
    }

    /** Removes a cell known to be safe; the count is unchanged. */
    method MarkSafe(cell: Cell)
      modifies this
      ensures cells == old(cells) - {cell}
      ensures count == old(count)
    {
      if cell in cells {
        cells := cells - {cell};
      }
    }
  }

  /** The values of a list of sentences, position by position. */
  ghost function Facts(ks: seq<Sentence>): (vs: seq<Constraint>)
    reads ks
    ensures |vs| == |ks|
    ensures forall k :: 0 <= k < |ks| ==> vs[k] == ks[k].Value()
  {
    seq(|ks|, k requires 0 <= k < |ks| reads ks => ks[k].Value())
  }

  /** No sentence object appears twice in the list. */
  predicate Distinct(ks: seq<Sentence>)
  {
    forall i, j :: 0 <= i < j < |ks| ==> ks[i] != ks[j]
  }

  /** Joining two lists without a sentence in common keeps the sentences distinct. */
  lemma DistinctConcat(ks: seq<Sentence>, ts: seq<Sentence>)
    requires Distinct(ks) && Distinct(ts)
    requires forall t :: t in ts ==> t !in ks
    ensures Distinct(ks + ts)
  {
    var r := ks + ts;
    forall a, b | 0 <= a < b < |r|
      ensures r[a] != r[b]
    {
      if a < |ks| && b >= |ks| {
        assert r[b] in ts;
      }
    }
  }

  /** The values of a list extended by one sentence. */
  lemma FactsAppend(ks: seq<Sentence>, t: Sentence)
    ensures Facts(ks + [t]) == Facts(ks) + [t.Value()]
  {
  }

  /** The values of two lists joined. */
  lemma FactsConcat(ks: seq<Sentence>, ts: seq<Sentence>)
    ensures Facts(ks + ts) == Facts(ks) + Facts(ts)
  {
  }

  /** Cutting position `j` out of a list of sentences cuts it out of their values too. */
  lemma RemoveAt(ks: seq<Sentence>, j: nat)
    requires j < |ks| && Distinct(ks)
    ensures |ks[..j] + ks[j + 1..]| == |ks| - 1
    ensures Distinct(ks[..j] + ks[j + 1..])
    ensures forall k :: 0 <= k < |ks| - 1 ==> (ks[..j] + ks[j + 1..])[k] == if k < j then ks[k] else ks[k + 1]
    ensures Facts(ks[..j] + ks[j + 1..]) == Facts(ks)[..j] + Facts(ks)[j + 1..]
  {
    var r := ks[..j] + ks[j + 1..];
    assert forall k :: 0 <= k < |r| ==> r[k] == if k < j then ks[k] else ks[k + 1];
  }

  /** The cells of a list, as a set. */
  ghost function Elements(cs: seq<Cell>): set<Cell>
  {
    set c | c in cs
  }

  lemma ElementsOfPrefix(cs: seq<Cell>, i: nat)
    requires i < |cs|
    ensures Elements(cs[..i + 1]) == Elements(cs[..i]) + {cs[i]}
  {
    assert cs[..i + 1] == cs[..i] + [cs[i]];
  }

  /** The constraint `v` once every cell of `safe` has been removed from it as safe. */
  function Cleared(v: Constraint, safe: set<Cell>): Constraint
  {
    Constraint(v.cells - safe, v.count)
  }

  /** The constraint `v` once every cell of `mined` has been removed from it as a mine. */
  function Marked(v: Constraint, mined: set<Cell>): Constraint
  {
    Constraint(v.cells - mined, v.count - |v.cells * mined|)
  }

  /** Every constraint of a list, cleared of the cells of `safe`. */
  function ClearedAll(vs: seq<Constraint>, safe: set<Cell>): seq<Constraint>
  {
    seq(|vs|, k requires 0 <= k < |vs| => Cleared(vs[k], safe))
  }

  /** Every constraint of a list, with the cells of `mined` marked as mines. */
  function MarkedAll(vs: seq<Constraint>, mined: set<Cell>): seq<Constraint>
  {
    seq(|vs|, k requires 0 <= k < |vs| => Marked(vs[k], mined))
  }

  /** Every constraint of the list is true of a board whose mines are `board`. */
  ghost predicate AllHold(board: set<Cell>, vs: seq<Constraint>)
  {
    forall k :: 0 <= k < |vs| ==> Holds(board, vs[k])
  }

  /** A true list extended by a true constraint is true. */
  lemma AllHoldAppend(board: set<Cell>, vs: seq<Constraint>, v: Constraint)
    requires AllHold(board, vs) && Holds(board, v)
    ensures AllHold(board, vs + [v])
  {
    assert forall k :: 0 <= k < |vs| ==> (vs + [v])[k] == vs[k];
  }

  /** Removing no cell changes nothing. */
  lemma ResolvingNothing(v: Constraint)
    ensures Cleared(v, {}) == v && Marked(v, {}) == v
  {
    assert v.cells * {} == {};
  }

  /**
   * Resolving cells a constraint does not mention changes nothing; so,
   * once a cell is resolved and removed, resolving it again is idempotent.
   */
  lemma ResolvingAbsentCells(v: Constraint, safe: set<Cell>, mined: set<Cell>)
    requires v.cells !! safe && v.cells !! mined
    ensures Marked(Cleared(v, safe), mined) == v
  {
    assert v.cells - safe == v.cells;
    assert v.cells * mined == {};
  }

  /** Resolving no cell in a whole list changes nothing. */
  lemma ResolvingNothingAll(vs: seq<Constraint>)
    ensures ClearedAll(vs, {}) == vs && MarkedAll(vs, {}) == vs
  {
    forall k | 0 <= k < |vs|
      ensures ClearedAll(vs, {})[k] == vs[k] && MarkedAll(vs, {})[k] == vs[k]
    {
      ResolvingNothing(vs[k]);
    }
  }

  /** Marking one cell as a mine is what Sentence.MarkMine does to the value. */
  lemma MarkedOne(v: Constraint, c: Cell)
    ensures Marked(v, {c}) == Constraint(v.cells - {c}, if c in v.cells then v.count - 1 else v.count)
  {
    if c in v.cells {
      assert v.cells * {c} == {c};
    } else {
      assert v.cells * {c} == {};
    }
  }

  /** Marking the cells of `a`, then those of `b`, is marking those of `a + b`. */
  lemma MarkedTwice(v: Constraint, a: set<Cell>, b: set<Cell>)
    ensures Marked(Marked(v, a), b) == Marked(v, a + b)
  {
    var first := v.cells * a;
    var second := (v.cells - a) * b;
    assert v.cells * (a + b) == first + second;
    DisjointUnionSize(first, second);
  }

  /** Marking `a`, then `b`, in a whole list is marking `a + b`. */
  lemma MarkedAllTwice(vs: seq<Constraint>, a: set<Cell>, b: set<Cell>)
    ensures MarkedAll(MarkedAll(vs, a), b) == MarkedAll(vs, a + b)
  {
    forall k | 0 <= k < |vs|
      ensures MarkedAll(MarkedAll(vs, a), b)[k] == MarkedAll(vs, a + b)[k]
    {
      MarkedTwice(vs[k], a, b);
    }
  }

  /** Clearing `a`, then `b`, in a whole list is clearing `a + b`. */
  lemma ClearedAllTwice(vs: seq<Constraint>, a: set<Cell>, b: set<Cell>)
    ensures ClearedAll(ClearedAll(vs, a), b) == ClearedAll(vs, a + b)
  {
    forall k | 0 <= k < |vs|
      ensures ClearedAll(ClearedAll(vs, a), b)[k] == ClearedAll(vs, a + b)[k]
    {
      assert vs[k].cells - a - b == vs[k].cells - (a + b);
    }
  }

  /**
   * After a cell is marked as a mine in every constraint of a list, the list
   * has its length and order, no constraint mentions the cell, and marking
   * it again changes nothing.
   */
  lemma MarkingAllOnce(vs: seq<Constraint>, c: Cell)
    ensures |MarkedAll(vs, {c})| == |vs|
    ensures forall k :: 0 <= k < |vs| ==> c !in MarkedAll(vs, {c})[k].cells
    ensures MarkedAll(MarkedAll(vs, {c}), {c}) == MarkedAll(vs, {c})
  {
    MarkedAllTwice(vs, {c}, {c});
    assert {c} + {c} == {c};
  }

  /**
   * After a cell is marked safe in every constraint of a list, the list has
   * its length and order, no constraint mentions the cell, and marking it
   * again changes nothing.
   */
  lemma ClearingAllOnce(vs: seq<Constraint>, c: Cell)
    ensures |ClearedAll(vs, {c})| == |vs|
    ensures forall k :: 0 <= k < |vs| ==> c !in ClearedAll(vs, {c})[k].cells
    ensures ClearedAll(ClearedAll(vs, {c}), {c}) == ClearedAll(vs, {c})
  {
    ClearedAllTwice(vs, {c}, {c});
    assert {c} + {c} == {c};
  }

  /** A subset as large as its superset is the superset. */
  lemma SubsetOfSameSize<T>(a: set<T>, b: set<T>)
    requires a <= b && |a| == |b|
    ensures a == b
  {
    assert b * a == a;
    assert |b - a| == |b| - |b * a|;
    assert b - a == {};
  }

  /** The mines of a disjoint union are counted part by part. */
  lemma DisjointUnionSize<T>(a: set<T>, b: set<T>)
    requires a !! b
    ensures |a + b| == |a| + |b|
  {
    assert a * b == {};
  }

  /** Every cell a true constraint reports as a mine is a mine of the board. */
  lemma KnownMinesAreMines(v: Constraint, board: set<Cell>)
    requires Holds(board, v)
    ensures v.KnownMines() <= board
  {
    if v.KnownMines() != {} {
      SubsetOfSameSize(v.cells * board, v.cells);
    }
  }

  /** No cell a true constraint reports as safe is a mine of the board. */
  lemma KnownSafesAreSafe(v: Constraint, board: set<Cell>)
    requires Holds(board, v)
    ensures v.KnownSafes() !! board
  {
    if v.KnownSafes() != {} {
      assert |v.cells * board| == 0;
      assert v.cells * board == {};
      assert forall c :: c in v.cells ==> c in v.cells * board || c !in board;
    }
  }

  /** A constraint never proves a cell both safe and a mine. */
  lemma KnownSafesAndMinesExclusive(v: Constraint)
    ensures v.KnownSafes() == {} || v.KnownMines() == {}
  {
  }

  /**
   * Removing cells that are safe (`safe`) from a true constraint, then cells
   * that are mines (`mined`) together with the mines they account for,
   * leaves a true constraint.  This is what Sentence.MarkSafe and
   * Sentence.MarkMine do, one cell at a time.
   */
  lemma {:induction false} RemovingResolvedCellsKeepsTruth(board: set<Cell>, v: Constraint, safe: set<Cell>, mined: set<Cell>)
    requires Holds(board, v)
    requires safe !! board && mined <= board
    ensures Holds(board, Marked(Cleared(v, safe), mined))
  {
    var left := v.cells - safe;
    var rest := (left - mined) * board;
    var gone := left * mined;
    assert v.cells * board == left * board;
    assert left * board == rest + gone;
    DisjointUnionSize(rest, gone);
  }

  /**
   * Resolving safe cells `safe` and mines `mined` in every constraint of a
   * list that is true of a board keeps the whole list true.
   */
  lemma ResolutionKeepsTruth(board: set<Cell>, vs: seq<Constraint>, safe: set<Cell>, mined: set<Cell>)
    requires AllHold(board, vs)
    requires safe !! board && mined <= board
    ensures AllHold(board, MarkedAll(ClearedAll(vs, safe), mined))
  {
    forall k | 0 <= k < |vs|
      ensures Holds(board, MarkedAll(ClearedAll(vs, safe), mined)[k])
    {
      RemovingResolvedCellsKeepsTruth(board, vs[k], safe, mined);
    }
  }

  /**
   * The sentence built for a revealed cell is true: `count` is the number of
   * mines among `around`; the sentence keeps the cells of `around` that are
   * neither `clicked`, `safe` nor known `mined`, and subtracts the known mines
   * among those not clicked or safe.  This needs the clicked cells to be
   * safe, the safe cells not to be mines and the known mines to be mines.
   */
  lemma {:induction false} NeighbourSentenceHolds(board: set<Cell>, around: set<Cell>, clicked: set<Cell>, safe: set<Cell>, mined: set<Cell>)
    requires clicked <= safe && safe !! board && mined <= board
    ensures Holds(board, Constraint(around - clicked - safe - mined, |around * board| - |(around - clicked - safe) * mined|))
  {
    var candidates := around - clicked - safe;
    var rest := (candidates - mined) * board;
    var known := candidates * mined;
    assert around * board == candidates * board;
    assert candidates * board == rest + known;
    DisjointUnionSize(rest, known);
  }

  /**
   * Subset subtraction is sound: when the cells of one true constraint lie
   * inside those of another, the difference of the cell sets holds the
   * difference of the counts.
   */
  lemma {:induction false} SubsetRuleIsSound(board: set<Cell>, a: Constraint, b: Constraint)
    requires Holds(board, a) && Holds(board, b)
    requires a.cells <= b.cells
    ensures Holds(board, Constraint(b.cells - a.cells, b.count - a.count))
  {
    var inner := a.cells * board;
    var outer := (b.cells - a.cells) * board;
    assert b.cells * board == inner + outer;
    DisjointUnionSize(inner, outer);
  }
}
