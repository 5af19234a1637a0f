/**
 * Value-level specifications of the two list passes of the AI: the pairwise
 * subset-subtraction pass (minesweeper.py lines 264-281) and the removal of
 * empty sentences (lines 307-313), with the properties each one has.
 */
module Inference {
  import opened Board
  import opened Sentences

  // ---------------------------------------------------------------------
  // Pairwise subset subtraction
  // ---------------------------------------------------------------------

  /**
   * What the pair (`first`, `second`) yields, `first` standing earlier in the
   * knowledge base: if the cells of `first` lie inside those of `second`,
   * the difference (second - first); otherwise, if the cells of `second` lie
   * inside those of `first`, the difference (first - second); else nothing.
   */
  function Derive(first: Constraint, second: Constraint): seq<Constraint>
  {
    if first.cells <= second.cells then
      [Constraint(second.cells - first.cells, second.count - first.count)]
    else if second.cells <= first.cells then
      [Constraint(first.cells - second.cells, first.count - second.count)]
    else
      []
  }

  /**
   * A rule that says what a pair of constraints yields, the earlier one
   * first: `Derive` is the rule of the AI, `DeriveAsWritten` the rule the
   * source's test actually applies.
   */
  type PairRule = (Constraint, Constraint) -> seq<Constraint>

  /** What `rule` yields for the pairs (i, b) with i < b < j, in scan order. */
  function Row(rule: PairRule, vs: seq<Constraint>, i: nat, j: nat): seq<Constraint>
    requires i < |vs| && j <= |vs|
    decreases j
  {
    if j <= i + 1 then [] else Row(rule, vs, i, j - 1) + rule(vs[i], vs[j - 1])
  }

  /** What `rule` yields for all pairs (a, b) with a < i and a < b, in scan order. */
  function Upto(rule: PairRule, vs: seq<Constraint>, i: nat): seq<Constraint>
    requires i <= |vs|
  {
    if i == 0 then [] else Upto(rule, vs, i - 1) + Row(rule, vs, i - 1, |vs|)
  }

  /** One pass of `rule` over every pair of `vs`, in the order the scan visits them. */
  function Pass(rule: PairRule, vs: seq<Constraint>): seq<Constraint>
  {
    Upto(rule, vs, |vs|)
  }

  /** Everything one pairwise pass of the AI derives from `vs`. */
  function Pairwise(vs: seq<Constraint>): seq<Constraint>
  {
    Pass(Derive, vs)
  }

  /** The sentence at position `n` of what the inner loop derives comes from some pair (i, b) with i < b < j. */
  lemma {:induction false} RowWitness(rule: PairRule, vs: seq<Constraint>, i: nat, j: nat, n: nat) returns (b: nat)
    requires i < |vs| && j <= |vs| && n < |Row(rule, vs, i, j)|
    ensures i < b < j && Row(rule, vs, i, j)[n] in rule(vs[i], vs[b])
    decreases j
  {
    assert j > i + 1;
    var earlier, last := Row(rule, vs, i, j - 1), rule(vs[i], vs[j - 1]);
    assert Row(rule, vs, i, j) == earlier + last;
    if n < |earlier| {
      assert Row(rule, vs, i, j)[n] == earlier[n];
      b := RowWitness(rule, vs, i, j - 1, n);
    } else {
      assert Row(rule, vs, i, j)[n] == last[n - |earlier|];
      b := j - 1;
    }
  }

  /** Whatever a pair (i, b) with i < b < j yields, the inner loop derives. */
  lemma {:induction false} RowHas(rule: PairRule, vs: seq<Constraint>, i: nat, j: nat, b: nat, d: Constraint)
    requires i < b < j <= |vs| && d in rule(vs[i], vs[b])
    ensures d in Row(rule, vs, i, j)
    decreases j
  {
    assert Row(rule, vs, i, j) == Row(rule, vs, i, j - 1) + rule(vs[i], vs[j - 1]);
    if b < j - 1 {
      RowHas(rule, vs, i, j - 1, b, d);
    }
  }

  /** The sentence at position `n` of what the first `i` rows derive comes from some pair (a, b) with a < i and a < b. */
  lemma {:induction false} UptoWitness(rule: PairRule, vs: seq<Constraint>, i: nat, n: nat) returns (a: nat, b: nat)
    requires i <= |vs| && n < |Upto(rule, vs, i)|
    ensures a < i && a < b < |vs| && Upto(rule, vs, i)[n] in rule(vs[a], vs[b])
  {
    assert i > 0;
    var earlier, row := Upto(rule, vs, i - 1), Row(rule, vs, i - 1, |vs|);
    assert Upto(rule, vs, i) == earlier + row;
    if n < |earlier| {
      assert Upto(rule, vs, i)[n] == earlier[n];
      a, b := UptoWitness(rule, vs, i - 1, n);
    } else {
      assert Upto(rule, vs, i)[n] == row[n - |earlier|];
      a := i - 1;
      b := RowWitness(rule, vs, a, |vs|, n - |earlier|);
    }
  }

  /** Row `a` is part of the first `i` rows whenever a < i: its sentence at position `n` sits at position `m` of theirs. */
  lemma {:induction false} RowInUpto(rule: PairRule, vs: seq<Constraint>, a: nat, i: nat, n: nat) returns (m: nat)
    requires a < i <= |vs| && n < |Row(rule, vs, a, |vs|)|
    ensures m < |Upto(rule, vs, i)| && Upto(rule, vs, i)[m] == Row(rule, vs, a, |vs|)[n]
  {
    var earlier, row := Upto(rule, vs, i - 1), Row(rule, vs, i - 1, |vs|);
    assert Upto(rule, vs, i) == earlier + row;
    if a < i - 1 {
      m := RowInUpto(rule, vs, a, i - 1, n);
      assert Upto(rule, vs, i)[m] == earlier[m];
    } else {
      m := |earlier| + n;
      assert Upto(rule, vs, i)[m] == row[n];
    }
  }

  /**
   * A pass yields exactly what the rule yields for the pairs of `vs`: a
   * constraint is derived if and only if some pair yields it.
   */
  lemma PassMembers(rule: PairRule, vs: seq<Constraint>, d: Constraint)
    ensures d in Pass(rule, vs) <==> exists a, b :: 0 <= a < b < |vs| && d in rule(vs[a], vs[b])
  {
    if d in Pass(rule, vs) {
      var n :| 0 <= n < |Pass(rule, vs)| && Pass(rule, vs)[n] == d;
      var a, b := UptoWitness(rule, vs, |vs|, n);
    }
    if exists a, b :: 0 <= a < b < |vs| && d in rule(vs[a], vs[b]) {
      var a, b :| 0 <= a < b < |vs| && d in rule(vs[a], vs[b]);
      RowHas(rule, vs, a, |vs|, b, d);
      var n :| 0 <= n < |Row(rule, vs, a, |vs|)| && Row(rule, vs, a, |vs|)[n] == d;
      var m := RowInUpto(rule, vs, a, |vs|, n);
    }
  }

  /** The AI's pass derives exactly the subset differences of the pairs of `vs`. */
  lemma PairwiseMembers(vs: seq<Constraint>, d: Constraint)
    ensures d in Pairwise(vs) <==> exists a, b :: 0 <= a < b < |vs| && d in Derive(vs[a], vs[b])
  {
    PassMembers(Derive, vs, d);
  }

  /** Every derived constraint lies within the cells of a constraint it came from. */
  lemma PairwiseWithinCells(vs: seq<Constraint>, d: Constraint)
    requires d in Pairwise(vs)
    ensures exists k :: 0 <= k < |vs| && d.cells <= vs[k].cells
  {
    PairwiseMembers(vs, d);
    var a, b :| 0 <= a < b < |vs| && d in Derive(vs[a], vs[b]);
    if vs[a].cells <= vs[b].cells {
      assert d.cells <= vs[b].cells;
    } else {
      assert d.cells <= vs[a].cells;
    }
  }

  /** If every constraint of `vs` is true of a board, so is every derived one. */
  lemma PairwiseSound(board: set<Cell>, vs: seq<Constraint>, d: Constraint)
    requires AllHold(board, vs)
    requires d in Pairwise(vs)
    ensures Holds(board, d)
  {
    PairwiseMembers(vs, d);
    var a, b :| 0 <= a < b < |vs| && d in Derive(vs[a], vs[b]);
    var first, second := vs[a], vs[b];
    assert Holds(board, first) && Holds(board, second);
    if first.cells <= second.cells {
      assert d == Constraint(second.cells - first.cells, second.count - first.count);
      SubsetRuleIsSound(board, first, second);
    } else {
      assert d == Constraint(first.cells - second.cells, first.count - second.count);
      SubsetRuleIsSound(board, second, first);
    }
  }

  /**
   * A value that can sit in a Python set here: a coordinate pair, or a frozen
   * set of cells (Python looks up a set used as an element as its frozen
   * copy).
   */
  datatype PyValue = Pair(row: int, col: int) | Frozen(members: set<Cell>)

  /** The elements of the Python set holding the cells of `cells`: coordinate pairs. */
  function PySet(cells: set<Cell>): (r: set<PyValue>)
    ensures forall c :: c in cells <==> Pair(c.0, c.1) in r
  {
    set c | c in cells :: Pair(c.0, c.1)
  }

  /**
   * The test the source writes, `s1.cells in s2.cells`: whether the frozen
   * copy of the left set is an ELEMENT of the right one.
   */
  predicate ContainsAsWritten(left: set<Cell>, right: set<Cell>)
  {
    Frozen(left) in PySet(right)
  }

  /** The elements of a cell set are pairs, never sets, so the written test fails for every pair of sets. */
  lemma ContainsAsWrittenNeverHolds(left: set<Cell>, right: set<Cell>)
    ensures !ContainsAsWritten(left, right)
  {
  }

  /** What a pair yields with the test as written: nothing, whatever the pair. */
  function DeriveAsWritten(first: Constraint, second: Constraint): (r: seq<Constraint>)
    ensures r == []
  {
    ContainsAsWrittenNeverHolds(first.cells, second.cells);
    ContainsAsWrittenNeverHolds(second.cells, first.cells);
    if ContainsAsWritten(first.cells, second.cells) then
      [Constraint(second.cells - first.cells, second.count - first.count)]
    else if ContainsAsWritten(second.cells, first.cells) then
      [Constraint(first.cells - second.cells, first.count - second.count)]
    else
      []
  }

  /** With the test as written, a pass derives nothing from any knowledge base. */
  lemma AsWrittenDerivesNothing(vs: seq<Constraint>)
    ensures Pass(DeriveAsWritten, vs) == []
  {
    if Pass(DeriveAsWritten, vs) != [] {
      PassMembers(DeriveAsWritten, vs, Pass(DeriveAsWritten, vs)[0]);
    }
  }

  /**
   * A chain the written test misses: {(0,0),(0,1),(0,2)} = 1 followed by
   * {(0,0),(0,1)} = 1.  The intended subset test derives {(0,2)} = 0, which
   * proves (0,2) safe; the written test derives nothing.
   */
  lemma AsWrittenMissesChain()
    ensures var wide := Constraint({(0, 0), (0, 1), (0, 2)}, 1);
            var narrow := Constraint({(0, 0), (0, 1)}, 1);
            && Pass(DeriveAsWritten, [wide, narrow]) == []
            && Pairwise([wide, narrow]) == [Constraint({(0, 2)}, 0)]
  {
    var wide := Constraint({(0, 0), (0, 1), (0, 2)}, 1);
    var narrow := Constraint({(0, 0), (0, 1)}, 1);
    AsWrittenDerivesNothing([wide, narrow]);
    assert narrow.cells <= wide.cells;
    assert !(wide.cells <= narrow.cells) by {
      assert (0, 2) in wide.cells && (0, 2) !in narrow.cells;
    }
    assert wide.cells - narrow.cells == {(0, 2)};
  }

  // ---------------------------------------------------------------------
  // Removal of empty sentences while iterating
  // ---------------------------------------------------------------------

  /**
   * Python's list.remove: drops the first element equal to `v`.  Python
   * raises ValueError when no element equals `v`; the sweep only removes a
   * sentence it has just read from the list, so that case never arises
   * there, and the value given for it (the list unchanged) is for totality.
   */
  function RemoveFirst(vs: seq<Constraint>, v: Constraint): (r: seq<Constraint>)
    ensures v in vs ==> |r| == |vs| - 1
    ensures v !in vs ==> r == vs
  {
    if vs == [] then []
    else
      assert vs == [vs[0]] + vs[1..];
      if vs[0] == v then vs[1..]
      else [vs[0]] + RemoveFirst(vs[1..], v)
  }

  /** The removal takes out exactly one occurrence of `v`, when there is one. */
  lemma {:induction false} RemoveFirstMultiset(vs: seq<Constraint>, v: Constraint)
    requires v in vs
    ensures multiset(RemoveFirst(vs, v)) == multiset(vs) - multiset{v}
  {
    assert vs == [vs[0]] + vs[1..];
    if vs[0] != v {
      RemoveFirstMultiset(vs[1..], v);
    }
  }

  /** Where the first element equal to `v` stands, the removal cuts it out. */
  lemma {:induction false} RemoveFirstAt(vs: seq<Constraint>, v: Constraint, j: nat)
    requires j < |vs| && vs[j] == v
    requires forall k :: 0 <= k < j ==> vs[k] != v
    ensures RemoveFirst(vs, v) == vs[..j] + vs[j + 1..]
  {
    if j > 0 {
      var tail := vs[1..];
      assert forall k :: 0 <= k < j - 1 ==> tail[k] == vs[k + 1];
      RemoveFirstAt(tail, v, j - 1);
      assert RemoveFirst(vs, v) == [vs[0]] + RemoveFirst(tail, v);
      assert tail[..j - 1] == vs[1..j] && tail[j..] == vs[j + 1..];
      assert [vs[0]] + vs[1..j] == vs[..j];
    }
  }

  /**
   * The loop of clean_knowledge on values: the iterator stands at position
   * `i`; an empty sentence there is removed with list.remove (which removes
   * the first EQUAL sentence) and the iterator moves on, so the sentence that
   * slides into position `i` is never looked at.
   */
  function Sweep(vs: seq<Constraint>, i: nat): (r: seq<Constraint>)
    decreases |vs| - i
  {
    if i >= |vs| then vs
    else if vs[i].cells == {} then Sweep(RemoveFirst(vs, vs[i]), i + 1)
    else Sweep(vs, i + 1)
  }

  /** The constraints of `vs` whose cells are not empty, in order. */
  function NonEmpty(vs: seq<Constraint>): (r: seq<Constraint>)
    ensures forall v :: v in r ==> v.cells != {}
  {
    if vs == [] then []
    else if vs[0].cells == {} then NonEmpty(vs[1..])
    else [vs[0]] + NonEmpty(vs[1..])
  }

  lemma {:induction false} NonEmptyIgnoresEmpty(vs: seq<Constraint>, v: Constraint)
    requires v.cells == {}
    ensures NonEmpty(RemoveFirst(vs, v)) == NonEmpty(vs)
  {
    if vs != [] && vs[0] != v {
      NonEmptyIgnoresEmpty(vs[1..], v);
      assert ([vs[0]] + RemoveFirst(vs[1..], v))[1..] == RemoveFirst(vs[1..], v);
    }
  }

  /** The sweep keeps every non-empty constraint, in its original order. */
  lemma {:induction false} SweepKeepsNonEmpty(vs: seq<Constraint>, i: nat)
    ensures NonEmpty(Sweep(vs, i)) == NonEmpty(vs)
    decreases |vs| - i
  {
    if i < |vs| {
      if vs[i].cells == {} {
        SweepKeepsNonEmpty(RemoveFirst(vs, vs[i]), i + 1);
        NonEmptyIgnoresEmpty(vs, vs[i]);
      } else {
        SweepKeepsNonEmpty(vs, i + 1);
      }
    }
  }

  /** The sweep removes constraints of `vs` only, and only empty ones. */
  lemma {:induction false} SweepRemovesOnlyEmpty(vs: seq<Constraint>, i: nat)
    ensures multiset(Sweep(vs, i)) <= multiset(vs)
    ensures forall v :: v in multiset(vs) - multiset(Sweep(vs, i)) ==> v.cells == {}
    decreases |vs| - i
  {
    if i < |vs| {
      if vs[i].cells == {} {
        var rest := RemoveFirst(vs, vs[i]);
        SweepRemovesOnlyEmpty(rest, i + 1);
        RemoveFirstMultiset(vs, vs[i]);
        assert multiset(vs) == multiset(rest) + multiset{vs[i]};
        forall v | v in multiset(vs) - multiset(Sweep(rest, i + 1))
          ensures v.cells == {}
        {
          if v != vs[i] {
            assert v in multiset(rest) - multiset(Sweep(rest, i + 1));
          }
        }
      } else {
        SweepRemovesOnlyEmpty(vs, i + 1);
      }
    }
  }

  /** Whatever the sweep keeps was there before, so a true list stays true. */
  lemma SweepKeepsTruth(board: set<Cell>, vs: seq<Constraint>)
    requires AllHold(board, vs)
    ensures AllHold(board, Sweep(vs, 0))
  {
    var r := Sweep(vs, 0);
    SweepRemovesOnlyEmpty(vs, 0);
    forall k | 0 <= k < |r|
      ensures Holds(board, r[k])
    {
      assert r[k] in multiset(r);
      assert r[k] in vs;
    }
  }

  /** Two empty sentences in a row: the sweep removes the first and skips the second. */
  lemma SweepCanLeaveEmpty()
    ensures var e := Constraint({}, 0); Sweep([e, e], 0) == [e]
  {
    var e := Constraint({}, 0);
    assert RemoveFirst([e, e], e) == [e];
  }
}
