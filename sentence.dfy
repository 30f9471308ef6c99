/** A sentence of the solver's knowledge: "exactly `count` of these `cells` are mines". */
module Sentences {
  import opened Grid

  /** The value of a sentence, used to state what the knowledge base means. */
  datatype Constraint = Constraint(cells: set<Cell>, count: int) {

    /** The sentence is true of the mine set `m`. */
    ghost predicate HoldsFor(m: set<Cell>)
    {
      |cells * m| == count
    }

    /** The sentence once `c` is known to be a mine. */
    function MineRemoved(c: Cell): (r: Constraint)
      ensures c !in r.cells
      ensures c in cells ==> r.cells == cells - {c} && r.count == count - 1
      ensures c !in cells ==> r == this
    {
      if c in cells then Constraint(cells - {c}, count - 1) else this
    }

    /** The sentence once `c` is known to be safe. */
    function SafeRemoved(c: Cell): (r: Constraint)
      ensures c !in r.cells
      ensures r.cells == cells - {c} && r.count == count
    {
      Constraint(cells - {c}, count)
    }

    /**
     * The sentence once every cell of `ms` is known to be a mine and every cell of `ss` safe:
     * the known cells leave it, and the count drops by its cells in `ms`.
     */
    ghost function Resolved(ms: set<Cell>, ss: set<Cell>): Constraint
    {
      Constraint(cells - ms - ss, count - |cells * ms|)
    }

    /** `known_mines()` or `known_safes()` gives a non-empty set. */
    predicate Decisive()
    {
      cells != {} && (count == |cells| || count == 0)
    }
  }

  /** Resolving nothing changes nothing; a sentence clear of the resolved cells is unchanged. */
  lemma ResolvedClear(k: Constraint, ms: set<Cell>, ss: set<Cell>)
    requires k.cells !! (ms + ss)
    ensures k.Resolved(ms, ss) == k
  {
    assert k.cells * ms == {};
  }

  /** A single mark is a resolution by one cell. */
  lemma MarksAreResolved(k: Constraint, c: Cell)
    ensures k.MineRemoved(c) == k.Resolved({c}, {})
    ensures k.SafeRemoved(c) == k.Resolved({}, {c})
  {
    if c in k.cells {
      assert k.cells * {c} == {c};
    } else {
      assert k.cells * {c} == {};
    }
  }

  /** Marking one more mine after resolving is resolving with one more mine. */
  lemma ResolvedThenMine(k: Constraint, ms: set<Cell>, ss: set<Cell>, c: Cell)
    requires c !in ss
    ensures k.Resolved(ms, ss).MineRemoved(c) == k.Resolved(ms + {c}, ss)
  {
    var r := k.Resolved(ms, ss);
    if c in k.cells && c !in ms {
      assert c in r.cells;
      assert k.cells * (ms + {c}) == k.cells * ms + {c};
      assert r.cells - {c} == k.cells - (ms + {c}) - ss;
    } else {
      assert c !in r.cells;
      assert k.cells * (ms + {c}) == k.cells * ms;
      assert r.cells == k.cells - (ms + {c}) - ss;
    }
  }

  /** Marking one more safe cell after resolving is resolving with one more safe cell. */
  lemma ResolvedThenSafe(k: Constraint, ms: set<Cell>, ss: set<Cell>, c: Cell)
    ensures k.Resolved(ms, ss).SafeRemoved(c) == k.Resolved(ms, ss + {c})
  {
    assert k.cells - ms - ss - {c} == k.cells - ms - (ss + {c});
  }

  /** Resolving twice is resolving once with the unions, if no new mine was resolved safe before. */
  lemma ResolvedTwice(k: Constraint, ms: set<Cell>, ss: set<Cell>, ms2: set<Cell>, ss2: set<Cell>)
    requires ms2 !! ss
    ensures k.Resolved(ms, ss).Resolved(ms2, ss2) == k.Resolved(ms + ms2, ss + ss2)
  {
    var c := k.cells;
    assert (c - ms - ss) * ms2 == (c - ms) * ms2;
    assert c * (ms + ms2) == c * ms + (c - ms) * ms2;
    assert c * ms !! (c - ms) * ms2;
    assert c - ms - ss - ms2 - ss2 == c - (ms + ms2) - (ss + ss2);
  }

  /** Resolving true mines and true non-mines keeps a true sentence true. */
  lemma ResolvedHolds(k: Constraint, ms: set<Cell>, ss: set<Cell>, m: set<Cell>)
    requires ms <= m && ss !! m && k.HoldsFor(m)
    ensures k.Resolved(ms, ss).HoldsFor(m)
  {
    var c := k.cells;
    assert (c - ms - ss) * m == (c - ms) * m;
    assert c * m == c * ms + (c - ms) * m;
    assert c * ms !! (c - ms) * m;
  }

  /** Taking a true mine out of a true sentence leaves a true sentence. */
  lemma MineRemovedHolds(k: Constraint, c: Cell, m: set<Cell>)
    requires c in m && k.HoldsFor(m)
    ensures k.MineRemoved(c).HoldsFor(m)
  {
    if c in k.cells {
      assert (k.cells - {c}) * m == k.cells * m - {c};
    }
  }

  /** Taking a cell that is not a mine out of a true sentence leaves a true sentence. */
  lemma SafeRemovedHolds(k: Constraint, c: Cell, m: set<Cell>)
    requires c !in m && k.HoldsFor(m)
    ensures k.SafeRemoved(c).HoldsFor(m)
  {
    assert (k.cells - {c}) * m == k.cells * m;
  }

  /** Marking the same cell twice has the effect of marking it once. */
  lemma MarkTwice(k: Constraint, c: Cell)
    ensures k.MineRemoved(c).MineRemoved(c) == k.MineRemoved(c)
    ensures k.SafeRemoved(c).SafeRemoved(c) == k.SafeRemoved(c)
  {
  }

  /** A true sentence has a count between 0 and the number of its cells. */
  lemma HoldsBounds(k: Constraint, m: set<Cell>)
    requires k.HoldsFor(m)
    ensures 0 <= k.count <= |k.cells|
  {
    SubsetCardinality(k.cells * m, k.cells);
  }

  class Sentence {
    var cells: set<Cell>
    var count: int

    function Value(): Constraint
      reads this
    {
      Constraint(cells, count)
    }

    constructor (cells: set<Cell>, count: int)
      ensures Value() == Constraint(cells, count)
    {
      this.cells := cells;
      this.count := count;
    }

    /** Python's `__eq__`: the same cells and the same count, whatever the object. */
    predicate Equals(other: Sentence)
      reads this, other
      ensures Equals(other) <==> Value() == other.Value()
    {
      cells == other.cells && count == other.count
    }

    /** All cells are mines when the count equals their number; otherwise no conclusion. */
    function KnownMines(): (r: Option<set<Cell>>)
      reads this
      ensures r.Some? <==> count == |cells|
      ensures r.Some? ==> r.value == cells
    {
      if count == |cells| then Some(cells) else None
    }

    /** All cells are safe when the count is zero; otherwise no conclusion. */
    function KnownSafes(): (r: Option<set<Cell>>)
      reads this
      ensures r.Some? <==> count == 0
      ensures r.Some? ==> r.value == cells
    {
      if count == 0 then Some(cells) else None
    }

    /** What `KnownMines` reports of a true sentence are mines. */
    lemma KnownMinesAreMines(m: set<Cell>)
      requires Value().HoldsFor(m)
      ensures KnownMines().Some? ==> KnownMines().value <= m
    {
      SubsetCardinality(cells * m, cells);
    }

    /** What `KnownSafes` reports of a true sentence are not mines. */
    lemma KnownSafesAreSafe(m: set<Cell>)
      requires Value().HoldsFor(m)
      ensures KnownSafes().Some? ==> KnownSafes().value !! m
    {
      if count == 0 {
        forall x | x in cells ensures x !in m {
          assert x !in cells * m;
        }
      }
    }

    method MarkMine(c: Cell)
      modifies this
      ensures Value() == old(Value()).MineRemoved(c)
    {
      if c in cells {
        cells := cells - {c};
        count := count - 1;
      }
    }

    method MarkSafe(c: Cell)
      modifies this
      ensures Value() == old(Value()).SafeRemoved(c)
    {
      if c in cells {
        cells := cells - {c};
      }
    }
  }
}
