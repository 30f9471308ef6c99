/** The solver: a knowledge base of sentences, known mines, known safe cells and the moves made. */
module Solver {
  import opened Grid
  import opened Sentences

  /** The value of the solver's knowledge at one moment. */
  datatype Knowledge = Knowledge(movesMade: set<Cell>, mines: set<Cell>, safes: set<Cell>, sentences: seq<Constraint>) {

    /** Everything known is true of the mine set `m`: the sentences hold and no mark is wrong. */
    ghost predicate SoundFor(m: set<Cell>)
    {
      mines <= m && safes !! m &&
      forall i :: 0 <= i < |sentences| ==> sentences[i].HoldsFor(m)
    }

    /** No sentence still mentions a cell that has been marked. */
    ghost predicate Unresolved()
    {
      forall i :: 0 <= i < |sentences| ==> sentences[i].cells !! (mines + safes)
    }

    /** The knowledge after `c` is marked as a mine everywhere. */
    ghost function WithMine(c: Cell): Knowledge
    {
      Knowledge(movesMade, mines + {c}, safes,
                seq(|sentences|, i requires 0 <= i < |sentences| => sentences[i].MineRemoved(c)))
    }

    /** The knowledge after `c` is marked as safe everywhere. */
    ghost function WithSafe(c: Cell): Knowledge
    {
      Knowledge(movesMade, mines, safes + {c},
                seq(|sentences|, i requires 0 <= i < |sentences| => sentences[i].SafeRemoved(c)))
    }

    /** The knowledge after the cells of `ms` are marked as mines and those of `ss` as safe. */
    ghost function Resolved(ms: set<Cell>, ss: set<Cell>): Knowledge
    {
      Knowledge(movesMade, mines + ms, safes + ss, ResolveAll(sentences, ms, ss))
    }
  }

  /** Every sentence of `fs` resolved with the mines `ms` and the safe cells `ss`. */
  ghost function ResolveAll(fs: seq<Constraint>, ms: set<Cell>, ss: set<Cell>): (r: seq<Constraint>)
    ensures |r| == |fs|
  {
    seq(|fs|, i requires 0 <= i < |fs| => fs[i].Resolved(ms, ss))
  }

  /** The elements of `xs` at the positions where `fs` has a sentence with cells, in order. */
  ghost function Keep<T>(xs: seq<T>, fs: seq<Constraint>): seq<T>
    requires |xs| == |fs|
    decreases |xs|
  {
    if xs == [] then []
    else Keep(xs[..|xs| - 1], fs[..|fs| - 1]) + (if fs[|fs| - 1].cells != {} then [xs[|xs| - 1]] else [])
  }

  /** `Keep` over one more element of a prefix. */
  lemma KeepStep<T>(xs: seq<T>, fs: seq<Constraint>, k: nat)
    requires |xs| == |fs| && k < |xs|
    ensures Keep(xs[..k + 1], fs[..k + 1]) ==
            Keep(xs[..k], fs[..k]) + (if fs[k].cells != {} then [xs[k]] else [])
  {
    assert xs[..k + 1][..k] == xs[..k] && fs[..k + 1][..k] == fs[..k];
  }

  /** The sentences of `fs` that have cells, in order. */
  ghost function NonEmpty(fs: seq<Constraint>): seq<Constraint>
  {
    Keep(fs, fs)
  }

  /** `Keep` takes its elements from `xs`. */
  lemma {:induction false} KeepFrom<T>(xs: seq<T>, fs: seq<Constraint>)
    requires |xs| == |fs|
    ensures forall i :: 0 <= i < |Keep(xs, fs)| ==> Keep(xs, fs)[i] in xs
    decreases |xs|
  {
    if xs != [] {
      KeepFrom(xs[..|xs| - 1], fs[..|fs| - 1]);
    }
  }

  /** `Keep` keeps distinct elements distinct. */
  lemma {:induction false} KeepDistinct<T>(xs: seq<T>, fs: seq<Constraint>)
    requires |xs| == |fs|
    requires forall i, j :: 0 <= i < j < |xs| ==> xs[i] != xs[j]
    ensures forall i, j :: 0 <= i < j < |Keep(xs, fs)| ==> Keep(xs, fs)[i] != Keep(xs, fs)[j]
    decreases |xs|
  {
    if xs != [] {
      var n := |xs| - 1;
      KeepDistinct(xs[..n], fs[..n]);
      KeepFrom(xs[..n], fs[..n]);
      assert xs[n] !in xs[..n];
    }
  }

  /** Sentences kept beside their values keep their values. */
  lemma {:induction false} KeepValues(ks: seq<Sentences.Sentence>, fs: seq<Constraint>)
    requires |ks| == |fs| && forall i :: 0 <= i < |ks| ==> ks[i].Value() == fs[i]
    ensures |Keep(ks, fs)| == |NonEmpty(fs)|
    ensures forall i :: 0 <= i < |Keep(ks, fs)| ==> Keep(ks, fs)[i].Value() == NonEmpty(fs)[i]
    decreases |ks|
  {
    if ks != [] {
      var n := |ks| - 1;
      KeepValues(ks[..n], fs[..n]);
    }
  }

  /** `NonEmpty` keeps exactly the sentences with cells. */
  lemma {:induction false} NonEmptyExactly(fs: seq<Constraint>)
    ensures forall i :: 0 <= i < |NonEmpty(fs)| ==> NonEmpty(fs)[i] in fs && NonEmpty(fs)[i].cells != {}
    ensures forall f :: f in fs && f.cells != {} ==> f in NonEmpty(fs)
    decreases |fs|
  {
    if fs != [] {
      var front, last := fs[..|fs| - 1], fs[|fs| - 1];
      NonEmptyExactly(front);
      assert fs == front + [last];
      var tail := if last.cells != {} then [last] else [];
      assert NonEmpty(fs) == NonEmpty(front) + tail;
      forall i | 0 <= i < |NonEmpty(fs)| ensures NonEmpty(fs)[i] in fs && NonEmpty(fs)[i].cells != {} {
        if i < |NonEmpty(front)| {
          assert NonEmpty(fs)[i] == NonEmpty(front)[i];
        }
      }
    }
  }

  /** Marking a cell twice everywhere, as a mine or as safe, has the effect of marking it once. */
  lemma MarkTwiceAll(k: Knowledge, c: Cell)
    ensures k.WithMine(c).WithMine(c) == k.WithMine(c)
    ensures k.WithSafe(c).WithSafe(c) == k.WithSafe(c)
  {
    forall i | 0 <= i < |k.sentences|
      ensures k.WithMine(c).WithMine(c).sentences[i] == k.WithMine(c).sentences[i]
      ensures k.WithSafe(c).WithSafe(c).sentences[i] == k.WithSafe(c).sentences[i]
    {
      MarkTwice(k.sentences[i], c);
    }
  }

  /** A single mark is a resolution by one cell. */
  lemma MarksAreResolvedAll(k: Knowledge, c: Cell)
    ensures k.WithMine(c) == k.Resolved({c}, {})
    ensures k.WithSafe(c) == k.Resolved({}, {c})
  {
    forall i | 0 <= i < |k.sentences|
      ensures k.WithMine(c).sentences[i] == k.Resolved({c}, {}).sentences[i]
      ensures k.WithSafe(c).sentences[i] == k.Resolved({}, {c}).sentences[i]
    {
      MarksAreResolved(k.sentences[i], c);
    }
  }

  /** Sentences clear of the marks mention no marked cell. */
  lemma MentionedClear(k: Knowledge)
    requires k.Unresolved()
    ensures Mentioned(k.sentences) !! (k.mines + k.safes)
  {
    forall x | x in Mentioned(k.sentences) ensures x !in k.mines + k.safes {
      var i :| 0 <= i < |k.sentences| && x in k.sentences[i].cells;
    }
  }

  /** Making no mark is an inference. */
  lemma InferredNothing(k: Knowledge)
    ensures Inferred(k, k)
  {
    forall i | 0 <= i < |k.sentences| ensures k.Resolved({}, {}).sentences[i] == k.sentences[i] {
      ResolvedClear(k.sentences[i], {}, {});
    }
    assert k.mines - k.mines == {} && k.safes - k.safes == {};
  }

  /** Marking sound cells mentioned by clear sentences is an inference. */
  lemma InferredByMarks(k: Knowledge, ms: set<Cell>, ss: set<Cell>)
    requires k.Unresolved() && ms + ss <= Mentioned(k.sentences)
    requires forall m :: k.SoundFor(m) ==> ms <= m && ss !! m
    ensures Inferred(k, k.Resolved(ms, ss))
  {
    MentionedClear(k);
    var k1 := k.Resolved(ms, ss);
    assert k1.mines - k.mines == ms && k1.safes - k.safes == ss;
    forall m | k.SoundFor(m) ensures k1.SoundFor(m) {
      ResolvedSound(k, ms, ss, m);
    }
  }

  /** Marking one mentioned cell that every consistent mine set agrees on is an inference. */
  lemma InferredByOne(k0: Knowledge, k1: Knowledge, d: Cell, mine: bool)
    requires k0.Unresolved() && d in Mentioned(k0.sentences)
    requires k1 == if mine then k0.WithMine(d) else k0.WithSafe(d)
    requires forall m :: k0.SoundFor(m) ==> k1.SoundFor(m)
    ensures Inferred(k0, k1)
  {
    MarksAreResolvedAll(k0, d);
    if mine {
      forall m | k0.SoundFor(m) ensures {d} <= m && {} !! m {
        assert k1.SoundFor(m);
      }
      InferredByMarks(k0, {d}, {});
    } else {
      forall m | k0.SoundFor(m) ensures {} <= m && {d} !! m {
        assert k1.SoundFor(m);
      }
      InferredByMarks(k0, {}, {d});
    }
  }

  /** Two inferences in a row are one. */
  lemma InferredTrans(k0: Knowledge, k1: Knowledge, k2: Knowledge)
    requires Inferred(k0, k1) && Inferred(k1, k2) && k1.Unresolved()
    ensures Inferred(k0, k2)
  {
    var a1, b1 := k1.mines - k0.mines, k1.safes - k0.safes;
    var a2, b2 := k2.mines - k1.mines, k2.safes - k1.safes;
    MentionedClear(k1);
    MentionedResolved(k0.sentences, a1, b1);
    assert a2 !! b1;
    ResolvedTwiceAll(k0, a1, b1, a2, b2);
    assert a1 + a2 == k2.mines - k0.mines && b1 + b2 == k2.safes - k0.safes;
  }

  /** Marking to a state where no sentence decides anything and then dropping empties closes. */
  lemma ClosedByDropping(k0: Knowledge, marked: Knowledge, k1: Knowledge)
    requires Inferred(k0, marked)
    requires forall i :: 0 <= i < |marked.sentences| ==> !marked.sentences[i].Decisive()
    requires k1 == Knowledge(marked.movesMade, marked.mines, marked.safes, NonEmpty(marked.sentences))
    ensures DirectlyClosed(k0, k1)
  {
    NonEmptyExactly(marked.sentences);
    forall i | 0 <= i < |k1.sentences| ensures !k1.sentences[i].Decisive() {
      assert k1.sentences[i] in marked.sentences;
    }
  }

  /** Resolving both sentences of a subset pair resolves their difference. */
  lemma ResolvedDifference(a: Constraint, b: Constraint, ms: set<Cell>, ss: set<Cell>)
    requires a.cells <= b.cells
    ensures b.Resolved(ms, ss).cells - a.Resolved(ms, ss).cells == (b.cells - a.cells) - ms - ss
    ensures b.Resolved(ms, ss).count - a.Resolved(ms, ss).count == (b.count - a.count) - |(b.cells - a.cells) * ms|
  {
    var d := b.cells - a.cells;
    assert b.cells * ms == a.cells * ms + d * ms;
    assert a.cells * ms !! d * ms;
  }

  /** A difference holding all its cells as mines keeps doing so once resolved by sound marks. */
  lemma AllMinesResolved(d: set<Cell>, n: int, ms: set<Cell>, ss: set<Cell>, m: set<Cell>)
    requires Constraint(d, n).HoldsFor(m) && n == |d| && ms <= m && ss !! m
    ensures |d - ms - ss| == n - |d * ms| && d <= ms + (d - ms - ss)
  {
    SubsetCardinality(d * m, d);
    assert d <= m;
    assert d - ms - ss == d - ms;
    assert d == (d - ms) + d * ms && (d - ms) !! d * ms;
  }

  /** A difference holding no mine keeps doing so once resolved by sound marks. */
  lemma NoMinesResolved(d: set<Cell>, n: int, ms: set<Cell>, ss: set<Cell>, m: set<Cell>)
    requires Constraint(d, n).HoldsFor(m) && n == 0 && ms <= m
    ensures |d * ms| == 0 && d <= ss + (d - ms - ss)
  {
    assert d * m == {};
    assert d * ms == {} by {
      forall x | x in d * ms ensures x in d * m { }
    }
    assert d - ms == d by {
      forall x | x in d ensures x !in ms {
        assert x in ms ==> x in d * ms;
      }
    }
  }

  /** What a sentence true wherever `k` is decides about cells `k` mentions may be marked. */
  lemma DecidedInferred(k: Knowledge, d: Constraint)
    requires k.Unresolved() && d.cells <= Mentioned(k.sentences)
    requires forall m :: k.SoundFor(m) ==> d.HoldsFor(m)
    ensures d.count == |d.cells| ==> Inferred(k, k.Resolved(d.cells, {}))
    ensures d.count == 0 ==> Inferred(k, k.Resolved({}, d.cells))
  {
    forall m | k.SoundFor(m) ensures (d.count == |d.cells| ==> d.cells <= m) && (d.count == 0 ==> d.cells !! m) {
      SubsetCardinality(d.cells * m, d.cells);
      if d.count == 0 {
        forall x | x in d.cells ensures x !in m {
          assert x !in d.cells * m;
        }
      }
    }
    if d.count == |d.cells| {
      InferredByMarks(k, d.cells, {});
    }
    if d.count == 0 {
      InferredByMarks(k, {}, d.cells);
    }
  }

  /** A subset pair of resolved sentences whose conclusion was drawn had it drawn for the originals. */
  lemma ConcludedThroughResolve(a: Constraint, b: Constraint, ms: set<Cell>, ss: set<Cell>,
                                mines: set<Cell>, safes: set<Cell>, m: set<Cell>)
    requires a.HoldsFor(m) && b.HoldsFor(m) && ms <= m && ss !! m
    requires ms <= mines && ss <= safes
    requires SubsetConcluded(a.Resolved(ms, ss), b.Resolved(ms, ss), mines, safes)
    ensures SubsetConcluded(a, b, mines, safes)
  {
    if a.cells <= b.cells {
      var d, n := b.cells - a.cells, b.count - a.count;
      ResolvedDifference(a, b, ms, ss);
      DifferenceHolds(a, b, m);
      if n == |d| {
        AllMinesResolved(d, n, ms, ss, m);
      }
      if n == 0 {
        NoMinesResolved(d, n, ms, ss, m);
      }
    }
  }

  /** Concluded pairs stay concluded as the marks grow. */
  lemma ConcludedGrows(fs: seq<Constraint>, i: int, j: int, mines: set<Cell>, safes: set<Cell>,
                       mines2: set<Cell>, safes2: set<Cell>)
    requires ConcludedBefore(fs, i, j, mines, safes) && mines <= mines2 && safes <= safes2
    ensures ConcludedBefore(fs, i, j, mines2, safes2)
  {
  }

  /** One more pair concluded extends the scan by one. */
  lemma ConcludedNext(fs: seq<Constraint>, i: int, j: int, mines: set<Cell>, safes: set<Cell>)
    requires 0 <= i < |fs| && 0 <= j < |fs|
    requires ConcludedBefore(fs, i, j, mines, safes) && SubsetConcluded(fs[i], fs[j], mines, safes)
    ensures ConcludedBefore(fs, i, j + 1, mines, safes)
  {
  }

  /** A finished row of the scan is the start of the next. */
  lemma ConcludedRow(fs: seq<Constraint>, i: int, mines: set<Cell>, safes: set<Cell>)
    requires ConcludedBefore(fs, i, |fs|, mines, safes)
    ensures ConcludedBefore(fs, i + 1, 0, mines, safes)
  {
  }

  /** The sentence `{c} = 1` alone: direct inference marks `c` as a mine. */
  lemma SingleMineExample(c: Cell, after: Knowledge)
    requires DirectlyClosed(Knowledge({}, {}, {}, [Constraint({c}, 1)]), after)
    ensures c in after.mines
  {
    var k := Constraint({c}, 1);
    var k0 := Knowledge({}, {}, {}, [k]);
    var ms, ss := after.mines - {}, after.safes - {};
    var marked := Knowledge({}, after.mines, after.safes, ResolveAll([k], ms, ss));
    assert Inferred(k0, marked) && after.sentences == NonEmpty(marked.sentences);
    assert k0.SoundFor({c}) by {
      assert {c} * {c} == {c};
    }
    assert c !in ss by {
      assert marked.SoundFor({c});
    }
    UntouchedSingle(c, ms, ss);
    assert marked.sentences == [k.Resolved(ms, ss)];
    NonEmptySingle(k.Resolved(ms, ss));
  }

  /** The sentence `{(2,2), (2,3)} = 0` alone: direct inference marks both cells safe. */
  lemma SafePairExample(after: Knowledge)
    requires DirectlyClosed(Knowledge({}, {}, {}, [Constraint({Cell(2, 2), Cell(2, 3)}, 0)]), after)
    ensures Cell(2, 2) in after.safes && Cell(2, 3) in after.safes
  {
    var k := Constraint({Cell(2, 2), Cell(2, 3)}, 0);
    var k0 := Knowledge({}, {}, {}, [k]);
    var ms, ss := after.mines - {}, after.safes - {};
    var marked := Knowledge({}, after.mines, after.safes, ResolveAll([k], ms, ss));
    assert Inferred(k0, marked) && after.sentences == NonEmpty(marked.sentences);
    assert k0.SoundFor({}) by {
      assert k.cells * {} == {};
    }
    assert ms == {} by {
      assert marked.SoundFor({});
    }
    NoMineResolved(k.cells, ms, ss);
    assert marked.sentences == [k.Resolved(ms, ss)];
    NonEmptySingle(k.Resolved(ms, ss));
  }

  /** A sentence with count 0 that no mine touches loses only its safe cells. */
  lemma NoMineResolved(cells: set<Cell>, ms: set<Cell>, ss: set<Cell>)
    ensures ms == {} ==> Constraint(cells, 0).Resolved(ms, ss) == Constraint(cells - ss, 0)
  {
    if ms == {} {
      assert cells * ms == {};
    }
  }

  /** A single-cell sentence that no mark touches is unchanged by resolution. */
  lemma UntouchedSingle(c: Cell, ms: set<Cell>, ss: set<Cell>)
    ensures c !in ms + ss ==> Constraint({c}, 1).Resolved(ms, ss) == Constraint({c}, 1)
  {
    if c !in ms + ss {
      assert {c} * ms == {};
    }
  }

  /** A lone sentence with cells is kept. */
  lemma NonEmptySingle(s: Constraint)
    ensures s.cells != {} ==> NonEmpty([s]) == [s]
  {
    assert [s][..0] == [];
    assert Keep([s][..0], [s][..0]) == [];
  }

  /** `{(0,0), (0,1)} = 1` inside `{(0,0), (0,1), (0,2)} = 1`: subset inference marks `(0,2)` safe. */
  lemma SubsetSafeExample(after: Knowledge)
    requires SubsetInferred(Knowledge({}, {}, {}, [Constraint({Cell(0, 0), Cell(0, 1)}, 1),
                                                   Constraint({Cell(0, 0), Cell(0, 1), Cell(0, 2)}, 1)]), after)
    ensures Cell(0, 2) in after.safes
  {
    var a := Constraint({Cell(0, 0), Cell(0, 1)}, 1);
    var b := Constraint({Cell(0, 0), Cell(0, 1), Cell(0, 2)}, 1);
    var before := Knowledge({}, {}, {}, [a, b]);
    SubsetExampleSound(a, b);
    assert before.sentences[0] == a && before.sentences[1] == b;
    assert SubsetConcluded(a, b, after.mines, after.safes);
    assert b.cells - a.cells == {Cell(0, 2)};
  }

  /** The two sentences of `SubsetSafeExample` both hold when `(0,0)` is the mine. */
  lemma SubsetExampleSound(a: Constraint, b: Constraint)
    requires a == Constraint({Cell(0, 0), Cell(0, 1)}, 1)
    requires b == Constraint({Cell(0, 0), Cell(0, 1), Cell(0, 2)}, 1)
    ensures Knowledge({}, {}, {}, [a, b]).SoundFor({Cell(0, 0)})
  {
    assert a.cells * {Cell(0, 0)} == {Cell(0, 0)};
    assert b.cells * {Cell(0, 0)} == {Cell(0, 0)};
  }

  /** Marking one more mine after resolving is resolving with one more mine. */
  lemma ResolvedThenMineAll(k: Knowledge, ms: set<Cell>, ss: set<Cell>, c: Cell)
    requires c !in ss
    ensures k.Resolved(ms, ss).WithMine(c) == k.Resolved(ms + {c}, ss)
  {
    forall i | 0 <= i < |k.sentences|
      ensures k.Resolved(ms, ss).WithMine(c).sentences[i] == k.Resolved(ms + {c}, ss).sentences[i]
    {
      ResolvedThenMine(k.sentences[i], ms, ss, c);
    }
  }

  /** Marking one more safe cell after resolving is resolving with one more safe cell. */
  lemma ResolvedThenSafeAll(k: Knowledge, ms: set<Cell>, ss: set<Cell>, c: Cell)
    ensures k.Resolved(ms, ss).WithSafe(c) == k.Resolved(ms, ss + {c})
  {
    forall i | 0 <= i < |k.sentences|
      ensures k.Resolved(ms, ss).WithSafe(c).sentences[i] == k.Resolved(ms, ss + {c}).sentences[i]
    {
      ResolvedThenSafe(k.sentences[i], ms, ss, c);
    }
  }

  /** Resolving twice is resolving once with the unions, if no new mine was resolved safe before. */
  lemma ResolvedTwiceAll(k: Knowledge, ms: set<Cell>, ss: set<Cell>, ms2: set<Cell>, ss2: set<Cell>)
    requires ms2 !! ss
    ensures k.Resolved(ms, ss).Resolved(ms2, ss2) == k.Resolved(ms + ms2, ss + ss2)
  {
    forall i | 0 <= i < |k.sentences|
      ensures k.Resolved(ms, ss).Resolved(ms2, ss2).sentences[i] == k.Resolved(ms + ms2, ss + ss2).sentences[i]
    {
      ResolvedTwice(k.sentences[i], ms, ss, ms2, ss2);
    }
  }

  /** Knowledge whose sentences are clear of its marks is its own resolution by those marks. */
  lemma ResolvedByOwnMarks(k: Knowledge)
    requires k.Unresolved()
    ensures k.Resolved(k.mines, k.safes) == k
    ensures k.Resolved({}, {}) == k
  {
    forall i | 0 <= i < |k.sentences|
      ensures k.Resolved(k.mines, k.safes).sentences[i] == k.sentences[i]
      ensures k.Resolved({}, {}).sentences[i] == k.sentences[i]
    {
      ResolvedClear(k.sentences[i], k.mines, k.safes);
      ResolvedClear(k.sentences[i], {}, {});
    }
  }

  /** Resolving true mines and true non-mines keeps sound knowledge sound. */
  lemma ResolvedSound(k: Knowledge, ms: set<Cell>, ss: set<Cell>, m: set<Cell>)
    requires ms <= m && ss !! m && k.SoundFor(m)
    ensures k.Resolved(ms, ss).SoundFor(m)
  {
    forall i | 0 <= i < |k.sentences| ensures k.Resolved(ms, ss).sentences[i].HoldsFor(m) {
      ResolvedHolds(k.sentences[i], ms, ss, m);
    }
  }

  /** Resolving takes exactly the resolved cells out of the cells the sentences mention. */
  lemma MentionedResolved(fs: seq<Constraint>, ms: set<Cell>, ss: set<Cell>)
    ensures Mentioned(ResolveAll(fs, ms, ss)) == Mentioned(fs) - ms - ss
  {
    var after := ResolveAll(fs, ms, ss);
    forall x ensures x in Mentioned(after) <==> x in Mentioned(fs) - ms - ss {
      if x in Mentioned(fs) - ms - ss {
        var i :| 0 <= i < |fs| && x in fs[i].cells;
        assert x in after[i].cells;
      }
      if x in Mentioned(after) {
        var i :| 0 <= i < |after| && x in after[i].cells;
        assert x in fs[i].cells;
      }
    }
  }

  /**
   * `k1` is `k0` with some of the cells its sentences mention marked: every sentence is resolved
   * by the new marks, and knowledge true of a mine set stays true of it.
   */
  ghost predicate Inferred(k0: Knowledge, k1: Knowledge)
  {
    k0.mines <= k1.mines && k0.safes <= k1.safes &&
    (k1.mines - k0.mines) + (k1.safes - k0.safes) <= Mentioned(k0.sentences) &&
    k1.movesMade == k0.movesMade &&
    k1.sentences == ResolveAll(k0.sentences, k1.mines - k0.mines, k1.safes - k0.safes) &&
    forall m :: k0.SoundFor(m) ==> k1.SoundFor(m)
  }

  /**
   * What `check_knowledge` achieves from `k0`: some mentioned cells are marked, the sentences left
   * empty are dropped, and no remaining sentence yields a conclusion.
   */
  ghost predicate DirectlyClosed(k0: Knowledge, k1: Knowledge)
  {
    var marked := Knowledge(k0.movesMade, k1.mines, k1.safes,
                            ResolveAll(k0.sentences, k1.mines - k0.mines, k1.safes - k0.safes));
    Inferred(k0, marked) &&
    k1.movesMade == k0.movesMade && k1.sentences == NonEmpty(marked.sentences) &&
    forall i :: 0 <= i < |k1.sentences| ==> !k1.sentences[i].Decisive()
  }

  /** For a subset pair `a`, `b`, the cells of `b` outside `a` are marked when the counts decide them. */
  ghost predicate SubsetConcluded(a: Constraint, b: Constraint, mines: set<Cell>, safes: set<Cell>)
  {
    a.cells <= b.cells ==>
      (b.count - a.count == |b.cells - a.cells| ==> b.cells - a.cells <= mines) &&
      (b.count - a.count == 0 ==> b.cells - a.cells <= safes)
  }

  /** `SubsetConcluded` for the ordered pairs `(fs[p], fs[q])` a row-major scan meets before `(i, j)`. */
  ghost predicate ConcludedBefore(fs: seq<Constraint>, i: int, j: int, mines: set<Cell>, safes: set<Cell>)
  {
    forall p, q :: 0 <= p < |fs| && 0 <= q < |fs| && (p < i || (p == i && q < j)) ==>
      SubsetConcluded(fs[p], fs[q], mines, safes)
  }

  /**
   * What `extra_inference` achieves from `k0`: marks drawn as in `Inferred`, and, when `k0` is true
   * of some mine set, every decisive subset difference of `k0`'s sentences marked.
   */
  ghost predicate SubsetInferred(k0: Knowledge, k1: Knowledge)
  {
    Inferred(k0, k1) &&
    ((exists m :: k0.SoundFor(m)) ==> ConcludedBefore(k0.sentences, |k0.sentences|, 0, k1.mines, k1.safes))
  }

  /**
   * The knowledge after a move to `c` with clue `count`: the move recorded, `c` marked safe, and the
   * sentence over the unmarked cells of `close` appended when it has cells.
   */
  ghost function Recorded(k: Knowledge, close: set<Cell>, c: Cell, count: int): Knowledge
  {
    var safe := Knowledge(k.movesMade + {c}, k.mines, k.safes, k.sentences).WithSafe(c);
    var clue := Constraint(close - safe.mines - safe.safes, count - |close * safe.mines|);
    if clue.cells == {} then safe
    else Knowledge(safe.movesMade, safe.mines, safe.safes, safe.sentences + [clue])
  }

  /** Every cell some sentence mentions. */
  ghost function Mentioned(ks: seq<Constraint>): set<Cell>
  {
    set i, x | 0 <= i < |ks| && x in ks[i].cells :: x
  }

  /** Python's `abs`. */
  function Abs(x: int): nat
  {
    if x < 0 then -x else x
  }

  /** Python's truth value of a `known_mines()`/`known_safes()` result: a non-empty set. */
  predicate Truthy(o: Option<set<Cell>>)
  {
    o.Some? && o.value != {}
  }

  /** A sentence from which `check_knowledge` draws a conclusion. */
  predicate Decisive(s: Sentence)
    reads s
    ensures Decisive(s) <==> s.Value().Decisive()
  {
    Truthy(s.KnownMines()) || Truthy(s.KnownSafes())
  }

  /** Marking a true mine keeps sound knowledge sound. */
  lemma WithMineSound(k: Knowledge, c: Cell, m: set<Cell>)
    requires c in m && k.SoundFor(m)
    ensures k.WithMine(c).SoundFor(m)
  {
    forall i | 0 <= i < |k.sentences| ensures k.WithMine(c).sentences[i].HoldsFor(m) {
      MineRemovedHolds(k.sentences[i], c, m);
    }
  }

  /** Marking a cell that holds no mine keeps sound knowledge sound. */
  lemma WithSafeSound(k: Knowledge, c: Cell, m: set<Cell>)
    requires c !in m && k.SoundFor(m)
    ensures k.WithSafe(c).SoundFor(m)
  {
    forall i | 0 <= i < |k.sentences| ensures k.WithSafe(c).sentences[i].HoldsFor(m) {
      SafeRemovedHolds(k.sentences[i], c, m);
    }
  }

  /** Sound knowledge never marks a cell both a mine and safe. */
  lemma SoundIsConsistent(k: Knowledge, m: set<Cell>)
    requires k.SoundFor(m)
    ensures k.mines !! k.safes
  {
  }

  /** A mark takes exactly the marked cell out of every sentence. */
  lemma MentionedAfterMark(k: Knowledge, c: Cell)
    ensures Mentioned(k.WithMine(c).sentences) == Mentioned(k.sentences) - {c}
    ensures Mentioned(k.WithSafe(c).sentences) == Mentioned(k.sentences) - {c}
  {
    var after := k.WithMine(c).sentences;
    forall x ensures x in Mentioned(after) <==> x in Mentioned(k.sentences) - {c} {
      if x in Mentioned(k.sentences) - {c} {
        var i :| 0 <= i < |k.sentences| && x in k.sentences[i].cells;
        assert x in after[i].cells;
      }
    }
    var afterSafe := k.WithSafe(c).sentences;
    forall x ensures x in Mentioned(afterSafe) <==> x in Mentioned(k.sentences) - {c} {
      if x in Mentioned(k.sentences) - {c} {
        var i :| 0 <= i < |k.sentences| && x in k.sentences[i].cells;
        assert x in afterSafe[i].cells;
      }
    }
  }

  /** Marks keep every sentence clear of marked cells. */
  lemma MarksKeepUnresolved(k: Knowledge, c: Cell)
    requires k.Unresolved()
    ensures k.WithMine(c).Unresolved() && k.WithSafe(c).Unresolved()
  {
  }

  /** Forgetting sentences keeps knowledge sound and unresolved. */
  lemma FewerSentences(k: Knowledge, fewer: Knowledge)
    requires fewer.movesMade == k.movesMade && fewer.mines == k.mines && fewer.safes == k.safes
    requires forall i :: 0 <= i < |fewer.sentences| ==> fewer.sentences[i] in k.sentences
    ensures k.Unresolved() ==> fewer.Unresolved()
    ensures forall m :: k.SoundFor(m) ==> fewer.SoundFor(m)
  {
  }

  /** A sentence clear of the marked cells can join unresolved knowledge. */
  lemma AppendKeepsUnresolved(k: Knowledge, f: Constraint)
    requires k.Unresolved() && f.cells !! (k.mines + k.safes)
    ensures Knowledge(k.movesMade, k.mines, k.safes, k.sentences + [f]).Unresolved()
    ensures forall m :: k.SoundFor(m) && f.HoldsFor(m) ==>
              Knowledge(k.movesMade, k.mines, k.safes, k.sentences + [f]).SoundFor(m)
  {
  }

  /** Subset inference: if `a`'s cells lie within `b`'s and both hold, so does their difference. */
  lemma DifferenceHolds(a: Constraint, b: Constraint, m: set<Cell>)
    requires a.cells <= b.cells && a.HoldsFor(m) && b.HoldsFor(m)
    ensures Constraint(b.cells - a.cells, b.count - a.count).HoldsFor(m)
  {
    assert (b.cells - a.cells) * m == b.cells * m - a.cells * m;
    SubsetCardinality(a.cells * m, b.cells * m);
  }

  /** The sentence built from a truthful clue holds, given sound marks. */
  lemma ClueHolds(close: set<Cell>, mines: set<Cell>, safes: set<Cell>, count: int, m: set<Cell>)
    requires mines <= m && safes !! m && count == |close * m|
    ensures Constraint(close - mines - safes, count - |close * mines|).HoldsFor(m)
  {
    var rest := (close - mines - safes) * m;
    assert close * m == rest + close * mines;
    assert rest !! close * mines;
  }

  lemma MinesOfOneMore(done: set<Cell>, d: Cell, mines: set<Cell>)
    requires d !in done
    ensures |(done + {d}) * mines| == |done * mines| + (if d in mines then 1 else 0)
  {
    if d in mines {
      assert (done + {d}) * mines == done * mines + {d};
    } else {
      assert (done + {d}) * mines == done * mines;
    }
  }

  /** Cells met by the scan of `return_close_cells` before row `i`, column `j`. */
  ghost function CloseScanned(height: nat, width: nat, c: Cell, i: int, j: int): set<Cell>
  {
    set r, k | 0 <= r < height && 0 <= k < width && Adjacent(Cell(r, k), c) && (r < i || (r == i && k < j)) :: Cell(r, k)
  }

  class MinesweeperAI {
    const height: nat
    const width: nat
    var movesMade: set<Cell>
    var mines: set<Cell>
    var safes: set<Cell>
    var knowledge: seq<Sentence>
    /** The value of each sentence of `knowledge`, in the same order. */
    ghost var facts: seq<Constraint>

    ghost function View(): Knowledge
      reads this
    {
      Knowledge(movesMade, mines, safes, facts)
    }

    /**
     * `facts` mirrors the sentence objects, each of which occurs once, and no sentence mentions
     * a marked cell.
     */
    ghost predicate Valid()
      reads this, knowledge
    {
      |facts| == |knowledge| &&
      (forall i :: 0 <= i < |knowledge| ==> knowledge[i].Value() == facts[i]) &&
      (forall i, j :: 0 <= i < j < |knowledge| ==> knowledge[i] != knowledge[j]) &&
      View().Unresolved()
    }

    constructor (height: nat, width: nat)
      ensures Valid()
      ensures this.height == height && this.width == width
      ensures View() == Knowledge({}, {}, {}, []) && knowledge == []
    {
      this.height := height;
      this.width := width;
      movesMade := {};
      mines := {};
      safes := {};
      knowledge := [];
      facts := [];
    }

    method MarkMine(c: Cell)
      requires Valid()
      modifies this, knowledge
      ensures Valid() && knowledge == old(knowledge)
      ensures View() == old(View()).WithMine(c)
      ensures c in mines && forall i :: 0 <= i < |knowledge| ==> c !in knowledge[i].cells
    {
      mines := mines + {c};
      for k := 0 to |knowledge|
        invariant knowledge == old(knowledge) && facts == old(facts)
        invariant movesMade == old(movesMade) && mines == old(mines) + {c} && safes == old(safes)
        invariant forall i :: 0 <= i < k ==> knowledge[i].Value() == facts[i].MineRemoved(c)
        invariant forall i :: k <= i < |knowledge| ==> knowledge[i].Value() == facts[i]
      {
        knowledge[k].MarkMine(c);
      }
      facts := old(View()).WithMine(c).sentences;
      MarksKeepUnresolved(old(View()), c);
    }

    method MarkSafe(c: Cell)
      requires Valid()
      modifies this, knowledge
      ensures Valid() && knowledge == old(knowledge)
      ensures View() == old(View()).WithSafe(c)
      ensures c in safes && forall i :: 0 <= i < |knowledge| ==> c !in knowledge[i].cells
    {
      safes := safes + {c};
      for k := 0 to |knowledge|
        invariant knowledge == old(knowledge) && facts == old(facts)
        invariant movesMade == old(movesMade) && mines == old(mines) && safes == old(safes) + {c}
        invariant forall i :: 0 <= i < k ==> knowledge[i].Value() == facts[i].SafeRemoved(c)
        invariant forall i :: k <= i < |knowledge| ==> knowledge[i].Value() == facts[i]
      {
        knowledge[k].MarkSafe(c);
      }
      facts := old(View()).WithSafe(c).sentences;
      MarksKeepUnresolved(old(View()), c);
    }

    /** The in-grid cells at Chebyshev distance one from `c`. */
    method ReturnCloseCells(c: Cell) returns (close: set<Cell>)
      ensures close == Neighbours(height, width, c)
      ensures c !in close && |close| <= 8
    {
      close := {};
      for r := 0 to height
        invariant close == CloseScanned(height, width, c, r, 0)
      {
        for k := 0 to width
          invariant close == CloseScanned(height, width, c, r, k)
        {
          if Abs(c.row - r) <= 1 && Abs(c.col - k) <= 1 && Cell(r, k) != c {
            close := close + {Cell(r, k)};
          }
        }
        assert CloseScanned(height, width, c, r, width) == CloseScanned(height, width, c, r + 1, 0);
      }
      assert CloseScanned(height, width, c, height, 0) == Neighbours(height, width, c);
      NeighboursBound(height, width, c);
    }

    /** The unmarked cells of `close`, and `count` less the marked mines among them. */
    method ClueSentence(close: set<Cell>, count: int) returns (cells: set<Cell>, remaining: int)
      ensures cells == close - mines - safes
      ensures remaining == count - |close * mines|
    {
      cells := {};
      remaining := count;
      var todo := close;
      ghost var done: set<Cell> := {};
      while todo != {}
        invariant done + todo == close && done !! todo
        invariant forall x :: x in cells <==> x in done && x !in mines && x !in safes
        invariant remaining == count - |done * mines|
        decreases todo
      {
        var d :| d in todo;
        MinesOfOneMore(done, d, mines);
        if d in mines {
          remaining := remaining - 1;
        } else {
          // a set yields each element once, so `d` was never added before
          assert d !in cells;
          if d !in mines + safes {
            cells := cells + {d};
          }
        }
        todo := todo - {d};
        done := done + {d};
      }
      assert done == close;
    }

    /** Append a new sentence object with value `Constraint(cells, count)`. */
    method AppendSentence(cells: set<Cell>, count: int)
      requires Valid() && cells !! (mines + safes)
      modifies this
      ensures Valid()
      ensures movesMade == old(movesMade) && mines == old(mines) && safes == old(safes)
      ensures |knowledge| == |old(knowledge)| + 1 && knowledge[..|old(knowledge)|] == old(knowledge)
      ensures fresh(knowledge[|old(knowledge)|])
      ensures facts == old(facts) + [Constraint(cells, count)]
    {
      var fact := new Sentence(cells, count);
      knowledge := knowledge + [fact];
      facts := facts + [fact.Value()];
      forall i, j | 0 <= i < j < |knowledge| ensures knowledge[i] != knowledge[j] {
        if j < |old(knowledge)| {
          assert knowledge[i] == old(knowledge)[i] && knowledge[j] == old(knowledge)[j];
        }
      }
      AppendKeepsUnresolved(old(View()), fact.Value());
    }

    /**
     * Append the sentence a clue gives: the neighbours of `c` in neither `mines` nor `safes`, with
     * the count lowered by the neighbours already in `mines`; it is appended only if it has cells.
     */
    method AddClueSentence(c: Cell, count: int)
      requires Valid()
      modifies this
      ensures Valid()
      ensures movesMade == old(movesMade) && mines == old(mines) && safes == old(safes)
      ensures Neighbours(height, width, c) - mines - safes == {} ==>
                knowledge == old(knowledge) && facts == old(facts)
      ensures Neighbours(height, width, c) - mines - safes != {} ==>
                |knowledge| == |old(knowledge)| + 1 && knowledge[..|old(knowledge)|] == old(knowledge) &&
                fresh(knowledge[|old(knowledge)|]) &&
                facts == old(facts) + [Constraint(Neighbours(height, width, c) - mines - safes,
                                                  count - |Neighbours(height, width, c) * mines|)]
      ensures forall m :: old(View()).SoundFor(m) && count == |Neighbours(height, width, c) * m| ==> View().SoundFor(m)
    {
      var close := ReturnCloseCells(c);
      var cells, remaining := ClueSentence(close, count);
      if cells != {} {
        AppendSentence(cells, remaining);
        forall m | old(View()).SoundFor(m) && count == |close * m| ensures View().SoundFor(m) {
          ClueHolds(close, mines, safes, count, m);
          AppendKeepsUnresolved(old(View()), Constraint(cells, remaining));
        }
      }
    }

    /** Record the move to `c`, mark it safe and append the sentence its clue gives. */
    method RecordMove(c: Cell, count: int)
      requires Valid()
      modifies this, knowledge
      ensures Valid()
      ensures View() == Recorded(old(View()), Neighbours(height, width, c), c, count)
      ensures |old(knowledge)| <= |knowledge| <= |old(knowledge)| + 1
      ensures knowledge[..|old(knowledge)|] == old(knowledge)
      ensures |knowledge| > |old(knowledge)| ==> fresh(knowledge[|old(knowledge)|])
      ensures forall i :: 0 <= i < |knowledge| ==> knowledge[i] in old(knowledge) || fresh(knowledge[i])
      ensures forall m :: old(View()).SoundFor(m) && c !in m && count == |Neighbours(height, width, c) * m| ==>
                View().SoundFor(m)
    {
      PlaySafe(c);
      ghost var marked := View();
      AddClueSentence(c, count);
      ghost var close := Neighbours(height, width, c);
      if close - mines - safes == {} {
        assert View() == marked;
      } else {
        assert View() == Knowledge(marked.movesMade, marked.mines, marked.safes,
                                   marked.sentences + [Constraint(close - mines - safes, count - |close * mines|)]);
      }
    }

    /** Record `c` as played and mark it safe. */
    method PlaySafe(c: Cell)
      requires Valid()
      modifies this, knowledge
      ensures Valid() && knowledge == old(knowledge)
      ensures View() == Knowledge(old(movesMade) + {c}, old(mines), old(safes), old(facts)).WithSafe(c)
      ensures forall m :: old(View()).SoundFor(m) && c !in m ==> View().SoundFor(m)
    {
      movesMade := movesMade + {c};
      ghost var played := View();
      MarkSafe(c);
      forall m | old(View()).SoundFor(m) && c !in m ensures View().SoundFor(m) {
        WithSafeSound(played, c, m);
      }
    }

    /** Record that `c` was revealed safe with `count` adjacent mines, and draw conclusions. */
    method AddKnowledge(c: Cell, count: int)
      requires Valid()
      modifies this, knowledge
      ensures Valid()
      ensures exists mid :: DirectlyClosed(Recorded(old(View()), Neighbours(height, width, c), c, count), mid) &&
                            SubsetInferred(mid, View())
      ensures forall i :: 0 <= i < |knowledge| ==> knowledge[i] in old(knowledge) || fresh(knowledge[i])
      ensures forall m :: old(View()).SoundFor(m) && c !in m && count == |Neighbours(height, width, c) * m| ==>
                View().SoundFor(m)
    {
      RecordMove(c, count);
      ghost var recorded, recordedView := knowledge, View();
      DrawConclusions();
      assert exists mid :: DirectlyClosed(recordedView, mid) && SubsetInferred(mid, View());
      forall i | 0 <= i < |knowledge| ensures knowledge[i] in old(knowledge) || fresh(knowledge[i]) {
        assert knowledge[i] in recorded;
      }
    }

    /** Direct inference, then subset inference, over the current sentences. */
    method DrawConclusions()
      requires Valid()
      modifies this, knowledge
      ensures Valid()
      ensures exists mid :: DirectlyClosed(old(View()), mid) && SubsetInferred(mid, View())
      ensures forall i :: 0 <= i < |knowledge| ==> knowledge[i] in old(knowledge)
      ensures forall m :: old(View()).SoundFor(m) ==> View().SoundFor(m)
    {
      CheckKnowledge();
      KeepFrom(old(knowledge), ResolveAll(old(facts), mines - old(mines), safes - old(safes)));
      ghost var mid := View();
      ExtraInference();
      assert DirectlyClosed(old(View()), mid) && SubsetInferred(mid, View());
    }

    /** The first sentence from which a conclusion can be drawn, or `|knowledge|` if none. */
    method FindDecisive() returns (k: nat)
      ensures k <= |knowledge|
      ensures k < |knowledge| ==> Decisive(knowledge[k])
      ensures forall i :: 0 <= i < k ==> !Decisive(knowledge[i])
    {
      k := 0;
      while k < |knowledge| && !Decisive(knowledge[k])
        invariant k <= |knowledge|
        invariant forall i :: 0 <= i < k ==> !Decisive(knowledge[i])
      {
        k := k + 1;
      }
    }

    /**
     * Mark one cell `d` of the decisive sentence `knowledge[k]`: a mine if its count equals its size,
     * otherwise safe. The cells the sentences mention shrink by that cell.
     */
    method Resolve(k: nat) returns (ghost d: Cell)
      requires Valid() && k < |knowledge| && Decisive(knowledge[k])
      modifies this, knowledge
      ensures Valid() && knowledge == old(knowledge)
      ensures d in old(facts)[k].cells
      ensures View() == if old(facts)[k].count == |old(facts)[k].cells| then old(View()).WithMine(d)
                        else old(View()).WithSafe(d)
      ensures forall m :: old(View()).SoundFor(m) ==> View().SoundFor(m)
      ensures |Mentioned(facts)| < old(|Mentioned(facts)|)
    {
      var s := knowledge[k];
      var c :| c in s.cells;
      d := c;
      assert c in Mentioned(facts) by {
        assert c in facts[k].cells;
      }
      MentionedAfterMark(View(), c);
      SubsetCardinality(Mentioned(facts) - {c}, Mentioned(facts));
      if Truthy(s.KnownMines()) {
        forall m | old(View()).SoundFor(m) ensures c in m {
          assert facts[k].HoldsFor(m);
          s.KnownMinesAreMines(m);
        }
        MarkMine(c);
        forall m | old(View()).SoundFor(m) ensures View().SoundFor(m) {
          WithMineSound(old(View()), c, m);
        }
      } else {
        forall m | old(View()).SoundFor(m) ensures c !in m {
          assert facts[k].HoldsFor(m);
          s.KnownSafesAreSafe(m);
        }
        MarkSafe(c);
        forall m | old(View()).SoundFor(m) ensures View().SoundFor(m) {
          WithSafeSound(old(View()), c, m);
        }
      }
    }

    /** Direct inference until nothing new follows; empty sentences are then dropped. */
    method CheckKnowledge()
      requires Valid()
      modifies this, knowledge
      ensures Valid()
      ensures DirectlyClosed(old(View()), View())
      ensures knowledge == Keep(old(knowledge), ResolveAll(old(facts), mines - old(mines), safes - old(safes)))
      ensures forall m :: old(View()).SoundFor(m) ==> View().SoundFor(m)
    {
      ResolveDecisive();
      ghost var marked := View();
      forall i | 0 <= i < |facts| ensures !facts[i].Decisive() {
        assert facts[i] == knowledge[i].Value();
      }
      DropEmpty();
      ClosedByDropping(old(View()), marked, View());
    }

    /** Resolve one cell of the first decisive sentence and start again, until none is decisive. */
    method ResolveDecisive()
      requires Valid()
      modifies this, knowledge
      ensures Valid() && knowledge == old(knowledge)
      ensures Inferred(old(View()), View())
      ensures forall i :: 0 <= i < |knowledge| ==> !Decisive(knowledge[i])
      decreases |Mentioned(facts)|
    {
      var k := FindDecisive();
      if k == |knowledge| {
        InferredNothing(View());
        return;
      }
      ghost var start := View();
      ResolveFirst(k);
      ghost var mid := View();
      ResolveDecisive();
      InferredTrans(start, mid, View());
    }

    /** Resolving one cell of the decisive sentence `k` is an inference. */
    method ResolveFirst(k: nat)
      requires Valid() && k < |knowledge| && Decisive(knowledge[k])
      modifies this, knowledge
      ensures Valid() && knowledge == old(knowledge)
      ensures Inferred(old(View()), View()) && View().Unresolved()
      ensures |Mentioned(facts)| < old(|Mentioned(facts)|)
    {
      ghost var start := View();
      ghost var mine := start.sentences[k].count == |start.sentences[k].cells|;
      assert start.sentences[k] == facts[k];
      ghost var d := Resolve(k);
      assert d in Mentioned(start.sentences) by {
        assert d in start.sentences[k].cells;
      }
      InferredByOne(start, View(), d, mine);
    }

    /** The sentences that still have cells, in order, with their values. */
    method NonEmptySentences() returns (kept: seq<Sentence>, ghost keptFacts: seq<Constraint>)
      requires Valid()
      ensures kept == Keep(knowledge, facts) && keptFacts == NonEmpty(facts)
      ensures |keptFacts| == |kept|
      ensures forall i :: 0 <= i < |kept| ==>
                kept[i] in knowledge && keptFacts[i] in facts && kept[i].Value() == keptFacts[i] && kept[i].cells != {}
      ensures forall i, j :: 0 <= i < j < |kept| ==> kept[i] != kept[j]
    {
      var ks := knowledge;
      ghost var fs := facts;
      kept := [];
      keptFacts := [];
      for k := 0 to |ks|
        invariant kept == Keep(ks[..k], fs[..k]) && keptFacts == Keep(fs[..k], fs[..k])
      {
        KeepStep(ks, fs, k);
        KeepStep(fs, fs, k);
        assert fs[k].cells == ks[k].cells;
        if ks[k].cells != {} {
          kept := kept + [ks[k]];
          keptFacts := keptFacts + [fs[k]];
        }
      }
      assert ks[..|ks|] == ks && fs[..|fs|] == fs;
      KeepFrom(ks, fs);
      KeepDistinct(ks, fs);
      KeepValues(ks, fs);
      NonEmptyExactly(fs);
    }

    /** Remove the sentences whose cells are all resolved, keeping the order of the others. */
    method DropEmpty()
      requires Valid()
      modifies this
      ensures Valid()
      ensures View() == Knowledge(old(movesMade), old(mines), old(safes), NonEmpty(old(facts)))
      ensures knowledge == Keep(old(knowledge), old(facts))
      ensures forall m :: old(View()).SoundFor(m) ==> View().SoundFor(m)
    {
      var kept, keptFacts := NonEmptySentences();
      ghost var before := View();
      knowledge := kept;
      facts := keptFacts;
      FewerSentences(before, View());
    }

    /** Mark every cell of `cs` as a mine, one after the other. */
    method MarkMines(cs: set<Cell>)
      requires Valid()
      modifies this, knowledge
      ensures Valid() && knowledge == old(knowledge)
      ensures View() == old(View()).Resolved(cs, {})
    {
      var todo := cs;
      ResolvedByOwnMarks(View());
      assert cs - todo == {};
      while todo != {}
        invariant todo <= cs
        invariant Valid() && knowledge == old(knowledge)
        invariant View() == old(View()).Resolved(cs - todo, {})
        decreases todo
      {
        var d :| d in todo;
        MarkMine(d);
        ResolvedThenMineAll(old(View()), cs - todo, {}, d);
        assert (cs - todo) + {d} == cs - (todo - {d});
        todo := todo - {d};
      }
      assert cs - todo == cs;
    }

    /** Mark every cell of `cs` as safe, one after the other. */
    method MarkSafes(cs: set<Cell>)
      requires Valid()
      modifies this, knowledge
      ensures Valid() && knowledge == old(knowledge)
      ensures View() == old(View()).Resolved({}, cs)
    {
      var todo := cs;
      ResolvedByOwnMarks(View());
      assert cs - todo == {};
      while todo != {}
        invariant todo <= cs
        invariant Valid() && knowledge == old(knowledge)
        invariant View() == old(View()).Resolved({}, cs - todo)
        decreases todo
      {
        var d :| d in todo;
        MarkSafe(d);
        ResolvedThenSafeAll(old(View()), {}, cs - todo, d);
        assert (cs - todo) + {d} == cs - (todo - {d});
        todo := todo - {d};
      }
      assert cs - todo == cs;
    }

    /**
     * Subset inference on the ordered pair `knowledge[i]`, `knowledge[j]`: when the first is inside
     * the second, the difference sentence is built and what it decides is marked; it is not kept.
     */
    method InferPair(i: nat, j: nat)
      requires Valid() && i < |knowledge| && j < |knowledge|
      modifies this, knowledge
      ensures Valid() && knowledge == old(knowledge)
      ensures Inferred(old(View()), View())
      ensures SubsetConcluded(old(facts)[i], old(facts)[j], mines, safes)
    {
      ghost var before := View();
      var first, second := knowledge[i], knowledge[j];
      if first.cells <= second.cells {
        var derived := new Sentence(second.cells - first.cells, second.count - first.count);
        ghost var d := derived.Value();
        assert d == Constraint(before.sentences[j].cells - before.sentences[i].cells,
                               before.sentences[j].count - before.sentences[i].count);
        assert Valid() && View() == before;
        forall m | before.SoundFor(m) ensures d.HoldsFor(m) {
          DifferenceHolds(before.sentences[i], before.sentences[j], m);
        }
        assert d.cells <= Mentioned(before.sentences) by {
          forall x | x in d.cells ensures x in Mentioned(before.sentences) {
            assert x in before.sentences[j].cells;
          }
        }
        MarkDecided(derived);
        assert d.count == |d.cells| ==> d.cells <= mines;
        assert d.count == 0 ==> d.cells <= safes;
        assert SubsetConcluded(before.sentences[i], before.sentences[j], mines, safes);
      } else {
        InferredNothing(before);
      }
    }

    /**
     * Mark what `derived`, a sentence outside the knowledge that is true wherever the knowledge is,
     * decides: all its cells as mines when its count equals its size, all as safe when it is zero.
     */
    method MarkDecided(derived: Sentence)
      requires Valid() && derived !in knowledge && derived.cells <= Mentioned(facts)
      requires forall m :: View().SoundFor(m) ==> derived.Value().HoldsFor(m)
      modifies this, knowledge
      ensures Valid() && knowledge == old(knowledge)
      ensures Inferred(old(View()), View())
      ensures old(derived.count) == |old(derived.cells)| ==> old(derived.cells) <= mines
      ensures old(derived.count) == 0 ==> old(derived.cells) <= safes
    {
      ghost var d := derived.Value();
      DecidedInferred(View(), d);
      var found := derived.KnownMines();
      var cleared := derived.KnownSafes();
      if Truthy(found) {
        MarkMines(found.value);
      }
      if Truthy(cleared) {
        assert !Truthy(found) && View() == old(View());
        MarkSafes(cleared.value);
        assert mines == old(mines);
      }
      if !Truthy(found) && !Truthy(cleared) {
        InferredNothing(View());
      }
    }

    /** Subset inference over every ordered pair of sentences; derived sentences are not kept. */
    method ExtraInference()
      requires Valid()
      modifies this, knowledge
      ensures Valid() && knowledge == old(knowledge)
      ensures SubsetInferred(old(View()), View())
    {
      ghost var sound := exists m :: old(View()).SoundFor(m);
      InferredNothing(View());
      for i := 0 to |knowledge|
        invariant Valid() && knowledge == old(knowledge)
        invariant Inferred(old(View()), View())
        invariant sound ==> ConcludedBefore(old(facts), i, 0, mines, safes)
      {
        for j := 0 to |knowledge|
          invariant Valid() && knowledge == old(knowledge)
          invariant Inferred(old(View()), View())
          invariant sound ==> ConcludedBefore(old(facts), i, j, mines, safes)
        {
          ghost var before := View();
          InferPair(i, j);
          InferredTrans(old(View()), before, View());
          if sound {
            ghost var m :| old(View()).SoundFor(m);
            ConcludedGrows(old(facts), i, j, before.mines, before.safes, mines, safes);
            ConcludedThroughResolve(old(facts)[i], old(facts)[j], before.mines - old(mines),
                                    before.safes - old(safes), mines, safes, m);
            ConcludedNext(old(facts), i, j, mines, safes);
          }
        }
        if sound {
          ConcludedRow(old(facts), i, mines, safes);
        }
      }
    }

    /** A known-safe cell not yet played, or `None` when there is none. */
    method MakeSafeMove() returns (move: Option<Cell>)
      ensures move.Some? ==> move.value in safes && move.value !in movesMade
      ensures move.None? <==> safes <= movesMade
    {
      var undetermined := safes - movesMade;
      if undetermined == {} {
        assert forall d :: d in safes ==> d in movesMade by {
          forall d | d in safes ensures d in movesMade { assert d !in undetermined; }
        }
        return None;
      }
      var d :| d in undetermined;
      return Some(d);
    }

    /**
     * An in-grid cell neither played nor known to be a mine, or `None` when there is none.
     * `rows` and `cols` are the shuffled orders of the row and column indices.
     */
    method MakeRandomMove(rows: seq<int>, cols: seq<int>) returns (move: Option<Cell>)
      requires forall r :: r in rows <==> 0 <= r < height
      requires forall k :: k in cols <==> 0 <= k < width
      ensures move.Some? ==> InGrid(height, width, move.value) && move.value !in movesMade + mines
      ensures move.None? <==> forall d :: InGrid(height, width, d) ==> d in movesMade + mines
    {
      if height * width > 0 {
        for a := 0 to |rows|
          invariant forall x, y :: 0 <= x < a && 0 <= y < |cols| ==> Cell(rows[x], cols[y]) in movesMade + mines
        {
          for b := 0 to |cols|
            invariant forall x, y :: (0 <= x < a && 0 <= y < |cols|) || (x == a && 0 <= y < b) ==>
                        Cell(rows[x], cols[y]) in movesMade + mines
          {
            if Cell(rows[a], cols[b]) !in movesMade + mines {
              assert rows[a] in rows && cols[b] in cols;
              return Some(Cell(rows[a], cols[b]));
            }
          }
        }
      }
      forall d | InGrid(height, width, d) ensures d in movesMade + mines {
        assert d.row in rows && d.col in cols;
        var x :| 0 <= x < |rows| && rows[x] == d.row;
        var y :| 0 <= y < |cols| && cols[y] == d.col;
      }
      return None;
    }
  }
}
