# Minesweeper board and knowledge-based solver, modelled in Dafny

This project models `Minesweeper/minesweeper.py`: a Minesweeper board and the
propositional-logic player that plays it. The model has four modules.

- `Grid` (`grid.dfy`): cells, the adjacency relation and the in-grid neighbourhood of a cell.
- `Board` (`board.dfy`): the `Minesweeper` class.
  - A fixed occupancy grid built from a given mine set.
  - `is_mine` with Python's list indexing, `nearby_mines` as the source's nested scan, and `won`.
- `Sentences` (`sentence.dfy`): the `Sentence` class.
  - Its fields `cells` and `count` change in place.
  - Its value is a `Constraint`, meaning "exactly `count` of `cells` are mines".
  - That value carries the truth predicate `HoldsFor(m)` for a mine set `m`.
- `Solver` (`solver.dfy`): the `MinesweeperAI` class.
  - The sets `movesMade`, `mines` and `safes`, and `knowledge`, a sequence of `Sentence` objects.
  - A ghost `facts` sequence mirrors each sentence's value. `Valid()` ties the two together, keeps
    the objects distinct, and keeps every sentence clear of marked cells.
  - `View()` is the solver's state as a `Knowledge` value. `SoundFor(m)` says every mark and every
    sentence is true of the mine set `m`.

The state-changing operations (`mark_mine`, `mark_safe`, `add_knowledge`,
`check_knowledge`, `extra_inference`) are methods with loops or recursion.

- `MarkMine`, `MarkSafe`, `MarkMines`, `MarkSafes`, `RecordMove` and `DropEmpty` give their new
  `View()` exactly, as a function of the old one. `Resolve` gives it as a function of the old one
  and the cell `d` it marks.
- Inference is described by `Resolved(ms, ss)`: the cells `ms` become mines and `ss` safe, and
  every sentence loses those cells, its count dropping by the mines it loses.
  - `Inferred(k0, k1)` says `k1`'s sentences are exactly `k0`'s resolved by the new marks. It also
    says the new marks are cells the sentences mention, and that `k1` stays true of every mine set
    `k0` is true of.
  - `CheckKnowledge` ends in `DirectlyClosed`: an inference, then the empty sentences dropped in
    order, and no sentence left that `known_mines` or `known_safes` would act on.
  - `ExtraInference` ends in `SubsetInferred`: an inference. When some mine set makes all the old
    sentences true, it is also one in which, for every ordered pair `a ⊆ b` of the old sentences,
    a decisive difference `b - a` is marked. Without such a mine set, an earlier pair's marks can
    leave a later pair's difference unmarked, in the source as in the model.
- The methods also state which `Sentence` objects they keep: the same list, the old list with
  the empty ones removed, or the old list plus one fresh object.

Soundness means: if the knowledge was true of a mine set `m`, it still is afterwards. It holds as follows.

- The inference methods `Resolve`, `ResolveFirst`, `ResolveDecisive`, `CheckKnowledge`, `InferPair`,
  `MarkDecided`, `ExtraInference`, `DrawConclusions`, and also `DropEmpty`, keep it for every `m`.
- The plain marks `MarkMine`, `MarkSafe`, `MarkMines` and `MarkSafes` keep it only when the marked
  cells are mines of `m` (for safe marks, non-mines of `m`). Their contracts give the new state
  exactly, and `WithMineSound`, `WithSafeSound` and `ResolvedSound` state this condition.
- `PlaySafe`, `RecordMove` and `AddKnowledge` keep it when the revealed cell is not a mine of `m`,
  and the last two also need the clue to be the true neighbour count under `m`.

From soundness, `SoundIsConsistent` gives `mines ∩ safes = ∅` and `HoldsBounds` gives
`0 <= count <= |cells|`. The code itself never checks either of these.

## Model

| member | source | states |
|---|---|---|
| Board.ListIndex | Minesweeper/minesweeper.py:52-54 | Python list indexing. A position in `[-n, n)` is accepted and maps to `i` or `i + n` below `n`; any other position is the error case |
| Board.Minesweeper.constructor | Minesweeper/minesweeper.py:11-35 | The grid has the given size and mine set. `board[i][j]` is true exactly for mine cells. No mine has been found yet |
| Board.Minesweeper.IsMine | Minesweeper/minesweeper.py:52-54 | An in-grid cell gives whether it is a mine. A negative coordinate down to `-height`/`-width` wraps round as in Python. Anything further out is the IndexError |
| Board.Minesweeper.NearbyMines | Minesweeper/minesweeper.py:56-79 | The count is the number of mines among the in-grid cells adjacent to the cell, the cell itself excluded. It is at most 8 |
| Board.Minesweeper.Won | Minesweeper/minesweeper.py:81-85 | `won` holds exactly when the flagged cells and the mines are the same cells |
| Board.Minesweeper.WonMeansFlagsAreMines | Minesweeper/minesweeper.py:81-85 | `won` holds exactly when the flagged cells are exactly the in-grid cells that `IsMine` reports as mines |
| Sentences.Constraint.MineRemoved | Minesweeper/minesweeper.py:115-121 | A cell in the sentence is removed and the count drops by one. Otherwise the sentence is unchanged. The cell is never left in it |
| Sentences.Constraint.SafeRemoved | Minesweeper/minesweeper.py:123-128 | The cell is removed if present and the count is unchanged |
| Sentences.MarkTwice | Minesweeper/minesweeper.py:115-128 | Marking the same cell twice, as a mine or as safe, has the effect of marking it once |
| Sentences.MineRemovedHolds | Minesweeper/minesweeper.py:115-121 | Removing a true mine from a sentence that is true of `m` leaves a sentence true of `m` |
| Sentences.SafeRemovedHolds | Minesweeper/minesweeper.py:123-128 | Removing a non-mine from a sentence that is true of `m` leaves a sentence true of `m` |
| Sentences.HoldsBounds | Minesweeper/minesweeper.py:88-93 | A true sentence has a count between 0 and the number of its cells |
| Sentences.Sentence.constructor | Minesweeper/minesweeper.py:95-97 | The new sentence has the given cells and count |
| Sentences.Sentence.Equals | Minesweeper/minesweeper.py:99-100 | Two sentences are equal exactly when their cells and counts agree, whichever objects they are |
| Sentences.Sentence.KnownMines | Minesweeper/minesweeper.py:105-108 | Gives the cells exactly when the count equals their number. Otherwise gives nothing, which differs from an empty set |
| Sentences.Sentence.KnownSafes | Minesweeper/minesweeper.py:110-113 | Gives the cells exactly when the count is 0. Otherwise gives nothing |
| Sentences.Sentence.KnownMinesAreMines | Minesweeper/minesweeper.py:105-108 | Every cell `known_mines` reports for a sentence true of `m` is in `m` |
| Sentences.Sentence.KnownSafesAreSafe | Minesweeper/minesweeper.py:110-113 | No cell `known_safes` reports for a sentence true of `m` is in `m` |
| Sentences.Sentence.MarkMine | Minesweeper/minesweeper.py:115-121 | The sentence's new value is its old value with the mine removed |
| Sentences.Sentence.MarkSafe | Minesweeper/minesweeper.py:123-128 | The sentence's new value is its old value with the safe cell removed |
| Solver.WithMineSound | Minesweeper/minesweeper.py:152-159 | Marking a true mine everywhere keeps knowledge that is true of `m` true of `m` |
| Solver.WithSafeSound | Minesweeper/minesweeper.py:161-168 | Marking a non-mine safe everywhere keeps knowledge that is true of `m` true of `m` |
| Solver.SoundIsConsistent | Minesweeper/minesweeper.py:145-150 | Knowledge true of some mine set never has a cell in both `mines` and `safes` |
| Solver.MentionedAfterMark | Minesweeper/minesweeper.py:246-255 | Marking a cell removes exactly that cell from the cells the sentences mention. This is the measure that makes repeated direct inference stop |
| Solver.MarksKeepUnresolved | Minesweeper/minesweeper.py:152-168 | After a mark, no sentence mentions a marked cell if none did before |
| Solver.FewerSentences | Minesweeper/minesweeper.py:235-240 | Dropping sentences keeps knowledge sound and keeps sentences clear of marked cells |
| Solver.AppendKeepsUnresolved | Minesweeper/minesweeper.py:204-207 | Appending a true sentence clear of the marked cells keeps knowledge sound and clear |
| Solver.DifferenceHolds | Minesweeper/minesweeper.py:265-268 | Subset inference is sound. If `a.cells <= b.cells` and both are true of `m`, so is `(b.cells - a.cells, b.count - a.count)` |
| Solver.ClueHolds | Minesweeper/minesweeper.py:193-204 | The sentence built from a truthful clue is true of `m`, given that the marks are true of `m` |
| Solver.MinesweeperAI.constructor | Minesweeper/minesweeper.py:136-150 | The solver starts with no moves, no marks and no sentences |
| Solver.MinesweeperAI.MarkMine | Minesweeper/minesweeper.py:152-159 | The cell joins `mines` and every sentence has it marked as a mine. No sentence contains it afterwards, and the list of objects is unchanged |
| Solver.MinesweeperAI.MarkSafe | Minesweeper/minesweeper.py:161-168 | The cell joins `safes` and every sentence has it marked safe. No sentence contains it afterwards, and the list of objects is unchanged |
| Solver.MinesweeperAI.ReturnCloseCells | Minesweeper/minesweeper.py:215-225 | Gives exactly the in-grid cells at Chebyshev distance 1. The cell itself is never included, and there are at most 8 |
| Solver.MinesweeperAI.ClueSentence | Minesweeper/minesweeper.py:193-204 | The cells are the neighbours in neither `mines` nor `safes`. The count is the clue less the neighbours in `mines`. The branch at line 199 is proved never taken |
| Solver.MinesweeperAI.AppendSentence | Minesweeper/minesweeper.py:204-207 | A new sentence object is appended and the old list is kept as a prefix |
| Solver.MinesweeperAI.AddClueSentence | Minesweeper/minesweeper.py:192-207 | The clue sentence is appended exactly when it has cells, with the cells and count above. A truthful clue keeps knowledge sound |
| Solver.MinesweeperAI.RecordMove | Minesweeper/minesweeper.py:186-207 | The new state is exactly `Recorded`. The cell joins `movesMade` and is marked safe in every sentence. The clue sentence over the unmarked neighbours, counting the clue less the neighbours already in `mines`, is appended exactly when it has cells. The old objects stay as a prefix, with at most one fresh object after them. A truthful clue for a safe cell keeps knowledge sound |
| Solver.MinesweeperAI.AddKnowledge | Minesweeper/minesweeper.py:170-213 | From the `Recorded` state, some state is `DirectlyClosed`, and the final state is `SubsetInferred` from that one. Every sentence object afterwards is an old one or a fresh one. Knowledge stays sound when the cell is safe and the clue truthful |
| Solver.MinesweeperAI.FindDecisive | Minesweeper/minesweeper.py:235-246 | Gives the first sentence whose `known_mines` or `known_safes` is a non-empty set, or the end of the list if there is none |
| Solver.MinesweeperAI.Resolve | Minesweeper/minesweeper.py:242-255 | Marks one cell `d` of decisive sentence `k` everywhere: as a mine when the count equals the number of cells, as safe otherwise. The new state is exactly the old one with that mark. Soundness is kept and the set of mentioned cells shrinks |
| Solver.MinesweeperAI.CheckKnowledge | Minesweeper/minesweeper.py:227-255 | The result is `DirectlyClosed` from the old state. Each new mark is a cell some old sentence mentions. The sentences are exactly the old ones resolved by the new marks, with the empty ones dropped in order. No sentence left is decisive. The objects kept are the old objects whose resolved value has cells, in order. Soundness is kept |
| Solver.MinesweeperAI.NonEmptySentences | Minesweeper/minesweeper.py:235-240 | Gives exactly the sentence objects that still have cells, in their order and each once, with their values |
| Solver.MinesweeperAI.DropEmpty | Minesweeper/minesweeper.py:235-240 | The new sentences are exactly the old ones with the empty ones removed, in order, and so are the objects. Marks are unchanged and soundness is kept |
| Solver.MinesweeperAI.MarkMines | Minesweeper/minesweeper.py:271-277 | The new state is exactly the old one resolved with the given cells as mines. Every cell joins `mines` and leaves every sentence, which loses one from its count for each |
| Solver.MinesweeperAI.MarkSafes | Minesweeper/minesweeper.py:279-285 | The new state is exactly the old one resolved with the given cells as safe. Every cell joins `safes` and leaves every sentence, whose count is unchanged |
| Solver.MinesweeperAI.ExtraInference | Minesweeper/minesweeper.py:257-285 | The result is `SubsetInferred` from the old state. The sentence objects are unchanged and their values are exactly the old ones resolved by the new marks. When the old knowledge is true of some mine set, every ordered pair `a ⊆ b` (self-pairs included) whose difference is decisive has that difference marked. Soundness is kept |
| Solver.MinesweeperAI.MakeSafeMove | Minesweeper/minesweeper.py:287-292 | Gives a member of `safes - movesMade`, or nothing exactly when that set is empty |
| Solver.MinesweeperAI.MakeRandomMove | Minesweeper/minesweeper.py:294-317 | Gives an in-grid cell outside `movesMade ∪ mines`, or nothing exactly when there is no such cell |
| Solver.MinesweeperAI.PlaySafe | Minesweeper/minesweeper.py:186-190 | The new state is the old one with the cell in `movesMade` and marked safe everywhere. Soundness is kept when the cell holds no mine |
| Solver.MinesweeperAI.DrawConclusions | Minesweeper/minesweeper.py:210-213 | Some state is `DirectlyClosed` from the old one, and the final state is `SubsetInferred` from it. No fresh objects appear. Soundness is kept |
| Solver.MinesweeperAI.ResolveFirst | Minesweeper/minesweeper.py:242-255 | One mark from a decisive sentence is an inference, and the mentioned cells shrink |
| Solver.MinesweeperAI.ResolveDecisive | Minesweeper/minesweeper.py:241-255 | Repeats `ResolveFirst` until no sentence is decisive. The result is an inference from the old state, and the sentence objects are unchanged |
| Solver.MinesweeperAI.InferPair | Minesweeper/minesweeper.py:264-285 | One pair of the double loop. The result is an inference and the pair's decisive difference, if any, is marked |
| Solver.MinesweeperAI.MarkDecided | Minesweeper/minesweeper.py:268-285 | A derived sentence true of every consistent mine set has its cells marked as mines when its count equals its size, and as safe when its count is 0. The result is an inference |
| Solver.Decisive | Minesweeper/minesweeper.py:242-251 | A sentence is acted on exactly when it has cells and its count is 0 or equals its size |
| Solver.MarkTwiceAll | Minesweeper/minesweeper.py:152-168 | Marking a cell everywhere twice, as a mine or as safe, has the effect of marking it once |
| Solver.MarksAreResolvedAll | Minesweeper/minesweeper.py:152-168 | Marking one cell everywhere is resolution by that single cell |
| Solver.ResolvedTwiceAll | Minesweeper/minesweeper.py:152-168 | Two rounds of marks resolve like one round with both sets of marks |
| Solver.ResolvedSound | Minesweeper/minesweeper.py:152-168 | Resolving by true mines and true non-mines keeps sound knowledge sound |
| Solver.MentionedResolved | Minesweeper/minesweeper.py:152-168 | Resolving takes exactly the resolved cells out of the cells the sentences mention |
| Solver.InferredByMarks | Minesweeper/minesweeper.py:242-255 | Resolving mentioned cells that every consistent mine set agrees with is an inference |
| Solver.InferredTrans | Minesweeper/minesweeper.py:250-255 | An inference followed by an inference is one inference, as when `check_knowledge` calls itself after each mark |
| Solver.NonEmptyExactly | Minesweeper/minesweeper.py:235-240 | Dropping the empty sentences keeps exactly the sentences that have cells |
| Solver.DecidedInferred | Minesweeper/minesweeper.py:268-285 | Marking the cells of a derived sentence every consistent mine set makes true is an inference, when its count is 0 or its size |
| Solver.ConcludedThroughResolve | Minesweeper/minesweeper.py:262-285 | When earlier marks have been resolved out of a pair `a ⊆ b` of true sentences, a decisive difference of the resolved pair already settles the difference of the original pair |
| Solver.SingleMineExample | Minesweeper/minesweeper.py:242-250 | From the single sentence `{c} = 1`, direct inference marks `c` as a mine |
| Solver.SafePairExample | Minesweeper/minesweeper.py:242-255 | From the single sentence `{(2,2),(2,3)} = 0`, direct inference marks both cells safe |
| Solver.SubsetSafeExample | Minesweeper/minesweeper.py:265-285 | From `{(0,0),(0,1)} = 1` and `{(0,0),(0,1),(0,2)} = 1`, subset inference marks `(0,2)` safe |

## Left out

- `Minesweeper.print` (lines 37-50) is left out because it only prints text.
- Random mine placement (lines 27-32) is left out.
  - The mine set is a constructor argument, and every mine must lie in the grid.
  - So the constructor does not model a mine count larger than the grid, where the source loops forever on a grid with at least one cell, and raises ValueError from `randrange` on an empty grid.
- The `random.shuffle` calls in `make_random_move` (lines 307-310) are not modelled.
  - `MakeRandomMove` takes the two shuffled orders as parameters: any sequences holding exactly the row and column indices.
  - The source's outer `while` returns during its first pass, so it is an `if` on `width * height > 0`.
- Solver.MinesweeperAI.MakeSafeMove: the source returns the first element in Python's set iteration order. The model picks an arbitrary element of the same set.
- Solver.MinesweeperAI.CheckKnowledge: the model follows its own order of steps, not the source's, so its final marks can differ from the source's. The differences are listed below.
  - The source iterates a `copy.deepcopy` snapshot and calls itself after every mark (lines 232-255).
  - The model repeats "find the first decisive sentence, mark one of its cells" until no sentence is decisive. It then removes the empty sentences.
  - When the sentences contradict each other, the two orders can end with different marks. With `[{a, b} = 2, {a} = 0]`, the model marks `a` and `b` as mines. The source does too, and then also marks `a` safe from its stale copy of `{a} = 0`.
  - When some mine set makes all the sentences true, every mark either order makes is true of every such set: `Inferred` keeps soundness. That the two final mark sets are then equal is not proved.
  - `DirectlyClosed` bounds the new marks by the mentioned cells and by soundness, not by the exact set the source marks.
  - The removal by `list.remove`, which compares with `__eq__` (line 238), becomes the removal of every sentence with no cells.
  - `Sentence.__eq__` (lines 99-100) matters only to that `list.remove`. `Sentences.Sentence.Equals` models it but nothing in the model calls it.
- Solver.MinesweeperAI.ExtraInference: the new marks are bounded by the mentioned cells and by soundness, not equal to the exact union of differences the source marks. When no mine set makes the old sentences true, only the inference part is promised.
- Solver.MinesweeperAI.AddKnowledge: the soundness promise needs a truthful clue and a safe revealed cell. The source states these only in its docstring, and without them counts can go negative.
- Solver.MinesweeperAI.AddKnowledge: its marks after the clue is recorded are bounded only as the CheckKnowledge and ExtraInference lines above say, not equal to the source's.
- Solver.MinesweeperAI.DrawConclusions: it composes CheckKnowledge and ExtraInference, so it keeps their bound on the marks stated above, not the source's exact marks.
- The `copy.deepcopy(count)` at line 194 copies an integer and has no effect, so it is not modelled.
- At lines 199-200 the unreachable `self.cell.remove(...)` would raise an AttributeError. `ClueSentence` proves the branch dead and does not model the error.
- `height` and `width` are natural numbers. A negative size in the source makes every `range` empty, which behaves as size 0.
- `mines_found` (line 35) is updated by the game driver, not by the core, so the model has no operation that changes it.
- Python's dynamic typing is not modelled: cells are always integer pairs.
