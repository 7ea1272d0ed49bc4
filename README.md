# PDBEnsemble in Dafny

A model of ProDy's heterogeneous conformation ensemble `PDBEnsemble`
(`prody/ensemble/pdbensemble.py`), with proofs of what it promises.

An ensemble holds:

- a reference frame, which fixes the atom count;
- three per-frame stores that move in lockstep: frames, per-atom weight rows and labels;
- an optional alignment with one labelled row per frame;
- the transforms of the last tracked superposition;
- an optional atom selection.

A weight of zero marks an atom that a frame does not resolve. That mask is
threaded through retrieval (`getCoordsets`), mean-square fluctuations
(`getMSFs`) and the pairwise RMSD matrix (`getRMSDs`).

How the model is organised:

- The ensemble is the class `Ensembles.PDBEnsemble`. Its invariant `Valid` keeps the stores in lockstep with the counter, the alignment's row labels equal to the labels, and every frame and weight row at the atom count.
- The methods that change the ensemble (`AddCoordset`, `DelCoordset`, `Superpose`, `SetWeights`) say how the new state follows from the old. For adding and deleting, that relation is given by the functions `Added` and `Deleted`, and the properties are proved about those functions. `Added` is `Appended` except on an ensemble whose weights were set before any frame.
- The loops of the source stay loops:
  - popping labels in descending order;
  - collecting the surviving alignment rows;
  - filling masked atoms of a copy;
  - the two accumulation passes of `getMSFs`;
  - the nested loop that fills the pairwise matrix in place in an `array2`.
- The generator `__iter__` is the class `Ensembles.Cursor`.
- The pure parts have their own modules:
  - Python index and slice arithmetic (`Indexing`);
  - label synthesis (`Labels`);
  - the call checks and reshaping of `addCoordset` (`Staging`);
  - sequence bookkeeping (`Alignment`);
  - the masked statistics (`Statistics`).
- `getRMSD` and `getTransformation` are parameters with no interpretation: `rmsd` and `calcT`. A transform is a rotation matrix and a translation.
- Coordinates and weights are exact reals.
- The reference frame is always set, and the base class `Ensemble` is represented by the contracts its callers here rely on.

The model follows the code. Where the code looks unintended, "## Findings"
names two members: one that models the code as written, and a corrected
one. The operations use the corrected member.

## Model

| member | source | states |
|---|---|---|
| Indexing.NormaliseIndex | prody/ensemble/pdbensemble.py:419-425 | a Python index is accepted exactly when `-n <= i < n`; the result is below `n` and congruent to `i` modulo `n`; otherwise IndexError |
| Indexing.NormaliseAll | prody/ensemble/pdbensemble.py:108-117 | a list of positions is accepted exactly when every entry is in range; the result has one in-range position per entry, each normalised as a single index; otherwise IndexError |
| Indexing.SliceIndices | prody/ensemble/pdbensemble.py:93-101 | a slice fails exactly when its step is zero (ValueError); otherwise every pick is in range and lies from the clamped start up to, not including, the clamped stop, the picks are empty exactly when the clamped start is not on the near side of the clamped stop, the first pick is the clamped start, consecutive picks differ by the step, and the last pick is the last one before the clamped stop |
| Indexing.Range | prody/ensemble/pdbensemble.py:93-101 | `range(start, stop, step)` is empty exactly when `start` is not on the near side of `stop`; otherwise it starts at `start`, advances by `step`, stays strictly before `stop`, and one more step would reach or cross `stop` |
| Indexing.ClampBound | prody/ensemble/pdbensemble.py:93-101 | a missing bound takes the default; a negative bound counts from the end; the result is that value clamped to the allowed interval |
| Indexing.SliceWithStep | prody/ensemble/pdbensemble.py:93-101 | `[1:4:2]` of five frames picks positions 1 and 3 |
| Indexing.SliceReversed | prody/ensemble/pdbensemble.py:93-101 | `[::-1]` of three frames picks positions 2, 1, 0 |
| Indexing.FullSlice | prody/ensemble/pdbensemble.py:364 | the full slice `[:]` picks every frame in order |
| Indexing.KeepSameLength | prody/ensemble/pdbensemble.py:396-404 | deleting the same positions from two stores of equal length leaves them of equal length, which keeps the stores in lockstep |
| Indexing.KeepPop | prody/ensemble/pdbensemble.py:401-404 | popping a position below all positions already removed is the same as deleting it along with them |
| Indexing.KeepLast | prody/ensemble/pdbensemble.py:396-404 | deleting the last position of a store extended by one entry gives the store back |
| Indexing.SurvivorsListed | prody/ensemble/pdbensemble.py:406-409 | `rest` holds exactly the positions below the row count that are not deleted |
| Indexing.SurvivorsIncrease | prody/ensemble/pdbensemble.py:406-409 | `rest` is strictly increasing, so survivors keep their order |
| Indexing.KeepIsSelect | prody/ensemble/pdbensemble.py:406-410 | indexing the alignment with `rest` is the same as deleting the listed rows |
| Indexing.Insert | prody/ensemble/pdbensemble.py:401 | inserting into a descending list keeps it descending and adds exactly that element |
| Indexing.SortDescending | prody/ensemble/pdbensemble.py:401 | `index.sort(reverse=True)` gives a strictly descending permutation |
| Geometry.Transformed | prody/ensemble/pdbensemble.py:151 | every atom of a frame is moved by the same rigid transform |
| Labels.StoredCount | prody/ensemble/pdbensemble.py:239-242 | a call stores no more frames than it is given: none from an empty stack, exactly one from a non-empty stack under `degeneracy`, and every frame without `degeneracy` |
| Labels.OrUnknown | prody/ensemble/pdbensemble.py:207-221 | a missing, empty-string or empty-list label becomes `Unknown`; the result is never empty |
| Labels.MemberLabelsDistinct | prody/ensemble/pdbensemble.py:293 | `L_m1`, `L_m2`, ... are pairwise different, because decimal numerals are |
| Labels.Numbered | prody/ensemble/pdbensemble.py:293 | a name `L` for n frames gives n labels, each starting with `L_m`, pairwise distinct |
| Labels.LabelsAsWritten | prody/ensemble/pdbensemble.py:291-300 | the source's label step: for a stack of n > 1 frames without degeneracy it yields n labels or raises |
| Labels.LabelListNotChecked | prody/ensemble/pdbensemble.py:299-300 | as written, one stored frame given two labels appends both labels |
| Labels.EmptyStackGetsLabel | prody/ensemble/pdbensemble.py:299-302 | as written, an empty stack without a label appends the label `Unknown` for no frame |
| Labels.NewLabels | prody/ensemble/pdbensemble.py:291-302 | there is always one label per stored frame; a label list raises ValueError exactly when its length differs from the number of stored frames |
| Labels.NumberedForStack | prody/ensemble/pdbensemble.py:291-293 | a name for a stack of n > 1 frames yields exactly `name_m1 ... name_mn` |
| Labels.SingleNameForOneFrame | prody/ensemble/pdbensemble.py:299-300 | a name for one stored frame is appended as a single entry |
| Labels.NewLabelsRefinesSource | prody/ensemble/pdbensemble.py:291-300 | the corrected labels equal the source's wherever the source keeps one label per stored frame |
| Alignment.Unknowns | prody/ensemble/pdbensemble.py:275 | the placeholder sequence is one `X` per atom |
| Alignment.SequencesFrom | prody/ensemble/pdbensemble.py:270-282 | no sequence and no alignment give none; no sequence with an alignment gives an `X` placeholder per stored frame; a string is repeated per stored frame; a `Sequence` gives one text; an alignment gives its row texts in order |
| Alignment.SequencesAsWritten | prody/ensemble/pdbensemble.py:270-287 | as written, placeholders come only when the alignment has rows, and ValueError is raised exactly for a single `Sequence` with a stored count other than one or a non-empty alignment of the wrong size |
| Alignment.NewSequences | prody/ensemble/pdbensemble.py:261-287 | sequences, when present, number one per stored frame; they are absent only when there is neither an alignment nor a sequence argument; an existing alignment without a sequence argument gets placeholder rows; a count mismatch raises ValueError, in both directions |
| Alignment.ExtendMsa | prody/ensemble/pdbensemble.py:304-318 | after adding rows, the row labels are the old labels followed by the new ones and the new rows carry the supplied sequences; an existing alignment keeps its rows as a prefix; a newly created one pads the earlier frames with `X` rows carrying their labels; no sequences leave the alignment as it was |
| Alignment.EmptyAlignmentSkipped | prody/ensemble/pdbensemble.py:274-276 | as written, an alignment left with no rows gets no placeholder row for a newly added frame |
| Alignment.EmptyAlignmentArgumentSkipped | prody/ensemble/pdbensemble.py:279-287 | as written, an alignment argument with no rows passes the count check for two frames and adds no rows |
| Alignment.NewSequencesRefinesSource | prody/ensemble/pdbensemble.py:270-287 | the corrected sequence step equals the source's whenever the alignment and the argument have rows |
| Staging.ShapeCoords | prody/ensemble/pdbensemble.py:224-238 | coordinates are accepted at the full or the selected atom count, and a single frame becomes a stack of one; otherwise, exactly, ValueError |
| Staging.Scatter | prody/ensemble/pdbensemble.py:248-249 | a scattered frame has the supplied values at the selected atoms and the reference everywhere else |
| Staging.KeepFirst | prody/ensemble/pdbensemble.py:239-240 | `degeneracy` keeps the first element only; otherwise everything is kept |
| Staging.StoredFrames | prody/ensemble/pdbensemble.py:239-250 | one full-size frame is stored per stored count; frames that are not selection-sized are stored unchanged |
| Staging.ScatteredFrame | prody/ensemble/pdbensemble.py:247-250 | a stored selection-sized frame equals the supplied values at the selected atoms and the reference at the others |
| Staging.DegenerateScatterStoresAll | prody/ensemble/pdbensemble.py:240-259 | as written, a degenerate stack of two selection-sized frames stores two frames with one weight row while the counter grows by one |
| Staging.DegenerateEmptyStack | prody/ensemble/pdbensemble.py:238-242 | as written, a degenerate empty stack stores nothing while the counter grows by one |
| Staging.StoredFramesAsWritten | prody/ensemble/pdbensemble.py:239-250 | as written, selection-sized frames give one stored frame per input frame, each with the kept input's values at the selected atoms (the first input under `degeneracy`); other frames give the stored count |
| Staging.RepeatsAsWritten | prody/ensemble/pdbensemble.py:242 | as written, the counter grows by one under `degeneracy`; that matches the frames stored except for an empty stack |
| Staging.StoredFramesRefinesSource | prody/ensemble/pdbensemble.py:239-250 | the corrected frames and counter equal the source's whenever degeneracy is off or the stack has one frame |
| Staging.ShapeWeights | prody/ensemble/pdbensemble.py:252-256 | default weights are all 1; one row is repeated for every frame; a row per frame is kept; each row must have one non-negative weight per atom, otherwise, exactly, ValueError |
| Staging.Stage | prody/ensemble/pdbensemble.py:209-302 | a successful call stages equally many frames, weight rows and labels, each frame and weight row at the full atom count, and one sequence per frame when there are sequences; every failure is a ValueError |
| Staging.StageGrowth | prody/ensemble/pdbensemble.py:239-259 | a stack grows the stores by its depth, or by one under `degeneracy`; frames that are not scattered are stored as given, all of them without `degeneracy` and the first one with it |
| Staging.StageSingle | prody/ensemble/pdbensemble.py:233-236 | a single frame is stored as one frame |
| Staging.StageCopy | prody/ensemble/pdbensemble.py:98-101 | re-adding frames that already fit the ensemble always succeeds and stores them, their weights and labels unchanged |
| Statistics.IncludedCount | prody/ensemble/pdbensemble.py:443 | the number of frames resolving an atom is at most the number of frames read |
| Statistics.MaskedMean | prody/ensemble/pdbensemble.py:443-447 | the mean over the resolving frames, scaled by their number, gives back their coordinate sum; it is the origin when no frame resolves the atom |
| Statistics.MsfAt | prody/ensemble/pdbensemble.py:448-451 | undefined exactly when no frame resolves the atom; otherwise the value times the number of resolving frames is the summed squared deviation from the masked mean |
| Statistics.MsfIgnoresMaskedFrames | prody/ensemble/pdbensemble.py:438-451 | an atom's MSF does not depend on its coordinates in frames where its weight is zero |
| Statistics.MsfOfIdenticalIsZero | prody/ensemble/pdbensemble.py:443-451 | identical coordinates in every including frame give an MSF of exactly 0 |
| Statistics.MsfUndefinedIffUnresolved | prody/ensemble/pdbensemble.py:443-451 | the MSF is undefined (0/0) exactly when no frame resolves the atom |
| Statistics.MsfNonNegative | prody/ensemble/pdbensemble.py:448-451 | a defined MSF is non-negative |
| Ensembles.AtomsOf | prody/ensemble/pdbensemble.py:466-468 | the atoms read are the selection, or all atoms in order when there is none; they are distinct and in range |
| Ensembles.Picked | prody/ensemble/pdbensemble.py:93-117 | a slice picks what `SliceIndices` describes; a list fails exactly on an out-of-range entry (IndexError) and otherwise picks, per entry, the frame that entry names as a single index |
| Ensembles.PairWeights | prody/ensemble/pdbensemble.py:479-480 | `w_i * w_j` is zero exactly where either frame leaves the atom unresolved, and is non-negative |
| Ensembles.Columns | prody/ensemble/pdbensemble.py:341-344 | a row cut to the selected columns keeps its name and holds the residue at each selected column; a column past the end raises IndexError |
| Ensembles.SubAlignment | prody/ensemble/pdbensemble.py:341-344 | `msa[rows, cols]` is the picked rows in order, each cut to the columns, and fails exactly when a cut fails |
| Ensembles.JoinedMsa | prody/ensemble/pdbensemble.py:59-65 | the alignment of `a + b` exists exactly when either side has rows; it then carries the labels of both, keeps each side's rows in place, and gives a side without an alignment `X` placeholder rows under its labels |
| Ensembles.PopAll | prody/ensemble/pdbensemble.py:401-404 | popping positions in descending order removes exactly those positions |
| Ensembles.KeepCount | prody/ensemble/pdbensemble.py:402-404 | popping k distinct positions shortens the labels by exactly k |
| Ensembles.DeletedCount | prody/ensemble/pdbensemble.py:401-404 | deleting k distinct existing positions, in any order, shortens a store by exactly k |
| Ensembles.SortedSameSet | prody/ensemble/pdbensemble.py:401 | sorting keeps the length and the set of positions to delete |
| Ensembles.Unlisted | prody/ensemble/pdbensemble.py:406-409 | the loop collecting `rest` gives the positions not listed, in order |
| Ensembles.FramesRead | prody/ensemble/pdbensemble.py:363-366 | all frames when no indices are given; otherwise accepted exactly when the list is non-empty and every entry is in range, giving each entry normalised as a single index; else IndexError |
| Ensembles.NoFramesRefused | prody/ensemble/pdbensemble.py:363-367 | an empty list of frames raises IndexError (an empty float array is no index), while no indices on an empty ensemble read nothing |
| Ensembles.MaskedCopy | prody/ensemble/pdbensemble.py:369-372 | the copy holds the reference at every zero-weight atom and the stored value at every other atom |
| Ensembles.RetrieveAll | prody/ensemble/pdbensemble.py:368-372 | one masked copy per picked frame, in order |
| Ensembles.MaskedSums | prody/ensemble/pdbensemble.py:443-446 | the first loop computes, per atom, the count of including frames and their coordinate sum |
| Ensembles.MaskedSquareSums | prody/ensemble/pdbensemble.py:448-450 | the second loop computes, per atom, the masked sum of squared deviations from the mean |
| Ensembles.FillRow | prody/ensemble/pdbensemble.py:475-481 | one pass of the inner loop fills row `i` right of the diagonal and mirrors it into column `i` |
| Ensembles.FitSeesOnlySelection | prody/ensemble/pdbensemble.py:140-147 | the transform fitted for a frame depends on the frame only at the selected atoms |
| Ensembles.PairRmsdSeesOnlyPair | prody/ensemble/pdbensemble.py:478-481 | a pair's RMSD depends only on those two frames at the selected atoms |
| Ensembles.PairwiseMatrix | prody/ensemble/pdbensemble.py:471-481 | the matrix is n x n, symmetric, zero on the diagonal, and above the diagonal holds the pair RMSD over the selected atoms with weights `w_i * w_j` |
| Ensembles.KeepRowLabels | prody/ensemble/pdbensemble.py:403-410 | the surviving alignment rows carry the surviving labels |
| Ensembles.DeletedRows | prody/ensemble/pdbensemble.py:405-410 | `msa[rest]` is the alignment without the deleted rows, and its labels are the surviving labels |
| Ensembles.DeletionError | prody/ensemble/pdbensemble.py:396 | a deletion is accepted exactly when its positions are distinct and name existing frames; an out-of-range position raises IndexError, a repeated one ValueError |
| Ensembles.PopLabelsAndRows | prody/ensemble/pdbensemble.py:397-410 | the labels lose exactly the listed positions and the alignment rows, if any, lose exactly those rows |
| Ensembles.Appended | prody/ensemble/pdbensemble.py:302-329 | a failed check leaves every store unchanged; a successful one extends the frames, weights and labels by what was staged, advances the counter by the number of frames stored, and extends the alignment; the invariant is kept |
| Ensembles.Deleted | prody/ensemble/pdbensemble.py:393-410 | a bad position leaves every store unchanged; otherwise every store loses exactly the listed positions with the survivors in order, the counter drops by their number, frames are unset when none survive, and the invariant is kept |
| Ensembles.Delete | prody/ensemble/pdbensemble.py:396-410 | the deletion by popping labels, collecting the surviving rows and lowering the counter by the number of positions gives exactly the stores `Deleted` describes |
| Ensembles.DeleteLast | prody/ensemble/pdbensemble.py:396-410 | deleting the last frame drops the last entry of every store |
| Ensembles.AppendThenDelete | prody/ensemble/pdbensemble.py:396-404 | adding one frame and then deleting it at its new position restores the frames, weights, labels, counter and any earlier alignment |
| Ensembles.CopyStores | prody/ensemble/pdbensemble.py:96-115 | the copy made by slicing or listing holds exactly the picked frames, weights and labels, and the picked alignment rows when there are any |
| Ensembles.FirstCopy | prody/ensemble/pdbensemble.py:57-61 | the first add of `a + b` copies all of `a`, keeping its alignment only when it has rows |
| Ensembles.SecondCopy | prody/ensemble/pdbensemble.py:63-65 | the second add of `a + b` appends all of `b`, or raises ValueError when `b` has no frames set |
| Ensembles.JoinedCopies | prody/ensemble/pdbensemble.py:59-65 | the two adds of `a + b` build the alignment `JoinedMsa` describes |
| Ensembles.IndexedMsa | prody/ensemble/pdbensemble.py:87-89 | the alignment handed to the copy is the picked rows in order when it has rows, and the alignment itself otherwise |
| Ensembles.CoordsetsAsWritten | prody/ensemble/pdbensemble.py:363-379 | as written, a list of frames (or one integer) under a selection always raises: ValueError from the assignment at line 379 exactly when three atoms are selected and one or three frames are listed, IndexError in every other case |
| Ensembles.CoordsetsMismatch | prody/ensemble/pdbensemble.py:374-379 | as written, two frames under three or two selected atoms and one frame under two raise IndexError; one frame or three frames under three selected atoms raise ValueError |
| Ensembles.PickedTransforms | prody/ensemble/pdbensemble.py:102-103 | the copy's transforms are the picked transforms when there are any; a slice never fails there; a list fails only with IndexError |
| Ensembles.AppendConsistent | prody/ensemble/pdbensemble.py:302-329 | appending what a successful call staged keeps the stores in lockstep and the alignment labels equal to the labels |
| Ensembles.DeletionConsistent | prody/ensemble/pdbensemble.py:396-410 | deleting the same positions from every store keeps the invariant |
| Ensembles.PDBEnsemble.constructor | prody/ensemble/pdbensemble.py:30-35 | a new ensemble on a reference holds no frames, no weights, no alignment and no transforms, and satisfies the invariant |
| Ensembles.PDBEnsemble.GetLabels | prody/ensemble/pdbensemble.py:346-349 | one label per frame, in frame order |
| Ensembles.PDBEnsemble.GetConformation | prody/ensemble/pdbensemble.py:412-425 | AttributeError when no frames are set; otherwise accepted exactly for `-n <= i < n`, with a negative index mapped to `n + i`, and IndexError outside |
| Ensembles.PDBEnsemble.GetMSA | prody/ensemble/pdbensemble.py:334-344 | absent without an alignment; bad row indices raise IndexError; the rows returned carry the names of the picked rows in order; cut rows have one residue per selected atom; the whole alignment when nothing is picked or cut |
| Ensembles.PDBEnsemble.AddCoordset | prody/ensemble/pdbensemble.py:164-332 | the new stores are `Added` of the old ones, so a failed call changes nothing; afterwards the weights are set exactly when they were before or the call passed; the reference, selection and transforms are unchanged and the invariant (frames never set without weights) is kept |
| Ensembles.Added | prody/ensemble/pdbensemble.py:320-332 | when weights were set alone and the call would pass, RuntimeError and every store unchanged; otherwise exactly `Appended`; in both cases the stores stay in lockstep and a passing call leaves the frames set |
| Ensembles.WeightsBeforeFrames | prody/ensemble/pdbensemble.py:320-332 | `setWeights` on an ensemble without frames, then `addCoordset` of one frame, raises the RuntimeError `_confs and _weights must be set or None at the same time` |
| Ensembles.PDBEnsemble.DelCoordset | prody/ensemble/pdbensemble.py:393-410 | the new stores are `Deleted` of the old ones; a passing call leaves the weights set exactly when frames survive, a failing one leaves them as they were; the reference, selection and transforms are unchanged and the invariant is kept |
| Ensembles.PDBEnsemble.CopyFrames | prody/ensemble/pdbensemble.py:94-106 | the ensemble a slice or list fills is fresh, on the same reference, selection and atoms, holds exactly the picked frames, weights and labels, the picked alignment rows when there are any, and the given transforms |
| Ensembles.PDBEnsemble.GetItem | prody/ensemble/pdbensemble.py:84-122 | an integer gives the conformation `getConformation` names or its error; a slice or list gives its index error, TypeError when no frames are set, or a fresh ensemble holding copies of exactly the picked frames, weights, labels, alignment rows and transforms, on the same reference, selection and atoms |
| Ensembles.PDBEnsemble.Concat | prody/ensemble/pdbensemble.py:45-73 | an atom-count mismatch raises ValueError, as does `other` without frames; otherwise a fresh ensemble holding the frames, weights and labels of `self` then `other`, the joined alignment, the reference of `self`, and the atoms of `self` if it has them and of `other` otherwise |
| Ensembles.PDBEnsemble.GetCoordsets | prody/ensemble/pdbensemble.py:351-380 | absent without frames; an empty or out-of-range list raises IndexError; otherwise one copy per picked frame at the selected atoms, holding the reference wherever the weight is zero and the stored value elsewhere |
| Ensembles.PDBEnsemble.GetMSFs | prody/ensemble/pdbensemble.py:427-451 | absent exactly when no frames are set; otherwise, for each selected atom, the masked MSF (`MsfAt`) over the frames resolving it |
| Ensembles.PDBEnsemble.GetRMSDs | prody/ensemble/pdbensemble.py:453-485 | absent exactly when no frames are set; per frame, the RMSD of the reference and the frame at the selected atoms with that frame's weights; pairwise, an n x n symmetric matrix with a zero diagonal whose upper entries are the pair RMSDs with weights `w_i * w_j` |
| Ensembles.PDBEnsemble.Superpose | prody/ensemble/pdbensemble.py:124-152 | without frames, TypeError and nothing changes; otherwise every frame is moved whole by the transform fitted at its selected atoms, transforms are kept (one per frame) exactly when tracking is on, and nothing but the frames and transforms changes |
| Ensembles.PDBEnsemble.SetWeights | prody/ensemble/pdbensemble.py:487-494 | weights passing `checkWeights` replace the stored ones and mark them set, even with no frames; `None` raises TypeError; otherwise the error is returned; on any error the weights and their flag are unchanged |
| Ensembles.Cursor.constructor | prody/ensemble/pdbensemble.py:75-77 | a new generator has not started and is positioned at 0 |
| Ensembles.Cursor.Next | prody/ensemble/pdbensemble.py:75-82 | the first step takes the frame count; each step yields the next position below it, raises RuntimeError once the ensemble's count differs from it, or is exhausted; a yielded position always names a current frame |

## Left out

- `iterpose` (pdbensemble.py:154-162): it delegates to `Ensemble.iterpose`, which is not part of this model, and its convergence loop is floating point.
- `iterCoordsets` (pdbensemble.py:384-391): a generator over `PDBConformation.getCoords`, which is not part of this model.
- The numerics of `getRMSD` and `getTransformation`: they are parameters (`rmsd`, `calcT`) with no interpretation. The 4x4 layout of a stored transform (pdbensemble.py:131, 149-150) is a rotation and a translation.
- Ensembles.PDBEnsemble.GetRMSDs: the per-frame branch assumes that `getRMSD` on a stack computes one value per frame, since `prody.measure` is not part of this model. The `weights is None` case (pdbensemble.py:470, 476-477) cannot occur, because weights are set whenever frames are.
- Ensembles.PDBEnsemble.SetWeights: only the branch for weights at the full atom count (pdbensemble.py:493-494). The selection fallback (pdbensemble.py:495-499) indexes the frame axis with atom indices and is not modelled. The `_n_atoms == 0` check (pdbensemble.py:490-491) cannot fail, because the reference is always set.
- Duck-typed coordinate sources (pdbensemble.py:177-221): `Ensemble` and `Atomic` arguments, `AtomGroup` titles used as labels, `getSequence` of the argument or of attached atoms, and the TypeError when coordinates are not an array. Calls take already-resolved arguments (`CoordsArg`, `LabelArg`, `SeqArg`), and attached atoms never supply a sequence.
- Python type errors from the argument type: a non-integer index to `getConformation`, an index of another type to `__getitem__` (`IndexError('invalid index')`), a non-`Ensemble` operand of `+`. The model's arguments are typed. The operand of `+` is always a `PDBEnsemble`.
- `checkCoords` and `checkWeights` of `prody.utilities` (imported at pdbensemble.py:9), which are not part of this model. `Staging.ShapeCoords` and `Staging.ShapeWeights` state the checks the calls here depend on. Two assumptions follow from that: `checkWeights` accepts one row for a frame count of 0 and then stores no rows, and it refuses `None` (not an array) with TypeError, which `setWeights`'s `except ValueError` does not catch.
- The base class `Ensemble`, which is not part of this model: `__init__`, `setCoords`, `setAtoms`, `numSelected`, and the pruning in `Ensemble.delCoordset`. Its assumed contracts:
  - it rejects out-of-range and repeated positions before anything changes;
  - it treats negative positions as out of range;
  - it removes the frames and weight rows at the listed positions;
  - it unsets the frames and the weights when none survive.
- Ensembles.Deleted: the model checks positions before changing anything, as the assumed base class does. The source's own label popping (pdbensemble.py:402-404) would also accept negative positions.
- Ensembles.PDBEnsemble.AddCoordset: when `setWeights` has set the weights before any frame, the source raises RuntimeError (pdbensemble.py:330-332) only after it has already extended the labels (line 302) and the alignment (lines 304-318). The model raises the same error but leaves every store unchanged, because that partly updated state breaks the lockstep of labels and frames. Frames set without weights, the other way to reach line 330, cannot happen: frames and weights are set together.
- The first-ever add before a reference is set (pdbensemble.py:178, 244-245): the reference is always set, so `n_atoms` is never 0.
- Titles, `__repr__`, `__str__` and logging.
- The alignment object's internals (its `MSA` class). It is a list of labelled rows. Indexing it with a list is assumed to select those rows, and `extend` to append them.
- Ensembles.PDBEnsemble.GetItem: the source looks up the alignment before branching on the index type (pdbensemble.py:87-89), and a bad slice or list fails there first. It does so with the same error the frame lookup gives, so the model checks the index once. The source picks the transforms after it has filled the copy; the model picks them first, and when that raises, the copy the source would have filled is discarded either way.
- Ensembles.PDBEnsemble.GetItem: conformations (`PDBConformation`) are represented by their frame position.
- Ensembles.Cursor.Next: yields positions rather than `PDBConformation` objects.
- Ensembles.PDBEnsemble.GetMSA: its contract gives the names of the rows returned, their number, the width of a cut row, and the whole alignment when nothing is picked or cut. The residues of a cut row are stated by Ensembles.Columns and Ensembles.SubAlignment, which compute them.
- Floating point: coordinates and weights are exact reals, and `nan` from `0/0` in `getMSFs` is the value `Undefined`.
- Aliasing between ensembles: stores are values. In the source a copy shares `_indices` with its original (pdbensemble.py:69, 72, 105, 119), and a slice copy's `_trans` is a view on the original's (pdbensemble.py:103). Nothing here writes into those arrays in place, so the model cannot tell the difference; a later in-place write through one ensemble would show in the other, and that is not modelled.

## Findings

| source | as written | input that shows it | evidently intended | confidence | as-written member | corrected member |
|---|---|---|---|---|---|---|
| prody/ensemble/pdbensemble.py:299-302 | when one frame is stored, a label list is appended whatever its length | one frame with `label=['a', 'b']`: two labels for one frame | a label list must have one label per stored frame, or ValueError | not executed | Labels.LabelListNotChecked | Labels.NewLabels |
| prody/ensemble/pdbensemble.py:299-302 | an empty stack gets the label `Unknown` (or the given name) | `addCoordset` of a 0-frame stack: one label, no frame | no label for no frame | not executed | Labels.EmptyStackGetsLabel | Labels.NewLabels |
| prody/ensemble/pdbensemble.py:240-259 | with `degeneracy` and selection-sized frames, `full_coords` gets one frame per input frame while the weights keep one row and the counter grows by one | two frames of one atom under a one-atom selection, `degeneracy=True`: two frames stored, one weight row | exactly one frame stored | not executed | Staging.DegenerateScatterStoresAll | Staging.StoredFrames |
| prody/ensemble/pdbensemble.py:238-242 | with `degeneracy`, the counter grows by one whatever the stack depth | an empty stack with `degeneracy=True`: no frame stored, counter +1 | the counter grows by the number of frames stored | not executed | Staging.DegenerateEmptyStack | Labels.StoredCount |
| prody/ensemble/pdbensemble.py:274-276 | `if self._msa:` tests whether the alignment has rows, not whether it exists | delete every frame (the alignment is kept with no rows), then add a frame without a sequence: one frame, no alignment row | `self._msa is not None`, so the frame gets an `X` row | not executed | Alignment.EmptyAlignmentSkipped | Alignment.NewSequences |
| prody/ensemble/pdbensemble.py:279-287 | `if seqs:` skips the count check for an empty sequence list | two frames with an alignment argument of no rows: the check passes and the alignment gets no rows | `seqs is not None`, so the mismatch raises ValueError | not executed | Alignment.EmptyAlignmentArgumentSkipped | Alignment.NewSequences |
| prody/ensemble/pdbensemble.py:374-379 | `self._confs[indices, selids]` pairs the frame list with the atom list entry by entry, giving points rather than frames; the mask loop then indexes the x, y, z axis of a point with a mask of one entry per selected atom, and assigns a point per masked atom where one number fits | `getCoordsets([0, 1])` under a three-atom or a two-atom selection raises IndexError; `getCoordsets(0)` under a three-atom selection raises ValueError; with a selection, `getCoordsets` given indices never returns | the picked frames at the selected atoms, `self._confs[indices][:, selids]`, with the reference at zero-weight atoms | not executed | Ensembles.CoordsetsMismatch | Ensembles.PDBEnsemble.GetCoordsets |

The rest of the model uses the corrected members: `Staging.Stage` stages
with `NewLabels`, `NewSequences` and `StoredFrames`, and the counter grows
by the number of frames stored.
