/** The checks and reshaping `addCoordset` performs before it changes the
    ensemble (pdbensemble.py:209-302): coordinates, scatter of
    selection-sized frames, weights, sequences and labels. */
module Staging {
  import opened Wrappers
  import opened Geometry
  import opened Indexing
  import opened Labels
  import opened Alignment

  /** The coordinates argument once the duck-typed source has been resolved:
      nothing (`None`), one frame (an atoms x 3 array) or a stack of frames
      with `nodes` atoms each. */
  datatype CoordsArg = NoCoords | OneFrame(frame: Frame) | Stack(nodes: nat, frames: seq<Frame>)

  /** The `weights` argument: absent, one row for every frame, or a row per frame. */
  datatype WeightsArg = DefaultWeights | OneRow(row: seq<real>) | RowPerFrame(rows: seq<seq<real>>)

  /** Coordinates after the shape check: the atom count and the frames. */
  datatype Shaped = Shaped(nodes: nat, frames: seq<Frame>)

  /** An atom selection over `nAtoms` atoms: distinct valid atom indices. */
  predicate ValidSelection(indices: Option<seq<nat>>, nAtoms: nat)
  {
    indices.Some? ==> InRange(indices.value, nAtoms) && Distinct(indices.value)
  }

  /** Number of selected atoms (`numSelected`). */
  function NumSelected(indices: Option<seq<nat>>, nAtoms: nat): nat
  {
    if indices.Some? then |indices.value| else nAtoms
  }

  predicate WellShaped(nodes: nat, frames: seq<Frame>)
  {
    forall f :: 0 <= f < |frames| ==> |frames[f]| == nodes
  }

  /** `checkCoords`, tried against the full and then the selected atom
      count, and the reshape of a single frame into a stack of one. */
  function ShapeCoords(arg: CoordsArg, nAtoms: nat, nSelect: nat): (r: Result<Shaped>)
    ensures r.Ok? ==> (r.value.nodes == nAtoms || r.value.nodes == nSelect) && WellShaped(r.value.nodes, r.value.frames)
    ensures r.Err? <==> match arg
      case NoCoords => true
      case OneFrame(f) => |f| != nAtoms && |f| != nSelect
      case Stack(n, fs) => (n != nAtoms && n != nSelect) || !WellShaped(n, fs)
    ensures r.Err? ==> r.error.ValueError?
    ensures arg.OneFrame? && r.Ok? ==> r.value.frames == [arg.frame]
    ensures arg.Stack? && r.Ok? ==> r.value == Shaped(arg.nodes, arg.frames)
  {
    match arg
    case NoCoords => Err(ValueError("coordinates are not set"))
    case OneFrame(f) =>
      if |f| == nAtoms || |f| == nSelect then Ok(Shaped(|f|, [f]))
      else Err(ValueError("coords does not have the right number of atoms"))
    case Stack(n, fs) =>
      if (n == nAtoms || n == nSelect) && WellShaped(n, fs) then Ok(Shaped(n, fs))
      else Err(ValueError("coords does not have the right number of atoms"))
  }

  /** `full[indices] = vals` on a copy `full` of the reference frame. */
  function Scatter(reference: Frame, idx: seq<nat>, vals: Frame): (r: Frame)
    requires InRange(idx, |reference|) && Distinct(idx) && |vals| == |idx|
    ensures |r| == |reference|
    ensures forall k :: 0 <= k < |idx| ==> r[idx[k]] == vals[k]
    ensures forall a :: 0 <= a < |reference| && a !in idx ==> r[a] == reference[a]
    decreases |idx|
  {
    if |idx| == 0 then reference
    else
      var m := |idx| - 1;
      Scatter(reference, idx[..m], vals[..m])[idx[m] := vals[m]]
  }

  /** The first frame only when `degeneracy` is set (`coords[:1]`). */
  function KeepFirst<T>(s: seq<T>, degeneracy: bool): (r: seq<T>)
    ensures |r| == StoredCount(|s|, degeneracy)
    ensures forall k :: 0 <= k < |r| ==> r[k] == s[k]
  {
    if degeneracy && |s| > 0 then s[..1] else s
  }

  /** Whether frames of `nodes` atoms are selection-sized and must be
      scattered into full frames. */
  predicate Scatters(indices: Option<seq<nat>>, nodes: nat)
  {
    indices.Some? && nodes == |indices.value|
  }

  /** The frames a call stores: the kept frames, each scattered into a copy
      of the reference when it is selection-sized. */
  function StoredFrames(reference: Frame, indices: Option<seq<nat>>, nodes: nat,
                        frames: seq<Frame>, degeneracy: bool): (r: seq<Frame>)
    requires ValidSelection(indices, |reference|)
    requires nodes == |reference| || nodes == NumSelected(indices, |reference|)
    requires WellShaped(nodes, frames)
    ensures |r| == StoredCount(|frames|, degeneracy)
    ensures forall f :: 0 <= f < |r| ==> |r[f]| == |reference|
    ensures !Scatters(indices, nodes) ==> r == KeepFirst(frames, degeneracy)
  {
    var kept := KeepFirst(frames, degeneracy);
    if Scatters(indices, nodes) then
      seq(|kept|, k requires 0 <= k < |kept| => Scatter(reference, indices.value, kept[k]))
    else
      kept
  }

  /** A selection-sized frame is stored as the reference at the unselected
      atoms and the supplied values at the selected ones. */
  lemma ScatteredFrame(reference: Frame, idx: seq<nat>, frames: seq<Frame>, degeneracy: bool, f: nat, k: nat, a: nat)
    requires ValidSelection(Some(idx), |reference|)
    requires WellShaped(|idx|, frames)
    requires f < StoredCount(|frames|, degeneracy) && k < |idx| && a < |reference|
    ensures StoredFrames(reference, Some(idx), |idx|, frames, degeneracy)[f][idx[k]] == frames[f][k]
    ensures a !in idx ==> StoredFrames(reference, Some(idx), |idx|, frames, degeneracy)[f][a] == reference[a]
  {
  }

  /** The source's frames: `full_coords` has one copy of the reference per
      input frame (`n_csets`), whatever `degeneracy` kept; the kept first
      frame is broadcast into all of them. */
  function StoredFramesAsWritten(reference: Frame, indices: Option<seq<nat>>, nodes: nat,
                                 frames: seq<Frame>, degeneracy: bool): (r: seq<Frame>)
    requires ValidSelection(indices, |reference|)
    requires WellShaped(nodes, frames)
    ensures Scatters(indices, nodes) ==> |r| == |frames|
    ensures !Scatters(indices, nodes) ==> |r| == StoredCount(|frames|, degeneracy)
    ensures Scatters(indices, nodes) ==> forall f :: 0 <= f < |r| ==> |r[f]| == |reference|
    ensures Scatters(indices, nodes) ==> forall f, k :: 0 <= f < |r| && 0 <= k < nodes ==>
      r[f][indices.value[k]] == frames[if degeneracy then 0 else f][k]
  {
    var kept := KeepFirst(frames, degeneracy);
    if Scatters(indices, nodes) then
      seq(|frames|, k requires 0 <= k < |frames| =>
        Scatter(reference, indices.value, if |kept| == |frames| then kept[k] else kept[0]))
    else
      kept
  }

  /** The source's frame counter increment (`n_repeats`): one under
      `degeneracy`, which matches the frames stored except for an empty stack. */
  function RepeatsAsWritten(nCsets: nat, degeneracy: bool): (r: nat)
    ensures degeneracy ==> r == 1
    ensures r >= StoredCount(nCsets, degeneracy)
    ensures r == StoredCount(nCsets, degeneracy) <==> !(degeneracy && nCsets == 0)
  {
    if degeneracy then 1 else nCsets
  }

  /** A degenerate stack of two selection-sized frames: two frames are
      stored, one weight row is kept and the counter grows by one. */
  lemma DegenerateScatterStoresAll()
    ensures var reference := [Origin, Origin];
      var frames := [[(1.0, 0.0, 0.0)], [(2.0, 0.0, 0.0)]];
      |StoredFramesAsWritten(reference, Some([1]), 1, frames, true)| == 2 &&
      RepeatsAsWritten(2, true) == 1 &&
      |KeepFirst([[1.0, 1.0], [1.0, 1.0]], true)| == 1
  {
  }

  /** A degenerate empty stack: nothing is stored but the counter grows by one. */
  lemma DegenerateEmptyStack(reference: Frame)
    requires |reference| > 0
    ensures StoredFramesAsWritten(reference, None, |reference|, [], true) == []
    ensures RepeatsAsWritten(0, true) == 1
  {
  }

  /** The corrected frames agree with the source's whenever the source's
      stored frames match its counter. */
  lemma StoredFramesRefinesSource(reference: Frame, indices: Option<seq<nat>>, nodes: nat,
                                  frames: seq<Frame>, degeneracy: bool)
    requires ValidSelection(indices, |reference|)
    requires nodes == |reference| || nodes == NumSelected(indices, |reference|)
    requires WellShaped(nodes, frames)
    requires !degeneracy || |frames| == 1
    ensures StoredFrames(reference, indices, nodes, frames, degeneracy)
         == StoredFramesAsWritten(reference, indices, nodes, frames, degeneracy)
    ensures RepeatsAsWritten(|frames|, degeneracy) == StoredCount(|frames|, degeneracy)
  {
  }

  predicate WeightRowOk(row: seq<real>, nAtoms: nat)
  {
    |row| == nAtoms && forall a :: 0 <= a < |row| ==> row[a] >= 0.0
  }

  predicate WeightRowsOk(rows: seq<seq<real>>, nAtoms: nat)
  {
    forall f :: 0 <= f < |rows| ==> WeightRowOk(rows[f], nAtoms)
  }

  /** `checkWeights(weights, n_atoms, n_csets)`, or all-ones weights when
      none are given. Weights always cover all atoms, even when the frames
      are selection-sized. */
  function ShapeWeights(arg: WeightsArg, nAtoms: nat, nCsets: nat): (r: Result<seq<seq<real>>>)
    ensures r.Ok? ==> |r.value| == nCsets && WeightRowsOk(r.value, nAtoms)
    ensures arg.DefaultWeights? ==> r.Ok? && forall f, a :: 0 <= f < nCsets && 0 <= a < nAtoms ==> r.value[f][a] == 1.0
    ensures arg.OneRow? && r.Ok? ==> forall f :: 0 <= f < nCsets ==> r.value[f] == arg.row
    ensures arg.RowPerFrame? && r.Ok? ==> r.value == arg.rows
    ensures r.Err? <==> match arg
      case DefaultWeights => false
      case OneRow(row) => !WeightRowOk(row, nAtoms)
      case RowPerFrame(rows) => |rows| != nCsets || !WeightRowsOk(rows, nAtoms)
    ensures r.Err? ==> r.error.ValueError?
  {
    match arg
    case DefaultWeights => Ok(Repeat(Repeat(1.0, nAtoms), nCsets))
    case OneRow(row) =>
      if WeightRowOk(row, nAtoms) then Ok(Repeat(row, nCsets))
      else Err(ValueError("weights must have one non-negative value per atom"))
    case RowPerFrame(rows) =>
      if |rows| == nCsets && WeightRowsOk(rows, nAtoms) then Ok(rows)
      else Err(ValueError("weights must have one non-negative row per coordinate set"))
  }

  /** What one successful call appends: frames, weight rows, labels, and the
      sequences for the alignment (if any). */
  datatype Staged = Staged(frames: seq<Frame>, weights: seq<seq<real>>, labels: seq<string>, seqs: Option<seq<string>>)

  /** The whole validation of `addCoordset`, in the source's order
      (coordinates, weights, sequences, labels); nothing is changed unless
      every check passes. */
  function Stage(reference: Frame, indices: Option<seq<nat>>, msa: Option<seq<MsaRow>>,
                 coords: CoordsArg, weights: WeightsArg, arg: LabelArg, degeneracy: bool,
                 sequence: SeqArg): (r: Result<Staged>)
    requires ValidSelection(indices, |reference|)
    ensures r.Ok? ==> |r.value.frames| == |r.value.weights| == |r.value.labels|
    ensures r.Ok? ==> forall f :: 0 <= f < |r.value.frames| ==> |r.value.frames[f]| == |reference|
    ensures r.Ok? ==> WeightRowsOk(r.value.weights, |reference|)
    ensures r.Ok? && r.value.seqs.Some? ==> |r.value.seqs.value| == |r.value.frames|
    ensures r.Ok? && r.value.seqs.None? ==> msa.None?
    ensures r.Err? ==> r.error.ValueError?
  {
    var shaped :- ShapeCoords(coords, |reference|, NumSelected(indices, |reference|));
    var nCsets := |shaped.frames|;
    var ws :- ShapeWeights(weights, |reference|, nCsets);
    var nRepeats := StoredCount(nCsets, degeneracy);
    var seqs :- NewSequences(sequence, msa, nRepeats, |reference|);
    var labels :- NewLabels(arg, nCsets, degeneracy);
    var kept := KeepFirst(ws, degeneracy);
    assert WeightRowsOk(kept, |reference|);
    Ok(Staged(StoredFrames(reference, indices, shaped.nodes, shaped.frames, degeneracy), kept, labels, seqs))
  }

  /** Each frame store grows by the stack depth, or by one when
      `degeneracy` is set. */
  lemma StageGrowth(reference: Frame, indices: Option<seq<nat>>, msa: Option<seq<MsaRow>>,
                    frames: seq<Frame>, weights: WeightsArg, arg: LabelArg, degeneracy: bool, sequence: SeqArg)
    requires ValidSelection(indices, |reference|)
    requires |frames| > 0
    requires Stage(reference, indices, msa, Stack(|reference|, frames), weights, arg, degeneracy, sequence).Ok?
    ensures var st := Stage(reference, indices, msa, Stack(|reference|, frames), weights, arg, degeneracy, sequence).value;
      |st.frames| == (if degeneracy then 1 else |frames|) &&
      (!degeneracy && !Scatters(indices, |reference|) ==> st.frames == frames) &&
      (degeneracy && !Scatters(indices, |reference|) ==> st.frames == [frames[0]])
  {
  }

  /** A single frame is stored as one frame, with one weight row and one label. */
  lemma StageSingle(reference: Frame, indices: Option<seq<nat>>, msa: Option<seq<MsaRow>>,
                    frame: Frame, weights: WeightsArg, arg: LabelArg, sequence: SeqArg)
    requires ValidSelection(indices, |reference|)
    requires Stage(reference, indices, msa, OneFrame(frame), weights, arg, false, sequence).Ok?
    ensures var st := Stage(reference, indices, msa, OneFrame(frame), weights, arg, false, sequence).value;
      |st.frames| == 1 && (st.seqs.Some? ==> |st.seqs.value| == 1)
  {
  }

  /** Copying frames that already fit the ensemble (as slicing and `+` do)
      always succeeds and stores them unchanged. */
  lemma StageCopy(reference: Frame, msa: Option<seq<MsaRow>>, frames: seq<Frame>,
                  weights: seq<seq<real>>, labels: seq<string>, sequence: SeqArg)
    requires |reference| > 0
    requires |frames| == |weights| == |labels|
    requires WellShaped(|reference|, frames) && WeightRowsOk(weights, |reference|)
    requires sequence.Alignment? ==> |sequence.rows| == |frames|
    requires sequence.NoSequence? || sequence.Alignment?
    ensures var r := Stage(reference, None, msa, Stack(|reference|, frames), RowPerFrame(weights), Names(labels), false, sequence);
      r.Ok? && r.value.frames == frames && r.value.weights == weights &&
      r.value.labels == (if |frames| == 0 then [] else labels) &&
      r.value.seqs == SequencesFrom(sequence, msa.Some?, |frames|, |reference|)
  {
    var r := Stage(reference, None, msa, Stack(|reference|, frames), RowPerFrame(weights), Names(labels), false, sequence);
    assert ShapeCoords(Stack(|reference|, frames), |reference|, |reference|) == Ok(Shaped(|reference|, frames));
    if |frames| == 0 {
      assert NewLabels(Names(labels), 0, false) == Ok([]);
    } else if |frames| == 1 {
      assert NewLabels(Names(labels), 1, false) == Ok(labels);
    } else {
      assert NewLabels(Names(labels), |frames|, false) == Ok(labels);
    }
  }
}
