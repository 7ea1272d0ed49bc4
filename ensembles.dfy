/** The heterogeneous conformation ensemble `PDBEnsemble`
    (prody/ensemble/pdbensemble.py): a reference frame, three per-frame
    stores kept in lockstep (frames, weights, labels), an optional
    alignment with one row per frame, optional superposition transforms
    and an optional atom selection. A weight of zero marks an atom that a
    frame does not resolve. */
module Ensembles {
  import opened Wrappers
  import opened Geometry
  import opened Indexing
  import opened Labels
  import opened Alignment
  import opened Staging
  import opened Statistics

  /** The `index` argument of `__getitem__`: an integer, a slice or a list. */
  datatype Index =
    | At(position: int)
    | Slice(start: Option<int>, stop: Option<int>, step: Option<int>)
    | Pick(ids: seq<int>)

  /** The `index` argument of `delCoordset`: one position or a list. */
  datatype Deletion = One(position: int) | Many(positions: seq<int>)

  /** `getRMSDs`: one value per frame, or the pairwise matrix. */
  datatype Rmsds = PerFrame(values: seq<real>) | Pairwise(matrix: seq<seq<real>>)

  /** What `__getitem__` returns: a conformation (a view on one frame) or
      a new ensemble. */
  datatype Item = Conformation(position: nat) | Copy(ensemble: PDBEnsemble)

  function Ids(d: Deletion): seq<int>
  {
    match d
    case One(p) => [p]
    case Many(ps) => ps
  }

  /** The atoms the selection covers (all atoms when there is none). */
  function AtomsOf(indices: Option<seq<nat>>, nAtoms: nat): (r: seq<nat>)
    requires ValidSelection(indices, nAtoms)
    ensures InRange(r, nAtoms) && Distinct(r)
    ensures indices.None? ==> r == Iota(nAtoms)
    ensures indices.Some? ==> r == indices.value
  {
    if indices.Some? then indices.value else Iota(nAtoms)
  }

  /** The frame positions a slice or a list picks out of `n`. */
  function Picked(index: Index, n: nat): (r: Result<seq<nat>>)
    requires !index.At?
    ensures r.Ok? ==> InRange(r.value, n)
    ensures index.Slice? ==> (r.Err? <==> index.step == Some(0)) && (r.Err? ==> r.error.ValueError?)
    ensures index.Pick? ==> (r.Err? <==> exists k :: 0 <= k < |index.ids| && !(-(n as int) <= index.ids[k] < n))
    ensures index.Pick? ==> (r.Err? ==> r.error.IndexError?) && (r.Ok? ==> |r.value| == |index.ids|)
    ensures index.Pick? && r.Ok? ==> forall k :: 0 <= k < |index.ids| ==> NormaliseIndex(index.ids[k], n) == Ok(r.value[k])
    ensures index.Slice? ==> r == SliceIndices(n, index.start, index.stop, index.step)
  {
    match index
    case Slice(b, e, s) => SliceIndices(n, b, e, s)
    case Pick(ids) => NormaliseAll(ids, n)
  }

  /** The set of positions a list names. */
  function Gone(ids: seq<int>): (r: set<int>)
    ensures forall x :: x in r <==> x in ids
  {
    set x | x in ids
  }

  /** `w_i * w_j`, the weights of a pair of frames: an atom counts only
      where both frames resolve it. */
  function PairWeights(wi: seq<real>, wj: seq<real>): (r: seq<real>)
    requires |wi| == |wj|
    ensures |r| == |wi|
    ensures forall k :: 0 <= k < |wi| ==> (r[k] == 0.0 <==> wi[k] == 0.0 || wj[k] == 0.0)
    ensures forall k :: 0 <= k < |wi| && wi[k] >= 0.0 && wj[k] >= 0.0 ==> r[k] >= 0.0
  {
    seq(|wi|, k requires 0 <= k < |wi| => wi[k] * wj[k])
  }

  /** One alignment row restricted to the given columns (all columns when
      `cols` is absent); a column past the end of the row raises IndexError. */
  function Columns(row: MsaRow, cols: Option<seq<nat>>): (r: Result<MsaRow>)
    ensures r.Ok? <==> cols.None? || InRange(cols.value, |row.residues|)
    ensures r.Err? ==> r.error.IndexError?
    ensures r.Ok? ==> r.value.name == row.name
    ensures r.Ok? && cols.None? ==> r.value == row
    ensures r.Ok? && cols.Some? ==> (|r.value.residues| == |cols.value| &&
      forall c :: 0 <= c < |cols.value| ==> r.value.residues[c] == row.residues[cols.value[c]])
  {
    if cols.None? then Ok(row)
    else if InRange(cols.value, |row.residues|) then Ok(MsaRow(row.name, Select(row.residues, cols.value)))
    else Err(IndexError("index out of bounds"))
  }

  /** `msa[rows, cols]`: the picked rows, in order, each cut to the columns. */
  function SubAlignment(msa: seq<MsaRow>, picked: seq<nat>, cols: Option<seq<nat>>): (r: Result<seq<MsaRow>>)
    requires InRange(picked, |msa|)
    ensures r.Ok? <==> forall k :: 0 <= k < |picked| ==> Columns(msa[picked[k]], cols).Ok?
    ensures r.Err? ==> r.error.IndexError?
    ensures r.Ok? ==> (|r.value| == |picked| &&
      forall k :: 0 <= k < |picked| ==> Columns(msa[picked[k]], cols) == Ok(r.value[k]))
  {
    if |picked| == 0 then Ok([])
    else
      var head :- Columns(msa[picked[0]], cols);
      var tail :- SubAlignment(msa, picked[1..], cols);
      Ok([head] + tail)
  }

  /** An alignment for `labels`, or the placeholder rows of all-`X`
      sequences the ensemble creates for frames that have none. */
  function Padded(msa: Option<seq<MsaRow>>, labels: seq<string>, nAtoms: nat): seq<MsaRow>
  {
    if msa.Some? then msa.value else Rows(labels, Repeat(Unknowns(nAtoms), |labels|))
  }

  predicate HasRows(msa: Option<seq<MsaRow>>)
  {
    msa.Some? && |msa.value| > 0
  }

  /** The alignment of `a + b`: present when either side has rows, and then
      the rows of both sides with placeholders for a side that has none. */
  function JoinedMsa(a: Option<seq<MsaRow>>, la: seq<string>, b: Option<seq<MsaRow>>, lb: seq<string>, nAtoms: nat): (r: Option<seq<MsaRow>>)
    requires a.Some? ==> RowLabels(a.value) == la
    requires b.Some? ==> RowLabels(b.value) == lb
    ensures r.Some? ==> RowLabels(r.value) == la + lb
    ensures r.Some? <==> HasRows(a) || HasRows(b)
    ensures r.Some? && a.Some? ==> r.value[..|la|] == a.value
    ensures r.Some? && b.Some? ==> r.value[|la|..] == b.value
    ensures r.Some? && a.None? ==> r.value[..|la|] == Rows(la, Repeat(Unknowns(nAtoms), |la|))
    ensures r.Some? && b.None? ==> r.value[|la|..] == Rows(lb, Repeat(Unknowns(nAtoms), |lb|))
  {
    if HasRows(a) || HasRows(b) then
      var r := Padded(a, la, nAtoms) + Padded(b, lb, nAtoms);
      assert r[..|la|] == Padded(a, la, nAtoms);
      assert r[|la|..] == Padded(b, lb, nAtoms);
      Some(r)
    else None
  }

  /** `s.pop(p)` for each `p` of `order`, largest first: exactly the
      listed positions are removed. */
  method PopAll<T(==)>(s: seq<T>, order: seq<int>) returns (kept: seq<T>)
    requires Descending(order)
    requires forall k :: 0 <= k < |order| ==> 0 <= order[k] < |s|
    ensures kept == Keep(s, Gone(order))
  {
    kept := s;
    assert order[..0] == [];
    KeepNothingBelow(s, Gone(order[..0]));
    var i := 0;
    while i < |order|
      invariant 0 <= i <= |order|
      invariant kept == Keep(s, Gone(order[..i]))
    {
      PopStep(s, order, i);
      kept := kept[..order[i]] + kept[order[i] + 1..];
      i := i + 1;
    }
    assert order[..|order|] == order;
  }

  /** Popping the next, smaller position of a descending list from what
      survives the positions before it. */
  lemma PopStep<T>(s: seq<T>, order: seq<int>, i: nat)
    requires Descending(order) && i < |order|
    requires forall k :: 0 <= k < |order| ==> 0 <= order[k] < |s|
    ensures var p, kept := order[i], Keep(s, Gone(order[..i]));
      |kept| > p && Keep(s, Gone(order[..i + 1])) == kept[..p] + kept[p + 1..]
  {
    var p := order[i];
    assert forall q :: q in Gone(order[..i]) ==> q > p;
    KeepPop(s, Gone(order[..i]), p);
    assert Gone(order[..i + 1]) == Gone(order[..i]) + {p} by {
      assert order[..i + 1] == order[..i] + [p];
    }
  }

  /** Deleting distinct positions shortens a list by their number. */
  lemma {:induction false} KeepCount<T>(s: seq<T>, order: seq<int>, i: nat)
    requires Descending(order) && i <= |order|
    requires forall k :: 0 <= k < |order| ==> 0 <= order[k] < |s|
    ensures |Keep(s, Gone(order[..i]))| == |s| - i
  {
    if i == 0 {
      assert order[..0] == [];
      KeepNothingBelow(s, Gone(order[..0]));
    } else {
      KeepCount(s, order, i - 1);
      PopStep(s, order, i - 1);
    }
  }

  /** Deleting distinct existing positions, in any order, shortens a list
      by their number. */
  lemma DeletedCount<T>(s: seq<T>, ids: seq<int>)
    requires Distinct(ids) && forall k :: 0 <= k < |ids| ==> 0 <= ids[k] < |s|
    ensures |Keep(s, Gone(ids))| == |s| - |ids|
  {
    SortedSameSet(ids);
    KeepCount(s, SortDescending(ids), |ids|);
    assert SortDescending(ids)[..|ids|] == SortDescending(ids);
  }

  /** Sorting a list keeps its length and the positions it names. */
  lemma SortedSameSet(ids: seq<int>)
    requires Distinct(ids)
    ensures |SortDescending(ids)| == |ids|
    ensures Gone(SortDescending(ids)) == Gone(ids)
    ensures forall k :: 0 <= k < |ids| ==> SortDescending(ids)[k] in ids
  {
    var order := SortDescending(ids);
    assert |order| == |multiset(order)| == |multiset(ids)| == |ids|;
    forall x | x in order ensures x in ids {
      assert x in multiset(order);
    }
    forall x | x in ids ensures x in order {
      assert x in multiset(ids);
    }
  }

  /** `[i for i in range(n) if i not in index]`: the positions below `n`
      that `index` does not list, in increasing order. */
  method Unlisted(n: nat, index: seq<int>) returns (rest: seq<nat>)
    ensures rest == Keep(Iota(n), Gone(index))
  {
    rest := [];
    var j := 0;
    while j < n
      invariant 0 <= j <= n
      invariant rest == Keep(Iota(j), Gone(index))
    {
      assert Iota(j + 1)[..j] == Iota(j);
      if j !in index {
        rest := rest + [j];
      }
      j := j + 1;
    }
  }

  /** Frames and weights that fit `nAtoms` atoms, one weight row per frame. */
  predicate Fits(confs: seq<Frame>, weights: seq<seq<real>>, nAtoms: nat)
  {
    WellShaped(nAtoms, confs) && |weights| == |confs| && WeightRowsOk(weights, nAtoms)
  }

  lemma FitsCovers(confs: seq<Frame>, weights: seq<seq<real>>, nAtoms: nat, atoms: seq<nat>)
    requires Fits(confs, weights, nAtoms) && InRange(atoms, nAtoms)
    ensures forall k :: 0 <= k < |atoms| ==> Covers(confs, weights, atoms[k])
  {
    forall k | 0 <= k < |atoms| ensures Covers(confs, weights, atoms[k]) {
      assert forall f :: 0 <= f < |confs| ==> |confs[f]| == nAtoms && |weights[f]| == nAtoms;
    }
  }

  /** The frame positions `getCoordsets` reads: all of them, or the given
      Python indices (`np.array([indices]).flatten()`). An empty list
      becomes an empty array of floats, which numpy refuses as an index. */
  function FramesRead(frames: Option<seq<int>>, n: nat): (r: Result<seq<nat>>)
    ensures r.Ok? ==> InRange(r.value, n)
    ensures r.Err? ==> r.error.IndexError?
    ensures frames.None? ==> r == Ok(Iota(n))
    ensures frames.Some? ==> (r.Ok? <==> (|frames.value| > 0 &&
      forall k :: 0 <= k < |frames.value| ==> -(n as int) <= frames.value[k] < n))
    ensures frames.Some? && r.Ok? ==> |r.value| == |frames.value|
    ensures frames.Some? && r.Ok? ==>
      forall k :: 0 <= k < |frames.value| ==> NormaliseIndex(frames.value[k], n) == Ok(r.value[k])
  {
    if frames.None? then Ok(Iota(n))
    else if |frames.value| == 0 then Err(IndexError("arrays used as indices must be of integer (or boolean) type"))
    else NormaliseAll(frames.value, n)
  }

  /** An empty list of frames is refused rather than giving no frames. */
  lemma NoFramesRefused(n: nat)
    ensures FramesRead(Some([]), n).Err?
    ensures FramesRead(None, 0) == Ok([])
  {
  }

  /** `out` is `stored` at `atoms`, with the reference wherever the weight
      is zero. */
  predicate Retrieves(out: Frame, stored: Frame, w: seq<real>, reference: Frame, atoms: seq<nat>)
    requires |stored| == |reference| && |w| == |reference| && InRange(atoms, |reference|)
  {
    |out| == |atoms| &&
    forall k :: 0 <= k < |atoms| ==>
      out[k] == (if w[atoms[k]] == 0.0 then reference[atoms[k]] else stored[atoms[k]])
  }

  /** The frames at `picked`, each copied at `atoms` with the reference
      filled in where its weight is zero. */
  method RetrieveAll(confs: seq<Frame>, weights: seq<seq<real>>, reference: Frame, picked: seq<nat>, atoms: seq<nat>)
    returns (out: seq<Frame>)
    requires Fits(confs, weights, |reference|) && InRange(picked, |confs|) && InRange(atoms, |reference|)
    ensures |out| == |picked|
    ensures forall f :: 0 <= f < |picked| ==>
      Retrieves(out[f], confs[picked[f]], weights[picked[f]], reference, atoms)
  {
    out := [];
    var f := 0;
    while f < |picked|
      invariant 0 <= f <= |picked| && |out| == f
      invariant forall g :: 0 <= g < f ==> Retrieves(out[g], confs[picked[g]], weights[picked[g]], reference, atoms)
    {
      var conf := MaskedCopy(confs[picked[f]], weights[picked[f]], reference, atoms);
      out := out + [conf];
      f := f + 1;
    }
  }

  /** `confs[i, which] = coords[which]` on a copy of one frame at `atoms`. */
  method MaskedCopy(stored: Frame, w: seq<real>, reference: Frame, atoms: seq<nat>) returns (conf: Frame)
    requires |stored| == |reference| && |w| == |reference| && InRange(atoms, |reference|)
    ensures Retrieves(conf, stored, w, reference, atoms)
  {
    conf := Select(stored, atoms);
    var k := 0;
    while k < |atoms|
      invariant 0 <= k <= |atoms| && |conf| == |atoms|
      invariant forall j :: 0 <= j < k ==> conf[j] == (if w[atoms[j]] == 0.0 then reference[atoms[j]] else stored[atoms[j]])
      invariant forall j :: k <= j < |atoms| ==> conf[j] == stored[atoms[j]]
    {
      if w[atoms[k]] == 0.0 {
        conf := conf[k := reference[atoms[k]]];
      }
      k := k + 1;
    }
  }

  /** The first pass of `getMSFs`: for each atom, the number of frames whose
      weight there is positive (`weights.sum(0)`) and the sum of those
      frames' coordinates (`mean += conf * weights[i]`). */
  method MaskedSums(confs: seq<Frame>, weights: seq<seq<real>>, atoms: seq<nat>, nAtoms: nat)
    returns (count: seq<nat>, sum: seq<Point>)
    requires Fits(confs, weights, nAtoms) && InRange(atoms, nAtoms)
    ensures |count| == |atoms| && |sum| == |atoms|
    ensures forall k :: 0 <= k < |atoms| ==> (Covers(confs, weights, atoms[k]) &&
      count[k] == IncludedCount(confs, weights, atoms[k], |confs|) &&
      sum[k] == MaskedSum(confs, weights, atoms[k], |confs|))
  {
    FitsCovers(confs, weights, nAtoms, atoms);
    var m := |atoms|;
    count := Repeat(0, m);
    sum := Repeat(Origin, m);
    var i := 0;
    while i < |confs|
      invariant 0 <= i <= |confs| && |count| == m && |sum| == m
      invariant forall k :: 0 <= k < m ==> count[k] == IncludedCount(confs, weights, atoms[k], i)
      invariant forall k :: 0 <= k < m ==> sum[k] == MaskedSum(confs, weights, atoms[k], i)
    {
      var conf, w := confs[i], weights[i];
      sum := seq(m, k requires 0 <= k < m => Add(sum[k], Scale(conf[atoms[k]], Mask(w[atoms[k]]))));
      count := seq(m, k requires 0 <= k < m => count[k] + (if w[atoms[k]] > 0.0 then 1 else 0));
      i := i + 1;
    }
  }

  /** The second pass of `getMSFs`:
      `ssqf += ((conf - mean) * weights[i]) ** 2` for each atom. */
  method MaskedSquareSums(confs: seq<Frame>, weights: seq<seq<real>>, atoms: seq<nat>, nAtoms: nat, mean: seq<Point>)
    returns (ssqf: seq<Point>)
    requires Fits(confs, weights, nAtoms) && InRange(atoms, nAtoms) && |mean| == |atoms|
    ensures |ssqf| == |atoms|
    ensures forall k :: 0 <= k < |atoms| ==> (Covers(confs, weights, atoms[k]) &&
      ssqf[k] == MaskedSquares(confs, weights, atoms[k], |confs|, mean[k]))
  {
    FitsCovers(confs, weights, nAtoms, atoms);
    var m := |atoms|;
    ssqf := Repeat(Origin, m);
    var i := 0;
    while i < |confs|
      invariant 0 <= i <= |confs| && |ssqf| == m
      invariant forall k :: 0 <= k < m ==> ssqf[k] == MaskedSquares(confs, weights, atoms[k], i, mean[k])
    {
      var conf, w := confs[i], weights[i];
      ssqf := seq(m, k requires 0 <= k < m => Add(ssqf[k], Square(Scale(Sub(conf[atoms[k]], mean[k]), Mask(w[atoms[k]])))));
      i := i + 1;
    }
  }

  /** The RMSD of frames `i` and `j` at the atoms `atoms`, weighted by
      `w_i * w_j`. */
  function PairRmsd(rmsd: (Frame, Frame, seq<real>) -> real, confs: seq<Frame>, weights: seq<seq<real>>,
                    atoms: seq<nat>, nAtoms: nat, i: nat, j: nat): real
    requires WellShaped(nAtoms, confs) && |weights| == |confs| && WeightRowsOk(weights, nAtoms)
    requires InRange(atoms, nAtoms) && i < |confs| && j < |confs|
  {
    rmsd(Select(confs[i], atoms), Select(confs[j], atoms), PairWeights(Select(weights[i], atoms), Select(weights[j], atoms)))
  }

  /** The entry `(a, b)` of the pairwise matrix: `PairRmsd` of the two
      frames, taken with the smaller position first; zero on the diagonal. */
  function PairEntry(rmsd: (Frame, Frame, seq<real>) -> real, confs: seq<Frame>, weights: seq<seq<real>>,
                     atoms: seq<nat>, nAtoms: nat, a: nat, b: nat): real
    requires Fits(confs, weights, nAtoms) && InRange(atoms, nAtoms) && a < |confs| && b < |confs|
  {
    if a < b then PairRmsd(rmsd, confs, weights, atoms, nAtoms, a, b)
    else if b < a then PairRmsd(rmsd, confs, weights, atoms, nAtoms, b, a)
    else 0.0
  }

  /** One pass of the inner loop of the pairwise `getRMSDs`: row `i` is
      filled right of the diagonal and mirrored into column `i`. */
  method FillRow(m: array2<real>, rmsd: (Frame, Frame, seq<real>) -> real, confs: seq<Frame>, weights: seq<seq<real>>,
                 atoms: seq<nat>, nAtoms: nat, i: nat)
    requires Fits(confs, weights, nAtoms) && InRange(atoms, nAtoms)
    requires m.Length0 == m.Length1 == |confs| && i < |confs|
    requires forall a, b :: 0 <= a < |confs| && 0 <= b < |confs| ==>
      m[a, b] == (if a < i || b < i then PairEntry(rmsd, confs, weights, atoms, nAtoms, a, b) else 0.0)
    modifies m
    ensures forall a, b :: 0 <= a < |confs| && 0 <= b < |confs| ==>
      m[a, b] == (if a <= i || b <= i then PairEntry(rmsd, confs, weights, atoms, nAtoms, a, b) else 0.0)
  {
    var n := |confs|;
    var j := i + 1;
    while j < n
      invariant i + 1 <= j <= n
      invariant forall a, b :: 0 <= a < n && 0 <= b < n ==>
        m[a, b] == (if a < i || b < i || (a == i && b < j) || (b == i && a < j)
                    then PairEntry(rmsd, confs, weights, atoms, nAtoms, a, b) else 0.0)
    {
      var v := PairRmsd(rmsd, confs, weights, atoms, nAtoms, i, j);
      m[i, j] := v;
      m[j, i] := v;
      j := j + 1;
    }
  }

  /** The pairwise `getRMSDs` matrix, filled in place row by row. */
  method PairwiseMatrix(rmsd: (Frame, Frame, seq<real>) -> real, confs: seq<Frame>, weights: seq<seq<real>>,
                        atoms: seq<nat>, nAtoms: nat) returns (mx: seq<seq<real>>)
    requires Fits(confs, weights, nAtoms) && InRange(atoms, nAtoms)
    ensures |mx| == |confs|
    ensures forall i :: 0 <= i < |confs| ==> |mx[i]| == |confs| && mx[i][i] == 0.0
    ensures forall i, j :: 0 <= i < |confs| && 0 <= j < |confs| ==> mx[i][j] == mx[j][i]
    ensures forall i, j :: 0 <= i < j < |confs| ==> mx[i][j] == PairRmsd(rmsd, confs, weights, atoms, nAtoms, i, j)
  {
    var n := |confs|;
    var m := new real[n, n]((a, b) => 0.0);
    var i := 0;
    while i < n
      invariant 0 <= i <= n
      invariant forall a, b :: 0 <= a < n && 0 <= b < n ==>
        m[a, b] == (if a < i || b < i then PairEntry(rmsd, confs, weights, atoms, nAtoms, a, b) else 0.0)
    {
      FillRow(m, rmsd, confs, weights, atoms, nAtoms, i);
      i := i + 1;
    }
    mx := seq(n, a requires 0 <= a < n reads m => seq(n, b requires 0 <= b < n reads m => m[a, b]));
  }

  /** The transform `calcT` fits for one frame: its selected atoms onto the
      selected reference atoms, weighted by its selected weights. */
  function Fit(calcT: (Frame, Frame, seq<real>) -> Rigid, reference: Frame, conf: Frame, w: seq<real>, atoms: seq<nat>): Rigid
    requires InRange(atoms, |reference|) && |conf| == |reference| && |w| == |reference|
  {
    calcT(Select(conf, atoms), Select(reference, atoms), Select(w, atoms))
  }

  /** The transform fitted for a frame depends on that frame only through
      its selected atoms: frames that agree there get the same transform. */
  lemma FitSeesOnlySelection(calcT: (Frame, Frame, seq<real>) -> Rigid, reference: Frame, conf: Frame, other: Frame,
                             w: seq<real>, atoms: seq<nat>)
    requires InRange(atoms, |reference|) && |conf| == |reference| && |other| == |reference| && |w| == |reference|
    requires forall k :: 0 <= k < |atoms| ==> conf[atoms[k]] == other[atoms[k]]
    ensures Fit(calcT, reference, conf, w, atoms) == Fit(calcT, reference, other, w, atoms)
  {
    assert Select(conf, atoms) == Select(other, atoms);
  }

  /** The RMSD of a pair depends only on the two frames and their weights at
      the selected atoms: other frames, and other atoms, do not enter. */
  lemma PairRmsdSeesOnlyPair(rmsd: (Frame, Frame, seq<real>) -> real, confs: seq<Frame>, other: seq<Frame>,
                             weights: seq<seq<real>>, atoms: seq<nat>, nAtoms: nat, i: nat, j: nat)
    requires WellShaped(nAtoms, confs) && WellShaped(nAtoms, other) && |other| == |confs|
    requires |weights| == |confs| && WeightRowsOk(weights, nAtoms)
    requires InRange(atoms, nAtoms) && i < |confs| && j < |confs|
    requires forall k :: 0 <= k < |atoms| ==> confs[i][atoms[k]] == other[i][atoms[k]] && confs[j][atoms[k]] == other[j][atoms[k]]
    ensures PairRmsd(rmsd, confs, weights, atoms, nAtoms, i, j) == PairRmsd(rmsd, other, weights, atoms, nAtoms, i, j)
  {
    assert Select(confs[i], atoms) == Select(other[i], atoms);
    assert Select(confs[j], atoms) == Select(other[j], atoms);
  }

  /** Deleting rows keeps the labels of the surviving rows. */
  lemma {:induction false} KeepRowLabels(rows: seq<MsaRow>, gone: set<int>)
    ensures RowLabels(Keep(rows, gone)) == Keep(RowLabels(rows), gone)
  {
    if |rows| > 0 {
      var n := |rows|;
      assert RowLabels(rows)[..n - 1] == RowLabels(rows[..n - 1]);
      KeepRowLabels(rows[..n - 1], gone);
    }
  }

  /** The alignment rows kept by `delCoordset` are the rows at the
      surviving positions, and they carry the surviving labels. */
  lemma DeletedRows(rows: seq<MsaRow>, labels: seq<string>, gone: set<int>, rest: seq<nat>)
    requires RowLabels(rows) == labels && rest == Keep(Iota(|rows|), gone)
    ensures InRange(rest, |rows|) && Select(rows, rest) == Keep(rows, gone)
    ensures RowLabels(Select(rows, rest)) == Keep(labels, gone)
  {
    KeepIsSelect(rows, gone);
    KeepRowLabels(rows, gone);
  }

  lemma SelectRowLabels(rows: seq<MsaRow>, picked: seq<nat>)
    requires InRange(picked, |rows|)
    ensures RowLabels(Select(rows, picked)) == Select(RowLabels(rows), picked)
  {
  }

  lemma KeepWellShaped(n: nat, frames: seq<Frame>, gone: set<int>)
    requires WellShaped(n, frames)
    ensures WellShaped(n, Keep(frames, gone))
  {
    var r := Keep(frames, gone);
    forall f | 0 <= f < |r| ensures |r[f]| == n {
      assert r[f] in frames;
    }
  }

  lemma KeepWeightRowsOk(rows: seq<seq<real>>, n: nat, gone: set<int>)
    requires WeightRowsOk(rows, n)
    ensures WeightRowsOk(Keep(rows, gone), n)
  {
    var r := Keep(rows, gone);
    forall f | 0 <= f < |r| ensures WeightRowOk(r[f], n) {
      assert r[f] in rows;
    }
  }

  /** The ensemble invariant on its state: the per-frame stores and the
      alignment are in lockstep with the counter, every frame and weight row
      covers every atom, and the selection names distinct atoms. */
  predicate Consistent(coords: Frame, confs: seq<Frame>, weights: seq<seq<real>>, labels: seq<string>,
                       nCsets: nat, confsSet: bool, msa: Option<seq<MsaRow>>, indices: Option<seq<nat>>)
  {
    |coords| > 0 &&
    |confs| == nCsets && |weights| == nCsets && |labels| == nCsets &&
    WellShaped(|coords|, confs) && WeightRowsOk(weights, |coords|) &&
    (!confsSet ==> nCsets == 0) &&
    (msa.Some? ==> RowLabels(msa.value) == labels) &&
    ValidSelection(indices, |coords|)
  }

  /** The base class's checks on the positions to delete: each must name
      an existing frame, and none may repeat. */
  function DeletionError(ids: seq<int>, n: nat): (r: Option<Error>)
    ensures r.None? <==> Distinct(ids) && forall k :: 0 <= k < |ids| ==> 0 <= ids[k] < n
    ensures r.Some? && !(forall k :: 0 <= k < |ids| ==> 0 <= ids[k] < n) ==> r.value.IndexError?
    ensures r.Some? && (forall k :: 0 <= k < |ids| ==> 0 <= ids[k] < n) ==> r.value.ValueError?
  {
    if exists k :: 0 <= k < |ids| && !(0 <= ids[k] < n) then Some(IndexError("index out of range"))
    else if !Distinct(ids) then Some(ValueError("index is given more than once"))
    else None
  }

  function KeptRows(msa: Option<seq<MsaRow>>, gone: set<int>): Option<seq<MsaRow>>
  {
    if msa.Some? then Some(Keep(msa.value, gone)) else None
  }

  /** The part of `delCoordset` this class defines: the labels are popped
      at each position, largest first, and the alignment keeps the rows at
      the positions not listed. */
  method PopLabelsAndRows(labels: seq<string>, msa: Option<seq<MsaRow>>, ids: seq<int>)
    returns (kept: seq<string>, rows: Option<seq<MsaRow>>)
    requires Distinct(ids) && forall k :: 0 <= k < |ids| ==> 0 <= ids[k] < |labels|
    requires msa.Some? ==> RowLabels(msa.value) == labels
    ensures kept == Keep(labels, Gone(ids))
    ensures rows == KeptRows(msa, Gone(ids))
  {
    var order := SortDescending(ids);
    SortedSameSet(ids);
    kept := PopAll(labels, order);
    rows := msa;
    if msa.Some? {
      var rest := Unlisted(|msa.value|, order);
      DeletedRows(msa.value, labels, Gone(ids), rest);
      rows := Some(Select(msa.value, rest));
    }
  }

  /** The per-frame stores of an ensemble, with the outcome of the call
      that produced them. */
  datatype Stores = Stores(res: Outcome, confs: seq<Frame>, weights: seq<seq<real>>, labels: seq<string>,
                           nCsets: nat, confsSet: bool, msa: Option<seq<MsaRow>>)

  /** The stores after `addCoordset`: unchanged on error, extended by the
      staged frames otherwise. */
  function Appended(coords: Frame, confs: seq<Frame>, weights: seq<seq<real>>, labels: seq<string>,
                    nCsets: nat, confsSet: bool, msa: Option<seq<MsaRow>>, indices: Option<seq<nat>>,
                    coordsArg: CoordsArg, weightsArg: WeightsArg, arg: LabelArg, degeneracy: bool, sequence: SeqArg): (r: Stores)
    requires Consistent(coords, confs, weights, labels, nCsets, confsSet, msa, indices)
    ensures Consistent(coords, r.confs, r.weights, r.labels, r.nCsets, r.confsSet, r.msa, indices)
    ensures var st := Stage(coords, indices, msa, coordsArg, weightsArg, arg, degeneracy, sequence);
      if st.Err? then
        r == Stores(Fail(st.error), confs, weights, labels, nCsets, confsSet, msa)
      else
        r.res == Pass && r.confsSet &&
        r.confs == confs + st.value.frames && r.weights == weights + st.value.weights &&
        r.labels == labels + st.value.labels && r.nCsets == nCsets + |st.value.frames| &&
        r.msa == ExtendMsa(msa, labels, |coords|, st.value.seqs, st.value.labels)
  {
    var st := Stage(coords, indices, msa, coordsArg, weightsArg, arg, degeneracy, sequence);
    if st.Err? then Stores(Fail(st.error), confs, weights, labels, nCsets, confsSet, msa)
    else
      var s := st.value;
      AppendConsistent(coords, confs, weights, labels, nCsets, confsSet, msa, indices, s);
      // The alignment is extended after `self._labels.extend(labels)`, so
      // `old_labels` are the labels of the frames held before the call.
      Stores(Pass, confs + s.frames, weights + s.weights, labels + s.labels, nCsets + |s.frames|, true,
             ExtendMsa(msa, labels, |coords|, s.seqs, s.labels))
  }

  /** The stores after `addCoordset` when the weights may have been set
      alone (`setWeights` before any frame): a call that would pass raises
      RuntimeError instead, since it would set the frames but not the
      weights; every other call is `Appended`. */
  function Added(weightsSet: bool, coords: Frame, confs: seq<Frame>, weights: seq<seq<real>>, labels: seq<string>,
                 nCsets: nat, confsSet: bool, msa: Option<seq<MsaRow>>, indices: Option<seq<nat>>,
                 coordsArg: CoordsArg, weightsArg: WeightsArg, arg: LabelArg, degeneracy: bool, sequence: SeqArg): (r: Stores)
    requires Consistent(coords, confs, weights, labels, nCsets, confsSet, msa, indices)
    ensures Consistent(coords, r.confs, r.weights, r.labels, r.nCsets, r.confsSet, r.msa, indices)
    ensures r.res == Pass ==> r.confsSet
    ensures var a := Appended(coords, confs, weights, labels, nCsets, confsSet, msa, indices,
                              coordsArg, weightsArg, arg, degeneracy, sequence);
      if weightsSet && !confsSet && a.res == Pass then
        r == Stores(Fail(RuntimeError("_confs and _weights must be set or None at the same time")),
                    confs, weights, labels, nCsets, confsSet, msa)
      else r == a
  {
    var a := Appended(coords, confs, weights, labels, nCsets, confsSet, msa, indices,
                      coordsArg, weightsArg, arg, degeneracy, sequence);
    if weightsSet && !confsSet && a.res == Pass then
      Stores(Fail(RuntimeError("_confs and _weights must be set or None at the same time")),
             confs, weights, labels, nCsets, confsSet, msa)
    else a
  }

  /** The stores after `delCoordset`: unchanged when a position is out of
      range or repeated; otherwise every per-frame store loses the listed
      positions, the survivors keeping their order. */
  function Deleted(coords: Frame, confs: seq<Frame>, weights: seq<seq<real>>, labels: seq<string>,
                   nCsets: nat, confsSet: bool, msa: Option<seq<MsaRow>>, indices: Option<seq<nat>>,
                   d: Deletion): (r: Stores)
    requires Consistent(coords, confs, weights, labels, nCsets, confsSet, msa, indices)
    ensures Consistent(coords, r.confs, r.weights, r.labels, r.nCsets, r.confsSet, r.msa, indices)
    ensures DeletionError(Ids(d), nCsets).Some? ==>
      r == Stores(Fail(DeletionError(Ids(d), nCsets).value), confs, weights, labels, nCsets, confsSet, msa)
    ensures DeletionError(Ids(d), nCsets).None? ==>
      var gone := Gone(Ids(d));
      r.res == Pass && r.nCsets == nCsets - |Ids(d)| && r.confsSet == (r.nCsets > 0) &&
      r.labels == Keep(labels, gone) && r.confs == Keep(confs, gone) &&
      r.weights == Keep(weights, gone) && r.msa == KeptRows(msa, gone)
  {
    var ids := Ids(d);
    var failure := DeletionError(ids, nCsets);
    if failure.Some? then Stores(Fail(failure.value), confs, weights, labels, nCsets, confsSet, msa)
    else
      var gone := Gone(ids);
      SortedSameSet(ids);
      KeepCount(labels, SortDescending(ids), |ids|);
      assert SortDescending(ids)[..|ids|] == SortDescending(ids);
      DeletionConsistent(coords, confs, weights, labels, nCsets, confsSet, msa, indices, gone, |ids|);
      // The base class prunes the frames and weights and resets them when
      // nothing survives.
      Stores(Pass, Keep(confs, gone), Keep(weights, gone), Keep(labels, gone), nCsets - |ids|,
             nCsets - |ids| > 0, KeptRows(msa, gone))
  }

  /** `delCoordset` on the stores: the labels are popped one by one. */
  method Delete(coords: Frame, confs: seq<Frame>, weights: seq<seq<real>>, labels: seq<string>,
                nCsets: nat, confsSet: bool, msa: Option<seq<MsaRow>>, indices: Option<seq<nat>>,
                d: Deletion) returns (r: Stores)
    requires Consistent(coords, confs, weights, labels, nCsets, confsSet, msa, indices)
    ensures r == Deleted(coords, confs, weights, labels, nCsets, confsSet, msa, indices, d)
  {
    var ids := Ids(d);
    var failure := DeletionError(ids, nCsets);
    if failure.Some? {
      return Stores(Fail(failure.value), confs, weights, labels, nCsets, confsSet, msa);
    }
    var gone := Gone(ids);
    var kept, rows := PopLabelsAndRows(labels, msa, ids);
    DeletedCount(labels, ids);
    // The base class lowers the counter by the number of positions removed.
    var count := nCsets - |ids|;
    r := Stores(Pass, Keep(confs, gone), Keep(weights, gone), kept, count, count > 0, rows);
  }

  /** Deleting the last of `n + 1` frames drops the last entry of every
      store. */
  lemma DeleteLast(coords: Frame, confs: seq<Frame>, weights: seq<seq<real>>, labels: seq<string>,
                   nCsets: nat, msa: Option<seq<MsaRow>>, indices: Option<seq<nat>>)
    requires Consistent(coords, confs, weights, labels, nCsets + 1, true, msa, indices)
    ensures var d := Deleted(coords, confs, weights, labels, nCsets + 1, true, msa, indices, One(nCsets));
      d.res == Pass && d.nCsets == nCsets && d.confs == confs[..nCsets] && d.weights == weights[..nCsets] &&
      d.labels == labels[..nCsets] && (msa.Some? ==> d.msa == Some(msa.value[..nCsets]))
  {
    assert Ids(One(nCsets)) == [nCsets] && Gone([nCsets]) == {nCsets};
    assert DeletionError([nCsets], nCsets + 1).None?;
    assert confs == confs[..nCsets] + [confs[nCsets]];
    assert weights == weights[..nCsets] + [weights[nCsets]];
    assert labels == labels[..nCsets] + [labels[nCsets]];
    KeepLast(confs[..nCsets], confs[nCsets]);
    KeepLast(weights[..nCsets], weights[nCsets]);
    KeepLast(labels[..nCsets], labels[nCsets]);
    if msa.Some? {
      assert |msa.value| == nCsets + 1;
      assert msa.value == msa.value[..nCsets] + [msa.value[nCsets]];
      KeepLast(msa.value[..nCsets], msa.value[nCsets]);
    }
  }

  /** Adding one frame and then deleting it at its new position gives back
      the frames, weights, labels and counter, and an alignment that
      existed before the call. */
  lemma AppendThenDelete(coords: Frame, confs: seq<Frame>, weights: seq<seq<real>>, labels: seq<string>,
                         nCsets: nat, confsSet: bool, msa: Option<seq<MsaRow>>, indices: Option<seq<nat>>,
                         frame: Frame, weightsArg: WeightsArg, arg: LabelArg, sequence: SeqArg)
    requires Consistent(coords, confs, weights, labels, nCsets, confsSet, msa, indices)
    requires Appended(coords, confs, weights, labels, nCsets, confsSet, msa, indices,
                      OneFrame(frame), weightsArg, arg, false, sequence).res == Pass
    ensures var a := Appended(coords, confs, weights, labels, nCsets, confsSet, msa, indices,
                              OneFrame(frame), weightsArg, arg, false, sequence);
      var d := Deleted(coords, a.confs, a.weights, a.labels, a.nCsets, a.confsSet, a.msa, indices, One(nCsets));
      a.nCsets == nCsets + 1 && d.res == Pass &&
      d.confs == confs && d.weights == weights && d.labels == labels && d.nCsets == nCsets &&
      (msa.Some? ==> d.msa == msa)
  {
    var a := Appended(coords, confs, weights, labels, nCsets, confsSet, msa, indices,
                      OneFrame(frame), weightsArg, arg, false, sequence);
    AppendedOne(coords, confs, weights, labels, nCsets, confsSet, msa, indices, frame, weightsArg, arg, sequence);
    DeleteLast(coords, a.confs, a.weights, a.labels, nCsets, a.msa, indices);
  }

  /** Adding one frame keeps every store's first `nCsets` entries. */
  lemma AppendedOne(coords: Frame, confs: seq<Frame>, weights: seq<seq<real>>, labels: seq<string>,
                    nCsets: nat, confsSet: bool, msa: Option<seq<MsaRow>>, indices: Option<seq<nat>>,
                    frame: Frame, weightsArg: WeightsArg, arg: LabelArg, sequence: SeqArg)
    requires Consistent(coords, confs, weights, labels, nCsets, confsSet, msa, indices)
    requires Appended(coords, confs, weights, labels, nCsets, confsSet, msa, indices,
                      OneFrame(frame), weightsArg, arg, false, sequence).res == Pass
    ensures var a := Appended(coords, confs, weights, labels, nCsets, confsSet, msa, indices,
                              OneFrame(frame), weightsArg, arg, false, sequence);
      a.nCsets == nCsets + 1 && a.confsSet &&
      a.confs[..nCsets] == confs && a.weights[..nCsets] == weights && a.labels[..nCsets] == labels &&
      (msa.Some? ==> a.msa.Some? && a.msa.value[..nCsets] == msa.value)
  {
    var a := Appended(coords, confs, weights, labels, nCsets, confsSet, msa, indices,
                      OneFrame(frame), weightsArg, arg, false, sequence);
    var st := Stage(coords, indices, msa, OneFrame(frame), weightsArg, arg, false, sequence);
    StageSingle(coords, indices, msa, frame, weightsArg, arg, sequence);
    var s := st.value;
    assert a.confs == confs + s.frames && a.weights == weights + s.weights && a.labels == labels + s.labels;
    if msa.Some? {
      assert a.msa == ExtendMsa(msa, labels, |coords|, s.seqs, s.labels);
    }
  }

  /** `sequence=msa`: an alignment is passed on row by row. */
  function AsSequence(msa: Option<seq<MsaRow>>): SeqArg
  {
    if msa.Some? then Alignment(msa.value) else NoSequence
  }

  /** `msa = self._msa; if msa: msa = self._msa[index]`: the rows of the
      picked frames when the alignment has rows, the alignment itself
      otherwise. */
  function IndexedMsa(msa: Option<seq<MsaRow>>, picked: seq<nat>): (r: Option<seq<MsaRow>>)
    requires msa.Some? ==> InRange(picked, |msa.value|)
    ensures r.None? <==> msa.None?
    ensures !HasRows(msa) ==> r == msa
    ensures HasRows(msa) ==> |r.value| == |picked|
    ensures HasRows(msa) ==> forall k :: 0 <= k < |picked| ==> r.value[k] == msa.value[picked[k]]
  {
    if HasRows(msa) then Some(Select(msa.value, picked)) else msa
  }

  lemma SelectFits(confs: seq<Frame>, weights: seq<seq<real>>, nAtoms: nat, picked: seq<nat>)
    requires Fits(confs, weights, nAtoms) && InRange(picked, |confs|)
    ensures Fits(Select(confs, picked), Select(weights, picked), nAtoms)
  {
  }

  /** A slice or a list of positions copied into a fresh ensemble by
      `addCoordset`: the copy holds exactly the picked frames, weights and
      labels, and the picked alignment rows when there are any. */
  lemma CopyStores(coords: Frame, confs: seq<Frame>, weights: seq<seq<real>>, labels: seq<string>,
                   nCsets: nat, confsSet: bool, msa: Option<seq<MsaRow>>, indices: Option<seq<nat>>, picked: seq<nat>)
    requires Consistent(coords, confs, weights, labels, nCsets, confsSet, msa, indices) && InRange(picked, nCsets)
    ensures Consistent(coords, [], [], [], 0, false, None, None)
    ensures Appended(coords, [], [], [], 0, false, None, None, Stack(|coords|, Select(confs, picked)),
                     RowPerFrame(Select(weights, picked)), Names(Select(labels, picked)), false,
                     AsSequence(IndexedMsa(msa, picked))) ==
      Stores(Pass, Select(confs, picked), Select(weights, picked), Select(labels, picked), |picked|, true,
             if HasRows(msa) && |picked| > 0 then Some(Select(msa.value, picked)) else None)
  {
    SelectFits(confs, weights, |coords|, picked);
    assert msa.Some? && !HasRows(msa) ==> |picked| == 0 by {
      assert |picked| > 0 ==> picked[0] < nCsets;
    }
    StageCopy(coords, None, Select(confs, picked), Select(weights, picked), Select(labels, picked),
              AsSequence(IndexedMsa(msa, picked)));
    if HasRows(msa) && |picked| > 0 {
      SelectRowLabels(msa.value, picked);
      RowsOfParts(Select(msa.value, picked));
    }
  }

  /** The first `addCoordset` of `a + b`: all frames of `a` with their
      alignment, which the copy keeps only when it has rows. */
  lemma FirstCopy(coords: Frame, confs: seq<Frame>, weights: seq<seq<real>>, labels: seq<string>,
                  nCsets: nat, confsSet: bool, msa: Option<seq<MsaRow>>, indices: Option<seq<nat>>)
    requires Consistent(coords, confs, weights, labels, nCsets, confsSet, msa, indices)
    ensures Consistent(coords, [], [], [], 0, false, None, None)
    ensures Appended(coords, [], [], [], 0, false, None, None, Stack(|coords|, confs), RowPerFrame(weights),
                     Names(labels), false, AsSequence(msa)) ==
      Stores(Pass, confs, weights, labels, nCsets, true, if HasRows(msa) then msa else None)
  {
    StageCopy(coords, None, confs, weights, labels, AsSequence(msa));
    if HasRows(msa) {
      RowsOfParts(msa.value);
    }
  }

  /** The second `addCoordset` of `a + b`: the frames of `b` are appended,
      or `ValueError` is raised when `b` has none set (`copy(None)`). */
  lemma SecondCopy(coords: Frame, confs: seq<Frame>, weights: seq<seq<real>>, labels: seq<string>,
                   nCsets: nat, confsSet: bool, msa: Option<seq<MsaRow>>, b: Frame, bConfs: seq<Frame>, bWeights: seq<seq<real>>,
                   bLabels: seq<string>, bCsets: nat, bSet: bool, bMsa: Option<seq<MsaRow>>, bIndices: Option<seq<nat>>)
    requires Consistent(coords, confs, weights, labels, nCsets, confsSet, msa, None)
    requires Consistent(b, bConfs, bWeights, bLabels, bCsets, bSet, bMsa, bIndices) && |b| == |coords|
    ensures var r := Appended(coords, confs, weights, labels, nCsets, confsSet, msa, None,
                              if bSet then Stack(|coords|, bConfs) else NoCoords, RowPerFrame(bWeights),
                              Names(bLabels), false, AsSequence(bMsa));
      (!bSet ==> r.res.Fail? && r.res.error.ValueError?) &&
      (bSet ==> r.res == Pass && r.confs == confs + bConfs && r.weights == weights + bWeights &&
                r.labels == labels + bLabels && r.nCsets == nCsets + bCsets && r.confsSet &&
                r.msa == ExtendMsa(msa, labels, |coords|, SequencesFrom(AsSequence(bMsa), msa.Some?, bCsets, |coords|), bLabels))
  {
    if bSet {
      StageCopy(coords, msa, bConfs, bWeights, bLabels, AsSequence(bMsa));
    }
  }

  /** The two `addCoordset` calls of `a + b` build the alignment
      `JoinedMsa` describes. */
  lemma JoinedCopies(a: Option<seq<MsaRow>>, la: seq<string>, b: Option<seq<MsaRow>>, lb: seq<string>, nAtoms: nat)
    requires a.Some? ==> RowLabels(a.value) == la
    requires b.Some? ==> RowLabels(b.value) == lb
    ensures var first := if HasRows(a) then a else None;
      ExtendMsa(first, la, nAtoms, SequencesFrom(AsSequence(b), first.Some?, |lb|, nAtoms), lb) ==
      JoinedMsa(a, la, b, lb, nAtoms)
  {
    var first := if HasRows(a) then a else None;
    assert !HasRows(a) ==> Padded(a, la, nAtoms) == Padded(None, la, nAtoms);
    if b.Some? && |lb| > 0 {
      RowsOfParts(b.value);
      assert Padded(None, la, nAtoms) == (if |la| > 0 then Rows(la, Repeat(Unknowns(nAtoms), |la|)) else []);
    } else if b.None? && first.Some? && |lb| > 0 {
      assert Padded(b, lb, nAtoms) == Rows(lb, Repeat(Unknowns(nAtoms), |lb|));
    } else if HasRows(a) {
      assert Padded(b, lb, nAtoms) == [];
      assert a.value + [] == a.value;
    }
  }

  /** The error `getCoordsets` raises, as written, for `nFrames` listed
      frames under a selection of `nSel` atoms; with a selection and a list
      (or an integer) it never returns.
      - `np.array([[]]).flatten()` of no frames is an array of floats,
        which is no index.
      - `self._confs[indices, selids]` pairs the two index arrays entry by
        entry (one of length one is repeated; other lengths raise
        IndexError), giving one point per pair instead of a frame per
        listed position.
      - `confs[i, which]` then masks the x, y, z axis of a point with a
        mask of `nSel` entries, which raises IndexError unless `nSel` is
        three.
      - With three selected atoms, `confs[i, which]` holds one number per
        masked atom while `coords[which]` holds a point per masked atom;
        numpy refuses to assign a (k, 3) array to a (k,) target (a leading
        dimension other than one is not dropped), so ValueError, even for
        k = 0. */
  function CoordsetsAsWritten(nFrames: nat, nSel: nat): (r: Error)
    ensures r.ValueError? <==> nSel == 3 && (nFrames == 1 || nFrames == 3)
    ensures !r.ValueError? ==> r.IndexError?
  {
    if nFrames == 0 then
      IndexError("arrays used as indices must be of integer (or boolean) type")
    else if !(nFrames == nSel || nFrames == 1 || nSel == 1) then
      IndexError("shape mismatch: indexing arrays could not be broadcast together")
    else
      var points := if nFrames == 1 then nSel else nFrames;
      if points < nFrames then
        IndexError("index 0 is out of bounds for axis 0 with size 0")
      else if nSel != 3 then
        IndexError("boolean index did not match indexed array along dimension 0")
      else
        ValueError("shape mismatch: value array could not be broadcast to indexing result")
  }

  /** Two listed frames under three or two selected atoms and one frame
      under two raise IndexError; one frame or three frames under three
      selected atoms reach the assignment of line 379 and raise ValueError. */
  lemma CoordsetsMismatch()
    ensures CoordsetsAsWritten(2, 3).IndexError?
    ensures CoordsetsAsWritten(2, 2).IndexError?
    ensures CoordsetsAsWritten(1, 2).IndexError?
    ensures CoordsetsAsWritten(1, 3).ValueError?
    ensures CoordsetsAsWritten(3, 3).ValueError?
  {
  }

  /** `self._trans[index]` for a slice or a list of positions; the
      transforms may be fewer than the frames when frames were added after
      the last tracked superposition. */
  function PickedTransforms(index: Index, trans: Option<seq<Rigid>>): (r: Result<Option<seq<Rigid>>>)
    requires !index.At?
    ensures trans.None? ==> r == Ok(None)
    ensures index.Slice? && index.step != Some(0) ==> r.Ok?
    ensures index.Pick? && r.Err? ==> r.error.IndexError?
    ensures r.Ok? && trans.Some? ==> (r.value.Some? && Picked(index, |trans.value|).Ok? &&
      r.value.value == Select(trans.value, Picked(index, |trans.value|).value))
  {
    if trans.None? then Ok(None)
    else
      var picked :- Picked(index, |trans.value|);
      Ok(Some(Select(trans.value, picked)))
  }

  /** Appending what a successful `addCoordset` staged keeps the invariant. */
  lemma AppendConsistent(coords: Frame, confs: seq<Frame>, weights: seq<seq<real>>, labels: seq<string>,
                         nCsets: nat, confsSet: bool, msa: Option<seq<MsaRow>>, indices: Option<seq<nat>>, s: Staged)
    requires Consistent(coords, confs, weights, labels, nCsets, confsSet, msa, indices)
    requires |s.frames| == |s.weights| == |s.labels|
    requires forall f :: 0 <= f < |s.frames| ==> |s.frames[f]| == |coords|
    requires WeightRowsOk(s.weights, |coords|)
    requires s.seqs.Some? ==> |s.seqs.value| == |s.frames|
    requires s.seqs.None? ==> msa.None?
    ensures Consistent(coords, confs + s.frames, weights + s.weights, labels + s.labels, nCsets + |s.frames|, true,
                       ExtendMsa(msa, labels, |coords|, s.seqs, s.labels), indices)
  {
    var m := ExtendMsa(msa, labels, |coords|, s.seqs, s.labels);
    if m.Some? && (s.seqs.None? || |s.seqs.value| == 0) {
      assert s.labels == [];
      assert labels + s.labels == labels;
    }
    assert WellShaped(|coords|, confs + s.frames) by {
      forall f | 0 <= f < |confs + s.frames| ensures |(confs + s.frames)[f]| == |coords| {
        if f >= |confs| {
          assert (confs + s.frames)[f] == s.frames[f - |confs|];
        }
      }
    }
    assert WeightRowsOk(weights + s.weights, |coords|) by {
      forall f | 0 <= f < |weights + s.weights| ensures WeightRowOk((weights + s.weights)[f], |coords|) {
        if f >= |weights| {
          assert (weights + s.weights)[f] == s.weights[f - |weights|];
        }
      }
    }
  }

  /** Deleting the same positions from every store keeps the invariant. */
  lemma DeletionConsistent(coords: Frame, confs: seq<Frame>, weights: seq<seq<real>>, labels: seq<string>,
                           nCsets: nat, confsSet: bool, msa: Option<seq<MsaRow>>, indices: Option<seq<nat>>,
                           gone: set<int>, removed: nat)
    requires Consistent(coords, confs, weights, labels, nCsets, confsSet, msa, indices)
    requires removed <= nCsets && |Keep(labels, gone)| == nCsets - removed
    ensures Consistent(coords, Keep(confs, gone), Keep(weights, gone), Keep(labels, gone),
                       nCsets - removed, nCsets - removed > 0, KeptRows(msa, gone), indices)
  {
    KeepSameLength(labels, confs, gone);
    KeepSameLength(labels, weights, gone);
    KeepWellShaped(|coords|, confs, gone);
    KeepWeightRowsOk(weights, |coords|, gone);
    if msa.Some? {
      KeepRowLabels(msa.value, gone);
    }
  }

  class PDBEnsemble {
    /** The reference frame (`_coords`); it fixes the atom count. */
    var coords: Frame
    /** Frames (`_confs`), weight rows (`_weights`) and labels (`_labels`). */
    var confs: seq<Frame>
    var weights: seq<seq<real>>
    var labels: seq<string>
    /** The frame counter `_n_csets`. */
    var nCsets: nat
    /** Whether `_confs` is set (it may be set and hold no frame). */
    var confsSet: bool
    /** Whether `_weights` is set; `setWeights` can set it before any
        frame is added, `_confs` never without it. */
    var weightsSet: bool
    /** The alignment (`_msa`), one row per frame. */
    var msa: Option<seq<MsaRow>>
    /** The transforms of the last tracked superposition (`_trans`). */
    var trans: Option<seq<Rigid>>
    /** The atom selection (`_indices`). */
    var indices: Option<seq<nat>>
    /** Whether atoms are attached (`_atoms is not None`). */
    var atomsSet: bool

    ghost predicate Valid()
      reads this
    {
      Consistent(coords, confs, weights, labels, nCsets, confsSet, msa, indices) && (confsSet ==> weightsSet)
    }

    /** A new ensemble on a reference frame (`__init__` followed by
        `setCoords` and `setAtoms`), holding no frames. */
    constructor (reference: Frame, selection: Option<seq<nat>>, attached: bool)
      requires |reference| > 0 && ValidSelection(selection, |reference|)
      ensures Valid()
      ensures coords == reference && indices == selection && atomsSet == attached
      ensures confs == [] && weights == [] && labels == [] && nCsets == 0
      ensures !confsSet && !weightsSet && msa.None? && trans.None?
    {
      coords := reference;
      confs := [];
      weights := [];
      labels := [];
      nCsets := 0;
      confsSet := false;
      weightsSet := false;
      msa := None;
      trans := None;
      indices := selection;
      atomsSet := attached;
    }

    /** `getLabels`: one label per frame, in frame order. */
    function GetLabels(): (r: seq<string>)
      reads this
      requires Valid()
      ensures |r| == nCsets
      ensures forall k :: 0 <= k < nCsets ==> r[k] == labels[k]
    {
      labels
    }

    /** `getConformation`: the frame a Python index names. */
    function GetConformation(index: int): (r: Result<nat>)
      reads this
      ensures !confsSet ==> r.Err? && r.error.AttributeError?
      ensures confsSet ==> (r.Ok? <==> -(nCsets as int) <= index < nCsets)
      ensures confsSet && r.Err? ==> r.error.IndexError?
      ensures r.Ok? && index >= 0 ==> r.value == index
      ensures r.Ok? && index < 0 ==> r.value == nCsets + index
      ensures r.Ok? ==> r.value < nCsets
    {
      if !confsSet then Err(AttributeError("conformations are not set"))
      else NormaliseIndex(index, nCsets)
    }

    /** `getMSA`: the picked rows of the alignment (all rows when `rows`
        is absent), cut to the selected atoms when `selected` is set and a
        selection exists. */
    function GetMSA(rows: Option<seq<int>>, selected: bool): (r: Result<Option<seq<MsaRow>>>)
      reads this
      ensures msa.None? ==> r == Ok(None)
      ensures msa.Some? && rows.Some? && NormaliseAll(rows.value, |msa.value|).Err? ==> r.Err? && r.error.IndexError?
      ensures r.Ok? && msa.Some? ==> r.value.Some?
      ensures r.Ok? && msa.Some? && rows.None? ==> (|r.value.value| == |msa.value| &&
        forall k :: 0 <= k < |msa.value| ==> r.value.value[k].name == msa.value[k].name)
      ensures r.Ok? && msa.Some? && (!selected || indices.None?) && rows.None? ==> r.value == msa
      ensures r.Ok? && msa.Some? && rows.Some? ==>
        var picked := NormaliseAll(rows.value, |msa.value|).value;
        |r.value.value| == |picked| &&
        forall k :: 0 <= k < |picked| ==> r.value.value[k].name == msa.value[picked[k]].name
      ensures r.Ok? && msa.Some? && selected && indices.Some? ==>
        forall k :: 0 <= k < |r.value.value| ==> |r.value.value[k].residues| == |indices.value|
    {
      if msa.None? then Ok(None)
      else
        var cols := if selected && indices.Some? then indices else None;
        var picked :- if rows.Some? then NormaliseAll(rows.value, |msa.value|) else Ok(Iota(|msa.value|));
        var sub :- SubAlignment(msa.value, picked, cols);
        assert rows.None? && cols.None? ==> sub == msa.value by {
          if rows.None? && cols.None? {
            assert forall k :: 0 <= k < |sub| ==> Columns(msa.value[k], cols) == Ok(sub[k]);
          }
        }
        Ok(Some(sub))
    }

    /** `addCoordset`: checks the call (`Stage`) and, only when every check
        passes, appends its frames, weights and labels, extends the
        alignment and advances the counter by the number of frames stored. */
    method AddCoordset(coordsArg: CoordsArg, weightsArg: WeightsArg, arg: LabelArg, degeneracy: bool, sequence: SeqArg)
      returns (res: Outcome)
      requires Valid()
      modifies this
      ensures Valid()
      ensures coords == old(coords) && indices == old(indices) && trans == old(trans) && atomsSet == old(atomsSet)
      ensures Stores(res, confs, weights, labels, nCsets, confsSet, msa) ==
        Added(old(weightsSet), old(coords), old(confs), old(weights), old(labels), old(nCsets), old(confsSet), old(msa),
              old(indices), coordsArg, weightsArg, arg, degeneracy, sequence)
      ensures weightsSet == (old(weightsSet) || res == Pass)
    {
      var r := Added(weightsSet, coords, confs, weights, labels, nCsets, confsSet, msa, indices,
                     coordsArg, weightsArg, arg, degeneracy, sequence);
      res := r.res;
      Store(r, weightsSet || res == Pass);
    }

    /** Replaces the per-frame stores and the alignment by those of `r`,
        and records whether the weights are set. */
    method Store(r: Stores, hasWeights: bool)
      requires Consistent(coords, r.confs, r.weights, r.labels, r.nCsets, r.confsSet, r.msa, indices)
      requires r.confsSet ==> hasWeights
      modifies this
      ensures Valid() && weightsSet == hasWeights
      ensures coords == old(coords) && indices == old(indices) && trans == old(trans) && atomsSet == old(atomsSet)
      ensures confs == r.confs && weights == r.weights && labels == r.labels && nCsets == r.nCsets
      ensures confsSet == r.confsSet && msa == r.msa
    {
      confs, weights, labels, nCsets, confsSet, msa := r.confs, r.weights, r.labels, r.nCsets, r.confsSet, r.msa;
      weightsSet := hasWeights;
    }

    /** `delCoordset`: removes the frames at the given positions from every
        per-frame store (the frames and weights by the base class, the
        labels popped in descending order, the alignment rows by keeping
        the others); survivors keep their order. */
    method DelCoordset(d: Deletion) returns (res: Outcome)
      requires Valid()
      modifies this
      ensures Valid()
      ensures coords == old(coords) && indices == old(indices) && trans == old(trans) && atomsSet == old(atomsSet)
      ensures Stores(res, confs, weights, labels, nCsets, confsSet, msa) ==
        Deleted(old(coords), old(confs), old(weights), old(labels), old(nCsets), old(confsSet), old(msa), old(indices), d)
      ensures weightsSet == (if res == Pass then confsSet else old(weightsSet))
    {
      var r := Delete(coords, confs, weights, labels, nCsets, confsSet, msa, indices, d);
      res := r.res;
      // The base class unsets the frames and the weights together.
      Store(r, if res == Pass then r.confsSet else weightsSet);
    }

    /** `e` holds copies of the frames at `picked` with their weights,
        labels and alignment rows, on the same reference, selection and
        atoms, with transforms `t`. */
    ghost predicate CopyOf(e: PDBEnsemble, picked: seq<nat>, t: Option<seq<Rigid>>)
      reads this, e
    {
      Valid() && e.Valid() && InRange(picked, nCsets) &&
      e.coords == coords && e.confs == Select(confs, picked) && e.weights == Select(weights, picked) &&
      e.labels == Select(labels, picked) && e.nCsets == |picked| && e.confsSet &&
      e.msa == (if HasRows(msa) && |picked| > 0 then Some(Select(msa.value, picked)) else None) &&
      e.trans == t && e.indices == indices && e.atomsSet == atomsSet
    }

    /** The fresh ensemble `__getitem__` fills for a slice or a list: the
        same reference, and copies of the frames at `picked` added by one
        `addCoordset` call with their weights, labels and alignment rows,
        then given the picked transforms `t`, the atoms and the selection. */
    method CopyFrames(picked: seq<nat>, t: Option<seq<Rigid>>) returns (e: PDBEnsemble)
      requires Valid() && InRange(picked, nCsets)
      ensures fresh(e) && CopyOf(e, picked, t)
    {
      e := new PDBEnsemble(coords, None, false);
      CopyStores(coords, confs, weights, labels, nCsets, confsSet, msa, indices, picked);
      var _ := e.AddCoordset(Stack(|coords|, Select(confs, picked)), RowPerFrame(Select(weights, picked)),
                             Names(Select(labels, picked)), false, AsSequence(IndexedMsa(msa, picked)));
      e.trans, e.atomsSet, e.indices := t, atomsSet, indices;
    }

    /** `__getitem__`: an integer names one conformation; a slice or a list
        of positions gives a new ensemble holding copies of those frames.
        A slice with step zero or an out-of-range position fails first;
        with no frames set, indexing `None` raises `TypeError`. */
    method GetItem(index: Index) returns (r: Result<Item>)
      requires Valid()
      ensures index.At? && GetConformation(index.position).Ok? ==>
        r == Ok(Conformation(GetConformation(index.position).value))
      ensures index.At? && GetConformation(index.position).Err? ==>
        r == Err(GetConformation(index.position).error)
      ensures !index.At? && Picked(index, nCsets).Err? ==> r == Err(Picked(index, nCsets).error)
      ensures !index.At? && Picked(index, nCsets).Ok? && !confsSet ==> r.Err? && r.error.TypeError?
      ensures !index.At? && Picked(index, nCsets).Ok? && confsSet ==>
        (r.Err? <==> PickedTransforms(index, trans).Err?) &&
        (r.Err? ==> r == Err(PickedTransforms(index, trans).error))
      ensures !index.At? && r.Ok? ==>
        r.value.Copy? && fresh(r.value.ensemble) &&
        CopyOf(r.value.ensemble, Picked(index, nCsets).value, PickedTransforms(index, trans).value)
    {
      if index.At? {
        var c := GetConformation(index.position);
        if c.Err? {
          return Err(c.error);
        }
        return Ok(Conformation(c.value));
      }
      var p := Picked(index, nCsets);
      if p.Err? {
        return Err(p.error);
      }
      var picked := p.value;
      if !confsSet {
        return Err(TypeError("'NoneType' object is not subscriptable"));
      }
      // The transforms are picked after the copy is filled; the copy is
      // discarded when that raises.
      var t := PickedTransforms(index, trans);
      if t.Err? {
        return Err(t.error);
      }
      var e := CopyFrames(picked, t.value);
      return Ok(Copy(e));
    }

    /** `e` is `self + other`: the frames, weights and labels of both, in
        order, on the reference of `self`; the alignment `JoinedMsa`
        describes; no transforms; the atoms and selection of `self` when it
        has atoms, of `other` otherwise. */
    ghost predicate JoinedWith(e: PDBEnsemble, other: PDBEnsemble)
      reads this, other, e
    {
      Valid() && other.Valid() && e.Valid() &&
      e.coords == coords && e.confs == confs + other.confs && e.weights == weights + other.weights &&
      e.labels == labels + other.labels && e.nCsets == nCsets + other.nCsets && e.confsSet &&
      e.msa == JoinedMsa(msa, labels, other.msa, other.labels, |coords|) && e.trans.None? &&
      e.atomsSet == (atomsSet || other.atomsSet) && e.indices == (if atomsSet then indices else other.indices)
    }

    /** `__add__`: the atom counts must agree, and `other` must have frames
        set (adding `copy(None)` raises `ValueError`). */
    method Concat(other: PDBEnsemble) returns (r: Result<PDBEnsemble>)
      requires Valid() && other.Valid()
      ensures |other.coords| != |coords| ==> r.Err?
      ensures |other.coords| == |coords| ==> (r.Err? <==> !other.confsSet)
      ensures r.Err? ==> r.error.ValueError?
      ensures r.Ok? ==> fresh(r.value) && JoinedWith(r.value, other)
    {
      if |coords| != |other.coords| {
        return Err(ValueError("Ensembles must have same number of atoms."));
      }
      var e := new PDBEnsemble(coords, None, false);
      if confsSet {
        FirstCopy(coords, confs, weights, labels, nCsets, confsSet, msa, indices);
        var _ := e.AddCoordset(Stack(|coords|, confs), RowPerFrame(weights), Names(labels), false, AsSequence(msa));
      }
      SecondCopy(e.coords, e.confs, e.weights, e.labels, e.nCsets, e.confsSet, e.msa, other.coords, other.confs,
                 other.weights, other.labels, other.nCsets, other.confsSet, other.msa, other.indices);
      var res := e.AddCoordset(if other.confsSet then Stack(|coords|, other.confs) else NoCoords,
                               RowPerFrame(other.weights), Names(other.labels), false, AsSequence(other.msa));
      if res.Fail? {
        return Err(res.error);
      }
      JoinedCopies(msa, labels, other.msa, other.labels, |coords|);
      if atomsSet {
        e.atomsSet, e.indices := true, indices;
      } else {
        e.atomsSet, e.indices := other.atomsSet, other.indices;
      }
      return Ok(e);
    }

    /** `getCoordsets`: copies of the picked frames (all frames when
        `frames` is absent; an empty list raises IndexError) at the selected atoms (all atoms when
        `selected` is off or there is no selection), with the reference
        coordinate wherever the frame's weight is zero; the stored frames
        are left as they are. */
    method GetCoordsets(frames: Option<seq<int>>, selected: bool) returns (r: Result<Option<seq<Frame>>>)
      requires Valid()
      ensures !confsSet ==> r == Ok(None)
      ensures confsSet ==> (r.Err? <==> FramesRead(frames, nCsets).Err?)
      ensures r.Err? ==> r.error.IndexError?
      ensures confsSet && r.Ok? ==> r.value.Some?
      ensures confsSet && r.Ok? ==>
        var picked := FramesRead(frames, nCsets).value;
        var atoms := if selected then AtomsOf(indices, |coords|) else Iota(|coords|);
        |r.value.value| == |picked| &&
        forall f :: 0 <= f < |picked| ==> Retrieves(r.value.value[f], confs[picked[f]], weights[picked[f]], coords, atoms)
    {
      if !confsSet {
        return Ok(None);
      }
      var p := FramesRead(frames, nCsets);
      if p.Err? {
        return Err(p.error);
      }
      var picked := p.value;
      var atoms := if selected then AtomsOf(indices, |coords|) else Iota(|coords|);
      var out := RetrieveAll(confs, weights, coords, picked, atoms);
      return Ok(Some(out));
    }

    /** `getMSFs`: the mean-square fluctuation of each selected atom over
        the frames whose weight there is positive, accumulated frame by
        frame; absent when no frames are set. */
    method GetMSFs() returns (r: Option<seq<Msf>>)
      requires Valid()
      ensures r.None? <==> !confsSet
      ensures r.Some? ==> (|r.value| == |AtomsOf(indices, |coords|)| &&
        forall k :: 0 <= k < |r.value| ==>
          Covers(confs, weights, AtomsOf(indices, |coords|)[k]) &&
          r.value[k] == MsfAt(confs, weights, AtomsOf(indices, |coords|)[k]))
    {
      if !confsSet {
        return None;
      }
      var atoms := AtomsOf(indices, |coords|);
      var m := |atoms|;
      var count, sum := MaskedSums(confs, weights, atoms, |coords|);
      var mean := seq(m, k requires 0 <= k < m => if count[k] == 0 then Origin else Div(sum[k], count[k] as real));
      var ssqf := MaskedSquareSums(confs, weights, atoms, |coords|, mean);
      return Some(seq(m, k requires 0 <= k < m => if count[k] == 0 then Undefined else Defined(Total(ssqf[k]) / count[k] as real)));
    }

    /** `getRMSDs`: with `pairwise`, the matrix whose entry above the
        diagonal is `rmsd` of the two frames at the selected atoms with
        weights `w_i * w_j`, mirrored below and zero on the diagonal;
        otherwise `rmsd` of the reference against each frame. Absent when
        no frames are set. */
    method GetRMSDs(rmsd: (Frame, Frame, seq<real>) -> real, pairwise: bool) returns (r: Option<Rmsds>)
      requires Valid()
      ensures r.None? <==> !confsSet
      ensures r.Some? ==> r.value.Pairwise? == pairwise
      ensures r.Some? && !pairwise ==>
        var atoms := AtomsOf(indices, |coords|);
        |r.value.values| == nCsets &&
        forall i :: 0 <= i < nCsets ==>
          r.value.values[i] == rmsd(Select(coords, atoms), Select(confs[i], atoms), Select(weights[i], atoms))
      ensures r.Some? && pairwise ==>
        var mx := r.value.matrix;
        |mx| == nCsets &&
        (forall i :: 0 <= i < nCsets ==> |mx[i]| == nCsets && mx[i][i] == 0.0) &&
        (forall i, j :: 0 <= i < nCsets && 0 <= j < nCsets ==> mx[i][j] == mx[j][i]) &&
        (forall i, j :: 0 <= i < j < nCsets ==>
          mx[i][j] == PairRmsd(rmsd, confs, weights, AtomsOf(indices, |coords|), |coords|, i, j))
    {
      if !confsSet {
        return None;
      }
      var atoms := AtomsOf(indices, |coords|);
      var n := nCsets;
      if !pairwise {
        var reference, cs, ws := coords, confs, weights;
        return Some(PerFrame(seq(n, i requires 0 <= i < n =>
          rmsd(Select(reference, atoms), Select(cs[i], atoms), Select(ws[i], atoms)))));
      }
      FitsCovers(confs, weights, |coords|, atoms);
      var mx := PairwiseMatrix(rmsd, confs, weights, atoms, |coords|);
      return Some(Pairwise(mx));
    }

    /** `_superpose`: fits every frame at the selected atoms onto the
        selected reference atoms with `calcT`, applies the fitted transform
        to the whole frame in place, and keeps the transforms only when
        `track` is set (otherwise they are cleared). */
    method Superpose(calcT: (Frame, Frame, seq<real>) -> Rigid, track: bool) returns (res: Outcome)
      requires Valid()
      modifies this
      ensures Valid()
      ensures coords == old(coords) && weights == old(weights) && labels == old(labels) && nCsets == old(nCsets)
      ensures confsSet == old(confsSet) && weightsSet == old(weightsSet) && msa == old(msa) && indices == old(indices)
      ensures atomsSet == old(atomsSet)
      ensures !confsSet ==> res.Fail? && res.error.TypeError? && confs == old(confs) && trans == old(trans)
      ensures confsSet ==> (res == Pass && |confs| == nCsets && (trans.Some? <==> track) &&
        (track ==> |trans.value| == nCsets) &&
        forall i :: 0 <= i < nCsets ==>
          var t := Fit(calcT, coords, old(confs)[i], weights[i], AtomsOf(indices, |coords|));
          confs[i] == Transformed(t, old(confs)[i]) && (track ==> trans.value[i] == t))
    {
      if !confsSet {
        return Fail(TypeError("'NoneType' object is not iterable"));
      }
      var atoms := AtomsOf(indices, |coords|);
      var cs := confs;
      var fits: seq<Rigid> := [];
      var i := 0;
      while i < |cs|
        invariant 0 <= i <= |cs| && |cs| == |confs| && |fits| == i
        invariant WellShaped(|coords|, cs)
        invariant forall k :: 0 <= k < i ==>
          fits[k] == Fit(calcT, coords, confs[k], weights[k], atoms) && cs[k] == Transformed(fits[k], confs[k])
        invariant forall k :: i <= k < |cs| ==> cs[k] == confs[k]
      {
        var t := Fit(calcT, coords, cs[i], weights[i], atoms);
        fits := fits + [t];
        cs := cs[i := Transformed(t, cs[i])];
        i := i + 1;
      }
      confs := cs;
      trans := if track then Some(fits) else None;
      res := Pass;
    }

    /** `setWeights` with one weight per atom: the weights are checked
        against the atom and frame counts (`checkWeights`) and replace the
        stored ones, which are then set even when no frame is. `None` is
        not an array and is refused with a TypeError. */
    method SetWeights(arg: WeightsArg) returns (res: Outcome)
      requires Valid()
      modifies this`weights, this`weightsSet
      ensures Valid()
      ensures arg.DefaultWeights? ==>
        res == Fail(TypeError("weights must be a Numpy array")) && weights == old(weights) && weightsSet == old(weightsSet)
      ensures !arg.DefaultWeights? ==>
        var w := ShapeWeights(arg, |coords|, nCsets);
        if w.Err? then res == Fail(w.error) && weights == old(weights) && weightsSet == old(weightsSet)
        else res == Pass && weights == w.value && weightsSet
    {
      if arg.DefaultWeights? {
        return Fail(TypeError("weights must be a Numpy array"));
      }
      var w := ShapeWeights(arg, |coords|, nCsets);
      if w.Err? {
        return Fail(w.error);
      }
      weights := w.value;
      weightsSet := true;
      res := Pass;
    }
  }

  /** Weights set on an ensemble that holds no frame leave `_weights` set
      and `_confs` not, so the first `addCoordset` raises RuntimeError. */
  method WeightsBeforeFrames() returns (res: Outcome)
    ensures res == Fail(RuntimeError("_confs and _weights must be set or None at the same time"))
  {
    var e := new PDBEnsemble([Origin], None, false);
    var w := e.SetWeights(OneRow([1.0]));
    assert w == Pass;
    res := e.AddCoordset(OneFrame([Origin]), DefaultWeights, NoLabel, false, NoSequence);
  }

  /** What one step of the generator `__iter__` returns. */
  datatype Step = Yielded(position: nat) | Exhausted | Raised(error: Error)

  /** The generator `__iter__` returns: it takes the frame count when it
      is first advanced and yields positions up to it, checking before each
      one that the count has not changed since. */
  class Cursor {
    const ensemble: PDBEnsemble
    /** Whether the generator has started (`n_confs` is taken). */
    var started: bool
    /** `n_confs`, the frame count when the generator started. */
    var total: nat
    /** The next position of `range(n_confs)`. */
    var position: nat
    /** Whether the generator has returned or raised. */
    var finished: bool

    ghost predicate Valid()
      reads this
    {
      started ==> position <= total
    }

    constructor (e: PDBEnsemble)
      ensures Valid() && ensemble == e && !started && !finished && position == 0
    {
      ensemble := e;
      started, total, position, finished := false, 0, 0, false;
    }

    /** `next()`: the next position, `RuntimeError` when the frame count
        differs from the one taken at the start, and nothing once the
        positions run out or after an error. */
    method Next() returns (s: Step)
      requires Valid()
      modifies this
      ensures Valid()
      ensures old(finished) ==> s == Exhausted && unchanged(this)
      ensures !old(finished) ==>
        var n := if old(started) then old(total) else ensemble.nCsets;
        var i := if old(started) then old(position) else 0;
        started && total == n &&
        (if i >= n then s == Exhausted && finished && position == i
         else if n != ensemble.nCsets then s.Raised? && s.error.RuntimeError? && finished && position == i
         else s == Yielded(i) && !finished && position == i + 1)
      ensures s.Yielded? ==> s.position < ensemble.nCsets
    {
      if finished {
        return Exhausted;
      }
      if !started {
        started, total, position := true, ensemble.nCsets, 0;
      }
      if position >= total {
        finished := true;
        return Exhausted;
      }
      if total != ensemble.nCsets {
        finished := true;
        return Raised(RuntimeError("number of conformations in the ensemble changed during iteration"));
      }
      s := Yielded(position);
      position := position + 1;
    }
  }
}
