/** Sequence bookkeeping of `addCoordset` (pdbensemble.py:261-287, 304-318).
    The alignment object is modelled as its rows, each a label and a text of
    residues. */
module Alignment {
  import opened Wrappers

  datatype MsaRow = MsaRow(name: string, residues: string)

  /** The `sequence` argument: absent, a plain string (repeated for every
      stored frame), a single Sequence object, or an alignment. */
  datatype SeqArg =
    | NoSequence
    | Residues(text: string)
    | OneSequence(text: string)
    | Alignment(rows: seq<MsaRow>)

  function RowLabels(rows: seq<MsaRow>): (r: seq<string>)
    ensures |r| == |rows|
    ensures forall k :: 0 <= k < |rows| ==> r[k] == rows[k].name
  {
    seq(|rows|, k requires 0 <= k < |rows| => rows[k].name)
  }

  function RowTexts(rows: seq<MsaRow>): (r: seq<string>)
    ensures |r| == |rows|
    ensures forall k :: 0 <= k < |rows| ==> r[k] == rows[k].residues
  {
    seq(|rows|, k requires 0 <= k < |rows| => rows[k].residues)
  }

  function Repeat<T>(x: T, n: nat): (r: seq<T>)
    ensures |r| == n
    ensures forall k :: 0 <= k < n ==> r[k] == x
  {
    seq(n, k requires 0 <= k < n => x)
  }

  /** The placeholder sequence: one `X` (unknown residue) per atom. */
  function Unknowns(nAtoms: nat): (r: string)
    ensures |r| == nAtoms
    ensures forall k :: 0 <= k < nAtoms ==> r[k] == 'X'
  {
    Repeat('X', nAtoms)
  }

  /** Rows pairing each label with its sequence. */
  function Rows(labels: seq<string>, texts: seq<string>): (r: seq<MsaRow>)
    requires |labels| == |texts|
    ensures RowLabels(r) == labels && RowTexts(r) == texts
  {
    seq(|labels|, k requires 0 <= k < |labels| => MsaRow(labels[k], texts[k]))
  }

  /** An alignment is determined by its labels and its texts. */
  lemma RowsOfParts(rows: seq<MsaRow>)
    ensures Rows(RowLabels(rows), RowTexts(rows)) == rows
  {
    var r := Rows(RowLabels(rows), RowTexts(rows));
    assert forall k :: 0 <= k < |rows| ==> r[k] == MsaRow(rows[k].name, rows[k].residues);
  }

  /** The sequences a call supplies (`seqs`), before the count check;
      `msaPresent` says whether the ensemble's alignment exists and so needs
      placeholder rows when the call supplies none. */
  function SequencesFrom(arg: SeqArg, msaPresent: bool, nRepeats: nat, nAtoms: nat): (r: Option<seq<string>>)
    ensures r.None? <==> arg.NoSequence? && !msaPresent
    ensures (arg.NoSequence? || arg.Residues?) && r.Some? ==> |r.value| == nRepeats
    ensures arg.NoSequence? && r.Some? ==> forall k :: 0 <= k < |r.value| ==> r.value[k] == Unknowns(nAtoms)
    ensures arg.Residues? ==> forall k :: 0 <= k < |r.value| ==> r.value[k] == arg.text
    ensures arg.OneSequence? ==> r == Some([arg.text])
    ensures arg.Alignment? ==> r.Some? && |r.value| == |arg.rows|
    ensures arg.Alignment? ==> forall k :: 0 <= k < |arg.rows| ==> r.value[k] == arg.rows[k].residues
  {
    match arg
    case NoSequence => if msaPresent then Some(Repeat(Unknowns(nAtoms), nRepeats)) else None
    case Residues(t) => Some(Repeat(t, nRepeats))
    case OneSequence(t) => Some([t])
    case Alignment(rows) => Some(RowTexts(rows))
  }

  /** The source's sequence step: placeholders only when the alignment is
      truthy (has rows), and the count checked only when `seqs` is truthy. */
  function SequencesAsWritten(arg: SeqArg, msa: Option<seq<MsaRow>>, nRepeats: nat, nAtoms: nat): (r: Result<Option<seq<string>>>)
    ensures r.Err? <==> match arg
      case NoSequence => false
      case Residues(_) => false
      case OneSequence(_) => nRepeats != 1
      case Alignment(rows) => 0 < |rows| != nRepeats
    ensures r.Err? ==> r.error.ValueError?
    ensures r.Ok? ==> r.value == SequencesFrom(arg, msa.Some? && |msa.value| > 0, nRepeats, nAtoms)
  {
    var seqs := SequencesFrom(arg, msa.Some? && |msa.value| > 0, nRepeats, nAtoms);
    if seqs.Some? && |seqs.value| > 0 && |seqs.value| != nRepeats then
      Err(ValueError("the number of sequences should be either one or that of coordsets"))
    else
      Ok(seqs)
  }

  /** The sequence step with `is not None` tests: an existing alignment,
      even one without rows, gets a row for every stored frame, and a
      sequence list of any other length is rejected. */
  function NewSequences(arg: SeqArg, msa: Option<seq<MsaRow>>, nRepeats: nat, nAtoms: nat): (r: Result<Option<seq<string>>>)
    ensures r.Ok? && r.value.Some? ==> |r.value.value| == nRepeats
    ensures r.Ok? && r.value.None? ==> msa.None? && arg.NoSequence?
    ensures arg.NoSequence? && msa.Some? ==> r == Ok(Some(Repeat(Unknowns(nAtoms), nRepeats)))
    ensures r.Err? <==> match arg
      case NoSequence => false
      case Residues(_) => false
      case OneSequence(_) => nRepeats != 1
      case Alignment(rows) => |rows| != nRepeats
    ensures r.Err? ==> r.error.ValueError?
  {
    var seqs := SequencesFrom(arg, msa.Some?, nRepeats, nAtoms);
    if seqs.Some? && |seqs.value| != nRepeats then
      Err(ValueError("the number of sequences should be either one or that of coordsets"))
    else
      Ok(seqs)
  }

  /** Adding the rows of one call to the alignment. When the alignment is
      first created while `oldLabels` frames exist, those frames get
      placeholder rows carrying their labels. An empty `seqs` is falsy and
      changes nothing. */
  function ExtendMsa(msa: Option<seq<MsaRow>>, oldLabels: seq<string>, nAtoms: nat,
                     seqs: Option<seq<string>>, labels: seq<string>): (r: Option<seq<MsaRow>>)
    requires seqs.Some? ==> |seqs.value| == |labels|
    requires msa.Some? ==> RowLabels(msa.value) == oldLabels
    ensures seqs.None? || |seqs.value| == 0 ==> r == msa
    ensures seqs.Some? && |seqs.value| > 0 ==>
      r.Some? && RowLabels(r.value) == oldLabels + labels &&
      RowTexts(r.value)[|oldLabels|..] == seqs.value
    ensures msa.Some? && r.Some? ==> r.value[..|oldLabels|] == msa.value
    ensures msa.None? && r.Some? ==> r.value[..|oldLabels|] == Rows(oldLabels, Repeat(Unknowns(nAtoms), |oldLabels|))
  {
    if seqs.None? || |seqs.value| == 0 then msa
    else
      var added := Rows(labels, seqs.value);
      var r := if msa.None? then
        (if |oldLabels| > 0 then Rows(oldLabels, Repeat(Unknowns(nAtoms), |oldLabels|)) + added else added)
      else msa.value + added;
      assert r[..|oldLabels|] == if msa.None? then Rows(oldLabels, Repeat(Unknowns(nAtoms), |oldLabels|)) else msa.value;
      assert RowLabels(r) == oldLabels + labels;
      assert RowTexts(r)[|oldLabels|..] == seqs.value;
      Some(r)
  }

  /** After all frames are deleted the alignment is kept with no rows; a
      later frame without a sequence then gets no row. */
  lemma EmptyAlignmentSkipped()
    ensures SequencesAsWritten(NoSequence, Some([]), 1, 3) == Ok(None)
    ensures ExtendMsa(Some([]), [], 3, None, ["a"]) == Some([])
  {
  }

  /** An alignment argument without rows passes the count check for two
      frames, and the existing alignment gets no rows for them. */
  lemma EmptyAlignmentArgumentSkipped(rows: seq<MsaRow>)
    ensures SequencesAsWritten(Alignment([]), Some(rows), 2, 3) == Ok(Some([]))
    ensures |rows| > 0 ==> ExtendMsa(Some(rows), RowLabels(rows), 3, Some([]), []) == Some(rows)
  {
  }

  /** The corrected step agrees with the source whenever the source's
      alignment has rows and the call supplies a non-empty list. */
  lemma NewSequencesRefinesSource(arg: SeqArg, msa: Option<seq<MsaRow>>, nRepeats: nat, nAtoms: nat)
    requires msa.Some? ==> |msa.value| > 0
    requires arg.Alignment? ==> |arg.rows| > 0
    requires nRepeats > 0
    ensures NewSequences(arg, msa, nRepeats, nAtoms) == SequencesAsWritten(arg, msa, nRepeats, nAtoms)
  {
  }
}
