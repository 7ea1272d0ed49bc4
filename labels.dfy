/** Conformation labels as `addCoordset` builds them (pdbensemble.py:207-221,
    291-300). */
module Labels {
  import opened Wrappers

  /** The `label` argument: absent, one string, or one string per frame. */
  datatype LabelArg = NoLabel | Name(name: string) | Names(names: seq<string>)

  /** Number of frames a call stores: with `degeneracy` only the first
      frame of the stack is kept. */
  function StoredCount(nCsets: nat, degeneracy: bool): (r: nat)
    ensures r <= nCsets
    ensures nCsets == 0 ==> r == 0
    ensures degeneracy && nCsets > 0 ==> r == 1
    ensures !degeneracy ==> r == nCsets
  {
    if degeneracy then (if nCsets == 0 then 0 else 1) else nCsets
  }

  /** `label or 'Unknown'`: no label, an empty string and an empty list are
      all falsy in Python and become the text `Unknown`. */
  function OrUnknown(arg: LabelArg): (r: LabelArg)
    ensures r.Name? ==> |r.name| > 0
    ensures r.Names? ==> |r.names| > 0
    ensures !r.NoLabel?
  {
    match arg
    case NoLabel => Name("Unknown")
    case Name(s) => if |s| == 0 then Name("Unknown") else arg
    case Names(ls) => if |ls| == 0 then Name("Unknown") else arg
  }

  function DigitChar(d: nat): char
    requires d < 10
  {
    (48 + d) as char
  }

  /** Decimal text of `n`, as `str(n)`. */
  function NatToString(n: nat): (r: string)
    ensures |r| > 0
    ensures n >= 10 ==> |r| >= 2
  {
    if n < 10 then [DigitChar(n)] else NatToString(n / 10) + [DigitChar(n % 10)]
  }

  lemma {:induction false} NatToStringInjective(a: nat, b: nat)
    requires NatToString(a) == NatToString(b)
    ensures a == b
  {
    if a >= 10 && b >= 10 {
      var sa, sb := NatToString(a), NatToString(b);
      assert sa[|sa| - 1] == sb[|sb| - 1];
      assert sa[..|sa| - 1] == NatToString(a / 10);
      assert sb[..|sb| - 1] == NatToString(b / 10);
      NatToStringInjective(a / 10, b / 10);
    }
  }

  /** The label of the `k`-th frame (counting from 1) of a numbered stack. */
  function MemberLabel(name: string, k: nat): string
  {
    name + "_m" + NatToString(k)
  }

  /** The labels `name_m1`, `name_m2`, ... are pairwise different. */
  lemma MemberLabelsDistinct(name: string)
    ensures forall k1: nat, k2: nat :: k1 < k2 ==> MemberLabel(name, k1) != MemberLabel(name, k2)
  {
    var p := name + "_m";
    forall k1: nat, k2: nat | k1 < k2
      ensures MemberLabel(name, k1) != MemberLabel(name, k2)
    {
      if MemberLabel(name, k1) == MemberLabel(name, k2) {
        assert MemberLabel(name, k1)[|p|..] == NatToString(k1);
        assert MemberLabel(name, k2)[|p|..] == NatToString(k2);
        NatToStringInjective(k1, k2);
      }
    }
  }

  /** `'{0}_m{1}'.format(name, i + 1)` for each of `n` frames: every label
      starts with `name_m`, and no two frames share a label. */
  function Numbered(name: string, n: nat): (r: seq<string>)
    ensures |r| == n
    ensures forall i :: 0 <= i < n ==> |r[i]| > |name| + 2 && r[i][..|name| + 2] == name + "_m"
    ensures forall i, j :: 0 <= i < j < n ==> r[i] != r[j]
  {
    MemberLabelsDistinct(name);
    seq(n, i requires 0 <= i < n => MemberLabel(name, i + 1))
  }

  /** Labels for the frames of one call, exactly as the source builds them. */
  function LabelsAsWritten(arg: LabelArg, nCsets: nat, degeneracy: bool): (r: Result<seq<string>>)
    ensures r.Ok? && nCsets > 1 && !degeneracy ==> |r.value| == nCsets
  {
    var l := OrUnknown(arg);
    if nCsets > 1 && !degeneracy then
      if l.Name? then Ok(Numbered(l.name, nCsets))
      else if |l.names| != nCsets then
        Err(ValueError("length of label and number of coordinate sets must be the same"))
      else Ok(l.names)
    else
      if l.Name? then Ok([l.name]) else Ok(l.names)
  }

  /** One frame given a list of two labels: two labels are appended for one
      stored frame. */
  lemma LabelListNotChecked()
    ensures LabelsAsWritten(Names(["a", "b"]), 1, false) == Ok(["a", "b"])
    ensures StoredCount(1, false) == 1
  {
  }

  /** An empty stack without a label: one label is appended for no frame. */
  lemma EmptyStackGetsLabel()
    ensures LabelsAsWritten(NoLabel, 0, false) == Ok(["Unknown"])
    ensures StoredCount(0, false) == 0
  {
  }

  /** Labels for the frames of one call, with the label count always equal
      to the number of frames stored: a list of the wrong length is rejected
      in every branch, and a single name for an empty stack yields no label. */
  function NewLabels(arg: LabelArg, nCsets: nat, degeneracy: bool): (r: Result<seq<string>>)
    ensures r.Ok? ==> |r.value| == StoredCount(nCsets, degeneracy)
    ensures r.Err? <==> OrUnknown(arg).Names? && |OrUnknown(arg).names| != StoredCount(nCsets, degeneracy)
    ensures r.Err? ==> r.error.ValueError?
  {
    var l := OrUnknown(arg);
    var n := StoredCount(nCsets, degeneracy);
    if nCsets > 1 && !degeneracy then
      LabelsAsWritten(arg, nCsets, degeneracy)
    else if l.Name? then
      Ok(if n == 1 then [l.name] else [])
    else if |l.names| != n then
      Err(ValueError("length of label and number of coordinate sets must be the same"))
    else
      Ok(l.names)
  }

  /** A name for a stack of several frames becomes `name_m1 ... name_mn`. */
  lemma NumberedForStack(name: string, nCsets: nat)
    requires nCsets > 1 && name != ""
    ensures NewLabels(Name(name), nCsets, false) == Ok(Numbered(name, nCsets))
  {
  }

  /** A name for a single stored frame is appended as one entry. */
  lemma SingleNameForOneFrame(name: string, nCsets: nat, degeneracy: bool)
    requires name != "" && StoredCount(nCsets, degeneracy) == 1
    ensures NewLabels(Name(name), nCsets, degeneracy) == Ok([name])
  {
  }

  /** The corrected labels agree with the source wherever the source keeps
      one arg per stored frame, and reject only where it does not. */
  lemma {:induction false} NewLabelsRefinesSource(arg: LabelArg, nCsets: nat, degeneracy: bool)
    ensures var w := LabelsAsWritten(arg, nCsets, degeneracy);
      (w.Err? ==> NewLabels(arg, nCsets, degeneracy) == w) &&
      (w.Ok? && |w.value| == StoredCount(nCsets, degeneracy) ==> NewLabels(arg, nCsets, degeneracy) == w) &&
      (w.Ok? && |w.value| != StoredCount(nCsets, degeneracy) ==>
        (OrUnknown(arg).Names? && NewLabels(arg, nCsets, degeneracy).Err?) ||
        (OrUnknown(arg).Name? && NewLabels(arg, nCsets, degeneracy) == Ok([])))
  {
  }
}
