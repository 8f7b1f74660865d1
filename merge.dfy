/**
  `merge_arff` (kea.py:63-111): concatenates the ARFF files of a directory
  listing into one. The first valid file gives its first 77 lines (the
  74-line header and its body); every later valid file gives its lines
  75 to 77; rejected files are counted and quarantined.
 */
module Merge {
  import opened Wrappers
  import opened Arff
  import opened Validate

  predicate IsValid(f: ArffFile)
  {
    f.size >= MinArffSize
  }

  /** The path `validate_arff` is given for a listed file. */
  function EntryPath(indir: string, f: ArffFile): string
  {
    indir + "/" + f.name
  }

  /** The first 77 lines, copied from the first valid file. */
  function Template(f: ArffFile): seq<string>
  {
    Slice(f.lines, 0, TemplateLines)
  }

  /** The 74 header lines. */
  function Header(f: ArffFile): seq<string>
  {
    Slice(f.lines, 0, HeaderLines)
  }

  /** Lines 75 to 77 (the slice `[74:77]`), appended for every later valid file. */
  function Body(f: ArffFile): seq<string>
  {
    Slice(f.lines, HeaderLines, TemplateLines)
  }

  /** Position of the first valid file among the first `n` listed, if any. */
  function FirstValid(files: seq<ArffFile>, n: nat): (r: Option<nat>)
    requires n <= |files|
    ensures r.Some? ==> r.value < n && IsValid(files[r.value])
    ensures r.Some? ==> forall k :: 0 <= k < r.value ==> !IsValid(files[k])
    ensures r.None? ==> forall k :: 0 <= k < n ==> !IsValid(files[k])
  {
    if n == 0 then None
    else match FirstValid(files, n - 1)
      case Some(j) => Some(j)
      case None => if IsValid(files[n - 1]) then Some(n - 1) else None
  }

  /** The bodies of the valid files among those at positions `lo` to `hi - 1`,
      in listing order. */
  function Bodies(files: seq<ArffFile>, lo: nat, hi: nat): seq<string>
    requires hi <= |files|
    decreases hi
  {
    if hi <= lo then []
    else
      var f := files[hi - 1];
      Bodies(files, lo, hi - 1) + if IsValid(f) then Body(f) else []
  }

  /** The valid files, in listing order. */
  function ValidFiles(files: seq<ArffFile>): (vs: seq<ArffFile>)
    ensures forall k :: 0 <= k < |vs| ==> IsValid(vs[k])
  {
    if files == [] then []
    else
      var f := files[|files| - 1];
      ValidFiles(files[..|files| - 1]) + if IsValid(f) then [f] else []
  }

  /** Where the rejected files among the first `n` listed are moved, in
      listing order. */
  function Quarantined(indir: string, files: seq<ArffFile>, n: nat): seq<string>
    requires n <= |files|
  {
    if n == 0 then []
    else
      var f := files[n - 1];
      var v := ValidateArff(EntryPath(indir, f), f.size);
      Quarantined(indir, files, n - 1) + if v.Rejected? then [v.dest] else []
  }

  /** What the merge has written once the first `n` listed files are done:
      the first valid file's first 77 lines, then the body of every later
      valid file. */
  function MergedUpTo(files: seq<ArffFile>, n: nat): seq<string>
    requires n <= |files|
  {
    match FirstValid(files, n)
    case None => []
    case Some(j) => Template(files[j]) + Bodies(files, j + 1, n)
  }

  /** The merged output for the whole listing. */
  function Merged(files: seq<ArffFile>): seq<string>
  {
    MergedUpTo(files, |files|)
  }

  /** Copies lines from the top of a file until 77 have been written or
      the file ends. */
  method CopyTemplate(lines: seq<string>) returns (written: seq<string>)
    ensures written == Slice(lines, 0, TemplateLines)
  {
    written := [];
    var nbLine := TemplateLines;
    var l := 0;
    while l < |lines|
      invariant 0 <= l <= |lines| && l <= TemplateLines
      invariant nbLine == TemplateLines - l
      invariant written == lines[..l]
    {
      if nbLine == 0 {
        break;
      }
      nbLine := nbLine - 1;
      written := written + [lines[l]];
      l := l + 1;
    }
  }

  /** The first loop of the source: rejects files until the first valid
      one, copies its first 77 lines and stops right after it. `next` is the
      position in the listing where the second loop resumes. */
  method CopyFirstValid(indir: string, files: seq<ArffFile>)
    returns (out: seq<string>, invalid: nat, moved: seq<string>, next: nat)
    ensures next <= |files|
    ensures FirstValid(files, next).None? ==> next == |files|
    ensures FirstValid(files, next).Some? ==> FirstValid(files, next) == Some(next - 1)
    ensures out == MergedUpTo(files, next)
    ensures moved == Quarantined(indir, files, next) && invalid == |moved|
  {
    out, invalid, moved := [], 0, [];
    var i := 0;
    while i < |files|
      invariant 0 <= i <= |files|
      invariant FirstValid(files, i).None?
      invariant out == [] && moved == Quarantined(indir, files, i) && invalid == |moved|
    {
      var f := files[i];
      var v := ValidateArff(EntryPath(indir, f), f.size);
      assert v.Accepted? <==> IsValid(f);
      assert FirstValid(files, i + 1) == if IsValid(f) then Some(i) else None;
      i := i + 1;
      if v.Accepted? {
        out := CopyTemplate(f.lines);
        break;
      }
      moved := moved + [v.dest];
      invalid := invalid + 1;
    }
    next := i;
  }

  /** The second loop of the source: from position `next` on, appends the
      body of every valid file and quarantines the others. */
  method AppendLaterValid(indir: string, files: seq<ArffFile>, next: nat,
                          written: seq<string>, rejected: nat, movedSoFar: seq<string>)
    returns (out: seq<string>, invalid: nat, moved: seq<string>)
    requires next <= |files|
    requires next < |files| ==> FirstValid(files, next).Some?
    requires written == MergedUpTo(files, next)
    requires movedSoFar == Quarantined(indir, files, next) && rejected == |movedSoFar|
    ensures out == Merged(files)
    ensures moved == Quarantined(indir, files, |files|) && invalid == |moved|
  {
    out, invalid, moved := written, rejected, movedSoFar;
    var i := next;
    while i < |files|
      invariant next <= i <= |files|
      invariant i < |files| ==> FirstValid(files, i).Some?
      invariant out == MergedUpTo(files, i)
      invariant moved == Quarantined(indir, files, i) && invalid == |moved|
    {
      var f := files[i];
      var v := ValidateArff(EntryPath(indir, f), f.size);
      assert v.Accepted? <==> IsValid(f);
      MergedUpToStep(files, i);
      if v.Accepted? {
        out := out + Body(f);
      } else {
        moved := moved + [v.dest];
        invalid := invalid + 1;
      }
      i := i + 1;
    }
    assert i == |files|;
  }

  /** `merge_arff`: both loops share one position in the listing, the second
      going on where the first stopped. `out` lists the lines written to the
      output file, `invalid` is the number of rejected files and `moved`
      their quarantine destinations. */
  method MergeArff(indir: string, files: seq<ArffFile>)
    returns (out: seq<string>, invalid: nat, moved: seq<string>)
    ensures out == Merged(files)
    ensures moved == Quarantined(indir, files, |files|)
    ensures invalid == |moved|
  {
    var next;
    out, invalid, moved, next := CopyFirstValid(indir, files);
    out, invalid, moved := AppendLaterValid(indir, files, next, out, invalid, moved);
  }

  /** Past the first valid file, each listed file adds its body if valid. */
  lemma {:induction false} MergedUpToStep(files: seq<ArffFile>, i: nat)
    requires i < |files| && FirstValid(files, i).Some?
    ensures FirstValid(files, i + 1) == FirstValid(files, i)
    ensures MergedUpTo(files, i + 1) ==
              MergedUpTo(files, i) + if IsValid(files[i]) then Body(files[i]) else []
  {
    var j := FirstValid(files, i).value;
    assert MergedUpTo(files, i + 1) == Template(files[j]) + Bodies(files, j + 1, i + 1);
  }

  /** The bodies of a range split at any midpoint. */
  lemma {:induction false} BodiesSplit(files: seq<ArffFile>, lo: nat, mid: nat, hi: nat)
    requires lo <= mid <= hi <= |files|
    ensures Bodies(files, lo, hi) == Bodies(files, lo, mid) + Bodies(files, mid, hi)
  {
    if hi > mid {
      BodiesSplit(files, lo, mid, hi - 1);
    }
  }

  /** A range without valid files has no bodies. */
  lemma {:induction false} BodiesNoneValid(files: seq<ArffFile>, lo: nat, hi: nat)
    requires lo <= hi <= |files|
    requires forall k :: lo <= k < hi ==> !IsValid(files[k])
    ensures Bodies(files, lo, hi) == []
  {
    if hi > lo {
      BodiesNoneValid(files, lo, hi - 1);
    }
  }

  /** The first 77 lines are the header followed by the body. */
  lemma {:induction false} TemplateSplit(f: ArffFile)
    ensures Template(f) == Header(f) + Body(f)
  {
    SliceSplit(f.lines, 0, HeaderLines, TemplateLines);
  }

  /** When the file at `j` is the first valid one, the bodies of the first
      `n` files start with its body. */
  lemma {:induction false} BodiesFromFirst(files: seq<ArffFile>, j: nat, n: nat)
    requires j < n <= |files|
    requires IsValid(files[j]) && forall k :: 0 <= k < j ==> !IsValid(files[k])
    ensures Bodies(files, 0, n) == Body(files[j]) + Bodies(files, j + 1, n)
  {
    BodiesSplit(files, 0, j, n);
    BodiesSplit(files, j, j + 1, n);
    BodiesNoneValid(files, 0, j);
    assert Bodies(files, j, j + 1) == Body(files[j]) by {
      assert Bodies(files, j, j) == [];
    }
  }

  /** The output holds exactly one header, the first valid file's, followed
      by the body of every valid file (the first one included) in listing
      order; it is empty when no file is valid. */
  lemma {:induction false} MergedShape(files: seq<ArffFile>)
    ensures FirstValid(files, |files|).None? ==> Merged(files) == []
    ensures FirstValid(files, |files|).Some? ==>
              Merged(files) == Header(files[FirstValid(files, |files|).value]) + Bodies(files, 0, |files|)
  {
    var n := |files|;
    match FirstValid(files, n)
    case None =>
    case Some(j) =>
      var f := files[j];
      var rest := Bodies(files, j + 1, n);
      TemplateSplit(f);
      BodiesFromFirst(files, j, n);
      calc {
        Merged(files);
        Template(f) + rest;
        (Header(f) + Body(f)) + rest;
        Header(f) + (Body(f) + rest);
        Header(f) + Bodies(files, 0, n);
      }
  }

  /** Each valid file contributes its 3-line body when all valid files have
      at least 77 lines. */
  lemma {:induction false} BodiesLength(files: seq<ArffFile>, n: nat)
    requires n <= |files|
    requires forall k :: 0 <= k < |files| && IsValid(files[k]) ==> |files[k].lines| >= TemplateLines
    ensures |Bodies(files, 0, n)| == (TemplateLines - HeaderLines) * |ValidFiles(files[..n])|
  {
    if n > 0 {
      BodiesLength(files, n - 1);
      assert files[..n][..n - 1] == files[..n - 1];
    }
  }

  /** For conforming files (each valid one at least 77 lines long) the output
      has 74 header lines plus 3 lines per valid file. */
  lemma {:induction false} MergedLength(files: seq<ArffFile>)
    requires forall k :: 0 <= k < |files| && IsValid(files[k]) ==> |files[k].lines| >= TemplateLines
    requires FirstValid(files, |files|).Some?
    ensures |Merged(files)| == HeaderLines + 3 * |ValidFiles(files)|
  {
    MergedShape(files);
    BodiesLength(files, |files|);
    assert files[..|files|] == files;
  }

  /** Every listed file is either valid or quarantined: the number of
      rejected files (the source's `cpt_invalid_filename`) is the number of
      files minus the number of valid ones. */
  lemma {:induction false} QuarantineCount(indir: string, files: seq<ArffFile>, n: nat)
    requires n <= |files|
    ensures |Quarantined(indir, files, n)| == n - |ValidFiles(files[..n])|
  {
    if n > 0 {
      QuarantineCount(indir, files, n - 1);
      assert files[..n][..n - 1] == files[..n - 1];
      var f := files[n - 1];
      assert ValidateArff(EntryPath(indir, f), f.size).Rejected? <==> !IsValid(f);
    }
  }
}
