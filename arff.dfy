/**
  The layout kea.py assumes of the ARFF files written by Marsyas `bextract`
  (one file per analysed track): a 74-line header, then the data-bearing
  lines. A file's contents are the lines Python's file iteration yields,
  each keeping its end-of-line character.
 */
module Arff {

  /** Files smaller than this many bytes are taken to be empty exports. */
  const MinArffSize: nat := 8100

  /** Number of header lines; body lines are numbered (from 1) above this. */
  const HeaderLines: nat := 74

  /** Number of lines copied from the first valid file: its header and body. */
  const TemplateLines: nat := 77

  /** The 1-based header line that declares the label attribute. */
  const LabelLine: nat := 71

  /** What line 71 is rewritten to, written without an end-of-line. */
  const LabelDomainDecl: string := "@attribute output {i,s}"

  /** One entry of the input directory: its name, size in bytes and lines. */
  datatype ArffFile = ArffFile(name: string, size: nat, lines: seq<string>)

  /** Python's slice `s[lo:hi]` for non-negative bounds: out-of-range bounds are
      clamped to the length and a reversed range is empty. */
  function Slice<T>(s: seq<T>, lo: nat, hi: nat): (r: seq<T>)
    ensures |r| == if lo <= hi && lo <= |s| then Min(hi, |s|) - lo else 0
  {
    var h := Min(hi, |s|);
    if lo <= h then s[lo..h] else []
  }

  function Min(a: nat, b: nat): nat
  {
    if a <= b then a else b
  }

  /** Consecutive slices concatenate into the slice that spans both. */
  lemma {:induction false} SliceSplit<T>(s: seq<T>, lo: nat, mid: nat, hi: nat)
    requires lo <= mid <= hi
    ensures Slice(s, lo, mid) + Slice(s, mid, hi) == Slice(s, lo, hi)
  {
    var a, b, c := Slice(s, lo, mid), Slice(s, mid, hi), Slice(s, lo, hi);
    assert |a + b| == |c|;
    forall i | 0 <= i < |c| ensures (a + b)[i] == c[i] {
      if i >= |a| { assert (a + b)[i] == b[i - |a|]; }
    }
  }
}
