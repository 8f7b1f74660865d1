/**
  `validate_arff` (kea.py:45-61): a file under the size threshold is moved
  into an `invalid` directory beside it; any other file is accepted as is.
  The move itself is not performed here: the verdict names its destination.
 */
module Validate {
  import opened PyStr
  import opened Arff

  datatype Verdict = Accepted(path: string) | Rejected(dest: string)

  /** What precedes the last `/` of a path ("" when there is none). */
  function Parent(path: string): string
  {
    var k := LastIndexOf(path, '/');
    if k >= 0 then path[..k] else ""
  }

  /** What follows the last `/` of a path (all of it when there is none). */
  function BaseName(path: string): string
  {
    path[LastIndexOf(path, '/') + 1..]
  }

  /** The source's `"/".join(parts[:-1]) + "/invalid/" + parts[-1]` where
      `parts` is the path split on `/`. */
  function InvalidDestination(path: string): string
  {
    var parts := Split(path, '/');
    Join('/', parts[..|parts| - 1]) + "/invalid/" + parts[|parts| - 1]
  }

  /** A rejected file's destination: splitting and re-joining the path puts
      `invalid/` right after its last `/`. */
  lemma {:induction false} RejectedDestination(path: string, size: nat)
    requires size < MinArffSize
    ensures ValidateArff(path, size).dest == Parent(path) + "/invalid/" + BaseName(path)
  {
    var parts, k := Split(path, '/'), LastIndexOf(path, '/');
    SplitAtLast(path, '/');
    var dir := Join('/', parts[..|parts| - 1]);
    assert dir == Parent(path) by {
      if k < 0 {
        assert parts[..|parts| - 1] == [];
      }
    }
    assert parts[|parts| - 1] == BaseName(path);
  }

  /** The verdict for the file at `path` (already made absolute by the caller)
      whose size is `size` bytes. */
  function ValidateArff(path: string, size: nat): (v: Verdict)
    ensures v.Accepted? <==> size >= MinArffSize
    ensures v.Accepted? ==> v.path == path
  {
    if size < MinArffSize then
      Rejected(InvalidDestination(path))
    else
      Accepted(path)
  }

  /** A rejected file keeps its name and lands in the `invalid` subdirectory
      of the directory that held it. */
  lemma {:induction false} QuarantineKeepsName(path: string, size: nat)
    requires size < MinArffSize
    ensures var dest := ValidateArff(path, size).dest;
            BaseName(dest) == BaseName(path) && Parent(dest) == Parent(path) + "/invalid"
  {
    var b := BaseName(path);
    assert '/' !in b by {
      forall j | 0 <= j < |b| ensures b[j] != '/' {
        assert b[j] == path[LastIndexOf(path, '/') + 1 + j];
      }
    }
    RejectedDestination(path, size);
    SplicedNames(Parent(path), b);
  }

  lemma {:induction false} SplicedNames(dir: string, b: string)
    requires '/' !in b
    ensures BaseName(dir + "/invalid/" + b) == b
    ensures Parent(dir + "/invalid/" + b) == dir + "/invalid"
  {
    var x := dir + "/invalid";
    var dest := dir + "/invalid/" + b;
    assert dest == x + ['/'] + b;
    LastIndexOfSplice(x, b, '/');
    assert dest[..|x|] == x;
    assert dest[|x| + 1..] == b;
  }

  /** The last `c` of `x + [c] + y` is the spliced one when `y` has none. */
  lemma {:induction false} LastIndexOfSplice(x: string, y: string, c: char)
    requires c !in y
    ensures LastIndexOf(x + [c] + y, c) == |x|
  {
    var s := x + [c] + y;
    if x == [] {
      assert s[1..] == y;
      var k := LastIndexOf(y, c);
      assert k < 0;
    } else {
      assert s[1..] == x[1..] + [c] + y;
      LastIndexOfSplice(x[1..], y, c);
    }
  }
}
