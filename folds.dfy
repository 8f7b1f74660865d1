/**
  `split_number` (kea.py:113-127): the per-fold sizes of a k-fold split of
  `number` items, as equal as possible, the remainder going to the first folds.
 */
module Folds {
  import opened Wrappers
  import opened Arff

  /** The source's `number < nb_folds` error path. */
  datatype FoldError = MoreFoldsThanData

  function Sum(s: seq<int>): int
  {
    if s == [] then 0 else Sum(s[..|s| - 1]) + s[|s| - 1]
  }

  /** `k` sizes, the first `extra` of them one larger than `base`. */
  function Staircase(base: int, extra: nat, k: nat): (s: seq<int>)
    ensures |s| == k
  {
    seq(k, i => base + if i < extra then 1 else 0)
  }

  /** The sizes `split_number(number, nb_folds)` returns: the quotient in every
      fold, plus one in each of the first `number mod nb_folds` folds. */
  function FoldSizes(number: int, nbFolds: nat): (folds: seq<int>)
    requires nbFolds >= 1
    ensures |folds| == nbFolds
  {
    Staircase(number / nbFolds, number % nbFolds, nbFolds)
  }

  /** A list whose entries differ by at most one and never increase. */
  predicate Balanced(s: seq<int>)
  {
    && (forall i, j :: 0 <= i < |s| && 0 <= j < |s| ==> s[i] - s[j] <= 1)
    && (forall i, j :: 0 <= i <= j < |s| ==> s[j] <= s[i])
  }

  /** Mirrors the Python loop: start every fold at the integer quotient, then
      bump the first `number - quotient * nb_folds` folds by one. */
  method SplitNumber(number: int, nbFolds: int) returns (r: Result<seq<int>, FoldError>)
    requires nbFolds >= 1
    ensures r.Err? <==> number < nbFolds
    ensures r.Ok? ==> r.value == FoldSizes(number, nbFolds)
  {
    if number < nbFolds {
      return Err(MoreFoldsThanData);
    }
    var minNum := number / nbFolds;
    var folds := new int[nbFolds](_ => minNum);
    var extra := number - minNum * nbFolds;
    assert extra == number % nbFolds;
    for num := 0 to extra
      invariant forall i :: 0 <= i < nbFolds ==> folds[i] == minNum + if i < num then 1 else 0
    {
      folds[num] := folds[num] + 1;
    }
    return Ok(folds[..]);
  }

  /** The sum of the first `j` sizes of a staircase. */
  lemma {:induction false} StaircasePrefixSum(base: int, extra: nat, k: nat, j: nat)
    requires extra <= k && j <= k
    ensures Sum(Staircase(base, extra, k)[..j]) == j * base + Min(j, extra)
  {
    if j > 0 {
      var s := Staircase(base, extra, k);
      StaircasePrefixSum(base, extra, k, j - 1);
      assert s[..j][..j - 1] == s[..j - 1];
      assert j * base == (j - 1) * base + base;
    }
  }

  /** The sizes are `nb_folds` many, sum to `number`, each is the quotient or
      one more, exactly the first `number mod nb_folds` are one more, and so
      they never increase and differ by at most one. */
  lemma {:induction false} FoldSizesSpec(number: int, nbFolds: nat)
    requires number >= nbFolds >= 1
    ensures var folds := FoldSizes(number, nbFolds);
            && |folds| == nbFolds
            && Sum(folds) == number
            && (forall i :: 0 <= i < nbFolds ==>
                  folds[i] == number / nbFolds + if i < number % nbFolds then 1 else 0)
            && Balanced(folds)
  {
    var folds := FoldSizes(number, nbFolds);
    StaircasePrefixSum(number / nbFolds, number % nbFolds, nbFolds, nbFolds);
    assert folds[..nbFolds] == folds;
  }

  /** Conversely, a balanced non-increasing list of `nb_folds` sizes summing
      to `number` is the one `split_number` returns. */
  lemma {:induction false} FoldSizesUnique(number: int, nbFolds: nat, s: seq<int>)
    requires nbFolds >= 1 && |s| == nbFolds
    requires Sum(s) == number && Balanced(s)
    ensures s == FoldSizes(number, nbFolds)
  {
    var base := s[nbFolds - 1];
    // the number of folds holding `base + 1`
    var extra := FirstAtMost(s, base);
    assert s == Staircase(base, extra, nbFolds);
    StaircasePrefixSum(base, extra, nbFolds, nbFolds);
    assert s[..nbFolds] == s;
    DivModUnique(number, nbFolds, base, extra);
  }

  /** The first index whose entry is at most `v`, for a list that ends with `v`. */
  function FirstAtMost(s: seq<int>, v: int): (k: nat)
    requires |s| >= 1 && s[|s| - 1] == v
    ensures k < |s| && s[k] <= v
    ensures forall i :: 0 <= i < k ==> s[i] > v
  {
    if s[0] <= v then 0 else 1 + FirstAtMost(s[1..], v)
  }

  lemma {:induction false} DivModUnique(n: int, k: int, q: int, r: int)
    requires k >= 1 && 0 <= r < k && n == k * q + r
    ensures n / k == q && n % k == r
  {
    var q', r' := n / k, n % k;
    assert n == k * q' + r';
    assert k * q - k * q' == k * (q - q');
    if q > q' {
      MulAtLeast(k, q - q');
    } else if q < q' {
      assert k * q' - k * q == k * (q' - q);
      MulAtLeast(k, q' - q);
    }
  }

  lemma {:induction false} MulAtLeast(k: int, a: int)
    requires k >= 1 && a >= 1
    ensures k * a >= k
  {
    if a > 1 {
      MulAtLeast(k, a - 1);
      assert k * a == k * (a - 1) + k;
    }
  }
}
