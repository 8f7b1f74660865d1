/**
  Python's `str.split(sep)` and `sep.join(parts)` for a one-character
  separator, the two string operations kea.py builds its paths and
  feature rows with.
 */
module PyStr {

  /** `s.split(sep)`: the pieces of `s` between occurrences of `sep`.
      Python returns at least one piece, the empty string for `""`. */
  function Split(s: string, sep: char): (parts: seq<string>)
    ensures |parts| >= 1
  {
    if s == [] then [[]]
    else
      var rest := Split(s[1..], sep);
      if s[0] == sep then [[]] + rest
      else [[s[0]] + rest[0]] + rest[1..]
  }

  /** `sep.join(parts)`. */
  function Join(sep: char, parts: seq<string>): string
  {
    if |parts| == 0 then []
    else if |parts| == 1 then parts[0]
    else parts[0] + [sep] + Join(sep, parts[1..])
  }

  /** Index of the last occurrence of `c` in `s`, or -1 (Python's `s.rfind(c)`). */
  function LastIndexOf(s: string, c: char): (k: int)
    ensures -1 <= k < |s|
    ensures k >= 0 ==> s[k] == c
    ensures forall j :: k < j < |s| ==> s[j] != c
  {
    if s == [] then -1
    else
      var k := LastIndexOf(s[1..], c);
      if k >= 0 then k + 1
      else if s[0] == c then 0
      else -1
  }

  /** No piece of a split contains the separator. */
  lemma {:induction false} SplitPiecesFree(s: string, sep: char)
    ensures forall i :: 0 <= i < |Split(s, sep)| ==> sep !in Split(s, sep)[i]
  {
    if s != [] {
      SplitPiecesFree(s[1..], sep);
    }
  }

  /** Joining the pieces of a split gives the original string back. */
  lemma {:induction false} JoinSplit(s: string, sep: char)
    ensures Join(sep, Split(s, sep)) == s
  {
    if s != [] {
      var rest := Split(s[1..], sep);
      JoinSplit(s[1..], sep);
      if s[0] == sep {
        assert Split(s, sep) == [[]] + rest;
        assert ([[]] + rest)[1..] == rest;
      } else {
        JoinFirstPiece(s[0], rest, sep);
      }
    }
  }

  /** Prepending a character to the first piece prepends it to the join. */
  lemma {:induction false} JoinFirstPiece(c: char, parts: seq<string>, sep: char)
    requires |parts| >= 1
    ensures Join(sep, [[c] + parts[0]] + parts[1..]) == [c] + Join(sep, parts)
  {
    var q := [[c] + parts[0]] + parts[1..];
    assert q[1..] == parts[1..];
  }

  /** Splitting a join of separator-free pieces gives the pieces back. */
  lemma {:induction false} SplitJoin(parts: seq<string>, sep: char)
    requires |parts| >= 1
    requires forall i :: 0 <= i < |parts| ==> sep !in parts[i]
    ensures Split(Join(sep, parts), sep) == parts
  {
    if |parts| == 1 {
      SplitPlain(parts[0], sep);
    } else {
      SplitJoin(parts[1..], sep);
      SplitAtFirst(parts[0], Join(sep, parts[1..]), sep);
      assert [parts[0]] + parts[1..] == parts;
    }
  }

  /** A string without the separator splits into itself alone. */
  lemma {:induction false} SplitPlain(s: string, sep: char)
    requires sep !in s
    ensures Split(s, sep) == [s]
  {
    if s != [] {
      SplitPlain(s[1..], sep);
      assert [s[0]] + s[1..] == s;
    }
  }

  /** The first separator ends the first piece. */
  lemma {:induction false} SplitAtFirst(a: string, b: string, sep: char)
    requires sep !in a
    ensures Split(a + [sep] + b, sep) == [a] + Split(b, sep)
  {
    var s := a + [sep] + b;
    if a == [] {
      assert s[1..] == b;
    } else {
      assert s[1..] == a[1..] + [sep] + b;
      SplitAtFirst(a[1..], b, sep);
      assert [a[0]] + a[1..] == a;
    }
  }

  /** Joining one more piece onto at least one. */
  lemma {:induction false} JoinSnoc(parts: seq<string>, x: string, sep: char)
    requires |parts| >= 1
    ensures Join(sep, parts + [x]) == Join(sep, parts) + [sep] + x
  {
    if |parts| > 1 {
      JoinSnoc(parts[1..], x, sep);
      assert (parts + [x])[1..] == parts[1..] + [x];
    }
  }

  /** A separator followed only by separator-free text ends the last piece. */
  lemma {:induction false} SplitAtLastSep(x: string, y: string, sep: char)
    requires sep !in y
    ensures Split(x + [sep] + y, sep) == Split(x, sep) + [y]
  {
    var s := x + [sep] + y;
    if x == [] {
      assert s[1..] == y;
      SplitPlain(y, sep);
    } else {
      assert s[1..] == x[1..] + [sep] + y;
      SplitAtLastSep(x[1..], y, sep);
      var px := Split(x[1..], sep);
      if x[0] != sep {
        assert (px + [y])[1..] == px[1..] + [y];
      }
    }
  }

  /** The last piece of a split is what follows the last separator, and the
      other pieces join back into what precedes it. */
  lemma {:induction false} SplitAtLast(s: string, sep: char)
    ensures var parts, k := Split(s, sep), LastIndexOf(s, sep);
            && (k >= 0 <==> |parts| >= 2)
            && parts[|parts| - 1] == s[k + 1..]
            && (k >= 0 ==> Join(sep, parts[..|parts| - 1]) == s[..k])
  {
    var k := LastIndexOf(s, sep);
    if k < 0 {
      SplitWithoutSep(s, sep);
    } else {
      SplitAtFoundSep(s, sep, k);
    }
  }

  lemma {:induction false} SplitWithoutSep(s: string, sep: char)
    requires LastIndexOf(s, sep) < 0
    ensures Split(s, sep) == [s]
  {
    assert sep !in s by {
      forall j | 0 <= j < |s| ensures s[j] != sep { }
    }
    SplitPlain(s, sep);
  }

  lemma {:induction false} SplitAtFoundSep(s: string, sep: char, k: nat)
    requires k == LastIndexOf(s, sep)
    ensures var parts := Split(s, sep);
            && |parts| >= 2
            && parts[|parts| - 1] == s[k + 1..]
            && Join(sep, parts[..|parts| - 1]) == s[..k]
  {
    var x, y := s[..k], s[k + 1..];
    assert s == x + [sep] + y;
    assert sep !in y by {
      forall j | 0 <= j < |y| ensures y[j] != sep { assert y[j] == s[k + 1 + j]; }
    }
    SplitAtLastSep(x, y, sep);
    var front := Split(x, sep);
    assert (front + [y])[..|front|] == front;
    JoinSplit(x, sep);
  }
}
