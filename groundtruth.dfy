/**
  `add_groundtruth` (kea.py:129-175): rewrites a merged ARFF file line by
  line. Header lines are copied, except line 71, which is replaced by the
  declaration of the output attribute. Every data row gets its tag from
  a ground-truth table keyed by the track identifier that prefixes its
  last field, or is dropped when the identifier is not in the table.
  Comment lines (starting with `%`) after the header are copied.

  Line numbers are 1-based as in the source: `lines[i]` is line `i + 1`.
  The output is the sequence of strings written, in order.
 */
module Groundtruth {
  import opened PyStr
  import opened Arff

  /** The first two fields of one row of the ground-truth CSV file:
      a track identifier and its tag. */
  type Row = (string, string)

  /** The table the rows build when each row overwrites the entry of its
      identifier: the last row of an identifier wins. */
  function GroundtruthMap(rows: seq<Row>): map<string, string>
  {
    if rows == [] then map[]
    else
      var r := rows[|rows| - 1];
      GroundtruthMap(rows[..|rows| - 1])[r.0 := r.1]
  }

  /** Python's file iteration never yields an empty line; the source reads
      the first character of every line past the header. */
  predicate NonEmptyBody(lines: seq<string>)
  {
    forall i :: HeaderLines <= i < |lines| ==> lines[i] != []
  }

  /** Line `num` is a data row: past the header and not a comment. */
  predicate IsDataRow(num: nat, line: string)
    requires num > HeaderLines ==> line != []
  {
    num > HeaderLines && line[0] != '%'
  }

  /** The comma-separated fields of a row. */
  function Fields(line: string): seq<string>
  {
    Split(line, ',')
  }

  /** The last field of a row. */
  function LastField(line: string): string
  {
    var fields := Fields(line);
    fields[|fields| - 1]
  }

  /** The track identifier of a row: its last field up to the first `_`. */
  function Key(line: string): string
  {
    Split(LastField(line), '_')[0]
  }

  /** The row with its last field replaced by `tag` and an end-of-line. */
  function Relabel(line: string, tag: string): string
  {
    var fields := Fields(line);
    Join(',', fields[..|fields| - 1]) + "," + tag + "\n"
  }

  /** What is written for line `num`: nothing for a data row whose
      identifier is missing from the table. */
  function RewriteLine(num: nat, line: string, gt: map<string, string>): seq<string>
    requires num > HeaderLines ==> line != []
  {
    if IsDataRow(num, line) then
      if Key(line) in gt then [Relabel(line, gt[Key(line)])] else []
    else if num == LabelLine then [LabelDomainDecl]
    else [line]
  }

  /** What is written for the first `n` lines. */
  function Rewritten(lines: seq<string>, gt: map<string, string>, n: nat): seq<string>
    requires n <= |lines| && NonEmptyBody(lines)
  {
    if n == 0 then []
    else Rewritten(lines, gt, n - 1) + RewriteLine(n, lines[n - 1], gt)
  }

  /** Whether the line at index `i` is a data row whose identifier the table
      knows. */
  predicate Matched(lines: seq<string>, gt: map<string, string>, i: nat)
    requires i < |lines| && NonEmptyBody(lines)
  {
    IsDataRow(i + 1, lines[i]) && Key(lines[i]) in gt
  }

  /** The labels written among the first `n` lines. */
  function EmittedTags(lines: seq<string>, gt: map<string, string>, n: nat): set<string>
    requires n <= |lines| && NonEmptyBody(lines)
  {
    if n == 0 then {}
    else
      EmittedTags(lines, gt, n - 1)
        + if Matched(lines, gt, n - 1) then {gt[Key(lines[n - 1])]} else {}
  }

  /** Number of data rows among the first `n` lines whose identifier the
      table does not know. */
  function Unmatched(lines: seq<string>, gt: map<string, string>, n: nat): nat
    requires n <= |lines| && NonEmptyBody(lines)
  {
    if n == 0 then 0
    else
      var line := lines[n - 1];
      Unmatched(lines, gt, n - 1) + if IsDataRow(n, line) && Key(line) !in gt then 1 else 0
  }

  /** Reads the ground-truth rows into a table, one row at a time. */
  method LoadGroundtruth(rows: seq<Row>) returns (gt: map<string, string>)
    ensures gt == GroundtruthMap(rows)
  {
    gt := map[];
    for i := 0 to |rows|
      invariant gt == GroundtruthMap(rows[..i])
    {
      assert rows[..i + 1][..i] == rows[..i];
      gt := gt[rows[i].0 := rows[i].1];
    }
    assert rows[..|rows|] == rows;
  }

  /** `add_groundtruth`: streams the feature lines through the rewriting,
      collecting the labels written; `tags` is the set the source builds from
      that list at the end. */
  method AddGroundtruth(lines: seq<string>, rows: seq<Row>)
    returns (out: seq<string>, tags: set<string>)
    requires NonEmptyBody(lines)
    ensures out == Rewritten(lines, GroundtruthMap(rows), |lines|)
    ensures tags == EmittedTags(lines, GroundtruthMap(rows), |lines|)
  {
    var gt := LoadGroundtruth(rows);
    var tagList: seq<string> := [];
    out := [];
    var lineNum := 0;
    while lineNum < |lines|
      invariant 0 <= lineNum <= |lines|
      invariant out == Rewritten(lines, gt, lineNum)
      invariant (set t | t in tagList) == EmittedTags(lines, gt, lineNum)
    {
      var line := lines[lineNum];
      lineNum := lineNum + 1;
      if lineNum > HeaderLines && line[0] != '%' {
        var curLine := Split(line, ',');
        var oldTag := Split(curLine[|curLine| - 1], '_')[0];
        if oldTag in gt {
          var newTag := gt[oldTag];
          out := out + [Join(',', curLine[..|curLine| - 1]) + "," + newTag + "\n"];
          tagList := tagList + [newTag];
        }
      } else if lineNum == LabelLine {
        out := out + [LabelDomainDecl];
      } else {
        out := out + [line];
      }
    }
    tags := set t | t in tagList;
  }

  /** The table holds exactly the identifiers of the rows, each with the
      tag of its last row. */
  lemma {:induction false} GroundtruthMapSpec(rows: seq<Row>)
    ensures forall i :: 0 <= i < |rows| ==> rows[i].0 in GroundtruthMap(rows)
    ensures forall k :: k in GroundtruthMap(rows) ==> exists i :: 0 <= i < |rows| && rows[i].0 == k
    ensures forall i :: 0 <= i < |rows| && (forall j :: i < j < |rows| ==> rows[j].0 != rows[i].0) ==>
              GroundtruthMap(rows)[rows[i].0] == rows[i].1
  {
    if rows != [] {
      var n := |rows|;
      var front := rows[..n - 1];
      GroundtruthMapSpec(front);
      assert forall i :: 0 <= i < n - 1 ==> front[i] == rows[i];
    }
  }

  /** Every tag is a value of the table. */
  lemma {:induction false} TagsAreLabels(lines: seq<string>, gt: map<string, string>, n: nat)
    requires n <= |lines| && NonEmptyBody(lines)
    ensures EmittedTags(lines, gt, n) <= gt.Values
  {
    if n > 0 {
      TagsAreLabels(lines, gt, n - 1);
    }
  }

  /** A string is among the tags exactly when it is the tag written for some
      matched data row. */
  lemma {:induction false} TagsSpec(lines: seq<string>, gt: map<string, string>, n: nat, t: string)
    requires n <= |lines| && NonEmptyBody(lines)
    ensures t in EmittedTags(lines, gt, n) <==>
              exists i :: 0 <= i < n && Matched(lines, gt, i) && gt[Key(lines[i])] == t
  {
    if n > 0 {
      TagsSpec(lines, gt, n - 1, t);
      if t in EmittedTags(lines, gt, n) && t !in EmittedTags(lines, gt, n - 1) {
        assert Matched(lines, gt, n - 1) && gt[Key(lines[n - 1])] == t;
      }
    }
  }

  /** The output grows by at most one string per line. */
  lemma {:induction false} RewrittenPrefix(lines: seq<string>, gt: map<string, string>, m: nat, n: nat)
    requires m <= n <= |lines| && NonEmptyBody(lines)
    ensures Rewritten(lines, gt, m) <= Rewritten(lines, gt, n)
  {
    if m < n {
      RewrittenPrefix(lines, gt, m, n - 1);
    }
  }

  /** Within the header, every line is written unchanged except line 71,
      which becomes the output attribute declaration. */
  lemma {:induction false} HeaderLinesRewritten(lines: seq<string>, gt: map<string, string>, n: nat)
    requires n <= HeaderLines && n <= |lines| && NonEmptyBody(lines)
    ensures |Rewritten(lines, gt, n)| == n
    ensures forall i :: 0 <= i < n ==>
              Rewritten(lines, gt, n)[i] == if i + 1 == LabelLine then LabelDomainDecl else lines[i]
  {
    if n > 0 {
      HeaderLinesRewritten(lines, gt, n - 1);
    }
  }

  /** The whole output starts with the rewritten header. */
  lemma {:induction false} HeaderKept(lines: seq<string>, gt: map<string, string>)
    requires NonEmptyBody(lines)
    ensures var out, h := Rewritten(lines, gt, |lines|), Min(HeaderLines, |lines|);
            && |out| >= h
            && forall i :: 0 <= i < h ==> out[i] == if i + 1 == LabelLine then LabelDomainDecl else lines[i]
  {
    var h := Min(HeaderLines, |lines|);
    HeaderLinesRewritten(lines, gt, h);
    RewrittenPrefix(lines, gt, h, |lines|);
  }

  /** One string is written per line, except for data rows whose identifier
      is missing from the table. */
  lemma {:induction false} RewrittenLength(lines: seq<string>, gt: map<string, string>, n: nat)
    requires n <= |lines| && NonEmptyBody(lines)
    ensures |Rewritten(lines, gt, n)| == n - Unmatched(lines, gt, n)
  {
    if n > 0 {
      RewrittenLength(lines, gt, n - 1);
    }
  }

  /** When the table knows every data row's identifier, the output has one
      string per line: the relabelled row, the attribute declaration for line
      71, or the line itself. */
  lemma {:induction false} RewrittenAllMatched(lines: seq<string>, gt: map<string, string>, n: nat)
    requires n <= |lines| && NonEmptyBody(lines)
    requires forall i :: HeaderLines <= i < |lines| && lines[i][0] != '%' ==> Key(lines[i]) in gt
    ensures |Rewritten(lines, gt, n)| == n
    ensures forall i :: 0 <= i < n ==>
              Rewritten(lines, gt, n)[i] ==
                if IsDataRow(i + 1, lines[i]) then Relabel(lines[i], gt[Key(lines[i])])
                else if i + 1 == LabelLine then LabelDomainDecl
                else lines[i]
  {
    if n > 0 {
      RewrittenAllMatched(lines, gt, n - 1);
    }
  }

  /** A relabelled row keeps every field but the last, which becomes the
      tag followed by the end-of-line; a row of one field gains an empty
      first field, since joining no fields gives the empty string. */
  lemma {:induction false} RelabelReplacesLastField(line: string, tag: string)
    requires ',' !in tag
    ensures var fields := Fields(line);
            Fields(Relabel(line, tag)) ==
              (if |fields| >= 2 then fields[..|fields| - 1] else [[]]) + [tag + "\n"]
  {
    var fields := Fields(line);
    var kept := fields[..|fields| - 1];
    var last := tag + "\n";
    SplitPlain(last, ',');
    if kept == [] {
      var r := Relabel(line, tag);
      assert r == [','] + last;
      assert r[1..] == last;
    } else {
      SplitPiecesFree(line, ',');
      var parts := kept + [last];
      assert forall i :: 0 <= i < |parts| ==> ',' !in parts[i] by {
        assert forall i :: 0 <= i < |kept| ==> kept[i] == fields[i];
      }
      JoinSnoc(kept, last, ',');
      assert Relabel(line, tag) == Join(',', parts);
      SplitJoin(parts, ',');
    }
  }

  /** The identifier is the last field up to its first `_`: a prefix of the
      last field that holds no `_` and is either the whole field or followed
      there by a `_`. */
  lemma {:induction false} KeyOfLastField(line: string)
    ensures Key(line) <= LastField(line)
    ensures '_' !in Key(line)
    ensures |Key(line)| < |LastField(line)| ==> LastField(line)[|Key(line)|] == '_'
  {
    var last := LastField(line);
    var parts := Split(last, '_');
    SplitPiecesFree(last, '_');
    JoinSplit(last, '_');
    JoinPrefix(parts, '_');
    if |parts| > 1 {
      assert last == parts[0] + (['_'] + Join('_', parts[1..]));
    }
  }

  /** The first piece of a join is a prefix of it. */
  lemma {:induction false} JoinPrefix(parts: seq<string>, sep: char)
    requires |parts| >= 1
    ensures parts[0] <= Join(sep, parts)
  {
    if |parts| > 1 {
      assert Join(sep, parts) == parts[0] + ([sep] + Join(sep, parts[1..]));
    }
  }
}
