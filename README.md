# kea: feature-file preprocessing, modelled in Dafny

kea prepares the feature files that Marsyas `bextract` writes (one ARFF
file per analysed track) for a music auto-tagging classifier. This project
models the data-handling core of `kea.py` and proves what it does:

- `validate_arff`: a file smaller than 8100 bytes is rejected. Its
  quarantine destination is built by splitting the path on `/` and
  re-joining it with an `invalid` directory spliced in before the file name.
  Any other file is accepted with its path unchanged (module `Validate`).
- `merge_arff`: walks the directory listing with one iterator shared by
  two loops. The first valid file gives its first 77 lines (the 74-line
  header plus three data lines). Every later valid file gives lines 75 to 77
  (`[74:77]`). Rejected files are counted (module `Merge`).
- `split_number`: the per-fold sizes of a k-fold split, as even as
  possible, with the remainder on the first folds (module `Folds`).
- `add_groundtruth`: rewrites the merged file line by line with a 1-based
  counter. Header lines are copied, except line 71, which becomes
  `@attribute output {i,s}` written without an end-of-line. Each data row
  gets the label the ground-truth table gives the identifier before the
  first `_` of its last field, or is dropped when the table lacks it.
  Comment lines after the header are copied. The labels written are
  collected as a set (module `Groundtruth`).

Supporting modules:

- `PyStr` models Python's `str.split` and `str.join` for a one-character
  separator, and proves their round trips.
- `Arff` holds the format constants, a directory entry (name, size, lines)
  and Python's clamping slice.
- `Wrappers` holds `Option` and `Result`.

Every loop of the source is a method with loop invariants. Each method is
proved equal to a specification function: `FoldSizes` (a closed form),
`Slice` for the countdown copy, and the recursive `Merged`, `Quarantined`,
`GroundtruthMap`, `Rewritten` and `EmittedTags`. Lemmas then state what
those functions mean.

A file's contents are the lines Python's file iteration yields, each
keeping its end-of-line. An output file is the sequence of strings written
to it, in order. The single write of three joined lines at kea.py:100 is
modelled as those three lines, which gives the same file contents.

Three facts about `kea.py` that shape the model:

- Comment lines past the header are written where they stand.
- The only quarantine directory is `invalid/`, and the only test a file
  must pass is its size.
- Header line 2 is written unchanged.

## Model

| member | source | states |
|---|---|---|
| PyStr.Split | kea.py:155-156 | `str.split` on one character always yields at least one piece |
| PyStr.JoinSplit | kea.py:54-55 | joining the pieces of a split with the same separator gives the original string |
| PyStr.SplitJoin | kea.py:155-159 | splitting a join of separator-free pieces gives the pieces back |
| PyStr.SplitAtLast | kea.py:54-58 | the last piece of a split is the text after the last separator; the other pieces re-join into the text before it; there are two or more pieces exactly when a separator occurs |
| Arff.Slice | kea.py:100 | a Python slice `[lo:hi]` has `min(hi, len) - lo` elements, or none when `lo` is past the end |
| Folds.FoldSizes | kea.py:123-126 | the split has `nb_folds` entries |
| Folds.SplitNumber | kea.py:113-127 | fails exactly when `number < nb_folds`; otherwise returns `FoldSizes(number, nb_folds)`, filling an array with the quotient and bumping the first `number - quotient * nb_folds` entries |
| Folds.FoldSizesSpec | kea.py:113-127 | the sizes are `nb_folds` many and sum to `number`; the first `number mod nb_folds` are `quotient + 1` and the rest are `quotient`; so they never increase and differ pairwise by at most one |
| Folds.FoldSizesUnique | kea.py:116-117 | any non-increasing list of `nb_folds` sizes that sums to `number` and differs pairwise by at most one is exactly the list `split_number` returns |
| Validate.ValidateArff | kea.py:53-61 | a file is accepted exactly when its size is at least 8100 bytes; an accepted file keeps its path |
| Validate.RejectedDestination | kea.py:54-58 | a rejected file's destination is its directory, then `/invalid/`, then its base name |
| Validate.QuarantineKeepsName | kea.py:54-58 | the destination has the file's base name, and its directory is the file's directory followed by `/invalid` |
| Merge.FirstValid | kea.py:78-80 | the position found is valid and every earlier file is invalid; with none found, every file is invalid |
| Merge.CopyTemplate | kea.py:81-88 | the countdown copy writes the first `min(77, len)` lines of the file |
| Merge.CopyFirstValid | kea.py:76-90 | the first loop stops right after the first valid file or at the end of the listing; it writes that file's first 77 lines and moves and counts every file before it |
| Merge.AppendLaterValid | kea.py:92-103 | the second loop resumes where the first stopped and completes the merged output; every rejected file is counted and moved, in listing order |
| Merge.MergeArff | kea.py:63-111 | the output is `Merged(files)`; the invalid counter equals the number of moved files, and `moved` lists their quarantine destinations |
| Merge.MergedShape | kea.py:78-100 | with no valid file the output is empty; otherwise it is the first valid file's 74-line header, then lines 75-77 of every valid file in listing order |
| Merge.MergedLength | kea.py:82-100 | when every valid file has at least 77 lines and one exists, the output has 74 + 3 × (number of valid files) lines |
| Merge.QuarantineCount | kea.py:76-103 | the number of rejected files is the number of listed files minus the number of valid ones |
| Groundtruth.LoadGroundtruth | kea.py:143-146 | the row-by-row loop builds `GroundtruthMap(rows)` |
| Groundtruth.GroundtruthMapSpec | kea.py:145-146 | the table's keys are exactly the rows' identifiers; an identifier maps to the label of its last row |
| Groundtruth.AddGroundtruth | kea.py:129-175 | the streaming loop writes `Rewritten(lines, table)`; the tag set is the set of labels written |
| Groundtruth.HeaderLinesRewritten | kea.py:163-169 | within the first 74 lines, one string is written per line: line 71 becomes `@attribute output {i,s}` and the others are written unchanged |
| Groundtruth.HeaderKept | kea.py:150-169 | the output starts with the rewritten header: its first `min(74, len)` strings are the header lines, with line 71 replaced |
| Groundtruth.RewrittenLength | kea.py:153-162 | the output has one string per input line, minus one per data row whose identifier is not in the table |
| Groundtruth.RewrittenAllMatched | kea.py:150-169 | when the table knows every data row's identifier, output string `i` is line `i` relabelled (data rows), the label declaration (line 71) or line `i` itself (everything else) |
| Groundtruth.RelabelReplacesLastField | kea.py:155-159 | a relabelled row keeps every field but the last, and the last becomes the label plus an end-of-line; a one-field row gains an empty first field |
| Groundtruth.KeyOfLastField | kea.py:155-156 | the identifier is the row's last field up to its first `_`: a prefix of that field with no `_`, which is either the whole field or followed there by `_` |
| Groundtruth.TagsAreLabels | kea.py:157-160 | every collected tag is a label of the ground-truth table |
| Groundtruth.TagsSpec | kea.py:147-171 | a string is a tag exactly when it was written as the label of some data row whose identifier the table knows |

## Left out

- `utils.py` is not part of this model. That covers coloured console output, `sys.exit` in `print_error`, and the existence checks and absolutisation of `abs_path_file` / `abs_path_dir`. Paths are taken as already absolute.
- Directory listing is not modelled. The source shells out to `ls` through a temporary file and strips each name's newline. The listing is a given sequence of entries, each with its name, byte size and lines. An entry that is a subdirectory is not modelled: in the source it stops the whole run, since `validate_arff` calls `abs_path_file`, which calls `print_error` and so `sys.exit` (utils.py:94-97, 29-32). This happens on any run after a rejection, because the `invalid/` directory is created inside the listed directory (kea.py:55-57).
- File operations are not modelled: `os.makedirs`, `shutil.move`, opening, reading, writing and closing files. The move is returned as its destination path, and files as their line sequences.
- `csv.reader` parsing of the ground-truth file is not modelled. Rows arrive as (identifier, label) pairs. A row with fewer than two fields, which raises `IndexError` in the source, is outside the model.
- Progress output, warnings and timing are not modelled: `sys.stdout`, `print_success`, `print_warning`, `time`. The counter `cur_file_num` only feeds the progress display.
- The argument parser and the `__main__` block are not modelled.
- The `isinstance` guard of `split_number` (kea.py:119-120) is not modelled. It joins its two tests with `and` and calls an undefined `printError`. The parameters are typed integers instead.
- Folds.SplitNumber: requires `nb_folds >= 1`. Under Python 3, with 0 the source raises `ZeroDivisionError` once `number >= 0`, and with a negative value it returns an empty list or raises `IndexError`, depending on `number`. Under Python 2.7, the environment kea.py:16 names, `/` on integers floors, so a negative `nb_folds` with `number >= nb_folds` always returns an empty list. Under either version, with 0 and a negative `number`, the `NameError` at kea.py:121-122 comes first. The `number < nb_folds` path ends in a `NameError` (undefined `printError`) in the source and is modelled as an `Err` result.
- Folds.SplitNumber: computes the quotient with exact integer division. Under Python 3 the source's `int(number/nb_folds)` is a float division that can round wrongly above 2^53; under Python 2.7 it is exact floor division, which agrees with the model for the inputs it accepts.
- Validate.ValidateArff: its own contract states only the accept/reject decision. The destination of a rejected file is stated by `Validate.RejectedDestination` and `Validate.QuarantineKeepsName`.
- Groundtruth.AddGroundtruth: requires every line after the header to be non-empty. The source reads `line[0]` there, and Python's file iteration never yields an empty line.
- Groundtruth.AddGroundtruth: `tags` is modelled as a set. The order of `list(set(tags))` depends on Python's hashing, and the list is not used afterwards.
