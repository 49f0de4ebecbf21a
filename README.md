# Peptide residue numbers, modelled in Dafny

`getResidueNumbers` reads a FASTA file of proteins and a table of
(protein id, peptide) rows. For each row it:

- finds every occurrence of a one-letter pivot residue in the peptide;
- locates the peptide in its protein with `str.find`;
- numbers each pivot residue by its 1-based position in the protein;
- cuts a window of `n` residues on either side of it.

The result is four parallel lists of id, peptide, residue label (such as
`C3`) and span.

The model covers two parts of the program:

- the FASTA reader (`FastaFile`): which lines count as headers, the
  accession a header carries, the accession-to-sequence dictionary `read`
  builds, and `getSequence`;
- the body of `main`: the pivot-length check, the removal of `*` from the
  peptides, and the row loop with its inner per-pivot loop.

Modules, one per file:

- `wrappers.dfy` (`Wrappers`): `Option` and `Result`, which stand in for
  Python's exceptions.
- `pytext.dfy` (`PyText`): the parts of Python's `str` the program relies
  on, with the same edge cases:
  - `find` returns -1 when the substring is absent;
  - slices take negative and out-of-range bounds;
  - `strip` uses the full `isspace` set;
  - `split`;
  - `str` of a natural number.
- `fasta_file.dfy` (`Fasta`): `FastaFile` as a class whose
  `sequences` map `Read` updates in place. The dictionary it fills is
  specified by the fold `Fill`/`Index`, and the lemmas about it are stated
  in terms of that fold.
- `residue_numbers.dfy` (`ResidueNumbers`): the row loop as the method
  `ExpandRows`, with its inner loop in `AppendEntries`. Both are proved
  against the specification function `Expansion`. `Run` chains the steps
  of `main`: pivot check, FASTA read, `*` removal, expansion.
- `scenarios.dfy` (`Scenarios`): concrete FASTA lines and rows run through
  the model.

Inputs and outputs are parameters: the FASTA file's lines (as `readlines`
returns them, line endings included), the table's rows, the pivot argument
and `n`.

Points of the code's behaviour worth knowing:

- `read` stores the next line with `strip()`, which removes whitespace at
  both ends, not only the line ending.
- There is no header exclusion pattern. Decoy headers such as
  `>Reverse_sp|...` are rejected only because the tag must begin with a
  lowercase letter (`NoUppercaseTag`).
- A peptide that does not occur in its protein is not skipped. `find`
  gives -1, and that -1 is used as the offset unchecked
  (`UnlocatedPeptide`, `ExampleUnlocated`).
- For protein `MACDEFGHIK`, peptide `CDEF`, pivot `C` and `n = 2`, the
  peptide sits at offset 2, so the code labels the pivot `C3` with span
  `MACDE` (`ExampleLocated`).

## Model

| member | source | states |
|---|---|---|
| PyText.RunFrom | src/fastaFile.py:16 | the run a `+` repetition matches stays within the line, every character in it belongs to the class, and it is maximal: the next character is outside the class or the line ends |
| PyText.RunFromExact | src/fastaFile.py:16 | any run of class characters that ends at a non-class character or at the end of the line is the run `RunFrom` measures |
| PyText.FindFrom | src/getResidueNumbers.py:123 | the result is -1 or an occurrence at or after `start`, and there is no occurrence from `start` up to the result (none at all when it is -1) |
| PyText.Find | src/getResidueNumbers.py:123 | `str.find`: the result is at least -1; a non-negative result is an occurrence with none before it; the result is -1 exactly when the substring occurs nowhere |
| PyText.Slice | src/getResidueNumbers.py:132 | a slice is never longer than the string; for non-negative bounds it has the expected length; from a non-negative start, each of its characters is the string's character at `start + k` |
| PyText.SliceOutsideBounds | src/getResidueNumbers.py:132 | a negative bound (a negative `n` can make the stop negative) counts from the end of the protein; a start below `-len` acts as 0, a stop below `-len` gives the empty slice, and a stop past the end acts as the end |
| PyText.SliceWithin | src/getResidueNumbers.py:132 | with both bounds inside the string, the Python slice is the plain subsequence |
| PyText.StripLeftSpaces | src/fastaFile.py:20 | leading whitespace in front of a string does not change what stripping the left end gives |
| PyText.StripRightSpaces | src/fastaFile.py:20 | trailing whitespace after a string does not change what stripping the right end gives |
| PyText.StripLeftShape | src/fastaFile.py:20 | stripping the left end gives a suffix of the string that is empty or starts with a non-space character |
| PyText.StripRightShape | src/fastaFile.py:20 | stripping the right end gives a prefix of the string that is empty or ends with a non-space character |
| PyText.Strip | src/fastaFile.py:20 | `str.strip()`: both ends lose their whitespace; its meaning is stated by StripExact, StripIdempotent and the StripLeft/StripRight lemmas |
| PyText.StripExact | src/fastaFile.py:20 | `strip` removes exactly the whitespace around a core whose ends are not whitespace, including a line ending |
| PyText.StripIdempotent | src/fastaFile.py:20 | the result of `strip` has non-space ends, and stripping it again changes nothing |
| PyText.IndexOf | src/fastaFile.py:17 | the index of the first separator: a separator sits there and none comes before it |
| PyText.Split | src/fastaFile.py:17 | `split` gives one more field than there are separators, and no field contains a separator |
| PyText.SplitJoin | src/fastaFile.py:17 | splitting loses nothing: joining the fields with the separator gives the string back |
| PyText.SplitAt | src/fastaFile.py:17 | the first separator ends the first field, and the rest is the split of what follows it |
| PyText.SplitSecondField | src/fastaFile.py:17-19 | with separators at `f` and `g` and none elsewhere before `g`, there are at least three fields and the second is the text between `f` and `g` |
| PyText.DigitChar | src/getResidueNumbers.py:137 | a digit value becomes the decimal digit character for that value |
| PyText.NatToDecimal | src/getResidueNumbers.py:137 | `str` of a natural number is non-empty, all digits, and starts with `0` only for zero |
| PyText.DecimalRoundTrip | src/getResidueNumbers.py:137 | reading the decimal notation back gives the number |
| Fasta.Accession | src/fastaFile.py:16-19 | the accession of a header is non-empty and made of word characters |
| Fasta.IsHeader | src/fastaFile.py:16 | the `re.match` test of a header line; characterised in both directions by HeaderHasShape and ShapeIsHeader, and refined by NoUppercaseTag |
| Fasta.HeaderFields | src/fastaFile.py:17-19 | splitting a header on `\|` gives at least three fields, so the `assert` never fails, and field 1 is the accession the pattern matched |
| Fasta.HeaderHasShape | src/fastaFile.py:16 | every line taken as a header starts with `>`, a lowercase tag, `\|`, its accession and `\|`, as the pattern demands |
| Fasta.ShapeIsHeader | src/fastaFile.py:16 | every line that starts with `>`, a lowercase tag, `\|`, a word accession and `\|` is taken as a header, with that accession (the converse of HeaderHasShape) |
| Fasta.NoUppercaseTag | src/fastaFile.py:16 | a line whose tag starts with anything but a lowercase letter, such as `>Reverse_sp\|`, is never a header |
| Fasta.Fill | src/fastaFile.py:15-20 | the dictionary after the loop has seen the first `k` lines; its meaning is stated by FillStep, FillKeys, FillLastWins and FillKeepsOthers |
| Fasta.Index | src/fastaFile.py:15-20 | the dictionary `read` builds from an empty one; its meaning is stated by IndexKeys and IndexLookup, and `Read` is proved to compute it |
| Fasta.FillStep | src/fastaFile.py:15-20 | one more line stores the next line, stripped, under its accession when it is a header, and changes nothing otherwise |
| Fasta.FillKeys | src/fastaFile.py:15-20 | after reading, the keys are the keys from before plus the accession of every header read, and nothing else |
| Fasta.FillLastWins | src/fastaFile.py:15-20 | an accession maps to the stripped line after the last header that carries it |
| Fasta.FillKeepsOthers | src/fastaFile.py:15-20 | an accession that no header carries keeps the presence and value it had before reading |
| Fasta.IndexKeys | src/fastaFile.py:15-20 | after reading, an id is indexed exactly when some header carries it as its accession |
| Fasta.IndexLookup | src/fastaFile.py:15-20 | after reading, an accession that no later header repeats maps to the stripped line after its header |
| Fasta.FastaFile.constructor | src/fastaFile.py:6-8 | a new reader holds an empty dictionary |
| Fasta.FastaFile.Read | src/fastaFile.py:11-20 | reading succeeds exactly when no header sits on the last line. On success the dictionary is the fold of all lines over the old one. On failure the error names the last line, and the dictionary holds what was stored before the failing `lines[i + 1]` |
| Fasta.FastaFile.GetSequence | src/fastaFile.py:22-25 | an indexed id gives its stored sequence; any other id gives a not-found failure carrying the id |
| ResidueNumbers.PivotResidue | src/getResidueNumbers.py:55-58 | the pivot argument is accepted exactly when it is one character long, and the pivot is that character |
| ResidueNumbers.StripStars | src/getResidueNumbers.py:89 | a sanitised peptide contains no `*` |
| ResidueNumbers.StripStarsMultiset | src/getResidueNumbers.py:89 | removing `*` removes every `*` and leaves the count of every other character unchanged |
| ResidueNumbers.StripStarsAppend | src/getResidueNumbers.py:89 | removing `*` distributes over concatenation, so the characters that remain keep their order |
| ResidueNumbers.StripStarsNoStar | src/getResidueNumbers.py:89 | a peptide without `*` is left as it is |
| ResidueNumbers.Sanitize | src/getResidueNumbers.py:88-89 | the sanitised rows match the input rows one for one: each keeps its id, and its peptide is the input peptide with `*` removed, so it holds no `*` |
| ResidueNumbers.PivotIndicesFrom | src/getResidueNumbers.py:106 | the indices from `i` on are in range, hold the pivot, are strictly increasing, and include every pivot position from `i` on |
| ResidueNumbers.PivotIndices | src/getResidueNumbers.py:106 | the pivot list is exactly the positions of the pivot in the peptide, in strictly increasing order |
| ResidueNumbers.PivotCount | src/getResidueNumbers.py:106 | the pivot list is as long as the number of pivot occurrences |
| ResidueNumbers.ResidueLabel | src/getResidueNumbers.py:137 | the `'{}{}'.format(pivotResidue, residueNumber + 1)` label; its meaning is stated by ResidueLabelValue |
| ResidueNumbers.ResidueLabelValue | src/getResidueNumbers.py:137 | a label is the pivot letter followed by digits that read back as the residue number |
| ResidueNumbers.Window | src/getResidueNumbers.py:129-132 | the span around residue `r`, its start clamped at 0; its meaning is stated by WindowWidth, WindowClamped and WindowCentre |
| ResidueNumbers.WindowWidth | src/getResidueNumbers.py:128-132 | a span is at most `2n + 1` residues wide, even for the -1 offset |
| ResidueNumbers.WindowClamped | src/getResidueNumbers.py:128-132 | for a residue inside the protein, the span is narrower than `2n + 1` exactly when it is clamped at the start or the end of the protein |
| ResidueNumbers.WindowCentre | src/getResidueNumbers.py:128-132 | the numbered residue sits at offset `r - max(0, r - n)` of its span |
| ResidueNumbers.Entries | src/getResidueNumbers.py:127-138 | a row yields one entry per pivot index |
| ResidueNumbers.EntriesAt | src/getResidueNumbers.py:127-138 | the `k`-th entry is the one for the `k`-th pivot index, so entries come in pivot order |
| ResidueNumbers.Tabulate | src/getResidueNumbers.py:135-138 | the four output lists holding the fields of a sequence of entries, position by position; its meaning is stated by TabulateSnoc and AppendStep, and the two loops are proved to build it |
| ResidueNumbers.TabulateSnoc | src/getResidueNumbers.py:135-138 | appending an entry appends each of its four fields to its own list |
| ResidueNumbers.AppendStep | src/getResidueNumbers.py:127-138 | handling the `k`-th pivot index appends the row's id, its peptide, the label of residue `begin + j` and that residue's window to the four lists, so after `k + 1` steps they tabulate the first `k + 1` entries |
| ResidueNumbers.Expansion | src/getResidueNumbers.py:104-138 | the entries of all rows, row after row; its meaning is stated by ExpansionSnoc, ExpansionAppend and RowRecordsCount, and ExpandRows is proved to build it |
| ResidueNumbers.ExpansionSnoc | src/getResidueNumbers.py:104-138 | one more row adds its own entries after those of the rows before it |
| ResidueNumbers.ExpansionAppend | src/getResidueNumbers.py:104-138 | the rows are processed in input order: expanding two batches of rows gives the first batch's entries followed by the second's |
| ResidueNumbers.RowRecords | src/getResidueNumbers.py:106-138 | what one row contributes: nothing without a pivot or an indexed id, otherwise one entry per pivot index from `find`'s offset; its meaning is stated by RowRecordsCount, RowRecordAt, LocatedPivot and UnlocatedPeptide |
| ResidueNumbers.RowRecordsCount | src/getResidueNumbers.py:106-121 | a row yields nothing exactly when its peptide has no pivot or its id is not indexed; an indexed row yields one entry per pivot occurrence |
| ResidueNumbers.Entry | src/getResidueNumbers.py:128-137 | the four fields appended for the pivot at protein index `r`; its meaning is stated by EntryFields and EntryUnlocated |
| ResidueNumbers.EntryFields | src/getResidueNumbers.py:128-138 | an entry carries the row's id and peptide and the label of residue number `r + 1`, and its span is at most `2n + 1` wide; for a residue inside the protein, the span holds that residue at offset `r - max(0, r - n)` |
| ResidueNumbers.RowRecordAt | src/getResidueNumbers.py:123-138 | entry `k` of an indexed row with a pivot is the entry of residue `r`, the sum of `find`'s offset and the `k`-th pivot index, and `r` is at least -1 |
| ResidueNumbers.LocatedPivot | src/getResidueNumbers.py:123-128 | when the peptide is found, the residue an entry numbers lies inside the protein and is the pivot there |
| ResidueNumbers.EntryUnlocated | src/getResidueNumbers.py:127-137 | numbered from the offset -1, pivot index `j` gets the label of number `j` and the span `protSeq[max(0, j-1-n) : j+n]`, the window around protein index `j - 1` |
| ResidueNumbers.UnlocatedPeptide | src/getResidueNumbers.py:123-137 | when the peptide is not in the protein, entries are still produced: each is labelled with the pivot's 0-based index `j` in the peptide, and its span is `protSeq[max(0, j-1-n) : j+n]`, the window around protein index `j - 1`, as if the peptide started one residue before the protein |
| ResidueNumbers.PivotListAsWrittenFails | src/getResidueNumbers.py:106 | as written, line 106 raises NameError on the first row, since `j` is unbound in `main`; the corrected comprehension gives `[0]` for peptide `CDEF` and pivot `C` |
| ResidueNumbers.AppendEntries | src/getResidueNumbers.py:127-138 | the inner loop extends the four lists by exactly the row's entries, one per pivot index in order |
| ResidueNumbers.ExpandRows | src/getResidueNumbers.py:104-138 | the row loop leaves the four lists equal to the tabulated expansion of all rows against the reader's dictionary |
| ResidueNumbers.Run | src/getResidueNumbers.py:55-138 | the whole pipeline fails on a pivot argument that is not one character long, and fails with the last line when the FASTA read fails. Otherwise it yields the tabulated expansion of the `*`-free rows against the index of the FASTA lines |
| Scenarios.ExampleHeader | src/fastaFile.py:16-19 | `>sp\|P1\|example protein` is a header with accession `P1` |
| Scenarios.ExampleSequenceLine | src/fastaFile.py:20 | a sequence line is not a header, and `strip` removes just its line ending |
| Scenarios.ExampleIndex | src/fastaFile.py:15-20 | a two-line FASTA file indexes `P1` to its protein |
| Scenarios.FindInProtein | src/getResidueNumbers.py:123 | `find` gives the first occurrence, or -1 when there is none |
| Scenarios.LocatedAtTwo | src/getResidueNumbers.py:123 | `CDEF` occurs in `MACDEFGHIK` at offset 2 and not before |
| ResidueNumbers.PivotsOfCDEF | src/getResidueNumbers.py:106 | the pivot list of `CDEF` for pivot `C` is `[0]` |
| Scenarios.CDEFAtTwo | src/getResidueNumbers.py:123 | `find` gives 2 for `CDEF` in `MACDEFGHIK` |
| Scenarios.ExampleLocated | src/getResidueNumbers.py:89-138 | peptide `C*DEF`, pivot `C`, `n = 2` gives the single entry `(P1, CDEF, C3, MACDE)` |
| Scenarios.ExampleNoPivot | src/getResidueNumbers.py:106-114 | a peptide without the pivot yields no entries |
| Scenarios.PivotsOfXCZ | src/getResidueNumbers.py:106 | the pivot list of `XCZ` for pivot `C` is `[1]` |
| Scenarios.XCZNotInProtein | src/getResidueNumbers.py:123 | `find` gives -1 for `XCZ` in `MACDEFGHIK` |
| Scenarios.ExampleUnlocated | src/getResidueNumbers.py:123-137 | peptide `XCZ`, which is not in the protein, still yields `(P1, XCZ, C1, MAC)` |

## Left out

- Argument parsing, file opening, `readlines`, `pandas.read_csv`, and the
  required-column check are left out. Their results (lines, rows, pivot
  argument, `n`) are parameters of `Run`. The program's messages, the `nl`
  flag and the exit codes are left out too.
- The discarded result of `inputTable.dropna()` is left out: it has no
  effect.
- Saving the original sequence column, the `pandas` merge, the column
  reordering and `to_csv` are left out. The model stops at the four
  output lists.
- Only two of the `exit()` calls after an error message are modelled,
  as `Failure` results of `Run`: the one for a pivot argument that is not
  one character long (line 58) and the one for a FASTA file that cannot
  be read (line 67). The exits after `read_csv` (line 79), the
  missing-column check (line 85) and `to_csv` (line 161) belong to the
  I/O that is left out.
- The RuntimeError message of `getSequence` is reduced to `NotFound(id)`.
  Only the fact that the row is skipped is modelled.
- The unused `end` (line 124) is left out.
- Non-string cells (such as NaN) in the id or peptide columns are left
  out: rows hold strings.
- `\w` is modelled as ASCII letters, digits and `_`. Under Python 3, `re`
  also accepts non-ASCII letters and digits in `str` patterns.
- `strip()` removes the characters for which Python 3's `str.isspace`
  holds. Under Python 2, byte strings lose only ASCII whitespace.
- ResidueNumbers.ExpandRows: implements line 106 as evidently intended,
  with `seqList[i]`; see Findings.
- The four output lists are modelled as sequence values that
  `ExpandRows` reassigns, not as list objects mutated in place; nothing
  else refers to them, so aliasing does not arise. The reader is a class
  whose `Read` updates its dictionary in place, and `ExpandRows` only
  reads it.

## Findings

| source | as written | input that shows it | evidently intended | confidence | as-written member | corrected member |
|---|---|---|---|---|---|---|
| src/getResidueNumbers.py:106 | the comprehension enumerates `seqList[j]`. That `j` is evaluated in `main`'s scope before the comprehension binds its own `j`: Python 3 raises NameError, Python 2 UnboundLocalError | any table with at least one row, e.g. the row `(P1, CDEF)` with pivot `C` | `enumerate(seqList[i])`, the pivot positions of the current row's peptide (`[0]` for `CDEF`) | not executed; the scoping rule is certain | ResidueNumbers.PivotListAsWrittenFails | ResidueNumbers.PivotIndices |
