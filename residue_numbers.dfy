/** The peptide-to-residue expansion of src/getResidueNumbers.py: the pivot
    check, the removal of `*` from peptides, and the loop that turns each
    (id, peptide) row into one (id, peptide, residue, span) entry per pivot
    residue in the peptide, numbered by its position in the protein. */
module ResidueNumbers {
  import opened Wrappers
  import opened PyText
  import opened Fasta

  /** One row of the input table: the id column and the peptide column. */
  datatype Row = Row(id: string, peptide: string)

  /** One entry of the four parallel output lists. */
  datatype SpanRecord = SpanRecord(id: string, peptide: string, residue: string, span: string)

  /** The four parallel output lists `newIdList`, `newSeqList`,
      `newResidueList` and `newSpanList`. */
  datatype Columns = Columns(ids: seq<string>, peptides: seq<string>, residues: seq<string>, spans: seq<string>)

  /** Why `main` stops before producing output. */
  datatype RunError = InvalidPivot(arg: string) | FastaUnreadable(cause: ReadError)

  // ---------------------------------------------------------------------------
  // Arguments and sanitising

  /** The pivot argument is accepted only when it is exactly one character. */
  function PivotResidue(arg: string): (r: Option<char>)
    ensures r.Some? <==> |arg| == 1
    ensures r.Some? ==> arg == [r.value]
  {
    if |arg| == 1 then Some(arg[0]) else None
  }

  /** `re.sub('\*', '', s)`: the peptide with every `*` removed. */
  function StripStars(s: string): (r: string)
    ensures '*' !in r
  {
    if s == [] then [] else (if s[0] == '*' then [] else [s[0]]) + StripStars(s[1..])
  }

  /** Removing `*` removes every `*` and nothing else. */
  lemma {:induction false} StripStarsMultiset(s: string)
    ensures multiset(StripStars(s)) == multiset(s)['*' := 0]
  {
    if s != [] {
      StripStarsMultiset(s[1..]);
      assert s == [s[0]] + s[1..];
    }
  }

  /** Removing `*` works piece by piece, so the characters that remain keep
      their order. */
  lemma {:induction false} StripStarsAppend(a: string, b: string)
    ensures StripStars(a + b) == StripStars(a) + StripStars(b)
  {
    if a == [] {
      assert a + b == b;
    } else {
      var head := if a[0] == '*' then [] else [a[0]];
      assert (a + b)[0] == a[0];
      assert (a + b)[1..] == a[1..] + b;
      assert StripStars(a + b) == head + StripStars(a[1..] + b);
      StripStarsAppend(a[1..], b);
    }
  }

  /** A peptide without `*` is left as it is. */
  lemma {:induction false} StripStarsNoStar(s: string)
    requires '*' !in s
    ensures StripStars(s) == s
  {
    if s != [] {
      StripStarsNoStar(s[1..]);
    }
  }

  /** The rows with their peptides sanitised, as `seqList` holds them. */
  function Sanitize(rows: seq<Row>): (r: seq<Row>)
    ensures |r| == |rows|
    ensures forall i :: 0 <= i < |rows| ==> r[i].id == rows[i].id && '*' !in r[i].peptide
    ensures forall i :: 0 <= i < |rows| ==> r[i] == Row(rows[i].id, StripStars(rows[i].peptide))
  {
    seq(|rows|, i requires 0 <= i < |rows| => Row(rows[i].id, StripStars(rows[i].peptide)))
  }

  // ---------------------------------------------------------------------------
  // Pivot positions, labels and spans

  /** The indices `j >= i` with `p[j] == c`, in increasing order. */
  function PivotIndicesFrom(p: string, c: char, i: nat): (r: seq<nat>)
    requires i <= |p|
    ensures forall k :: 0 <= k < |r| ==> i <= r[k] < |p| && p[r[k]] == c
    ensures forall k, l :: 0 <= k < l < |r| ==> r[k] < r[l]
    ensures forall j :: i <= j < |p| && p[j] == c ==> j in r
    decreases |p| - i
  {
    if i == |p| then []
    else if p[i] == c then [i] + PivotIndicesFrom(p, c, i + 1)
    else PivotIndicesFrom(p, c, i + 1)
  }

  /** `[j for j, x in enumerate(peptide) if x == pivot]`: exactly the indices
      of the pivot in the peptide, in strictly increasing order. */
  function PivotIndices(p: string, c: char): (r: seq<nat>)
    ensures forall k :: 0 <= k < |r| ==> r[k] < |p| && p[r[k]] == c
    ensures forall k, l :: 0 <= k < l < |r| ==> r[k] < r[l]
    ensures forall j :: 0 <= j < |p| && p[j] == c ==> j in r
  {
    PivotIndicesFrom(p, c, 0)
  }

  /** `'{}{}'.format(pivot, number)`: the pivot letter, then the number. */
  function ResidueLabel(pivot: char, number: nat): string {
    [pivot] + NatToDecimal(number)
  }

  /** A label starts with the pivot and the rest reads back as the number. */
  lemma ResidueLabelValue(pivot: char, number: nat)
    ensures ResidueLabel(pivot, number)[0] == pivot
    ensures forall k :: 1 <= k < |ResidueLabel(pivot, number)| ==> IsDigit(ResidueLabel(pivot, number)[k])
    ensures DecimalValue(ResidueLabel(pivot, number)[1..]) == number
  {
    assert ResidueLabel(pivot, number)[1..] == NatToDecimal(number);
    DecimalRoundTrip(number);
  }

  /** `protSeq[fragBegin:(r + n + 1)]` with `fragBegin = max(0, r - n)`:
      the window of `n` residues on either side of residue `r`. */
  function Window(prot: string, r: int, n: int): string {
    var fragBegin := if r - n < 0 then 0 else r - n;
    Slice(prot, fragBegin, r + n + 1)
  }

  /** A window is never wider than `2n + 1`, whatever `r` is. */
  lemma WindowWidth(prot: string, r: int, n: nat)
    requires r >= -1
    ensures |Window(prot, r, n)| <= 2 * n + 1
  {
  }

  /** A window is narrower than `2n + 1` exactly when it is clamped at the
      start or the end of the protein. */
  lemma WindowClamped(prot: string, r: int, n: nat)
    requires 0 <= r < |prot|
    ensures |Window(prot, r, n)| < 2 * n + 1 <==> (r - n < 0 || r + n + 1 > |prot|)
  {
  }

  /** Residue `r` of the protein sits at offset `r - max(0, r - n)` of its
      window. */
  lemma WindowCentre(prot: string, r: int, n: nat)
    requires 0 <= r < |prot|
    ensures var lo := if r - n < 0 then 0 else r - n;
      r - lo < |Window(prot, r, n)| && Window(prot, r, n)[r - lo] == prot[r]
  {
  }

  // ---------------------------------------------------------------------------
  // The expansion

  /** The entry for the pivot at protein index `r` (0-based). */
  function Entry(row: Row, prot: string, r: int, pivot: char, n: int): SpanRecord
    requires r >= -1
  {
    SpanRecord(row.id, row.peptide, ResidueLabel(pivot, r + 1), Window(prot, r, n))
  }

  /** An entry carries the row's id and peptide, is labelled with the
      1-based residue number, and its span is at most `2n + 1` wide; for a
      residue inside the protein, the span holds that residue at offset
      `r - max(0, r - n)`. */
  lemma EntryFields(row: Row, prot: string, r: int, pivot: char, n: nat)
    requires r >= -1
    ensures Entry(row, prot, r, pivot, n).id == row.id
    ensures Entry(row, prot, r, pivot, n).peptide == row.peptide
    ensures Entry(row, prot, r, pivot, n).residue == ResidueLabel(pivot, r + 1)
    ensures |Entry(row, prot, r, pivot, n).span| <= 2 * n + 1
    ensures 0 <= r < |prot| ==> var lo := if r - n < 0 then 0 else r - n;
      r - lo < |Entry(row, prot, r, pivot, n).span| && Entry(row, prot, r, pivot, n).span[r - lo] == prot[r]
  {
    WindowWidth(prot, r, n);
    if 0 <= r < |prot| {
      WindowCentre(prot, r, n);
    }
  }

  /** What one row contributes: nothing when its peptide holds no pivot or
      its id is not indexed; otherwise one entry per pivot index of the
      peptide, in order, numbered from the peptide's leftmost offset in the
      protein. That offset is -1 when the peptide does not occur, and is
      used unchecked. */
  function RowRecords(row: Row, index: map<string, string>, pivot: char, n: int): seq<SpanRecord> {
    var pivots := PivotIndices(row.peptide, pivot);
    if |pivots| == 0 || row.id !in index then []
    else Entries(row, index[row.id], Find(index[row.id], row.peptide), pivots, pivot, n)
  }

  /** One entry per pivot index, in the order of the indices. */
  function Entries(row: Row, prot: string, begin: int, pivots: seq<nat>, pivot: char, n: int): (es: seq<SpanRecord>)
    requires begin >= -1
    ensures |es| == |pivots|
  {
    if pivots == [] then []
    else [Entry(row, prot, begin + pivots[0], pivot, n)] + Entries(row, prot, begin, pivots[1..], pivot, n)
  }

  lemma {:induction false} EntriesAt(row: Row, prot: string, begin: int, pivots: seq<nat>, pivot: char, n: int, k: nat)
    requires begin >= -1 && k < |pivots|
    ensures Entries(row, prot, begin, pivots, pivot, n)[k] == Entry(row, prot, begin + pivots[k], pivot, n)
  {
    if k > 0 {
      EntriesAt(row, prot, begin, pivots[1..], pivot, n, k - 1);
    }
  }

  /** The entries of all rows, row after row. */
  function Expansion(rows: seq<Row>, index: map<string, string>, pivot: char, n: int): seq<SpanRecord> {
    if rows == [] then []
    else Expansion(rows[..|rows| - 1], index, pivot, n) + RowRecords(rows[|rows| - 1], index, pivot, n)
  }

  /** The entries spread over the four parallel lists: each list holds one
      field of every entry, in the order of the entries. */
  function Tabulate(rs: seq<SpanRecord>): Columns {
    Columns(seq(|rs|, k requires 0 <= k < |rs| => rs[k].id),
            seq(|rs|, k requires 0 <= k < |rs| => rs[k].peptide),
            seq(|rs|, k requires 0 <= k < |rs| => rs[k].residue),
            seq(|rs|, k requires 0 <= k < |rs| => rs[k].span))
  }

  /** Appending an entry appends its four fields to the four lists. */
  lemma TabulateSnoc(rs: seq<SpanRecord>, x: SpanRecord)
    ensures var c := Tabulate(rs);
      Tabulate(rs + [x]) == Columns(c.ids + [x.id], c.peptides + [x.peptide], c.residues + [x.residue], c.spans + [x.span])
  {
    var c, d := Tabulate(rs), Tabulate(rs + [x]);
    assert d.ids == c.ids + [x.id];
    assert d.peptides == c.peptides + [x.peptide];
    assert d.residues == c.residues + [x.residue];
    assert d.spans == c.spans + [x.span];
  }

  /** Taking one more entry into the tabulated prefix appends its fields. */
  lemma TabulatePrefix(done: seq<SpanRecord>, es: seq<SpanRecord>, k: nat)
    requires k < |es|
    ensures var c := Tabulate(done + es[..k]);
      Tabulate(done + es[..k + 1]) == Columns(c.ids + [es[k].id], c.peptides + [es[k].peptide], c.residues + [es[k].residue], c.spans + [es[k].span])
  {
    assert done + es[..k + 1] == (done + es[..k]) + [es[k]];
    TabulateSnoc(done + es[..k], es[k]);
  }

  /** The rows' entries come in input order: the expansion of two batches
      is the expansion of the first followed by that of the second. */
  lemma {:induction false} ExpansionAppend(a: seq<Row>, b: seq<Row>, index: map<string, string>, pivot: char, n: int)
    ensures Expansion(a + b, index, pivot, n) == Expansion(a, index, pivot, n) + Expansion(b, index, pivot, n)
    decreases |b|
  {
    if b == [] {
      assert a + b == a;
    } else {
      var b', x := b[..|b| - 1], b[|b| - 1];
      assert b == b' + [x];
      assert a + b == (a + b') + [x];
      var ea, eb, ex := Expansion(a, index, pivot, n), Expansion(b', index, pivot, n), RowRecords(x, index, pivot, n);
      calc {
        Expansion(a + b, index, pivot, n);
        { ExpansionSnoc(a + b', x, index, pivot, n); }
        Expansion(a + b', index, pivot, n) + ex;
        { ExpansionAppend(a, b', index, pivot, n); }
        (ea + eb) + ex;
        ea + (eb + ex);
        { ExpansionSnoc(b', x, index, pivot, n); }
        ea + Expansion(b, index, pivot, n);
      }
    }
  }

  /** One more row appends its own entries. */
  lemma ExpansionSnoc(rows: seq<Row>, row: Row, index: map<string, string>, pivot: char, n: int)
    ensures Expansion(rows + [row], index, pivot, n) == Expansion(rows, index, pivot, n) + RowRecords(row, index, pivot, n)
  {
    assert (rows + [row])[..|rows|] == rows;
  }

  /** A single row expands to its own entries. */
  lemma SingleRowExpansion(row: Row, index: map<string, string>, pivot: char, n: int)
    ensures Expansion([row], index, pivot, n) == RowRecords(row, index, pivot, n)
  {
    assert [row][..0] == [];
  }

  /** A row whose peptide holds the pivot once, at index `j`, yields one
      entry, numbered from `find`'s offset plus `j`. */
  lemma SinglePivotRecords(row: Row, index: map<string, string>, pivot: char, n: int, j: nat)
    requires row.id in index && PivotIndices(row.peptide, pivot) == [j]
    ensures RowRecords(row, index, pivot, n) ==
      [Entry(row, index[row.id], Find(index[row.id], row.peptide) + j, pivot, n)]
  {
    assert [j][1..] == [];
  }

  /** A row yields nothing exactly when its peptide holds no pivot or its id
      is not indexed; otherwise it yields one entry per pivot occurrence. */
  lemma RowRecordsCount(row: Row, index: map<string, string>, pivot: char, n: int)
    ensures |RowRecords(row, index, pivot, n)| == 0 <==> (pivot !in row.peptide || row.id !in index)
    ensures row.id in index ==>
      |RowRecords(row, index, pivot, n)| == multiset(row.peptide)[pivot]
  {
    var pivots := PivotIndices(row.peptide, pivot);
    if pivot in row.peptide {
      var j :| 0 <= j < |row.peptide| && row.peptide[j] == pivot;
      assert j in pivots;
    }
    PivotCount(row.peptide, pivot, 0);
    assert row.peptide[0..] == row.peptide;
  }

  /** Dropping the first character of a suffix drops its count, if it is `c`. */
  lemma SuffixCount(p: string, c: char, i: nat)
    requires i < |p|
    ensures multiset(p[i..])[c] == multiset(p[i + 1..])[c] + (if p[i] == c then 1 else 0)
  {
    assert p[i..] == [p[i]] + p[i + 1..];
  }

  /** The number of pivot indices is the number of pivot occurrences. */
  lemma {:induction false} PivotCount(p: string, c: char, i: nat)
    requires i <= |p|
    ensures |PivotIndicesFrom(p, c, i)| == multiset(p[i..])[c]
    decreases |p| - i
  {
    if i < |p| {
      PivotCount(p, c, i + 1);
      SuffixCount(p, c, i);
      if p[i] == c {
        assert PivotIndicesFrom(p, c, i) == [i] + PivotIndicesFrom(p, c, i + 1);
      } else {
        assert PivotIndicesFrom(p, c, i) == PivotIndicesFrom(p, c, i + 1);
      }
    }
  }

  /** The `k`-th entry of a row that is processed is the entry of residue
      `r = begin + j`, for `find`'s offset `begin` and the `k`-th pivot
      index `j`; `r` is at least -1. */
  lemma RowRecordAt(row: Row, index: map<string, string>, pivot: char, n: int, k: nat)
    requires row.id in index
    requires k < |PivotIndices(row.peptide, pivot)|
    ensures var r := Find(index[row.id], row.peptide) + PivotIndices(row.peptide, pivot)[k];
      && k < |RowRecords(row, index, pivot, n)|
      && r >= -1
      && RowRecords(row, index, pivot, n)[k] == Entry(row, index[row.id], r, pivot, n)
  {
    var prot := index[row.id];
    RowRecordsOfIndexed(row, index, pivot, n);
    EntriesAt(row, prot, Find(prot, row.peptide), PivotIndices(row.peptide, pivot), pivot, n, k);
  }

  /** When the peptide occurs in the protein, the residue that the `k`-th
      entry numbers is a pivot of the protein, at that 0-based index. */
  lemma LocatedPivot(prot: string, peptide: string, pivot: char, k: nat)
    requires Find(prot, peptide) >= 0
    requires k < |PivotIndices(peptide, pivot)|
    ensures var r := Find(prot, peptide) + PivotIndices(peptide, pivot)[k];
      0 <= r < |prot| && prot[r] == pivot
  {
    var j := PivotIndices(peptide, pivot)[k];
    assert peptide[j] == pivot;
    OccurrenceAt(prot, peptide, Find(prot, peptide), j);
  }

  /** A row with a pivot and an indexed id yields the entries for its pivot
      indices, numbered from `find`'s offset. */
  lemma RowRecordsOfIndexed(row: Row, index: map<string, string>, pivot: char, n: int)
    requires row.id in index && |PivotIndices(row.peptide, pivot)| > 0
    ensures RowRecords(row, index, pivot, n) ==
      Entries(row, index[row.id], Find(index[row.id], row.peptide), PivotIndices(row.peptide, pivot), pivot, n)
  {
  }

  /** Inside an occurrence, the protein holds the peptide's characters. */
  lemma OccurrenceAt(prot: string, peptide: string, begin: int, j: nat)
    requires OccursAt(prot, peptide, begin) && j < |peptide|
    ensures 0 <= begin + j < |prot| && prot[begin + j] == peptide[j]
  {
    assert prot[begin..begin + |peptide|][j] == peptide[j];
  }

  /** When the peptide does not occur in the protein, `find` gives -1 and the
      entries are still produced: the `k`-th is labelled with the pivot's
      index `j` in the peptide instead of a protein position, and its span is
      `prot[max(0, j - 1 - n) : j + n]`, the window around protein index
      `j - 1`, as if the peptide started one residue before the protein. */
  lemma UnlocatedPeptide(row: Row, index: map<string, string>, pivot: char, n: nat, k: nat)
    requires row.id in index
    requires forall i :: !OccursAt(index[row.id], row.peptide, i)
    requires k < |PivotIndices(row.peptide, pivot)|
    ensures var j := PivotIndices(row.peptide, pivot)[k];
      var e := RowRecords(row, index, pivot, n)[k];
      && k < |RowRecords(row, index, pivot, n)|
      && e.residue == ResidueLabel(pivot, j)
      && e.span == Slice(index[row.id], if j - 1 - n < 0 then 0 else j - 1 - n, j + n)
  {
    assert Find(index[row.id], row.peptide) == -1;
    RowRecordAt(row, index, pivot, n, k);
    EntryUnlocated(row, index[row.id], Find(index[row.id], row.peptide), PivotIndices(row.peptide, pivot)[k], pivot, n);
  }

  /** The entry numbered from offset -1 for pivot index `j`: label `j`, and
      the window around protein index `j - 1`. */
  lemma EntryUnlocated(row: Row, prot: string, begin: int, j: nat, pivot: char, n: nat)
    requires begin == -1
    ensures Entry(row, prot, begin + j, pivot, n).residue == ResidueLabel(pivot, j)
    ensures Entry(row, prot, begin + j, pivot, n).span == Slice(prot, if j - 1 - n < 0 then 0 else j - 1 - n, j + n)
  {
  }

  // ---------------------------------------------------------------------------
  // The pivot list as line 106 is written

  /** Errors Python raises while evaluating that line. */
  datatype PyError = NameError(name: string) | IndexError

  /** Line 106 as written: the comprehension enumerates `seqList[j]`, and that
      `j` is looked up in `main`'s scope, not in the comprehension. `binding`
      is what the name `j` is bound to there; `None` when it is unbound. */
  function PivotListAsWritten(seqList: seq<string>, binding: Option<int>, pivot: char): Result<seq<nat>, PyError> {
    match binding
    case None => Failure(NameError("j"))
    case Some(j) =>
      var k := if j < 0 then |seqList| + j else j;
      if 0 <= k < |seqList| then Success(PivotIndices(seqList[k], pivot)) else Failure(IndexError)
  }

  /** `main` never binds `j`, so as written the first row already raises
      NameError; the intended `seqList[i]` gives the row's pivot indices. */
  lemma PivotListAsWrittenFails(seqList: seq<string>, pivot: char)
    ensures PivotListAsWritten(seqList, None, pivot) == Failure(NameError("j"))
    ensures PivotListAsWritten(["CDEF"], None, 'C').Failure?
    ensures PivotIndices(["CDEF"][0], 'C') == [0]
  {
    PivotsOfCDEF();
  }

  /** `CDEF` holds `C` once, at index 0. */
  lemma PivotsOfCDEF()
    ensures PivotIndices("CDEF", 'C') == [0]
  {
    var r := PivotIndices("CDEF", 'C');
    assert "CDEF"[0] == 'C';
    assert 0 in r;
    forall k | 0 <= k < |r| ensures r[k] == 0 {
      assert "CDEF"[r[k]] == 'C';
    }
  }

  // ---------------------------------------------------------------------------
  // The loop of `main`

  /** The inner loop of `main` for one located row: for every pivot index,
      number the residue from `begin`, clamp the window's start at 0, slice
      the window and append the four fields to the four lists. */
  method AppendEntries(row: Row, protSeq: string, begin: int, pivotList: seq<nat>, pivot: char, n: int,
                       ghost done: seq<SpanRecord>,
                       ids: seq<string>, peptides: seq<string>, residues: seq<string>, spans: seq<string>)
    returns (ids': seq<string>, peptides': seq<string>, residues': seq<string>, spans': seq<string>)
    requires begin >= -1
    requires Columns(ids, peptides, residues, spans) == Tabulate(done)
    ensures Columns(ids', peptides', residues', spans') == Tabulate(done + Entries(row, protSeq, begin, pivotList, pivot, n))
  {
    ids', peptides', residues', spans' := ids, peptides, residues, spans;
    ghost var entries := Entries(row, protSeq, begin, pivotList, pivot, n);
    assert done + entries[..0] == done;
    for k := 0 to |pivotList|
      invariant Columns(ids', peptides', residues', spans') == Tabulate(done + entries[..k])
    {
      var residueNumber := begin + pivotList[k];
      var fragBegin := residueNumber - n;
      if fragBegin < 0 {
        fragBegin := 0;
      }
      var span := Slice(protSeq, fragBegin, residueNumber + n + 1);
      assert span == Window(protSeq, residueNumber, n);
      AppendStep(row, protSeq, begin, pivotList, pivot, n, done, k);
      ColumnsSnoc(ids', peptides', residues', spans', Tabulate(done + entries[..k]),
                  row.id, row.peptide, ResidueLabel(pivot, residueNumber + 1), span);
      ids' := ids' + [row.id];
      peptides' := peptides' + [row.peptide];
      residues' := residues' + [ResidueLabel(pivot, residueNumber + 1)];
      spans' := spans' + [span];
    }
    assert entries[..|pivotList|] == entries;
  }

  /** Appending to four lists that make up `c` makes up `c` with the four
      values appended. */
  lemma ColumnsSnoc(ids: seq<string>, peptides: seq<string>, residues: seq<string>, spans: seq<string>, c: Columns,
                    id: string, peptide: string, residue: string, span: string)
    requires Columns(ids, peptides, residues, spans) == c
    ensures Columns(ids + [id], peptides + [peptide], residues + [residue], spans + [span]) ==
      Columns(c.ids + [id], c.peptides + [peptide], c.residues + [residue], c.spans + [span])
  {
  }

  /** One turn of the inner loop appends the fields of the `k`-th entry. */
  lemma AppendStep(row: Row, protSeq: string, begin: int, pivotList: seq<nat>, pivot: char, n: int,
                   done: seq<SpanRecord>, k: nat)
    requires begin >= -1 && k < |pivotList|
    ensures var es := Entries(row, protSeq, begin, pivotList, pivot, n);
      var c := Tabulate(done + es[..k]);
      var r := begin + pivotList[k];
      Tabulate(done + es[..k + 1]) ==
        Columns(c.ids + [row.id], c.peptides + [row.peptide], c.residues + [ResidueLabel(pivot, r + 1)], c.spans + [Window(protSeq, r, n)])
  {
    EntriesAt(row, protSeq, begin, pivotList, pivot, n, k);
    TabulatePrefix(done, Entries(row, protSeq, begin, pivotList, pivot, n), k);
  }

  /** The loop over the rows: skip a row whose peptide has no pivot, skip it
      when its id is not found, otherwise locate the peptide with `find` and
      append one entry per pivot index to the four lists. */
  method ExpandRows(rows: seq<Row>, sequences: FastaFile, pivot: char, n: int)
    returns (newIds: seq<string>, newPeptides: seq<string>, newResidues: seq<string>, newSpans: seq<string>)
    ensures Columns(newIds, newPeptides, newResidues, newSpans) == Tabulate(Expansion(rows, sequences.sequences, pivot, n))
  {
    newIds, newPeptides, newResidues, newSpans := [], [], [], [];
    ghost var done: seq<SpanRecord> := [];
    for i := 0 to |rows|
      invariant done == Expansion(rows[..i], sequences.sequences, pivot, n)
      invariant Columns(newIds, newPeptides, newResidues, newSpans) == Tabulate(done)
    {
      assert rows[..i + 1][..i] == rows[..i];
      ghost var rowRecords := RowRecords(rows[i], sequences.sequences, pivot, n);
      assert Expansion(rows[..i + 1], sequences.sequences, pivot, n) == done + rowRecords;
      var pivotList := PivotIndices(rows[i].peptide, pivot);
      if |pivotList| == 0 {
        assert done + rowRecords == done;
        continue;
      }
      var found := sequences.GetSequence(rows[i].id);
      if found.Failure? {
        assert done + rowRecords == done;
        continue;
      }
      var protSeq := found.value;
      var begin := Find(protSeq, rows[i].peptide);
      assert rowRecords == Entries(rows[i], protSeq, begin, pivotList, pivot, n);
      newIds, newPeptides, newResidues, newSpans :=
        AppendEntries(rows[i], protSeq, begin, pivotList, pivot, n, done, newIds, newPeptides, newResidues, newSpans);
      done := done + rowRecords;
    }
    assert rows[..|rows|] == rows;
  }

  /** `main` without its I/O: check the pivot, read the FASTA lines, strip
      `*` from the peptides and expand the rows. */
  method Run(pivotArg: string, n: int, fastaLines: seq<string>, rows: seq<Row>) returns (r: Result<Columns, RunError>)
    ensures |pivotArg| != 1 ==> r == Failure(InvalidPivot(pivotArg))
    ensures |pivotArg| == 1 && !HasSequenceLines(fastaLines) ==>
      r == Failure(FastaUnreadable(MissingSequenceLine(|fastaLines| - 1)))
    ensures |pivotArg| == 1 && HasSequenceLines(fastaLines) ==>
      r == Success(Tabulate(Expansion(Sanitize(rows), Index(fastaLines), pivotArg[0], n)))
  {
    var pivot := PivotResidue(pivotArg);
    if pivot.None? {
      return Failure(InvalidPivot(pivotArg));
    }
    var sequences := new FastaFile();
    var err := sequences.Read(fastaLines);
    if err.Some? {
      return Failure(FastaUnreadable(err.value));
    }
    var seqList := Sanitize(rows);
    var ids, peptides, residues, spans := ExpandRows(seqList, sequences, pivot.value, n);
    return Success(Columns(ids, peptides, residues, spans));
  }
}
