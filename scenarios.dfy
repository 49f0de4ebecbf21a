/** Worked scenarios: concrete FASTA lines and rows run through the model. */
module Scenarios {
  import opened PyText
  import opened Fasta
  import opened ResidueNumbers

  const Protein: string := "MACDEFGHIK"
  const Header: string := ">sp|P1|example protein\n"
  const FastaLines: seq<string> := [Header, Protein + "\n"]

  /** The header line carries accession `P1`. */
  lemma ExampleHeader()
    ensures IsHeader(Header) && Accession(Header) == "P1"
  {
    assert ">" + "sp" + "|" + "P1" + "|" == Header[..7];
    ShapeIsHeader(Header, "sp", "P1");
  }

  /** Stripping the sequence line removes just its line ending. */
  lemma ExampleSequenceLine()
    ensures !IsHeader(Protein + "\n")
    ensures Strip(Protein + "\n") == Protein
  {
    assert (Protein + "\n")[0] == 'M';
    assert Protein + "\n" == [] + Protein + "\n";
    assert Trimmed(Protein);
    StripExact([], Protein, "\n");
  }

  /** The two FASTA lines index accession `P1` to the protein, its line
      ending stripped. */
  lemma ExampleIndex()
    ensures HasSequenceLines(FastaLines)
    ensures Index(FastaLines) == map["P1" := Protein]
  {
    ExampleHeader();
    ExampleSequenceLine();
    assert Fill(map[], FastaLines, 1) == map["P1" := Protein];
  }

  /** `Find` on the protein of the scenarios, from the occurrences around `at`. */
  lemma FindInProtein(peptide: string, at: int)
    requires at == -1 || OccursAt(Protein, peptide, at)
    requires forall i :: 0 <= i < (if at == -1 then |Protein| + 1 else at) ==> !OccursAt(Protein, peptide, i)
    ensures Find(Protein, peptide) == at
  {
    if at == -1 {
      forall i ensures !OccursAt(Protein, peptide, i) {
        if 0 <= i < |Protein| + 1 { }
      }
    }
  }

  /** `CDEF` occurs in the protein at offset 2 and not before. */
  lemma LocatedAtTwo()
    ensures OccursAt(Protein, "CDEF", 2)
    ensures forall i :: 0 <= i < 2 ==> !OccursAt(Protein, "CDEF", i)
  {
    assert Protein[2..6] == "CDEF";
    assert Protein[0] != 'C' && Protein[1] != 'C';
  }

  /** `find` locates `CDEF` at offset 2. */
  lemma CDEFAtTwo()
    ensures Find(Protein, "CDEF") == 2
  {
    LocatedAtTwo();
    FindInProtein("CDEF", 2);
  }

  /** Peptide `C*DEF` with pivot `C` and flank width 2: located at offset 2,
      the pivot is residue 3 and its window is `MACDE`, clamped at the start. */
  lemma ExampleLocated()
    ensures Expansion(Sanitize([Row("P1", "C*DEF")]), Index(FastaLines), 'C', 2)
      == [SpanRecord("P1", "CDEF", "C3", "MACDE")]
  {
    ExampleIndex();
    ExampleSanitized();
    ExampleLocatedRow();
  }

  /** Sanitising removes the `*` from `C*DEF`. */
  lemma ExampleSanitized()
    ensures Sanitize([Row("P1", "C*DEF")]) == [Row("P1", "CDEF")]
  {
    assert StripStars("C*DEF") == "CDEF";
  }

  /** The sanitised row against the indexed protein. */
  lemma ExampleLocatedRow()
    ensures Expansion([Row("P1", "CDEF")], map["P1" := Protein], 'C', 2)
      == [SpanRecord("P1", "CDEF", "C3", "MACDE")]
  {
    var row := Row("P1", "CDEF");
    var index := map["P1" := Protein];
    PivotsOfCDEF();
    CDEFAtTwo();
    SingleRowExpansion(row, index, 'C', 2);
    SinglePivotRecords(row, index, 'C', 2, 0);
    ExampleLocatedEntry();
  }

  /** The pivot at protein index 2 is residue 3, with the window `MACDE`. */
  lemma ExampleLocatedEntry()
    ensures Entry(Row("P1", "CDEF"), Protein, 2, 'C', 2) == SpanRecord("P1", "CDEF", "C3", "MACDE")
  {
    assert NatToDecimal(3) == "3";
    assert Slice(Protein, 0, 5) == "MACDE";
  }

  /** Peptide `GHIK` holds no `C`: the row yields nothing. */
  lemma ExampleNoPivot()
    ensures Expansion([Row("P1", "GHIK")], map["P1" := Protein], 'C', 2) == []
  {
    SingleRowExpansion(Row("P1", "GHIK"), map["P1" := Protein], 'C', 2);
    assert |PivotIndices("GHIK", 'C')| == 0;
  }

  /** Peptide `XCZ` does not occur in the protein: `find` gives -1 and the
      row still yields an entry, labelled `C1` after the pivot's index in
      the peptide, with a window cut from the start of the protein. */
  lemma ExampleUnlocated()
    ensures Expansion([Row("P1", "XCZ")], map["P1" := Protein], 'C', 2)
      == [SpanRecord("P1", "XCZ", "C1", "MAC")]
  {
    var row := Row("P1", "XCZ");
    var index := map["P1" := Protein];
    PivotsOfXCZ();
    XCZNotInProtein();
    SingleRowExpansion(row, index, 'C', 2);
    SinglePivotRecords(row, index, 'C', 2, 1);
    ExampleUnlocatedEntry();
  }

  /** `XCZ` holds `C` once, at index 1. */
  lemma PivotsOfXCZ()
    ensures PivotIndices("XCZ", 'C') == [1]
  {
    var r := PivotIndices("XCZ", 'C');
    assert "XCZ"[1] == 'C';
    assert 1 in r;
    forall k | 0 <= k < |r| ensures r[k] == 1 {
      assert "XCZ"[r[k]] == 'C';
    }
  }

  /** `XCZ` occurs nowhere in the protein. */
  lemma XCZNotInProtein()
    ensures Find(Protein, "XCZ") == -1
  {
    forall i | 0 <= i < |Protein| + 1 ensures !OccursAt(Protein, "XCZ", i) {
      if i + 3 <= |Protein| {
        assert Protein[i..i + 3][0] == Protein[i] != 'X';
      }
    }
    FindInProtein("XCZ", -1);
  }

  /** Numbered from offset -1, pivot index 1 is residue 1, with the window
      `MAC`. */
  lemma ExampleUnlocatedEntry()
    ensures Entry(Row("P1", "XCZ"), Protein, 0, 'C', 2) == SpanRecord("P1", "XCZ", "C1", "MAC")
  {
    assert NatToDecimal(1) == "1";
    assert Slice(Protein, 0, 3) == "MAC";
  }
}
