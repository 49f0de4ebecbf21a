/** The FASTA index of src/fastaFile.py: which lines are headers, the
    accession a header carries, and the accession-to-sequence dictionary
    that `FastaFile.read` fills and `FastaFile.getSequence` consults. */
module Fasta {
  import opened Wrappers
  import opened PyText

  /** `read` fails on a header in the last line: `lines[i + 1]` is past the end. */
  datatype ReadError = MissingSequenceLine(header: nat)

  /** `getSequence` fails on an accession that was never indexed. */
  datatype LookupError = NotFound(id: string)

  // ---------------------------------------------------------------------------
  // Header recognition: `^>[a-z]+\|\w+\|`

  /** Index of the first `|` of a header: just after the lowercase tag. */
  function FirstBar(line: string): nat
    requires |line| >= 1
  {
    1 + RunFrom(line, 1, LowerAscii)
  }

  /** Index of the second `|` of a header: just after the accession. */
  function SecondBar(line: string): nat
    requires |line| >= 1 && FirstBar(line) < |line|
  {
    FirstBar(line) + 1 + RunFrom(line, FirstBar(line) + 1, Word)
  }

  /** The line starts with `>`, one or more lowercase letters, `|`, one or
      more word characters and `|`; whatever follows is not looked at. */
  predicate IsHeader(line: string) {
    && |line| >= 1
    && line[0] == '>'
    && FirstBar(line) >= 2
    && FirstBar(line) < |line|
    && line[FirstBar(line)] == '|'
    && SecondBar(line) >= FirstBar(line) + 2
    && SecondBar(line) < |line|
    && line[SecondBar(line)] == '|'
  }

  /** The header shape written out as the pattern spells it: `tag` and
      `acc` are what `[a-z]+` and `\w+` match. */
  ghost predicate HeaderShape(line: string, tag: string, acc: string) {
    && |tag| >= 1 && (forall k :: 0 <= k < |tag| ==> IsLowerAscii(tag[k]))
    && |acc| >= 1 && (forall k :: 0 <= k < |acc| ==> IsWordChar(acc[k]))
    && ">" + tag + "|" + acc + "|" <= line
  }

  /** The accession of a header: what the pattern's `\w+` matched, the text
      between the header's first and second bars. */
  function Accession(line: string): (acc: string)
    requires IsHeader(line)
    ensures |acc| >= 1 && forall k :: 0 <= k < |acc| ==> IsWordChar(acc[k])
  {
    line[FirstBar(line) + 1..SecondBar(line)]
  }

  /** `line.split('|')` of a header has at least three fields, so the
      source's `assert(len(elems) >= 3)` cannot fail, and the second field
      lies between the first two bars. */
  lemma HeaderFields(line: string)
    requires IsHeader(line)
    ensures |Split(line, '|')| >= 3
    ensures Split(line, '|')[1] == Accession(line)
  {
    var f, g := FirstBar(line), SecondBar(line);
    assert '|' !in line[..f] by {
      forall k | 0 <= k < f ensures line[k] != '|' {
        if k > 0 { assert InClass(LowerAscii, line[k]); }
      }
    }
    assert '|' !in line[f + 1..g] by {
      forall k | f + 1 <= k < g ensures line[k] != '|' {
        assert InClass(Word, line[k]);
      }
    }
    SplitSecondField(line, '|', f, g);
  }

  /** Every header has the pattern's shape, with its own accession as the
      `\w+` part. */
  lemma HeaderHasShape(line: string)
    requires IsHeader(line)
    ensures HeaderShape(line, line[1..FirstBar(line)], Accession(line))
  {
    var f, g := FirstBar(line), SecondBar(line);
    var tag := line[1..f];
    var acc := Accession(line);
    assert forall k :: 0 <= k < |tag| ==> IsLowerAscii(tag[k]) by {
      forall k | 0 <= k < |tag| ensures IsLowerAscii(tag[k]) {
        assert tag[k] == line[1 + k];
      }
    }
    assert ">" + tag + "|" + acc + "|" == line[..g + 1];
  }

  /** Every line of the pattern's shape is a header, and its accession is
      the `\w+` part: the pattern and `IsHeader` agree in both directions. */
  lemma ShapeIsHeader(line: string, tag: string, acc: string)
    requires HeaderShape(line, tag, acc)
    ensures IsHeader(line) && Accession(line) == acc
  {
    var f := 1 + |tag|;
    var g := f + 1 + |acc|;
    ShapeChars(line, tag, acc);
    RunFromExact(line, 1, |tag|, LowerAscii);
    assert FirstBar(line) == f;
    RunFromExact(line, f + 1, |acc|, Word);
    assert SecondBar(line) == g;
  }

  /** What the characters of a line of the header shape are, position by
      position. */
  lemma ShapeChars(line: string, tag: string, acc: string)
    requires HeaderShape(line, tag, acc)
    ensures var f := 1 + |tag|; var g := f + 1 + |acc|;
      && g < |line| && line[0] == '>' && line[f] == '|' && line[g] == '|'
      && (forall k :: 1 <= k < f ==> InClass(LowerAscii, line[k]))
      && (forall k :: f + 1 <= k < g ==> InClass(Word, line[k]))
      && line[f + 1..g] == acc
  {
    var p := ">" + tag + "|" + acc + "|";
    var f := 1 + |tag|;
    var g := f + 1 + |acc|;
    assert forall k :: 0 <= k < |p| ==> line[k] == p[k];
    assert line[0] == '>' && line[f] == '|' && line[g] == '|';
    forall k | 1 <= k < f ensures InClass(LowerAscii, line[k]) {
      assert line[k] == p[k] == tag[k - 1];
    }
    forall k | f + 1 <= k < g ensures InClass(Word, line[k]) {
      assert line[k] == p[k] == acc[k - f - 1];
    }
    assert line[f + 1..g] == acc;
  }

  /** Decoy headers such as `>Reverse_sp|P1|` are never headers: the tag
      must start with a lowercase letter. */
  lemma NoUppercaseTag(line: string)
    requires |line| >= 2 && line[0] == '>' && !IsLowerAscii(line[1])
    ensures !IsHeader(line)
  {
  }

  // ---------------------------------------------------------------------------
  // The dictionary `read` builds

  /** `read` gets through every header: none sits on the last line. */
  predicate HasSequenceLines(lines: seq<string>) {
    |lines| == 0 || !IsHeader(lines[|lines| - 1])
  }

  /** The dictionary after `read` has processed `lines[..k]`, starting from
      `m`: each header in turn maps its accession to the next line, stripped,
      overwriting any earlier entry for the same accession. */
  function Fill(m: map<string, string>, lines: seq<string>, k: nat): map<string, string>
    requires k <= |lines|
    requires k == |lines| ==> HasSequenceLines(lines)
  {
    if k == 0 then m
    else
      var before := Fill(m, lines, k - 1);
      if IsHeader(lines[k - 1]) then before[Accession(lines[k - 1]) := Strip(lines[k])]
      else before
  }

  /** One more line: a header stores its accession, any other line does nothing. */
  lemma FillStep(m: map<string, string>, lines: seq<string>, k: nat)
    requires k < |lines|
    requires k + 1 == |lines| ==> HasSequenceLines(lines)
    ensures IsHeader(lines[k]) ==>
      (k + 1 < |lines| && Fill(m, lines, k + 1) == Fill(m, lines, k)[Accession(lines[k]) := Strip(lines[k + 1])])
    ensures !IsHeader(lines[k]) ==> Fill(m, lines, k + 1) == Fill(m, lines, k)
  {
  }

  /** The dictionary a fresh `FastaFile` holds after reading `lines`. */
  function Index(lines: seq<string>): map<string, string>
    requires HasSequenceLines(lines)
  {
    Fill(map[], lines, |lines|)
  }

  /** The accessions of the headers among `lines[..k]`. */
  ghost function HeaderKeys(lines: seq<string>, k: nat): set<string>
    requires k <= |lines|
  {
    set i | 0 <= i < k && IsHeader(lines[i]) :: Accession(lines[i])
  }

  /** The keys after reading are the keys before plus the accession of every
      header, and nothing else. */
  lemma {:induction false} FillKeys(m: map<string, string>, lines: seq<string>, k: nat)
    requires k <= |lines|
    requires k == |lines| ==> HasSequenceLines(lines)
    ensures Fill(m, lines, k).Keys == m.Keys + HeaderKeys(lines, k)
  {
    if k > 0 {
      FillKeys(m, lines, k - 1);
      FillStep(m, lines, k - 1);
      HeaderKeysStep(lines, k);
    }
  }

  /** One more line adds its accession to the header keys when it is a
      header, and nothing otherwise. */
  lemma HeaderKeysStep(lines: seq<string>, k: nat)
    requires 0 < k <= |lines|
    ensures IsHeader(lines[k - 1]) ==> HeaderKeys(lines, k) == HeaderKeys(lines, k - 1) + {Accession(lines[k - 1])}
    ensures !IsHeader(lines[k - 1]) ==> HeaderKeys(lines, k) == HeaderKeys(lines, k - 1)
  {
    if IsHeader(lines[k - 1]) {
      assert HeaderKeys(lines, k) == HeaderKeys(lines, k - 1) + {Accession(lines[k - 1])};
    } else {
      assert HeaderKeys(lines, k) == HeaderKeys(lines, k - 1);
    }
  }

  /** Last write wins: an accession maps to the stripped line after the last
      header that carries it. */
  lemma {:induction false} FillLastWins(m: map<string, string>, lines: seq<string>, k: nat, i: nat)
    requires k <= |lines|
    requires k == |lines| ==> HasSequenceLines(lines)
    requires i < k && IsHeader(lines[i])
    requires forall j :: i < j < k && IsHeader(lines[j]) ==> Accession(lines[j]) != Accession(lines[i])
    ensures Accession(lines[i]) in Fill(m, lines, k)
    ensures Fill(m, lines, k)[Accession(lines[i])] == Strip(lines[i + 1])
  {
    FillStep(m, lines, k - 1);
    if i < k - 1 {
      FillLastWins(m, lines, k - 1, i);
    }
  }

  /** Reading leaves an accession that no header carries as it was. */
  lemma {:induction false} FillKeepsOthers(m: map<string, string>, lines: seq<string>, k: nat, id: string)
    requires k <= |lines|
    requires k == |lines| ==> HasSequenceLines(lines)
    requires forall j :: 0 <= j < k && IsHeader(lines[j]) ==> Accession(lines[j]) != id
    ensures (id in Fill(m, lines, k)) == (id in m)
    ensures id in m ==> Fill(m, lines, k)[id] == m[id]
  {
    if k > 0 {
      FillKeepsOthers(m, lines, k - 1, id);
    }
  }

  /** After reading, an id is indexed exactly when some header carries it. */
  lemma IndexKeys(lines: seq<string>, id: string)
    requires HasSequenceLines(lines)
    ensures id in Index(lines) <==>
      exists i :: 0 <= i < |lines| && IsHeader(lines[i]) && Accession(lines[i]) == id
  {
    FillKeys(map[], lines, |lines|);
  }

  /** After reading, the accession of a header that no later header repeats
      is looked up to the line after that header, stripped. */
  lemma IndexLookup(lines: seq<string>, i: nat)
    requires HasSequenceLines(lines)
    requires i < |lines| && IsHeader(lines[i])
    requires forall j :: i < j < |lines| && IsHeader(lines[j]) ==> Accession(lines[j]) != Accession(lines[i])
    ensures Accession(lines[i]) in Index(lines)
    ensures Index(lines)[Accession(lines[i])] == Strip(lines[i + 1])
  {
    FillLastWins(map[], lines, |lines|, i);
  }

  // ---------------------------------------------------------------------------
  // The reader object

  /** `FastaFile`: the dictionary `_sequences` from accession to sequence. */
  class FastaFile {
    var sequences: map<string, string>

    /** `__init__` before it calls `read`: an empty dictionary. */
    constructor ()
      ensures sequences == map[]
    {
      sequences := map[];
    }

    /** `read`: for every header, in order, store the stripped next line
        under the header's accession. A header in the last line fails, as
        `lines[i + 1]` does, leaving the entries stored before it. */
    method Read(lines: seq<string>) returns (err: Option<ReadError>)
      modifies this
      ensures err.None? <==> HasSequenceLines(lines)
      ensures err.None? ==> sequences == Fill(old(sequences), lines, |lines|)
      ensures err.Some? ==>
        |lines| >= 1 && err.value == MissingSequenceLine(|lines| - 1) &&
        sequences == Fill(old(sequences), lines, |lines| - 1)
    {
      var i := 0;
      while i < |lines|
        invariant 0 <= i <= |lines|
        invariant i < |lines| || HasSequenceLines(lines)
        invariant sequences == Fill(old(sequences), lines, i)
      {
        var line := lines[i];
        if IsHeader(line) {
          var elems := Split(line, '|');
          HeaderFields(line);
          assert |elems| >= 3;
          var id := elems[1];
          if i + 1 >= |lines| {
            return Some(MissingSequenceLine(i));
          }
          FillStep(old(sequences), lines, i);
          sequences := sequences[id := Strip(lines[i + 1])];
        } else {
          FillStep(old(sequences), lines, i);
        }
        i := i + 1;
      }
      return None;
    }

    /** `getSequence`: the sequence stored for `id`, or a not-found failure;
        the dictionary is not changed. */
    method GetSequence(id: string) returns (r: Result<string, LookupError>)
      ensures id in sequences ==> r == Success(sequences[id])
      ensures id !in sequences ==> r == Failure(NotFound(id))
    {
      if id !in sequences {
        return Failure(NotFound(id));
      }
      return Success(sequences[id]);
    }
  }
}
