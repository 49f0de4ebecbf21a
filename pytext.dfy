/** The parts of Python's `str` that the FASTA reader and the residue mapper
    rely on: the character classes of their patterns, `find`, slicing,
    `strip`, `split` and `str` of a non-negative integer. Strings are
    sequences of characters; nothing here normalises or case-folds. */
module PyText {

  /** `[a-z]` */
  predicate IsLowerAscii(c: char) {
    'a' <= c <= 'z'
  }

  /** `\w`, restricted to ASCII: a letter, a digit or `_`. */
  predicate IsWordChar(c: char) {
    ('a' <= c <= 'z') || ('A' <= c <= 'Z') || ('0' <= c <= '9') || c == '_'
  }

  /** The characters for which Python's `str.isspace` holds, which
      `str.strip()` removes from both ends. */
  predicate IsSpace(c: char) {
    || ('\t' <= c <= '\r')
    || ('\U{1C}' <= c <= ' ')
    || c == '\U{85}' || c == '\U{A0}' || c == '\U{1680}'
    || ('\U{2000}' <= c <= '\U{200A}')
    || c == '\U{2028}' || c == '\U{2029}' || c == '\U{202F}' || c == '\U{205F}'
    || c == '\U{3000}'
  }

  predicate IsDigit(c: char) {
    '0' <= c <= '9'
  }

  /** The character classes the header pattern repeats with `+`. */
  datatype CharClass = LowerAscii | Word

  predicate InClass(cls: CharClass, c: char) {
    match cls
    case LowerAscii => IsLowerAscii(c)
    case Word => IsWordChar(c)
  }

  // ---------------------------------------------------------------------------
  // Runs of characters (the `+` of a regular expression, matched greedily)

  /** Length of the longest run of characters of class `cls` that starts at `i`. */
  function RunFrom(s: string, i: nat, cls: CharClass): (len: nat)
    requires i <= |s|
    ensures i + len <= |s|
    ensures forall k :: i <= k < i + len ==> InClass(cls, s[k])
    ensures i + len == |s| || !InClass(cls, s[i + len])
    decreases |s| - i
  {
    if i < |s| && InClass(cls, s[i]) then 1 + RunFrom(s, i + 1, cls) else 0
  }

  /** A run is determined by where it stops. */
  lemma RunFromExact(s: string, i: nat, len: nat, cls: CharClass)
    requires i + len <= |s|
    requires forall k :: i <= k < i + len ==> InClass(cls, s[k])
    requires i + len == |s| || !InClass(cls, s[i + len])
    ensures RunFrom(s, i, cls) == len
  {
  }

  // ---------------------------------------------------------------------------
  // str.find

  /** `sub` occurs in `s` starting at index `i`. */
  predicate OccursAt(s: string, sub: string, i: int) {
    0 <= i && i + |sub| <= |s| && s[i..i + |sub|] == sub
  }

  /** `s.find(sub, start)`: the leftmost occurrence at or after `start`, or -1. */
  function FindFrom(s: string, sub: string, start: nat): (r: int)
    requires start <= |s|
    ensures r == -1 || (start <= r && OccursAt(s, sub, r))
    ensures forall i :: start <= i && (r == -1 || i < r) ==> !OccursAt(s, sub, i)
    decreases |s| - start
  {
    if OccursAt(s, sub, start) then start
    else if start == |s| then -1
    else FindFrom(s, sub, start + 1)
  }

  /** `s.find(sub)`: the index of the leftmost occurrence of `sub` in `s`,
      or the sentinel -1 when there is none (0 for an empty `sub`). */
  function Find(s: string, sub: string): (r: int)
    ensures -1 <= r
    ensures r >= 0 ==> OccursAt(s, sub, r)
    ensures forall i :: 0 <= i < r ==> !OccursAt(s, sub, i)
    ensures r == -1 <==> forall i :: !OccursAt(s, sub, i)
  {
    FindFrom(s, sub, 0)
  }

  // ---------------------------------------------------------------------------
  // Slicing

  /** Python's normalisation of one slice bound against a length: a negative
      bound counts from the end, and both ends are clamped to `[0, len]`. */
  function SliceBound(i: int, len: nat): (b: nat)
    ensures b <= len
  {
    if i < 0 then (if len + i < 0 then 0 else len + i)
    else if i > len then len
    else i
  }

  /** `s[start:stop]`; never fails, empty when the normalised start is not
      below the normalised stop. */
  function Slice(s: string, start: int, stop: int): (r: string)
    ensures |r| <= |s|
    ensures 0 <= start && 0 <= stop ==>
      |r| == (if start < stop && start < |s| then (if stop < |s| then stop else |s|) - start else 0)
    ensures 0 <= start ==> forall k :: 0 <= k < |r| ==> start + k < |s| && r[k] == s[start + k]
  {
    var a, b := SliceBound(start, |s|), SliceBound(stop, |s|);
    if a < b then s[a..b] else []
  }

  /** A negative bound counts from the end of the string, and a bound below
      `-|s|` or above `|s|` acts as the nearer end. */
  lemma SliceOutsideBounds(s: string, start: int, stop: int)
    ensures -|s| <= start < 0 ==> Slice(s, start, stop) == Slice(s, |s| + start, stop)
    ensures -|s| <= stop < 0 ==> Slice(s, start, stop) == Slice(s, start, |s| + stop)
    ensures start < -|s| ==> Slice(s, start, stop) == Slice(s, 0, stop)
    ensures stop < -|s| ==> Slice(s, start, stop) == []
    ensures stop > |s| ==> Slice(s, start, stop) == Slice(s, start, |s|)
  {
  }

  /** With both bounds inside the string, a slice is the plain subsequence. */
  lemma SliceWithin(s: string, start: int, stop: int)
    requires 0 <= start <= stop <= |s|
    ensures Slice(s, start, stop) == s[start..stop]
  {
  }

  // ---------------------------------------------------------------------------
  // str.strip

  /** `s.lstrip()`: `s` without its leading whitespace. */
  function StripLeft(s: string): string {
    if s != [] && IsSpace(s[0]) then StripLeft(s[1..]) else s
  }

  /** `s.rstrip()`: `s` without its trailing whitespace. */
  function StripRight(s: string): string {
    if s != [] && IsSpace(s[|s| - 1]) then StripRight(s[..|s| - 1]) else s
  }

  /** `s.strip()`: `s` without its leading and trailing whitespace. */
  function Strip(s: string): string {
    StripRight(StripLeft(s))
  }

  predicate AllSpace(s: string) {
    forall k :: 0 <= k < |s| ==> IsSpace(s[k])
  }

  /** A string with no whitespace at either end. */
  predicate Trimmed(s: string) {
    s == [] || (!IsSpace(s[0]) && !IsSpace(s[|s| - 1]))
  }

  lemma {:induction false} StripLeftSpaces(ws: string, t: string)
    requires AllSpace(ws)
    ensures StripLeft(ws + t) == StripLeft(t)
    decreases |ws|
  {
    if ws == [] {
      assert ws + t == t;
    } else {
      assert (ws + t)[0] == ws[0] && IsSpace(ws[0]);
      assert (ws + t)[1..] == ws[1..] + t;
      StripLeftSpaces(ws[1..], t);
    }
  }

  lemma {:induction false} StripRightSpaces(t: string, ws: string)
    requires AllSpace(ws)
    ensures StripRight(t + ws) == StripRight(t)
    decreases |ws|
  {
    if ws == [] {
      assert t + ws == t;
    } else {
      var w := ws[..|ws| - 1];
      assert (t + ws)[|t + ws| - 1] == ws[|ws| - 1] && IsSpace(ws[|ws| - 1]);
      assert (t + ws)[..|t + ws| - 1] == t + w;
      StripRightSpaces(t, w);
    }
  }

  /** `lstrip` leaves a suffix that does not start with whitespace. */
  lemma {:induction false} StripLeftShape(s: string)
    ensures |StripLeft(s)| <= |s| && StripLeft(s) == s[|s| - |StripLeft(s)|..]
    ensures StripLeft(s) == [] || !IsSpace(StripLeft(s)[0])
  {
    if s != [] && IsSpace(s[0]) {
      StripLeftShape(s[1..]);
    }
  }

  /** `rstrip` leaves a prefix that does not end with whitespace. */
  lemma {:induction false} StripRightShape(s: string)
    ensures |StripRight(s)| <= |s| && StripRight(s) == s[..|StripRight(s)|]
    ensures StripRight(s) == [] || !IsSpace(StripRight(s)[|StripRight(s)| - 1])
  {
    if s != [] && IsSpace(s[|s| - 1]) {
      StripRightShape(s[..|s| - 1]);
    }
  }

  /** `strip` removes exactly the surrounding whitespace: whatever whitespace
      is put around a string with non-space ends, `strip` gives that string back. */
  lemma StripExact(ws: string, core: string, ws': string)
    requires AllSpace(ws) && AllSpace(ws') && Trimmed(core)
    ensures Strip(ws + core + ws') == core
  {
    assert ws + core + ws' == ws + (core + ws');
    StripLeftSpaces(ws, core + ws');
    if core == [] {
      assert core + ws' == ws' + [];
      StripLeftSpaces(ws', []);
    } else {
      StripRightSpaces(core, ws');
    }
  }

  /** The result of `strip` has non-space ends, and stripping twice is
      stripping once. */
  lemma StripIdempotent(s: string)
    ensures Trimmed(Strip(s))
    ensures Strip(Strip(s)) == Strip(s)
  {
    var u := StripLeft(s);
    var r := Strip(s);
    StripLeftShape(s);
    StripRightShape(u);
    if r != [] {
      assert r[0] == u[0];
    }
    assert r == [] + r + [];
    StripExact([], r, []);
  }

  // ---------------------------------------------------------------------------
  // str.split with a one-character separator

  /** Index of the first `d` in `s`. */
  function IndexOf(s: string, d: char): (i: nat)
    requires d in s
    ensures i < |s| && s[i] == d && d !in s[..i]
  {
    if s[0] == d then 0
    else
      var j := IndexOf(s[1..], d);
      assert s[..j + 1] == [s[0]] + s[1..][..j];
      j + 1
  }

  /** `s.split(d)`: the fields between the occurrences of `d`; one field more
      than there are separators, and no field holds a separator. */
  function Split(s: string, d: char): (fields: seq<string>)
    ensures |fields| == multiset(s)[d] + 1
    ensures forall k :: 0 <= k < |fields| ==> d !in fields[k]
    decreases |s|
  {
    if d in s then
      var i := IndexOf(s, d);
      assert s == s[..i] + [d] + s[i + 1..];
      assert multiset(s[..i])[d] == 0;
      [s[..i]] + Split(s[i + 1..], d)
    else
      assert multiset(s)[d] == 0;
      [s]
  }

  /** `d.join(fields)` */
  function Join(fields: seq<string>, d: char): string
    requires |fields| >= 1
  {
    if |fields| == 1 then fields[0] else fields[0] + [d] + Join(fields[1..], d)
  }

  /** Splitting loses nothing: joining the fields with the separator gives `s` back. */
  lemma {:induction false} SplitJoin(s: string, d: char)
    ensures Join(Split(s, d), d) == s
    decreases |s|
  {
    if d in s {
      var i := IndexOf(s, d);
      SplitJoin(s[i + 1..], d);
      assert s == s[..i] + [d] + s[i + 1..];
    }
  }

  /** A separator at `k` with none before it ends the first field. */
  lemma SplitAt(s: string, d: char, k: nat)
    requires k < |s| && s[k] == d && d !in s[..k]
    ensures Split(s, d) == [s[..k]] + Split(s[k + 1..], d)
  {
  }

  /** With separators at `f` and `g` and none before `g` but `f`, there are
      at least three fields and the second lies between the two. */
  lemma SplitSecondField(s: string, d: char, f: nat, g: nat)
    requires f < g < |s| && s[f] == d && s[g] == d
    requires d !in s[..f] && d !in s[f + 1..g]
    ensures |Split(s, d)| >= 3
    ensures Split(s, d)[1] == s[f + 1..g]
  {
    var t := s[f + 1..];
    var w := g - f - 1;
    SuffixPrefix(s, f + 1, g);
    SplitAt(t, d, w);
    var rest := Split(t[w + 1..], d);
    assert |rest| >= 1;
    assert Split(t, d) == [s[f + 1..g]] + rest;
    SplitAt(s, d, f);
    assert Split(s, d) == [s[..f]] + ([s[f + 1..g]] + rest);
  }

  /** Indexing into a suffix is indexing into the string, shifted. */
  lemma SuffixPrefix(s: string, i: nat, j: nat)
    requires i <= j < |s|
    ensures s[i..][..j - i] == s[i..j] && s[i..][j - i] == s[j]
  {
  }

  // ---------------------------------------------------------------------------
  // str(n) for n >= 0

  function DigitChar(d: nat): (c: char)
    requires d < 10
    ensures IsDigit(c) && (c as int) - ('0' as int) == d
  {
    (('0' as int) + d) as char
  }

  /** Decimal notation of `n`, as Python's `str` writes it: digits only, and
      no leading zero except in "0" itself. */
  function NatToDecimal(n: nat): (r: string)
    ensures |r| >= 1
    ensures forall k :: 0 <= k < |r| ==> IsDigit(r[k])
    ensures (r[0] == '0') == (n == 0)
  {
    if n < 10 then [DigitChar(n)] else NatToDecimal(n / 10) + [DigitChar(n % 10)]
  }

  /** The number a string of decimal digits denotes. */
  function DecimalValue(s: string): nat
    requires forall k :: 0 <= k < |s| ==> IsDigit(s[k])
  {
    if s == [] then 0
    else
      var last := s[|s| - 1];
      assert IsDigit(last);
      DecimalValue(s[..|s| - 1]) * 10 + ((last as int) - ('0' as int))
  }

  /** Reading back the decimal notation gives the number. */
  lemma {:induction false} DecimalRoundTrip(n: nat)
    ensures DecimalValue(NatToDecimal(n)) == n
  {
    var s := NatToDecimal(n);
    if n >= 10 {
      DecimalRoundTrip(n / 10);
      assert s[..|s| - 1] == NatToDecimal(n / 10);
    } else {
      assert s[..|s| - 1] == [];
    }
  }
}
