/** What the term search of os/search_terms_core.c must find, defined line by line: a line is
    ranked when every group occurs in it at word boundaries. */
module TermLines {
  import opened Bytes
  import opened Kmp
  import opened SearchRank

  const COUNT_CAP: nat := 255

  function FoldAll(s: seq<Byte>): (r: seq<Byte>)
    ensures |r| == |s| && forall i | 0 <= i < |s| :: r[i] == Fold(s[i])
  {
    seq(|s|, i requires 0 <= i < |s| => Fold(s[i]))
  }

  /** One query group: its folded bytes, and whether its ends are word characters. */
  datatype Group = Group(folded: seq<Byte>, leftWord: bool, rightWord: bool)

  predicate LegalGroup(g: Group) {
    1 <= |g.folded| <= 1023 && LF !in g.folded
  }

  /** The group ends at position e of the text, and does not cut a word on either side. */
  predicate EndsAt(text: seq<Byte>, g: Group, e: nat)
    requires e <= |text|
  {
    var n := |g.folded|;
    && n <= e && FoldAll(text[e - n..e]) == g.folded
    && (g.leftWord ==> e == n || !Word(text[e - n - 1]))
    && (g.rightWord ==> e == |text| || !Word(text[e]))
  }

  /** The number of occurrences, which may overlap, that end at or before e. */
  function Occurrences(text: seq<Byte>, g: Group, e: nat): nat
    requires e <= |text|
  {
    if e == 0 then 0 else Occurrences(text, g, e - 1) + if EndsAt(text, g, e) then 1 else 0
  }

  function Min(a: nat, b: nat): nat {
    if a < b then a else b
  }

  function Score(text: seq<Byte>, groups: seq<Group>): nat {
    if groups == [] then 0
    else
      var g := groups[|groups| - 1];
      Score(text, groups[..|groups| - 1]) + Min(COUNT_CAP, Occurrences(text, g, |text|))
  }

  predicate Complete(text: seq<Byte>, groups: seq<Group>) {
    groups != [] && forall k | 0 <= k < |groups| :: Occurrences(text, groups[k], |text|) > 0
  }

  /** Group k occurs from s to f. */
  predicate Spans(text: seq<Byte>, groups: seq<Group>, k: nat, s: nat, f: nat)
    requires k < |groups| && f <= |text|
  {
    EndsAt(text, groups[k], f) && s == f - |groups[k].folded|
  }

  /** Some group occurs in text starting at s and ending by e. */
  predicate Starts(text: seq<Byte>, groups: seq<Group>, s: nat, e: nat)
    requires e <= |text|
  {
    exists k, f | 0 <= k < |groups| && 0 <= f <= e :: Spans(text, groups, k, s, f)
  }

  /** s is the earliest accepted start of any group in text. */
  predicate Earliest(text: seq<Byte>, groups: seq<Group>, s: nat) {
    Starts(text, groups, s, |text|) && forall r | 0 <= r < s :: !Starts(text, groups, r, |text|)
  }

  // ----- lines end at LF only; a CR before it stays in the line

  datatype TermLine = TermLine(start: nat, text: seq<Byte>, number: nat)

  function TermLinesFrom(file: seq<Byte>, start: nat, number: nat): seq<TermLine>
    requires start <= |file|
    decreases |file| - start
  {
    if start == |file| then []
    else
      var lf := IndexFrom(file, LF, start);
      [TermLine(start, file[start..lf], number)]
      + TermLinesFrom(file, if lf < |file| then lf + 1 else lf, number + 1)
  }

  /** c is the ranking entry of one line. */
  predicate EntryOf(c: Candidate, name: seq<Byte>, slot: nat, size: nat, groups: seq<Group>, line: TermLine) {
    && c.name == name && c.slot == slot && c.fileSize == size
    && c.lineNumber == line.number
    && c.score == Score(line.text, groups)
    && c.anchor >= line.start && Earliest(line.text, groups, c.anchor - line.start)
  }

  /** entries are those of the complete lines, in order, and of no others. */
  predicate Entries(entries: seq<Candidate>, name: seq<Byte>, slot: nat, size: nat, groups: seq<Group>, lines: seq<TermLine>)
    decreases lines
  {
    if lines == [] then entries == []
    else
      var line := lines[|lines| - 1];
      var before := lines[..|lines| - 1];
      if Complete(line.text, groups) then
        && entries != [] && EntryOf(entries[|entries| - 1], name, slot, size, groups, line)
        && Entries(entries[..|entries| - 1], name, slot, size, groups, before)
      else Entries(entries, name, slot, size, groups, before)
  }

  // ----- the definition against the file: no occurrence crosses an LF

  /** The line around position e of the file. */
  predicate LineAround(file: seq<Byte>, start: nat, lf: nat, e: nat) {
    && start <= e <= lf <= |file|
    && (start > 0 ==> file[start - 1] == LF)
    && (lf < |file| ==> file[lf] == LF)
    && forall k | start <= k < lf :: file[k] != LF
  }

  /** Reading the whole file instead of the line changes nothing: the LF on either side is
      neither part of a group nor a word character. */
  lemma LineLocal(file: seq<Byte>, g: Group, start: nat, lf: nat, e: nat)
    requires LegalGroup(g) && LineAround(file, start, lf, e)
    ensures EndsAt(file, g, e) <==> EndsAt(file[start..lf], g, e - start)
  {
    hide FoldAll, Word;
    var n := |g.folded|;
    WordNotLf();
    if n <= e - start {
      SliceOfSlice(file, start, lf, e - n, e);
    } else if n <= e {
      var s := file[e - n..e];
      assert s[start - 1 - (e - n)] == LF;
      FoldKeepsLf(s, start - 1 - (e - n));
    }
  }

  lemma SliceOfSlice(s: seq<Byte>, start: nat, end: nat, a: nat, b: nat)
    requires start <= a <= b <= end <= |s|
    ensures s[start..end][a - start..b - start] == s[a..b]
  {
    var t := s[start..end];
    var x, y := a - start, b - start;
    assert forall i | x <= i < y :: t[i] == s[start + i];
    assert t[x..y] == s[a..b];
  }

  lemma FoldKeepsLf(s: seq<Byte>, i: nat)
    requires i < |s| && s[i] == LF
    ensures LF in FoldAll(s)
  {
    assert FoldAll(s)[i] == LF;
  }

  lemma WordNotLf()
    ensures !Word(LF)
  {
  }

  lemma StepOccurrences(text: seq<Byte>, g: Group, e: nat)
    requires e < |text|
    ensures Occurrences(text, g, e + 1) == Occurrences(text, g, e) + if EndsAt(text, g, e + 1) then 1 else 0
  {
  }
}
