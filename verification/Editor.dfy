/** os/editor.c: the line editor's draft. It is one array of bytes; its commands must act on the list of
    lines those bytes spell. */
module Editor {
  import opened Bytes
  import opened Utf8
  import opened LegalText
  import opened TextLines
  import opened EditorText
  import Memory

  const CAPACITY: nat := 16384

  datatype Result = Ok | OutOfRange | TooLarge | InvalidText

  // ----- the commands on lists of lines

  function Reclosed(ls: seq<Line>): seq<Line> {
    if ls != [] && ls[|ls| - 1].eol == [] then ls[..|ls| - 1] + [Line(ls[|ls| - 1].content, NEWLINE)] else ls
  }

  /** `a`: an unterminated last line gets its LF first. */
  function Appended(ls: seq<Line>, text: seq<Byte>): seq<Line> {
    Reclosed(ls) + [Line(text, NEWLINE)]
  }

  /** `r`: the content changes, the terminator stays; a last line left with neither disappears. */
  function Replaced(ls: seq<Line>, k: nat, text: seq<Byte>): seq<Line>
    requires k < |ls|
  {
    ls[..k] + (if text == [] && ls[k].eol == [] then [] else [Line(text, ls[k].eol)]) + ls[k + 1..]
  }

  /** `d` */
  function Deleted(ls: seq<Line>, k: nat): seq<Line>
    requires k < |ls|
  {
    ls[..k] + ls[k + 1..]
  }

  lemma {:induction false} NoLfTyped(vs: seq<Scalar>)
    requires Typed(vs)
    ensures forall k | 0 <= k < |EncodeAll(vs)| :: EncodeAll(vs)[k] >= 0x20
  {
    hide Encode;
    if vs != [] {
      NoLfTyped(vs[1..]);
      HighBytes(vs[0]);
    }
  }

  lemma HighBytes(v: Scalar)
    requires v >= 0x20
    ensures forall k | 0 <= k < |Encode(v)| :: Encode(v)[k] >= 0x20
  {
    EncodeShape(v);
  }

  /** Typed text is legal, and holds neither CR nor LF. */
  lemma TypedLegal(s: seq<Byte>)
    requires TypedText(s)
    ensures Legal(s) && LF !in s && (s != [] ==> s[|s| - 1] != CR)
  {
    var vs: seq<Scalar> :| EncodeAll(vs) == s && Typed(vs);
    NoLfTyped(vs);
    assert LegalScalars(vs);
  }

  lemma TypedFits(text: seq<Byte>, eol: seq<Byte>, last: bool)
    requires TypedText(text) && (eol == NEWLINE || eol == CRLF || (eol == [] && last && text != []))
    ensures LineFits(Line(text, eol), last)
  {
    TypedLegal(text);
  }

  lemma EmptyText()
    ensures Text([]) == [] && WellFormed([])
  {
  }

  lemma OneFits(l: Line)
    requires LineFits(l, true)
    ensures WellFormed([l])
  {
  }

  /** Before an append, every line is closed; the separator is the LF this may need. */
  lemma ReclosedText(ls: seq<Line>)
    requires WellFormed(ls) && Legal(Text(ls))
    ensures AllClosed(Reclosed(ls))
    ensures Text(Reclosed(ls)) == Text(ls) + (if Text(ls) != [] && Text(ls)[|Text(ls)| - 1] != LF then NEWLINE else [])
  {
    hide Text, Legal, LineFits, AllClosed, WellFormed;
    EmptyText();
    if ls == [] {
      assert AllClosed([]) by { NoneClosed(); }
    } else {
      var n := |ls| - 1;
      FrontClosed(ls, n);
      assert ls == ls[..n] + [ls[n]];
      TextSnoc(ls[..n], ls[n]);
      if ls[n].eol == [] {
        Nonempty(ls[n], true);
        LegalNoCrEnd(Text(ls));
        TextSnoc(ls[..n], Line(ls[n].content, NEWLINE));
        OpenLine(ls[n], Text(ls[..n]), Text(ls));
        ClosedSnoc(ls[..n], Line(ls[n].content, NEWLINE));
      } else {
        ShutLine(ls[n], n + 1 == |ls|);
        ClosedSnoc(ls[..n], ls[n]);
        ClosedEnds(ls);
      }
    }
  }

  lemma NoneClosed()
    ensures AllClosed([])
  {
  }

  lemma Nonempty(l: Line, last: bool)
    requires LineFits(l, last)
    ensures Whole(l) != []
  {
  }

  lemma ShutLine(l: Line, last: bool)
    requires LineFits(l, last) && l.eol != []
    ensures LineFits(l, false)
  {
  }

  lemma OpenLine(l: Line, before: seq<Byte>, text: seq<Byte>)
    requires LineFits(l, true) && l.eol == [] && text == before + Whole(l) && text != [] && text[|text| - 1] != CR
    ensures LineFits(Line(l.content, NEWLINE), false) && text != [] && text[|text| - 1] != LF
    ensures before + Whole(Line(l.content, NEWLINE)) == text + NEWLINE
  {
    assert text[|text| - 1] == l.content[|l.content| - 1];
  }

  lemma AppendedText(ls: seq<Line>, text: seq<Byte>)
    requires WellFormed(ls) && TypedText(text) && Legal(Text(ls))
    ensures WellFormed(Appended(ls, text)) && Legal(Text(Appended(ls, text)))
    ensures Text(Appended(ls, text)) == Text(ls) + (if Text(ls) != [] && Text(ls)[|Text(ls)| - 1] != LF then NEWLINE else []) + text + NEWLINE
  {
    hide TypedText, Text, LineFits, Legal, WellFormed, AllClosed, Reclosed;
    var front, l := Reclosed(ls), Line(text, NEWLINE);
    ReclosedText(ls);
    TypedFits(text, NEWLINE, true);
    OneFits(l);
    ClosedThen(front, [l]);
    TextSnoc(front, l);
    EolLegal();
    TypedLegal(text);
    if Text(front) != Text(ls) { LegalConcat(Text(ls), NEWLINE); } else { assert Legal(Text(front)); }
    LegalConcat(Text(front), text);
    LegalConcat(Text(front) + text, NEWLINE);
    assert Text(front) + (text + NEWLINE) == Text(front) + text + NEWLINE;
  }

  /** The text before line k, after it, and from its terminator on, are legal by themselves. */
  lemma AroundLegal(ls: seq<Line>, k: nat)
    requires WellFormed(ls) && k < |ls| && Legal(Text(ls))
    ensures Legal(Text(ls[..k])) && Legal(Text(ls[k + 1..])) && Legal(ls[k].eol + Text(ls[k + 1..]))
  {
    hide Text, Legal, AllClosed, WellFormed, LineFits;
    TextAround(ls, k);
    FrontClosed(ls, k);
    ClosedEnds(ls[..k]);
    EmptyText();
    SplitAround(Text(ls), Text(ls[..k]), ls[k], Text(ls[k + 1..]), k + 1 == |ls|);
  }

  lemma SplitAround(s: seq<Byte>, a: seq<Byte>, l: Line, b: seq<Byte>, last: bool)
    requires Legal(s) && s == a + Whole(l) + b && LineFits(l, last) && (a == [] || a[|a| - 1] == LF)
    requires last ==> b == []
    ensures Legal(a) && Legal(b) && Legal(l.eol + b)
  {
    hide Legal;
    EolLegal();
    LegalSplits(s, |a|);
    assert s[..|a|] == a;
    if l.eol != [] {
      var n := |a + Whole(l)|;
      assert s[n - 1] == (a + Whole(l))[n - 1] == l.eol[|l.eol| - 1] == LF;
      LegalSplits(s, n);
      assert s[n..] == b;
      LegalConcat(l.eol, b);
    } else {
      assert l.eol + b == [];
    }
  }

  lemma ReplacedText(ls: seq<Line>, k: nat, text: seq<Byte>)
    requires WellFormed(ls) && TypedText(text) && k < |ls| && Legal(Text(ls))
    ensures WellFormed(Replaced(ls, k, text)) && Legal(Text(Replaced(ls, k, text)))
    ensures Text(Replaced(ls, k, text)) == Text(ls[..k]) + text + (ls[k].eol + Text(ls[k + 1..]))
  {
    hide TypedText, Text, LineFits, Legal, WellFormed, AllClosed;
    var l, front, rest := Line(text, ls[k].eol), ls[..k], ls[k + 1..];
    FrontClosed(ls, k);
    EmptyText();
    EolOf(ls[k], k + 1 == |ls|);
    if text == [] && ls[k].eol == [] {
      assert rest == [] && Replaced(ls, k, text) == front + [] == front;
      ClosedThen(front, []);
    } else {
      TypedFits(text, ls[k].eol, k + 1 == |ls|);
      TextSnoc(front, l);
      TextConcat(front + [l], rest);
      if rest == [] {
        OneFits(l);
        ClosedThen(front, [l]);
        assert front + [l] + rest == front + [l];
      } else {
        ClosedSnoc(front, l);
        ClosedThen(front + [l], rest);
      }
      assert Text(front) + Whole(l) + Text(rest) == Text(front) + text + (ls[k].eol + Text(rest));
    }
    AroundLegal(ls, k);
    TypedLegal(text);
    LegalConcat(Text(front), text);
    LegalConcat(Text(front) + text, ls[k].eol + Text(rest));
  }

  lemma EolOf(l: Line, last: bool)
    requires LineFits(l, last)
    ensures l.eol == NEWLINE || l.eol == CRLF || (l.eol == [] && last)
  {
  }

  lemma DeletedText(ls: seq<Line>, k: nat)
    requires WellFormed(ls) && k < |ls| && Legal(Text(ls))
    ensures WellFormed(Deleted(ls, k)) && Legal(Text(Deleted(ls, k)))
    ensures Text(Deleted(ls, k)) == Text(ls[..k]) + Text(ls[k + 1..])
  {
    hide Text, LineFits, Legal, WellFormed, AllClosed;
    FrontClosed(ls, k);
    ClosedThen(ls[..k], ls[k + 1..]);
    TextConcat(ls[..k], ls[k + 1..]);
    AroundLegal(ls, k);
    LegalConcat(Text(ls[..k]), Text(ls[k + 1..]));
  }

  /** The bytes around the content of line k. */
  lemma SpanOf(s: seq<Byte>, ls: seq<Line>, k: nat)
    requires k < |ls| && s == Text(ls)
    ensures var a, n := |Text(ls[..k])|, |ls[k].content|;
            && a + n + |ls[k].eol| <= |s| && s[..a] == Text(ls[..k])
            && s[a + n..] == ls[k].eol + Text(ls[k + 1..])
            && s[a + n + |ls[k].eol|..] == Text(ls[k + 1..])
  {
    hide Text;
    TextAround(ls, k);
  }

  predicate Overwritten(now: seq<Byte>, was: seq<Byte>, start: nat, text: seq<Byte>) {
    && start + |text| <= |was| == |now|
    && (forall k | start <= k < start + |text| :: now[k] == text[k - start])
    && (forall k | 0 <= k < start :: now[k] == was[k])
    && (forall k | start + |text| <= k < |was| :: now[k] == was[k])
  }

  lemma Spliced(was: seq<Byte>, moved: seq<Byte>, now: seq<Byte>, start: nat, count: nat, text: seq<Byte>, length: nat)
    requires start + count <= length <= |was| && length - count + |text| <= |was|
    requires Memory.Moved(moved, was, start + |text|, start + count, length - start - count)
    requires Overwritten(now, moved, start, text)
    ensures now[..length - count + |text|] == was[..length][..start] + text + was[..length][start + count..]
  {
    var r := was[..length][..start] + text + was[..length][start + count..];
    forall k | 0 <= k < |r|
      ensures now[k] == r[k]
    {
    }
  }

  // ----- the draft

  /** draft_move: a simultaneous copy, whatever the overlap. */
  method DraftMove(draft: array<Byte>, source: nat, destination: nat, length: nat)
    requires source + length <= draft.Length && destination + length <= draft.Length
    modifies draft
    ensures Memory.Moved(draft[..], old(draft[..]), destination, source, length)
  {
    if length == 0 || source == destination {
      return;
    }
    ghost var was := draft[..];
    if destination < source {
      for i := 0 to length
        invariant Memory.Moved(draft[..], was, destination, source, i)
      {
        draft[destination + i] := draft[source + i];
      }
    } else {
      for i := length downto 0
        invariant Memory.Moved(draft[..], was, destination + i, source + i, length - i)
      {
        draft[destination + i] := draft[source + i];
      }
    }
  }

  /** The inner scan of editor_find_line: the line that begins at `start`. */
  method ScanLine(text: seq<Byte>, start: nat) returns (length: nat, eol: nat, next: nat)
    requires start < |text|
    ensures length == |FirstLine(text[start..]).content| && eol == |FirstLine(text[start..]).eol|
    ensures next == start + length + eol <= |text|
  {
    var position := start;
    while position < |text| && text[position] != LF
      invariant start <= position <= |text|
      invariant forall k | start <= k < position :: text[k] != LF
    {
      position := position + 1;
    }
    ghost var rest := text[start..];
    assert forall k | 0 <= k < position - start :: rest[k] == text[start + k];
    assert position - start == IndexFrom(rest, LF, 0);
    LineParts(rest);
    var contentEnd := position;
    eol := 0;
    if position < |text| {
      eol := 1;
      if contentEnd > start && text[contentEnd - 1] == CR {
        contentEnd := contentEnd - 1;
        eol := 2;
      }
      position := position + 1;
    }
    length := contentEnd - start;
    next := position;
  }

  /** editor_find_line: the span of line `number`, counted from 1. */
  method FindLine(text: seq<Byte>, number: nat) returns (found: bool, start: nat, length: nat, eol: nat)
    ensures found <==> 1 <= number <= |LinesOf(text)|
    ensures found ==> Spans(text, number - 1, start, length, eol)
  {
    hide Text, LinesOf, FirstLine, LinesBefore, Spans;
    found, start, length, eol := false, 0, 0, 0;
    if number == 0 {
      return;
    }
    var index: nat, position: nat := 0, 0;
    NoLineYet(text);
    while position < |text|
      invariant index < number && position <= |text| && LinesBefore(text, index, position)
      decreases |text| - position
    {
      NextLine(text, index, position);
      ghost var k := index;
      index := index + 1;
      start := position;
      length, eol, position := ScanLine(text, start);
      if index == number {
        LineSpans(text, k, start, length, eol);
        found := true;
        return;
      }
    }
    NoLineLeft(text, index, position);
  }

  /** Line k of the text lies at `start` and has these lengths. */
  ghost predicate Spans(text: seq<Byte>, k: nat, start: nat, length: nat, eol: nat) {
    && k < |LinesOf(text)| && start == |Text(LinesOf(text)[..k])|
    && length == |LinesOf(text)[k].content| && eol == |LinesOf(text)[k].eol|
  }

  lemma LineSpans(text: seq<Byte>, k: nat, start: nat, length: nat, eol: nat)
    requires k < |LinesOf(text)| && start == |Text(LinesOf(text)[..k])| && start <= |text|
    requires LinesOf(text)[k] == FirstLine(text[start..])
    requires length == |FirstLine(text[start..]).content| && eol == |FirstLine(text[start..]).eol|
    ensures Spans(text, k, start, length, eol)
  {
    hide LinesOf, Text, FirstLine;
  }

  /** The first `index` lines of the text end at `position`. */
  ghost predicate LinesBefore(text: seq<Byte>, index: nat, position: nat) {
    && index <= |LinesOf(text)| && position <= |text| && position == |Text(LinesOf(text)[..index])|
    && LinesOf(text[position..]) == LinesOf(text)[index..]
  }

  lemma NoLineYet(text: seq<Byte>)
    ensures LinesBefore(text, 0, 0)
  {
    hide LinesOf;
    var ls := LinesOf(text);
    assert text[0..] == text && ls[0..] == ls && ls[..0] == [];
  }

  lemma NoLineLeft(text: seq<Byte>, index: nat, position: nat)
    requires LinesBefore(text, index, position) && position == |text|
    ensures index == |LinesOf(text)|
  {
    hide LinesOf, Text;
    assert text[position..] == [];
    NoText();
  }

  lemma NextLine(text: seq<Byte>, index: nat, position: nat)
    requires LinesBefore(text, index, position) && position < |text|
    ensures index < |LinesOf(text)| && LinesOf(text)[index] == FirstLine(text[position..])
    ensures position == |Text(LinesOf(text)[..index])|
    ensures var l := FirstLine(text[position..]);
            var next := position + |l.content| + |l.eol|;
            position < next <= |text| && LinesBefore(text, index + 1, next)
  {
    hide Text, LinesOf, FirstLine;
    var ls := LinesOf(text);
    var rest := text[position..];
    LinesStep(rest);
    FirstLineWhole(rest);
    var n := |Whole(FirstLine(rest))|;
    assert ls[index] == FirstLine(rest) && ls[index + 1..] == ls[index..][1..];
    assert ls[..index + 1] == ls[..index] + [ls[index]];
    TextSnoc(ls[..index], ls[index]);
    assert text[position + n..] == rest[n..];
  }

  lemma NoText()
    ensures LinesOf([]) == []
  {
  }

  lemma LinesStep(s: seq<Byte>)
    requires s != []
    ensures |Whole(FirstLine(s))| <= |s|
    ensures LinesOf(s) == [FirstLine(s)] + LinesOf(s[|Whole(FirstLine(s))|..])
  {
    FirstLineWhole(s);
  }

  lemma LineParts(s: seq<Byte>)
    requires s != []
    ensures var e := IndexFrom(s, LF, 0);
            && (e == |s| ==> |FirstLine(s).content| == e && |FirstLine(s).eol| == 0)
            && (e < |s| && e > 0 && s[e - 1] == CR ==> |FirstLine(s).content| == e - 1 && |FirstLine(s).eol| == 2)
            && (e < |s| && !(e > 0 && s[e - 1] == CR) ==> |FirstLine(s).content| == e && |FirstLine(s).eol| == 1)
  {
  }

  /** What appending a line costs: the separator a draft without a final LF needs, the text, the closing LF. */
  function Charge(was: seq<Byte>, text: seq<Byte>): nat {
    (if was != [] && was[|was| - 1] != LF then 1 else 0) + |text| + 1
  }

  class Draft {
    const draft: array<Byte>
    var length: nat

    ghost predicate Valid()
      reads this, draft
    {
      draft.Length == CAPACITY && length <= CAPACITY && Legal(draft[..length])
    }

    function Contents(): seq<Byte>
      reads this, draft
      requires Valid()
    {
      draft[..length]
    }

    constructor ()
      ensures Valid() && Contents() == [] && fresh(draft)
    {
      draft := new Byte[CAPACITY];
      length := 0;
      new;
      EolLegal();
      assert draft[..0] == [];
    }

    /** run_append */
    method Append(text: seq<Byte>) returns (r: Result)
      requires Valid()
      modifies `length, draft
      ensures Valid()
      ensures r == Ok ==> LinesOf(Contents()) == Appended(LinesOf(old(Contents())), text)
      ensures r != Ok ==> Contents() == old(Contents())
      ensures r == if |old(Contents())| + Charge(old(Contents()), text) > CAPACITY then TooLarge
                   else if !TypedText(text) then InvalidText else Ok
    {
      hide Legal, TypedText, LinesOf, Text, WellFormed;
      var separator := length > 0 && draft[length - 1] != LF;
      var added := (if separator then 1 else 0) + |text| + 1;
      if added > CAPACITY - length {
        return TooLarge;
      }
      var valid := TextIsValid(text);
      if !valid {
        return InvalidText;
      }
      ghost var was := Contents();
      ghost var ls := LinesOf(was);
      LinesSpell(was);
      AppendedText(ls, text);
      LinesUnique(Appended(ls, text));
      Write(text, separator);
      return Ok;
    }

    method Write(text: seq<Byte>, separator: bool)
      requires draft.Length == CAPACITY && length + (if separator then 1 else 0) + |text| + 1 <= CAPACITY
      modifies `length, draft
      ensures length <= CAPACITY
      ensures draft[..length] == old(draft[..length]) + (if separator then NEWLINE else []) + text + NEWLINE
    {
      ghost var was := draft[..length];
      var at := length;
      if separator {
        draft[at] := LF;
        at := at + 1;
      }
      ghost var start := was + (if separator then NEWLINE else []);
      for i := 0 to |text|
        invariant length == old(length) && draft[..at + i] == start + text[..i]
      {
        draft[at + i] := text[i];
        assert text[..i + 1] == text[..i] + [text[i]];
      }
      assert text[..|text|] == text;
      at := at + |text|;
      draft[at] := LF;
      at := at + 1;
      length := at;
    }

    /** run_replace */
    method Replace(number: nat, text: seq<Byte>) returns (r: Result)
      requires Valid()
      modifies `length, draft
      ensures Valid()
      ensures r == OutOfRange <==> !(1 <= number <= |LinesOf(old(Contents()))|)
      ensures r == Ok ==> LinesOf(Contents()) == Replaced(LinesOf(old(Contents())), number - 1, text)
      ensures r != Ok ==> Contents() == old(Contents())
      ensures r != OutOfRange ==> r == if |old(Contents())| - |LinesOf(old(Contents()))[number - 1].content| + |text| > CAPACITY
                                       then TooLarge else if !TypedText(text) then InvalidText else Ok
    {
      hide Legal, TypedText, LinesOf, Text, WellFormed, Replaced;
      ghost var was := Contents();
      ghost var ls := LinesOf(was);
      LinesSpell(was);
      var found, start, count, eol := FindLine(draft[..length], number);
      if !found {
        return OutOfRange;
      }
      SpanOf(was, ls, number - 1);
      var newLength := length - count + |text|;
      if newLength > CAPACITY {
        return TooLarge;
      }
      var valid := TextIsValid(text);
      if !valid {
        return InvalidText;
      }
      ReplacedText(ls, number - 1, text);
      LinesUnique(Replaced(ls, number - 1, text));
      Substitute(start, count, text);
      assert draft[..length] == Text(Replaced(ls, number - 1, text));
      return Ok;
    }

    method WriteText(start: nat, text: seq<Byte>)
      requires start + |text| <= draft.Length
      modifies draft
      ensures Overwritten(draft[..], old(draft[..]), start, text)
    {
      ghost var was := draft[..];
      for i := 0 to |text|
        invariant Overwritten(draft[..], was, start, text[..i])
      {
        draft[start + i] := text[i];
        assert text[..i + 1] == text[..i] + [text[i]];
      }
      assert text[..|text|] == text;
    }

    /** The move of the tail and the write of the new content. */
    method Substitute(start: nat, count: nat, text: seq<Byte>)
      requires draft.Length == CAPACITY && start + count <= length <= CAPACITY && length - count + |text| <= CAPACITY
      modifies `length, draft
      ensures length == old(length) - count + |text|
      ensures draft[..length] == old(draft[..length])[..start] + text + old(draft[..length])[start + count..]
    {
      hide Memory.Moved, Overwritten;
      ghost var was := draft[..];
      var tailStart := start + count;
      var tailLength := length - tailStart;
      DraftMove(draft, tailStart, start + |text|, tailLength);
      ghost var moved := draft[..];
      WriteText(start, text);
      Spliced(was, moved, draft[..], start, count, text, length);
      length := length - count + |text|;
      assert draft[..length] == draft[..][..length];
    }

    /** run_delete */
    method Delete(number: nat) returns (r: Result)
      requires Valid()
      modifies `length, draft
      ensures Valid() && r == (if 1 <= number <= |LinesOf(old(Contents()))| then Ok else OutOfRange)
      ensures r == Ok ==> LinesOf(Contents()) == Deleted(LinesOf(old(Contents())), number - 1)
      ensures r != Ok ==> Contents() == old(Contents())
    {
      hide Legal, LinesOf, Text, WellFormed, Deleted;
      ghost var was := Contents();
      ghost var ls := LinesOf(was);
      LinesSpell(was);
      var found, start, count, eol := FindLine(draft[..length], number);
      if !found {
        return OutOfRange;
      }
      SpanOf(was, ls, number - 1);
      DeletedText(ls, number - 1);
      LinesUnique(Deleted(ls, number - 1));
      Remove(start, start + count + eol);
      assert draft[..length] == Text(Deleted(ls, number - 1));
      return Ok;
    }

    method Remove(from: nat, to: nat)
      requires draft.Length == CAPACITY && from <= to <= length <= CAPACITY
      modifies `length, draft
      ensures length == old(length) - (to - from)
      ensures draft[..length] == old(draft[..length])[..from] + old(draft[..length])[to..]
    {
      ghost var was := draft[..];
      var tailLength := length - to;
      DraftMove(draft, to, from, tailLength);
      length := from + tailLength;
      assert draft[..length] == was[..from] + was[to..to + tailLength];
    }
  }
}
