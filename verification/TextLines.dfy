/** A text as a list of lines, each with the bytes that end it, and how legal text splits at lines. */
module TextLines {
  import opened Bytes
  import opened Utf8
  import opened LegalText

  datatype Line = Line(content: seq<Byte>, eol: seq<Byte>)

  const NEWLINE: seq<Byte> := [LF]
  const CRLF: seq<Byte> := [CR, LF]

  function Whole(l: Line): seq<Byte> {
    l.content + l.eol
  }

  function Text(ls: seq<Line>): seq<Byte> {
    if ls == [] then [] else Whole(ls[0]) + Text(ls[1..])
  }

  /** The line that s begins with. */
  function FirstLine(s: seq<Byte>): Line {
    var e := IndexFrom(s, LF, 0);
    if e == |s| then Line(s, [])
    else if e > 0 && s[e - 1] == CR then Line(s[..e - 1], CRLF)
    else Line(s[..e], NEWLINE)
  }

  lemma FirstLineWhole(s: seq<Byte>)
    requires s != []
    ensures Whole(FirstLine(s)) != [] && Whole(FirstLine(s)) <= s
    ensures IndexFrom(s, LF, 0) < |s| ==> |Whole(FirstLine(s))| == IndexFrom(s, LF, 0) + 1
    ensures IndexFrom(s, LF, 0) == |s| ==> Whole(FirstLine(s)) == s
  {
    var e := IndexFrom(s, LF, 0);
    if e < |s| { assert Whole(FirstLine(s)) == s[..e + 1]; }
  }

  function LinesOf(s: seq<Byte>): seq<Line> {
    if s == [] then []
    else
      FirstLineWhole(s);
      [FirstLine(s)] + LinesOf(s[|Whole(FirstLine(s))|..])
  }

  /** An unterminated line is the last one and not empty; a plain LF never follows a CR. */
  predicate LineFits(l: Line, last: bool) {
    && LF !in l.content
    && (l.eol == NEWLINE || l.eol == CRLF || (l.eol == [] && last && l.content != []))
    && (l.eol == NEWLINE && l.content != [] ==> l.content[|l.content| - 1] != CR)
  }

  predicate WellFormed(ls: seq<Line>) {
    forall k | 0 <= k < |ls| :: LineFits(ls[k], k + 1 == |ls|)
  }

  lemma FirstLineFits(s: seq<Byte>)
    requires s != []
    ensures LineFits(FirstLine(s), |Whole(FirstLine(s))| == |s|)
  {
    FirstLineWhole(s);
  }

  lemma LaterFits(l: Line, more: seq<Line>)
    requires WellFormed(more) && LineFits(l, more == [])
    ensures WellFormed([l] + more)
  {
    hide LineFits;
    var ls := [l] + more;
    forall k | 0 <= k < |ls|
      ensures LineFits(ls[k], k + 1 == |ls|)
    {
      if k > 0 { assert LineFits(more[k - 1], k == |more|); }
    }
  }

  /** Splitting a text gives well-formed lines that spell it. */
  lemma {:induction false} LinesSpell(s: seq<Byte>)
    ensures Text(LinesOf(s)) == s && WellFormed(LinesOf(s))
  {
    hide Whole, FirstLine, LineFits, WellFormed;
    if s != [] {
      FirstLineWhole(s);
      FirstLineFits(s);
      var n := |Whole(FirstLine(s))|;
      LinesSpell(s[n..]);
      LaterFits(FirstLine(s), LinesOf(s[n..]));
      assert LinesOf(s)[1..] == LinesOf(s[n..]) && s == s[..n] + s[n..];
    } else {
      assert WellFormed([]) by { NoLines(); }
    }
  }

  lemma NoLines()
    ensures WellFormed([])
  {
  }

  lemma FirstOf(l: Line, rest: seq<Byte>, last: bool)
    requires LineFits(l, last) && (l.eol == [] ==> rest == [])
    ensures FirstLine(Whole(l) + rest) == l
  {
    var s := Whole(l) + rest;
    var e := IndexFrom(s, LF, 0);
    assert forall k | 0 <= k < |l.content| :: s[k] == l.content[k];
    if l.eol == NEWLINE {
      assert s[|l.content|] == LF;
    } else if l.eol == CRLF {
      assert s[|l.content|] == CR && s[|l.content| + 1] == LF;
    }
  }

  /** There is one way only to split a text into lines. */
  lemma {:induction false} LinesUnique(ls: seq<Line>)
    requires WellFormed(ls)
    ensures LinesOf(Text(ls)) == ls
  {
    if ls != [] {
      var l, more := ls[0], ls[1..];
      assert LineFits(l, 1 == |ls|);
      forall k | 0 <= k < |more|
        ensures LineFits(more[k], k + 1 == |more|)
      {
        assert more[k] == ls[k + 1];
      }
      LinesUnique(more);
      FirstOf(l, Text(more), |ls| == 1);
      var s := Text(ls);
      assert s == Whole(l) + Text(more) && s[|Whole(l)|..] == Text(more);
    }
  }

  lemma {:induction false} TextConcat(a: seq<Line>, b: seq<Line>)
    ensures Text(a + b) == Text(a) + Text(b)
  {
    hide Whole;
    if a == [] {
      assert a + b == b;
    } else {
      TextConcat(a[1..], b);
      assert (a + b)[1..] == a[1..] + b;
      assert Whole(a[0]) + (Text(a[1..]) + Text(b)) == Whole(a[0]) + Text(a[1..]) + Text(b);
    }
  }

  /** The text around line k. */
  lemma TextAround(ls: seq<Line>, k: nat)
    requires k < |ls|
    ensures Text(ls) == Text(ls[..k]) + Whole(ls[k]) + Text(ls[k + 1..])
  {
    TextConcat(ls[..k], ls[k..]);
    assert ls[..k] + ls[k..] == ls && ls[k..][1..] == ls[k + 1..];
  }

  lemma TextSnoc(ls: seq<Line>, l: Line)
    ensures Text(ls + [l]) == Text(ls) + Whole(l)
  {
    TextConcat(ls, [l]);
    assert [l][1..] == [] && Text([]) == [] && Text([l]) == Whole(l) + Text([l][1..]);
  }

  /** Lines that each end with their own terminator. */
  predicate AllClosed(ls: seq<Line>) {
    forall k | 0 <= k < |ls| :: LineFits(ls[k], false)
  }

  lemma FrontClosed(ls: seq<Line>, k: nat)
    requires WellFormed(ls) && k < |ls|
    ensures AllClosed(ls[..k]) && WellFormed(ls[k + 1..]) && LineFits(ls[k], k + 1 == |ls|)
  {
    hide LineFits;
    forall j | 0 <= j < k
      ensures LineFits(ls[..k][j], false)
    {
      assert LineFits(ls[j], j + 1 == |ls|);
    }
    var tail := ls[k + 1..];
    forall j | 0 <= j < |tail|
      ensures LineFits(tail[j], j + 1 == |tail|)
    {
      assert LineFits(ls[k + 1 + j], k + 2 + j == |ls|);
    }
    assert LineFits(ls[k], k + 1 == |ls|);
  }

  lemma ClosedThen(a: seq<Line>, b: seq<Line>)
    requires AllClosed(a) && WellFormed(b)
    ensures WellFormed(a + b)
  {
    var ls := a + b;
    forall k | 0 <= k < |ls|
      ensures LineFits(ls[k], k + 1 == |ls|)
    {
      if k < |a| {
        assert LineFits(a[k], false);
      } else {
        assert LineFits(b[k - |a|], k - |a| + 1 == |b|);
      }
    }
  }

  lemma ClosedSnoc(a: seq<Line>, l: Line)
    requires AllClosed(a) && LineFits(l, false)
    ensures AllClosed(a + [l])
  {
  }

  lemma {:induction false} ClosedEnds(ls: seq<Line>)
    requires AllClosed(ls)
    ensures Text(ls) == [] <==> ls == []
    ensures ls != [] ==> Text(ls)[|Text(ls)| - 1] == LF
  {
    if ls != [] {
      var n := |ls| - 1;
      assert ls == ls[..n] + [ls[n]] && LineFits(ls[n], false);
      TextSnoc(ls[..n], ls[n]);
    }
  }

  // ----- legal text splits at line ends

  lemma LfAlone(v: Scalar, k: nat)
    requires k < |Encode(v)| && Encode(v)[k] == LF
    ensures v == LF && k + 1 == |Encode(v)|
  {
    EncodeShape(v);
  }

  lemma OneScalar(vs: seq<Scalar>)
    requires vs != []
    ensures EncodeAll(vs[..1]) == Encode(vs[0])
  {
    assert vs[..1] == [vs[0]] && [vs[0]][1..] == [];
  }

  lemma {:induction false} SplitAtLf(vs: seq<Scalar>, k: nat) returns (j: nat)
    requires 0 < k <= |EncodeAll(vs)| && EncodeAll(vs)[k - 1] == LF
    ensures 0 < j <= |vs| && EncodeAll(vs[..j]) == EncodeAll(vs)[..k] && vs[j - 1] == LF
  {
    hide Encode;
    var s, e := EncodeAll(vs), Encode(vs[0]);
    assert s == e + EncodeAll(vs[1..]);
    hide EncodeAll;
    if k <= |e| {
      assert s[k - 1] == e[k - 1];
      LfAlone(vs[0], k - 1);
      OneScalar(vs);
      j := 1;
    } else {
      assert EncodeAll(vs[1..])[k - |e| - 1] == s[k - 1];
      var i := SplitAtLf(vs[1..], k - |e|);
      j := i + 1;
      OneScalar(vs);
      EncodeAllConcat(vs[..1], vs[1..][..i]);
      assert vs[..j] == vs[..1] + vs[1..][..i];
      assert s[..k] == e + EncodeAll(vs[1..])[..k - |e|];
    }
  }

  lemma PartsLegal(vs: seq<Scalar>, j: nat)
    requires LegalScalars(vs) && j <= |vs| && (j == 0 || vs[j - 1] == LF)
    ensures LegalScalars(vs[..j]) && LegalScalars(vs[j..])
  {
    hide Allowed;
    var a, b := vs[..j], vs[j..];
    forall i | 0 <= i < |b|
      ensures Allowed(b[i]) && (b[i] == CR && i + 1 < |b| ==> b[i + 1] == LF)
    {
      assert b[i] == vs[j + i] && (i + 1 < |b| ==> b[i + 1] == vs[j + i + 1]);
    }
    if b != [] { assert b[|b| - 1] == vs[|vs| - 1]; }
  }

  lemma LegalSplits(s: seq<Byte>, k: nat)
    requires Legal(s) && k <= |s| && (k == 0 || s[k - 1] == LF)
    ensures Legal(s[..k]) && Legal(s[k..])
  {
    hide Encode, LegalScalars;
    var vs: seq<Scalar> :| EncodeAll(vs) == s && LegalScalars(vs);
    var j := 0;
    if k > 0 { j := SplitAtLf(vs, k); }
    PartsLegal(vs, j);
    EncodeAllConcat(vs[..j], vs[j..]);
    assert vs[..j] + vs[j..] == vs;
    assert EncodeAll(vs[..j]) == s[..k];
    hide EncodeAll;
    assert EncodeAll(vs[j..]) == s[k..];
  }

  lemma EolLegal()
    ensures Legal([]) && Legal(NEWLINE) && Legal(CRLF)
  {
    EncodeAllAscii(LF);
    EncodeAllAscii(CR);
    assert EncodeAll([]) == [] && LegalScalars([]);
    assert EncodeAll([LF as Scalar]) == NEWLINE by { assert [LF as Scalar][1..] == []; }
    assert LegalScalars([LF as Scalar]);
    assert EncodeAll([CR as Scalar, LF as Scalar]) == CRLF by {
      assert [CR as Scalar, LF as Scalar][1..] == [LF as Scalar] && [LF as Scalar][1..] == [];
    }
    assert LegalScalars([CR as Scalar, LF as Scalar]);
  }

  lemma LegalNoCrEnd(s: seq<Byte>)
    requires Legal(s) && s != []
    ensures s[|s| - 1] != CR
  {
    hide Encode;
    var vs: seq<Scalar> :| EncodeAll(vs) == s && LegalScalars(vs);
    var n := |vs| - 1;
    EncodeAllConcat(vs[..n], [vs[n]]);
    assert vs == vs[..n] + [vs[n]] && [vs[n]][1..] == [];
    assert s[|s| - 1] == Encode(vs[n])[|Encode(vs[n])| - 1];
    LastByte(vs[n]);
  }

  lemma LastByte(v: Scalar)
    requires v != CR
    ensures Encode(v)[|Encode(v)| - 1] != CR
  {
    EncodeShape(v);
  }
}
