/** The block and reference grammar of os/note_blocks_format.c, defined on whole bodies. */
module BlockGrammar {
  import opened Bytes

  const ID_MAX: nat := 31
  const NAME_MAX: nat := 31
  const BLOCK_MAX: nat := 64

  const OPEN: Byte := '[' as int
  const CLOSE: Byte := ']' as int
  const HASH: Byte := '#' as int
  const DOT: Byte := '.' as int
  const SPACE: Byte := ' ' as int

  predicate IdByte(b: Byte) {
    Word(b) || b == '-' as int
  }

  predicate NameByte(b: Byte) {
    IdByte(b) || b == DOT
  }

  /** yan_block_id_valid */
  predicate IdValid(s: seq<Byte>) {
    1 <= |s| <= ID_MAX && forall i | 0 <= i < |s| :: IdByte(s[i])
  }

  /** yan_note_name_valid */
  predicate NameValid(s: seq<Byte>) {
    1 <= |s| <= NAME_MAX && s != [DOT] && s != [DOT, DOT] && forall i | 0 <= i < |s| :: NameByte(s[i])
  }

  /** The bytes of an ID are the letters, digits, the underscore and the hyphen; a name may also hold dots. None of
      them is a bracket or the hash, so a reference has one reading. */
  lemma Alphabet(b: Byte)
    ensures IdByte(b) <==> b in {
              45, 48, 49, 50, 51, 52, 53, 54, 55, 56, 57, 65, 66, 67, 68, 69, 70, 71, 72, 73, 74, 75,
              76, 77, 78, 79, 80, 81, 82, 83, 84, 85, 86, 87, 88, 89, 90, 95, 97, 98, 99, 100, 101, 102,
              103, 104, 105, 106, 107, 108, 109, 110, 111, 112, 113, 114, 115, 116, 117, 118, 119, 120, 121, 122}
    ensures NameByte(b) <==> IdByte(b) || b == 46
    ensures NameByte(b) ==> b != OPEN && b != CLOSE && b != HASH && b != LF
  {
  }

  // ----- references

  function ReferenceText(name: seq<Byte>, id: seq<Byte>): seq<Byte> {
    [OPEN, OPEN] + name + [HASH] + id + [CLOSE, CLOSE]
  }

  /** s ends with the legal reference [[name#id]]. */
  predicate EndsReference(s: seq<Byte>, name: seq<Byte>, id: seq<Byte>) {
    var r := ReferenceText(name, id);
    NameValid(name) && IdValid(id) && |r| <= |s| && s[|s| - |r|..] == r
  }

  /** How far a byte string has got towards a reference. */
  datatype Shape = Dead | Empty | Open | Name(name: seq<Byte>) | Id(name: seq<Byte>, id: seq<Byte>)
                 | Close(name: seq<Byte>, id: seq<Byte>) | Done(name: seq<Byte>, id: seq<Byte>)

  function Next(shape: Shape, b: Byte): Shape {
    match shape
    case Empty => if b == OPEN then Open else Dead
    case Open => if b == OPEN then Name([]) else Dead
    case Name(n) =>
      if NameByte(b) && |n| < NAME_MAX then Name(n + [b])
      else if b == HASH && NameValid(n) then Id(n, [])
      else Dead
    case Id(n, i) =>
      if IdByte(b) && |i| < ID_MAX then Id(n, i + [b])
      else if b == CLOSE && i != [] then Close(n, i)
      else Dead
    case Close(n, i) => if b == CLOSE then Done(n, i) else Dead
    case _ => Dead
  }

  function ShapeOf(u: seq<Byte>): Shape {
    if u == [] then Empty else Next(ShapeOf(u[..|u| - 1]), u[|u| - 1])
  }

  predicate Alive(shape: Shape) {
    shape.Open? || shape.Name? || shape.Id? || shape.Close?
  }

  /** The bytes behind a shape. */
  predicate Spells(u: seq<Byte>, shape: Shape) {
    match shape
    case Empty => u == []
    case Open => u == [OPEN]
    case Name(n) => u == [OPEN, OPEN] + n && |n| <= NAME_MAX && (forall k | 0 <= k < |n| :: NameByte(n[k]))
    case Id(n, i) =>
      && u == [OPEN, OPEN] + n + [HASH] + i && NameValid(n)
      && |i| <= ID_MAX && (forall k | 0 <= k < |i| :: IdByte(i[k]))
    case Close(n, i) => u == [OPEN, OPEN] + n + [HASH] + i + [CLOSE] && NameValid(n) && IdValid(i)
    case Done(n, i) => u == ReferenceText(n, i) && NameValid(n) && IdValid(i)
    case Dead => true
  }

  lemma {:induction false} ShapeSpells(u: seq<Byte>)
    ensures Spells(u, ShapeOf(u))
  {
    if u != [] {
      var p := u[..|u| - 1];
      ShapeSpells(p);
      assert u == p + [u[|u| - 1]];
    }
  }

  lemma ShapeSnoc(u: seq<Byte>, b: Byte)
    ensures ShapeOf(u + [b]) == Next(ShapeOf(u), b)
  {
    assert (u + [b])[..|u|] == u;
  }

  lemma {:induction false} ShapeName(n: seq<Byte>)
    requires |n| <= NAME_MAX && forall k | 0 <= k < |n| :: NameByte(n[k])
    ensures ShapeOf([OPEN, OPEN] + n) == Name(n)
  {
    if n == [] {
      ShapeSnoc([], OPEN);
      ShapeSnoc([OPEN], OPEN);
      assert [] + [OPEN] == [OPEN] && [OPEN] + [OPEN] == [OPEN, OPEN] == [OPEN, OPEN] + n;
    } else {
      var m := n[..|n| - 1];
      ShapeName(m);
      ShapeSnoc([OPEN, OPEN] + m, n[|n| - 1]);
      assert [OPEN, OPEN] + m + [n[|n| - 1]] == [OPEN, OPEN] + n;
      assert m + [n[|n| - 1]] == n;
    }
  }

  lemma {:induction false} ShapeId(n: seq<Byte>, i: seq<Byte>)
    requires NameValid(n) && |i| <= ID_MAX && forall k | 0 <= k < |i| :: IdByte(i[k])
    ensures ShapeOf([OPEN, OPEN] + n + [HASH] + i) == Id(n, i)
  {
    if i == [] {
      ShapeName(n);
      ShapeSnoc([OPEN, OPEN] + n, HASH);
      assert [OPEN, OPEN] + n + [HASH] + i == [OPEN, OPEN] + n + [HASH];
    } else {
      var j := i[..|i| - 1];
      ShapeId(n, j);
      ShapeSnoc([OPEN, OPEN] + n + [HASH] + j, i[|i| - 1]);
      assert [OPEN, OPEN] + n + [HASH] + j + [i[|i| - 1]] == [OPEN, OPEN] + n + [HASH] + i;
      assert j + [i[|i| - 1]] == i;
    }
  }

  lemma ShapeDone(n: seq<Byte>, i: seq<Byte>)
    requires NameValid(n) && IdValid(i)
    ensures ShapeOf(ReferenceText(n, i)) == Done(n, i)
  {
    assert !IdByte(CLOSE);
    hide ShapeOf, NameByte, IdByte;
    var b := [OPEN, OPEN] + n + [HASH] + i;
    ShapeId(n, i);
    ShapeSnoc(b, CLOSE);
    ShapeSnoc(b + [CLOSE], CLOSE);
    assert b + [CLOSE] + [CLOSE] == ReferenceText(n, i);
  }

  /** The strict automaton accepts exactly the legal references. */
  lemma DoneIffReference(u: seq<Byte>, n: seq<Byte>, i: seq<Byte>)
    ensures ShapeOf(u) == Done(n, i) <==> NameValid(n) && IdValid(i) && u == ReferenceText(n, i)
  {
    hide ShapeOf, NameValid, IdValid, ReferenceText;
    ShapeSpells(u);
    if NameValid(n) && IdValid(i) && u == ReferenceText(n, i) { ShapeDone(n, i); }
  }

  /** An opening bracket stands only at the first two places of a live string. */
  lemma Brackets(u: seq<Byte>, k: nat)
    requires Alive(ShapeOf(u)) && k < |u|
    ensures u[0] == OPEN && (|u| >= 2 ==> u[1] == OPEN) && (k >= 2 ==> u[k] != OPEN && u[k] != LF)
  {
    ShapeSpells(u);
    hide ShapeOf;
    assert !NameByte(OPEN) && !IdByte(OPEN) && !NameByte(LF) && !IdByte(LF);
    match ShapeOf(u) {
      case Open =>
      case Name(n) => if k >= 2 { assert u[k] == n[k - 2]; }
      case Id(n, i) => InName(u, n, i, k);
      case Close(n, i) =>
        InName(u[..|u| - 1], n, i, if k < |u| - 1 then k else 0);
        assert u[..|u| - 1] == [OPEN, OPEN] + n + [HASH] + i;
    }
  }

  lemma InName(u: seq<Byte>, n: seq<Byte>, i: seq<Byte>, k: nat)
    requires u == [OPEN, OPEN] + n + [HASH] + i && k < |u|
    requires forall j | 0 <= j < |n| :: NameByte(n[j])
    requires forall j | 0 <= j < |i| :: IdByte(i[j])
    ensures u[0] == OPEN && u[1] == OPEN && (k >= 2 ==> u[k] != OPEN && u[k] != LF)
  {
    assert !NameByte(OPEN) && !IdByte(OPEN) && !NameByte(LF) && !IdByte(LF);
    if 2 <= k < 2 + |n| { assert u[k] == n[k - 2]; }
    if k > 2 + |n| { assert u[k] == i[k - 3 - |n|]; }
  }

  /** Two suffixes are alive at once only as "[[" and its second bracket. */
  lemma OneAlive(u: seq<Byte>, s: nat)
    requires Alive(ShapeOf(u)) && 0 < s < |u| && Alive(ShapeOf(u[s..]))
    ensures s == 1 && u == [OPEN, OPEN]
  {
    hide ShapeOf;
    Brackets(u[s..], if |u| - s >= 2 then 1 else 0);
    assert u[s..][0] == u[s];
    Brackets(u, s);
    if |u| > 2 {
      assert u[s..][1] == u[2];
      Brackets(u, 2);
    }
  }

  /** No reference contains an LF, so each lies within one line. */
  lemma ReferenceInLine(s: seq<Byte>, name: seq<Byte>, id: seq<Byte>, k: nat)
    requires EndsReference(s, name, id) && |s| - |ReferenceText(name, id)| <= k < |s|
    ensures s[k] != LF
  {
    var r := ReferenceText(name, id);
    var j := k - (|s| - |r|);
    assert s[k] == r[j];
    var u := r[..|r| - 2];
    assert u == [OPEN, OPEN] + name + [HASH] + id;
    if j < |u| { InName(u, name, id, j); assert r[j] == u[j]; }
  }

  // ----- the earliest live suffix

  /** `start` begins the earliest suffix of s that may still grow into a reference (|s| when there
      is none), and `shape` says how far that suffix has got. */
  ghost predicate Tracked(s: seq<Byte>, shape: Shape, start: nat) {
    && start <= |s|
    && ShapeOf(s[start..]) == shape
    && (if shape.Empty? then start == |s| else Alive(shape))
    && (forall j | 0 <= j < start :: !LiveAt(s, j))
  }

  ghost predicate LiveAt(s: seq<Byte>, j: nat)
    requires j <= |s|
  {
    Alive(ShapeOf(s[j..]))
  }

  lemma LiveSnoc(s: seq<Byte>, j: nat, b: Byte)
    requires j <= |s|
    ensures ShapeOf((s + [b])[j..]) == Next(ShapeOf(s[j..]), b)
  {
    hide Next;
    assert (s + [b])[j..] == s[j..] + [b];
    ShapeSnoc(s[j..], b);
  }

  /** What dies stays dead. */
  lemma DeadSnoc(s: seq<Byte>, j: nat, b: Byte)
    requires j < |s| && !LiveAt(s, j)
    ensures !LiveAt(s + [b], j)
  {
    ShapeSpells(s[j..]);
    LiveSnoc(s, j, b);
  }

  lemma NewSuffix(s: seq<Byte>, b: Byte)
    ensures LiveAt(s + [b], |s|) <==> b == OPEN
    ensures b == OPEN ==> ShapeOf((s + [b])[|s|..]) == Open
  {
    assert s[|s|..] == [];
    LiveSnoc(s, |s|, b);
  }

  /** A suffix inside a live one dies with the next byte, unless it is the second bracket. */
  lemma InnerSnoc(s: seq<Byte>, start: nat, j: nat, b: Byte)
    requires start < j < |s| && LiveAt(s, start) && b != OPEN
    ensures !LiveAt(s + [b], j)
  {
    if LiveAt(s, j) {
      hide ShapeOf;
      assert s[start..][j - start..] == s[j..];
      OneAlive(s[start..], j - start);
      OnlyBracket(s, j);
      LiveSnoc(s, j, b);
    } else {
      DeadSnoc(s, j, b);
    }
  }

  lemma OnlyBracket(s: seq<Byte>, j: nat)
    requires j < |s| && s[j..] == [OPEN]
    ensures ShapeOf(s[j..]) == Open
  {
    hide ShapeOf;
    assert s[..j] + [OPEN] == s;
    NewSuffix(s[..j], OPEN);
  }

  lemma AllDead(s: seq<Byte>, shape: Shape, start: nat, b: Byte)
    requires Tracked(s, shape, start) && b != OPEN && !Alive(Next(shape, b))
    ensures Tracked(s + [b], Empty, |s| + 1)
  {
    var t := s + [b];
    assert t[|t|..] == [];
    forall j | 0 <= j < |t|
      ensures !LiveAt(t, j)
    {
      if j == |s| {
        NewSuffix(s, b);
      } else if j == start {
        LiveSnoc(s, j, b);
      } else if j < start {
        DeadSnoc(s, j, b);
      } else {
        InnerSnoc(s, start, j, b);
      }
    }
  }

  lemma Continues(s: seq<Byte>, shape: Shape, start: nat, b: Byte)
    requires Tracked(s, shape, start) && Alive(Next(shape, b))
    ensures Tracked(s + [b], Next(shape, b), start)
  {
    hide Next;
    LiveSnoc(s, start, b);
    forall j | 0 <= j < start
      ensures !LiveAt(s + [b], j)
    {
      DeadSnoc(s, j, b);
    }
  }

  /** When a bracket kills the candidate, the candidate is "[[" or ends with no bracket. */
  lemma Killed(s: seq<Byte>, shape: Shape, start: nat)
    requires Tracked(s, shape, start) && Next(shape, OPEN).Dead?
    ensures |s| >= start + 2 && LiveAt(s, start)
    ensures s[|s| - 1] == OPEN <==> |s| == start + 2
    ensures |s| == start + 2 ==> s[start..] == [OPEN, OPEN]
  {
    var u := s[start..];
    ShapeSpells(u);
    assert |u| >= 2;
    Brackets(u, |u| - 1);
    assert u[|u| - 1] == s[|s| - 1];
  }

  lemma BeforeRestart(s: seq<Byte>, shape: Shape, start: nat, j: nat)
    requires Tracked(s, shape, start) && Next(shape, OPEN).Dead? && j < |s|
    requires s[|s| - 1] == OPEN ==> j != |s| - 1
    ensures !LiveAt(s + [OPEN], j)
  {
    Killed(s, shape, start);
    hide ShapeOf;
    if j == start {
      LiveSnoc(s, j, OPEN);
    } else {
      if j > start && LiveAt(s, j) {
        assert s[start..][j - start..] == s[j..];
        OneAlive(s[start..], j - start);
      }
      DeadSnoc(s, j, OPEN);
    }
  }

  /** A bracket that kills the current candidate starts another: at itself, or one byte
      earlier when the byte before it was a bracket too. */
  lemma Restarts(s: seq<Byte>, shape: Shape, start: nat)
    requires Tracked(s, shape, start) && Next(shape, OPEN).Dead?
    ensures s != []
    ensures s[|s| - 1] == OPEN ==> Tracked(s + [OPEN], Name([]), |s| - 1)
    ensures s[|s| - 1] != OPEN ==> Tracked(s + [OPEN], Open, |s|)
  {
    hide ShapeOf, Next;
    var t := s + [OPEN];
    Killed(s, shape, start);
    NewSuffix(s, OPEN);
    forall j | 0 <= j < |s| && (s[|s| - 1] == OPEN ==> j != |s| - 1)
      ensures !LiveAt(t, j)
    {
      BeforeRestart(s, shape, start, j);
    }
    if s[|s| - 1] == OPEN {
      assert t[|s| - 1..] == [OPEN, OPEN];
      ShapeName([]);
      assert [OPEN, OPEN] + [] == [OPEN, OPEN];
    }
  }

  /** A legal reference ends here exactly when the tracked candidate is completed. */
  lemma Completes(s: seq<Byte>, shape: Shape, start: nat, b: Byte, n: seq<Byte>, i: seq<Byte>)
    requires Tracked(s, shape, start)
    ensures EndsReference(s + [b], n, i) <==> Next(shape, b) == Done(n, i)
    ensures Next(shape, b) == Done(n, i) ==> |s| + 1 - |ReferenceText(n, i)| == start
  {
    hide Next, ReferenceText, NameValid, IdValid;
    var t := s + [b];
    LiveSnoc(s, start, b);
    DoneIffReference(t[start..], n, i);
    if EndsReference(t, n, i) {
      assert ReferenceText(n, i) != [] by { DoneAfterClose(n, i); }
      var j := |t| - |ReferenceText(n, i)|;
      DoneIffReference(t[j..], n, i);
      LiveSnoc(s, j, b);
      BeforeDone(ShapeOf(s[j..]), b);
      assert LiveAt(s, j);
      if j > start {
        assert s[start..][j - start..] == s[j..];
        OneAlive(s[start..], j - start);
        OnlyBracket(s, j);
      }
    }
  }

  lemma DoneAfterClose(n: seq<Byte>, i: seq<Byte>)
    ensures ReferenceText(n, i) != []
  {
  }

  lemma BeforeDone(shape: Shape, b: Byte)
    requires Next(shape, b).Done?
    ensures shape.Close?
  {
  }

  /** At most one reference ends at a given byte. */
  lemma OneReference(s: seq<Byte>, n: seq<Byte>, i: seq<Byte>, m: seq<Byte>, k: seq<Byte>)
    requires EndsReference(s, n, i) && EndsReference(s, m, k)
    ensures n == m && i == k
  {
    DoneAfterClose(n, i);
    hide ReferenceText;
    var shape, start := Tracking(s[..|s| - 1]);
    assert s[..|s| - 1] + [s[|s| - 1]] == s;
    Completes(s[..|s| - 1], shape, start, s[|s| - 1], n, i);
    Completes(s[..|s| - 1], shape, start, s[|s| - 1], m, k);
  }

  lemma TrackStep(s: seq<Byte>, shape: Shape, start: nat, b: Byte) returns (next: Shape, at: nat)
    requires Tracked(s, shape, start)
    ensures Tracked(s + [b], next, at)
  {
    hide Tracked;
    if Alive(Next(shape, b)) {
      Continues(s, shape, start, b);
      return Next(shape, b), start;
    } else if b != OPEN {
      AllDead(s, shape, start, b);
      return Empty, |s| + 1;
    } else {
      OpenNeverCompletes(shape);
      Restarts(s, shape, start);
      if s[|s| - 1] == OPEN {
        return Name([]), |s| - 1;
      } else {
        return Open, |s|;
      }
    }
  }

  lemma OpenNeverCompletes(shape: Shape)
    ensures Next(shape, OPEN).Dead? || Alive(Next(shape, OPEN))
  {
  }

  lemma {:induction false} Tracking(s: seq<Byte>) returns (shape: Shape, start: nat)
    ensures Tracked(s, shape, start)
  {
    if s == [] {
      return Empty, 0;
    }
    hide Tracked, ShapeOf;
    shape, start := Tracking(s[..|s| - 1]);
    assert s[..|s| - 1] + [s[|s| - 1]] == s;
    shape, start := TrackStep(s[..|s| - 1], shape, start, s[|s| - 1]);
  }
}
