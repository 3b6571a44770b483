/** The note header of os/note_metadata_format.c as a language: which byte strings are headers and
    which metadata each declares. The parser and the encoder are proved against it. */
module NoteHeader {
  import opened Bytes
  import opened NoteFields
  import BlockGrammar

  const HEADER_MAX: nat := 4096
  const LIST_MAX: nat := 16

  const COLON: Byte := ':' as int
  const BLANK: Byte := ' ' as int

  const PREFIX: seq<Byte> := ['@' as int, 'y' as int, 'a' as int, 'n' as int, '-' as int, 'n' as int, 'o' as int,
                              't' as int, 'e' as int]
  const MARKER: seq<Byte> := ['@' as int, 'y' as int, 'a' as int, 'n' as int, '-' as int, 'n' as int, 'o' as int,
                              't' as int, 'e' as int, ' ' as int, '1' as int, LF]
  const END_LINE: seq<Byte> := ['@' as int, 'e' as int, 'n' as int, 'd' as int]
  const END: seq<Byte> := ['@' as int, 'e' as int, 'n' as int, 'd' as int, LF]

  datatype Kind = Title | Created | Modified | Tag | Link
  datatype Field = Field(kind: Kind, value: seq<Byte>)

  function Key(kind: Kind): seq<Byte> {
    match kind
    case Title => ['t' as int, 'i' as int, 't' as int, 'l' as int, 'e' as int]
    case Created => ['c' as int, 'r' as int, 'e' as int, 'a' as int, 't' as int, 'e' as int, 'd' as int]
    case Modified => ['m' as int, 'o' as int, 'd' as int, 'i' as int, 'f' as int, 'i' as int, 'e' as int, 'd' as int]
    case Tag => ['t' as int, 'a' as int, 'g' as int]
    case Link => ['l' as int, 'i' as int, 'n' as int, 'k' as int]
  }

  function Content(f: Field): seq<Byte> {
    Key(f.kind) + [COLON, BLANK] + f.value
  }

  function Line(f: Field): seq<Byte> {
    Content(f) + [LF]
  }

  function Lines(fs: seq<Field>): seq<Byte> {
    if fs == [] then [] else Lines(fs[..|fs| - 1]) + Line(fs[|fs| - 1])
  }

  function Header(fs: seq<Field>): seq<Byte> {
    MARKER + Lines(fs) + END
  }

  // ----- what the fields declare

  datatype Info = Info(hasTitle: bool, title: seq<Byte>, hasCreated: bool, created: seq<Byte>,
                       hasModified: bool, modified: seq<Byte>, tags: seq<seq<Byte>>, links: seq<seq<Byte>>)

  const NOTHING: Info := Info(false, [], false, [], false, [], [], [])

  ghost predicate ValueValid(f: Field) {
    match f.kind
    case Title => TitleValid(f.value)
    case Created => DateValid(f.value)
    case Modified => DateValid(f.value)
    case Tag => TagValid(f.value)
    case Link => BlockGrammar.NameValid(f.value)
  }

  function Apply(info: Info, f: Field): Info {
    match f.kind
    case Title => info.(hasTitle := true, title := f.value)
    case Created => info.(hasCreated := true, created := f.value)
    case Modified => info.(hasModified := true, modified := f.value)
    case Tag => info.(tags := info.tags + [f.value])
    case Link => info.(links := info.links + [f.value])
  }

  predicate Room(info: Info, f: Field) {
    match f.kind
    case Title => !info.hasTitle
    case Created => !info.hasCreated
    case Modified => !info.hasModified
    case Tag => |info.tags| < LIST_MAX && f.value !in info.tags
    case Link => |info.links| < LIST_MAX && f.value !in info.links
  }

  function Build(fs: seq<Field>): Info {
    if fs == [] then NOTHING else Apply(Build(fs[..|fs| - 1]), fs[|fs| - 1])
  }

  ghost predicate Accepted(fs: seq<Field>) {
    fs != [] ==> Accepted(fs[..|fs| - 1]) && ValueValid(fs[|fs| - 1]) && Room(Build(fs[..|fs| - 1]), fs[|fs| - 1])
  }

  /** bytes starts with the complete legal header that declares fs. */
  ghost predicate Opens(bytes: seq<Byte>, fs: seq<Field>) {
    Accepted(fs) && Header(fs) <= bytes
  }

  datatype Parsed = NoHeader | Found(info: Info, headerBytes: nat) | Broken

  ghost function Parse(bytes: seq<Byte>): Parsed {
    if !(PREFIX <= bytes) then NoHeader
    else if exists fs :: Opens(bytes, fs) then
      var fs :| Opens(bytes, fs);
      Found(Build(fs), |Header(fs)|)
    else Broken
  }

  // ----- a header can be read in one way only

  lemma ContentNoLineFeed(f: Field)
    requires ValueValid(f)
    ensures LF !in Content(f)
  {
    hide TitleValid, TagValid, DateValid, BlockGrammar.NameValid;
    match f.kind {
      case Title => assert Text(f.value, false) by { TitleText(f.value); } TextNoLineFeed(f.value, false);
      case Tag => assert Text(f.value, true) by { TagText(f.value); } TextNoLineFeed(f.value, true);
      case Link => NameNoLineFeed(f.value);
      case _ => DateNoLineFeed(f.value);
    }
  }

  lemma TitleText(s: seq<Byte>)
    requires TitleValid(s)
    ensures Text(s, false)
  {
  }

  lemma TagText(s: seq<Byte>)
    requires TagValid(s)
    ensures Text(s, true)
  {
  }

  lemma FirstLine(a: seq<Byte>, s: seq<Byte>)
    requires LF !in a && a + [LF] <= s
    ensures IndexFrom(s, LF, 0) == |a| && s[..|a|] == a
  {
    assert forall k | 0 <= k < |a| :: s[k] == (a + [LF])[k] == a[k];
    assert s[|a|] == (a + [LF])[|a|];
  }

  lemma ContentInjective(f: Field, g: Field)
    requires Content(f) == Content(g)
    ensures f == g
  {
    var c := Content(f);
    assert c[0] == Key(f.kind)[0] == Key(g.kind)[0];
    assert c[1] == Key(f.kind)[1] == Key(g.kind)[1];
    assert f.value == c[|Key(f.kind)| + 2..] == g.value;
  }

  lemma NotEnd(f: Field)
    ensures Content(f) != END_LINE
  {
    assert Content(f)[0] == Key(f.kind)[0];
  }

  lemma LinesSnoc(fs: seq<Field>, f: Field)
    ensures Lines(fs + [f]) == Lines(fs) + Line(f)
    ensures Build(fs + [f]) == Apply(Build(fs), f)
    ensures Accepted(fs + [f]) <==> Accepted(fs) && ValueValid(f) && Room(Build(fs), f)
  {
    assert (fs + [f])[..|fs|] == fs;
  }

  lemma {:induction false} LinesPrefix(fs: seq<Field>, n: nat)
    requires n <= |fs|
    ensures Lines(fs[..n]) <= Lines(fs)
    ensures Accepted(fs) ==> Accepted(fs[..n])
    ensures n < |fs| ==> Lines(fs[..n]) + Line(fs[n]) <= Lines(fs)
    ensures n < |fs| && Accepted(fs) ==> ValueValid(fs[n]) && Room(Build(fs[..n]), fs[n])
  {
    hide Line, ValueValid, Room, Apply;
    if n == |fs| {
      assert fs[..n] == fs;
    } else if n + 1 == |fs| {
      assert fs[..n] + [fs[n]] == fs;
      LinesSnoc(fs[..n], fs[n]);
    } else {
      LinesPrefix(fs[..|fs| - 1], n);
      assert fs[..|fs| - 1][..n] == fs[..n];
    }
  }

  /** The bytes that follow the lines of fs[..n] in a text that opens with the header of fs. */
  lemma AfterLines(bytes: seq<Byte>, fs: seq<Field>, n: nat)
    requires Opens(bytes, fs) && n <= |fs|
    ensures MARKER + Lines(fs[..n]) <= bytes
    ensures n == |fs| ==> END <= bytes[|MARKER + Lines(fs[..n])|..]
    ensures n < |fs| ==> ValueValid(fs[n]) && Line(fs[n]) <= bytes[|MARKER + Lines(fs[..n])|..]
  {
    hide Accepted, ValueValid, Lines, Line;
    LinesPrefix(fs, n);
    var at := |MARKER + Lines(fs[..n])|;
    assert Header(fs)[..at] == MARKER + Lines(fs[..n]);
    assert Header(fs)[at..] <= bytes[at..];
    if n == |fs| {
      assert fs[..n] == fs;
      assert Header(fs)[at..] == END;
    } else {
      var t := Lines(fs[..n]) + Line(fs[n]);
      assert Lines(fs)[|Lines(fs[..n])|..] == Line(fs[n]) + Lines(fs)[|t|..];
      assert Header(fs)[at..] == Line(fs[n]) + Lines(fs)[|t|..] + END;
    }
  }

  /** The line after fs[..n] is fs[n]'s, or the closing line when there is no fs[n]. */
  lemma NextLine(bytes: seq<Byte>, fs: seq<Field>, n: nat)
    requires Opens(bytes, fs) && n <= |fs| && MARKER + Lines(fs[..n]) <= bytes
    ensures var rest := bytes[|MARKER + Lines(fs[..n])|..];
            var e := IndexFrom(rest, LF, 0);
            e < |rest| && rest[..e] == if n < |fs| then Content(fs[n]) else END_LINE
  {
    hide Opens, Content, Lines, ValueValid;
    AfterLines(bytes, fs, n);
    var rest := bytes[|MARKER + Lines(fs[..n])|..];
    if n < |fs| {
      ContentNoLineFeed(fs[n]);
      FirstLine(Content(fs[n]), rest);
    } else {
      assert END_LINE + [LF] == END && LF !in END_LINE;
      FirstLine(END_LINE, rest);
    }
  }

  lemma SameField(bytes: seq<Byte>, fs: seq<Field>, n: nat, f: Field)
    requires Opens(bytes, fs) && n <= |fs| && ValueValid(f) && MARKER + Lines(fs[..n]) + Line(f) <= bytes
    ensures n < |fs| && fs[n] == f
  {
    hide Opens, Content, Lines, ValueValid;
    var at := MARKER + Lines(fs[..n]);
    assert at <= bytes && Line(f) <= bytes[|at|..];
    NextLine(bytes, fs, n);
    ContentNoLineFeed(f);
    FirstLine(Content(f), bytes[|at|..]);
    NotEnd(f);
    if n < |fs| { ContentInjective(f, fs[n]); }
  }

  /** Lines read so far are the first fields of every header the text can open with. */
  lemma {:induction false} ReadSoFar(bytes: seq<Byte>, fs: seq<Field>, done: seq<Field>)
    requires Opens(bytes, fs) && Accepted(done) && MARKER + Lines(done) <= bytes
    ensures done <= fs
  {
    hide Opens, Room, Apply, ValueValid, Line;
    if done != [] {
      var d, f := done[..|done| - 1], done[|done| - 1];
      assert d + [f] == done;
      assert MARKER + Lines(done) == MARKER + Lines(d) + Line(f);
      ReadSoFar(bytes, fs, d);
      assert fs[..|d|] == d;
      SameField(bytes, fs, |d|, f);
    }
  }

  lemma OneReading(bytes: seq<Byte>, fs: seq<Field>, gs: seq<Field>)
    requires Opens(bytes, fs) && Opens(bytes, gs)
    ensures fs == gs
  {
    hide Accepted;
    AfterLines(bytes, fs, |fs|);
    AfterLines(bytes, gs, |gs|);
    assert fs[..|fs|] == fs && gs[..|gs|] == gs;
    ReadSoFar(bytes, fs, gs);
    ReadSoFar(bytes, gs, fs);
  }

  lemma ParseOpens(bytes: seq<Byte>, fs: seq<Field>)
    requires Opens(bytes, fs)
    ensures Parse(bytes) == Found(Build(fs), |Header(fs)|)
  {
    hide Accepted, Lines, Build;
    assert PREFIX <= MARKER <= Header(fs);
    forall gs | Opens(bytes, gs)
      ensures gs == fs
    {
      OneReading(bytes, fs, gs);
    }
  }

  /** The header decides alone: no body byte is looked at. */
  lemma BodyIrrelevant(bytes: seq<Byte>, body: seq<Byte>)
    requires Parse(bytes).Found?
    ensures Parse(bytes).headerBytes <= |bytes|
    ensures Parse(bytes[..Parse(bytes).headerBytes] + body) == Parse(bytes)
  {
    hide Accepted, Header, Build;
    var fs :| Opens(bytes, fs);
    ParseOpens(bytes, fs);
    var t := bytes[..|Header(fs)|] + body;
    assert bytes[..|Header(fs)|] == Header(fs);
    ParseOpens(t, fs);
  }

  // ----- the canonical header of complete metadata

  ghost predicate Complete(info: Info) {
    && (if info.hasTitle then TitleValid(info.title) else info.title == [])
    && (if info.hasCreated then DateValid(info.created) else info.created == [])
    && (if info.hasModified then DateValid(info.modified) else info.modified == [])
    && ListComplete(Tag, info.tags) && ListComplete(Link, info.links)
  }

  ghost predicate ListComplete(kind: Kind, vs: seq<seq<Byte>>) {
    && |vs| <= LIST_MAX
    && (forall k | 0 <= k < |vs| :: ValueValid(Field(kind, vs[k])))
    && (forall j, k | 0 <= j < k < |vs| :: vs[j] != vs[k])
  }

  function One(present: bool, kind: Kind, value: seq<Byte>): seq<Field> {
    if present then [Field(kind, value)] else []
  }

  function Each(kind: Kind, vs: seq<seq<Byte>>): seq<Field> {
    seq(|vs|, k requires 0 <= k < |vs| => Field(kind, vs[k]))
  }

  /** The declared fields in canonical order. */
  function FieldsOf(info: Info): seq<Field> {
    One(info.hasTitle, Title, info.title) + One(info.hasCreated, Created, info.created)
    + One(info.hasModified, Modified, info.modified) + Each(Tag, info.tags) + Each(Link, info.links)
  }

  lemma AppendOne(fs: seq<Field>, present: bool, f: Field)
    requires Accepted(fs) && (present ==> ValueValid(f) && Room(Build(fs), f))
    ensures Accepted(fs + One(present, f.kind, f.value))
    ensures Build(fs + One(present, f.kind, f.value)) == if present then Apply(Build(fs), f) else Build(fs)
  {
    hide Accepted, Build, Room, Apply, ValueValid;
    if present {
      LinesSnoc(fs, f);
    } else {
      assert fs + One(present, f.kind, f.value) == fs;
    }
  }

  lemma ListPrefix(kind: Kind, vs: seq<seq<Byte>>)
    requires ListComplete(kind, vs) && vs != []
    ensures ListComplete(kind, vs[..|vs| - 1]) && ValueValid(Field(kind, vs[|vs| - 1]))
    ensures |vs[..|vs| - 1]| < LIST_MAX && vs[|vs| - 1] !in vs[..|vs| - 1]
  {
    hide ValueValid;
  }

  lemma ListSnoc(kind: Kind, vs: seq<seq<Byte>>, v: seq<Byte>)
    requires ListComplete(kind, vs) && ValueValid(Field(kind, v)) && |vs| < LIST_MAX && v !in vs
    ensures ListComplete(kind, vs + [v])
  {
    hide ValueValid;
  }

  function WithList(info: Info, kind: Kind, vs: seq<seq<Byte>>): Info {
    match kind
    case Tag => info.(tags := vs)
    case Link => info.(links := vs)
    case _ => info
  }

  lemma ListStep(info: Info, kind: Kind, vs: seq<seq<Byte>>, v: seq<Byte>)
    requires (kind == Tag || kind == Link) && |vs| < LIST_MAX && v !in vs
    ensures Room(WithList(info, kind, vs), Field(kind, v))
    ensures Apply(WithList(info, kind, vs), Field(kind, v)) == WithList(info, kind, vs + [v])
  {
  }

  lemma EachSnoc(fs: seq<Field>, kind: Kind, vs: seq<seq<Byte>>, v: seq<Byte>)
    ensures fs + Each(kind, vs + [v]) == fs + Each(kind, vs) + [Field(kind, v)]
  {
  }

  lemma {:induction false} AppendEach(fs: seq<Field>, kind: Kind, vs: seq<seq<Byte>>)
    requires Accepted(fs) && ListComplete(kind, vs) && (kind == Tag || kind == Link)
    requires Build(fs) == WithList(Build(fs), kind, [])
    ensures Accepted(fs + Each(kind, vs))
    ensures Build(fs + Each(kind, vs)) == WithList(Build(fs), kind, vs)
  {
    hide Accepted, Build, ValueValid, ListComplete, WithList, Room, Apply;
    if vs == [] {
      assert fs + Each(kind, vs) == fs;
    } else {
      hide Each;
      var ws, v := vs[..|vs| - 1], vs[|vs| - 1];
      ListPrefix(kind, vs);
      AppendEach(fs, kind, ws);
      LinesSnoc(fs + Each(kind, ws), Field(kind, v));
      ListStep(Build(fs), kind, ws, v);
      assert ws + [v] == vs;
      EachSnoc(fs, kind, ws, v);
    }
  }

  /** The canonical fields of complete metadata are accepted and declare exactly that metadata. */
  lemma FieldsBuild(info: Info)
    requires Complete(info)
    ensures Accepted(FieldsOf(info)) && Build(FieldsOf(info)) == info
  {
    hide Accepted, ValueValid, One, Each;
    assert Build([]) == NOTHING && Accepted([]) by { Nothing(); }
    var a := One(info.hasTitle, Title, info.title);
    var b := a + One(info.hasCreated, Created, info.created);
    var c := b + One(info.hasModified, Modified, info.modified);
    ValuesValid(info);
    AppendOne([], info.hasTitle, Field(Title, info.title));
    assert [] + a == a;
    AppendOne(a, info.hasCreated, Field(Created, info.created));
    AppendOne(b, info.hasModified, Field(Modified, info.modified));
    AppendEach(c, Tag, info.tags);
    AppendEach(c + Each(Tag, info.tags), Link, info.links);
  }

  lemma Nothing()
    ensures Build([]) == NOTHING && Accepted([])
  {
  }

  lemma ValuesValid(info: Info)
    requires Complete(info)
    ensures info.hasTitle ==> ValueValid(Field(Title, info.title))
    ensures info.hasCreated ==> ValueValid(Field(Created, info.created))
    ensures info.hasModified ==> ValueValid(Field(Modified, info.modified))
  {
  }

  /** Round trip: the encoded header, followed by any body, parses to the same metadata, and the body
      starts right after it. */
  lemma RoundTrip(info: Info, body: seq<Byte>)
    requires Complete(info)
    ensures Parse(Header(FieldsOf(info)) + body) == Found(info, |Header(FieldsOf(info))|)
  {
    hide Accepted, FieldsOf, Build, Header, Complete;
    FieldsBuild(info);
    ParseOpens(Header(FieldsOf(info)) + body, FieldsOf(info));
  }

  /** What the parser finds can be encoded: parse, encode, parse is parse. */
  lemma {:induction false} AcceptedComplete(fs: seq<Field>)
    requires Accepted(fs)
    ensures Complete(Build(fs))
  {
    hide Complete, ValueValid, Room, Apply;
    if fs != [] {
      AcceptedComplete(fs[..|fs| - 1]);
      ApplyComplete(Build(fs[..|fs| - 1]), fs[|fs| - 1]);
    } else {
      assert Complete(NOTHING) by { NothingComplete(); }
    }
  }

  lemma NothingComplete()
    ensures Complete(NOTHING)
  {
  }

  lemma ApplyComplete(info: Info, f: Field)
    requires Complete(info) && ValueValid(f) && Room(info, f)
    ensures Complete(Apply(info, f))
  {
    hide TitleValid, DateValid, TagValid, BlockGrammar.NameValid, ListComplete;
    if f.kind == Tag {
      ListSnoc(Tag, info.tags, f.value);
    } else if f.kind == Link {
      ListSnoc(Link, info.links, f.value);
    }
  }

  lemma ParsedComplete(bytes: seq<Byte>, body: seq<Byte>)
    requires Parse(bytes).Found?
    ensures Complete(Parse(bytes).info)
    ensures Parse(Header(FieldsOf(Parse(bytes).info)) + body)
         == Found(Parse(bytes).info, |Header(FieldsOf(Parse(bytes).info))|)
  {
    hide Accepted, Complete, Header, Build, FieldsOf;
    var fs :| Opens(bytes, fs);
    ParseOpens(bytes, fs);
    AcceptedComplete(fs);
    RoundTrip(Build(fs), body);
  }

  // ----- the size of a header

  lemma {:induction false} LinesConcat(fs: seq<Field>, gs: seq<Field>)
    ensures Lines(fs + gs) == Lines(fs) + Lines(gs)
  {
    hide Line;
    if gs == [] {
      assert fs + gs == fs;
    } else {
      LinesConcat(fs, gs[..|gs| - 1]);
      assert (fs + gs)[..|fs + gs| - 1] == fs + gs[..|gs| - 1];
    }
  }

  lemma LineLength(f: Field)
    ensures |Line(f)| == |Key(f.kind)| + 3 + |f.value|
  {
  }

  lemma OneMore(n: nat, unit: nat)
    ensures (n + 1) * unit == n * unit + unit
  {
  }

  lemma {:induction false} EachLength(kind: Kind, vs: seq<seq<Byte>>, most: nat)
    requires forall k | 0 <= k < |vs| :: |vs[k]| <= most
    ensures |Lines(Each(kind, vs))| <= |vs| * (|Key(kind)| + 3 + most)
  {
    hide Line, Key;
    if vs != [] {
      var n, unit := |vs| - 1, |Key(kind)| + 3 + most;
      EachLength(kind, vs[..n], most);
      assert Each(kind, vs)[..n] == Each(kind, vs[..n]);
      LineLength(Field(kind, vs[n]));
      OneMore(n, unit);
    }
  }

  lemma OneLength(present: bool, kind: Kind, value: seq<Byte>, most: nat)
    requires present ==> |value| <= most
    ensures |Lines(One(present, kind, value))| <= |Key(kind)| + 3 + most
  {
    if present {
      assert [Field(kind, value)][..0] == [];
    }
  }

  /** 17 + 264 + 20 + 21 + 16 * 69 + 16 * 38: a complete header fits 2034 bytes, so it always fits the
      4096 bytes a parser looks at. */
  lemma HeaderLength(info: Info)
    requires Complete(info)
    ensures |Header(FieldsOf(info))| <= 2034 < HEADER_MAX
  {
    hide Lines, One, Each, ValueValid;
    var a, b, c := One(info.hasTitle, Title, info.title), One(info.hasCreated, Created, info.created),
                   One(info.hasModified, Modified, info.modified);
    var d, e := Each(Tag, info.tags), Each(Link, info.links);
    LinesConcat(a, b);
    LinesConcat(a + b, c);
    LinesConcat(a + b + c, d);
    LinesConcat(a + b + c + d, e);
    if info.hasCreated { DateNoLineFeed(info.created); }
    if info.hasModified { DateNoLineFeed(info.modified); }
    OneLength(info.hasTitle, Title, info.title, TITLE_MAX);
    OneLength(info.hasCreated, Created, info.created, DATE_LENGTH);
    OneLength(info.hasModified, Modified, info.modified, DATE_LENGTH);
    forall k | 0 <= k < |info.tags|
      ensures |info.tags[k]| <= TAG_MAX
    {
      ValueLength(Field(Tag, info.tags[k]));
    }
    forall k | 0 <= k < |info.links|
      ensures |info.links[k]| <= BlockGrammar.NAME_MAX
    {
      ValueLength(Field(Link, info.links[k]));
    }
    EachLength(Tag, info.tags, TAG_MAX);
    EachLength(Link, info.links, BlockGrammar.NAME_MAX);
    assert |info.tags| * 69 <= 16 * 69 && |info.links| * 38 <= 16 * 38;
  }

  lemma ValueLength(f: Field)
    requires ValueValid(f)
    ensures f.kind == Tag ==> |f.value| <= TAG_MAX
    ensures f.kind == Link ==> |f.value| <= BlockGrammar.NAME_MAX
  {
  }

  // ----- the accepted lists, without the parser's order of checks

  /** A list of fields is accepted exactly when every value is valid, no title or date is declared
      twice, and the tags and the links are at most 16 different ones each. */
  lemma {:induction false} AcceptedIff(fs: seq<Field>)
    ensures Accepted(fs) <==>
            && (forall k | 0 <= k < |fs| :: ValueValid(fs[k])) && Distinct(fs)
            && |Build(fs).tags| <= LIST_MAX && |Build(fs).links| <= LIST_MAX
  {
    hide ValueValid, Room, Distinct, Apply;
    if fs != [] {
      var p, f := fs[..|fs| - 1], fs[|fs| - 1];
      AcceptedIff(p);
      assert p + [f] == fs;
      RoomIff(p, f);
      DistinctSnoc(p, f);
      Longer(Build(p), f);
      assert forall k | 0 <= k < |p| :: p[k] == fs[k];
    } else {
      assert Distinct([]) by { NoneTwice(); }
    }
  }

  /** No title or date twice, and no tag or link repeated. */
  predicate Distinct(fs: seq<Field>) {
    forall j, k | 0 <= j < k < |fs| && fs[j].kind == fs[k].kind :: (fs[j].kind == Tag || fs[j].kind == Link) && fs[j] != fs[k]
  }

  lemma NoneTwice()
    ensures Distinct([])
  {
  }

  lemma Longer(info: Info, f: Field)
    ensures |Apply(info, f).tags| == |info.tags| + (if f.kind == Tag then 1 else 0)
    ensures |Apply(info, f).links| == |info.links| + (if f.kind == Link then 1 else 0)
  {
  }

  predicate NewIn(p: seq<Field>, f: Field) {
    forall j | 0 <= j < |p| && p[j].kind == f.kind :: (f.kind == Tag || f.kind == Link) && p[j] != f
  }

  lemma DistinctSnoc(p: seq<Field>, f: Field)
    ensures Distinct(p + [f]) <==> Distinct(p) && NewIn(p, f)
  {
    var fs := p + [f];
    if Distinct(fs) {
      forall j, k | 0 <= j < k < |p| && p[j].kind == p[k].kind
        ensures (p[j].kind == Tag || p[j].kind == Link) && p[j] != p[k]
      {
        assert fs[j].kind == fs[k].kind;
      }
      forall j | 0 <= j < |p| && p[j].kind == f.kind
        ensures (f.kind == Tag || f.kind == Link) && p[j] != f
      {
        assert fs[j].kind == fs[|p|].kind;
      }
    }
  }

  predicate Declares(fs: seq<Field>, kind: Kind) {
    exists k | 0 <= k < |fs| :: fs[k].kind == kind
  }

  lemma DeclaresSnoc(p: seq<Field>, f: Field, kind: Kind)
    ensures Declares(p + [f], kind) <==> Declares(p, kind) || f.kind == kind
  {
    var fs := p + [f];
    assert fs[|p|] == f;
    if Declares(p, kind) {
      var k :| 0 <= k < |p| && p[k].kind == kind;
      assert fs[k].kind == kind;
    }
    if Declares(fs, kind) && f.kind != kind {
      var k :| 0 <= k < |fs| && fs[k].kind == kind;
      assert p[k].kind == kind;
    }
  }

  lemma ApplyHolds(info: Info, f: Field)
    ensures Apply(info, f).hasTitle <==> info.hasTitle || f.kind == Title
    ensures Apply(info, f).hasCreated <==> info.hasCreated || f.kind == Created
    ensures Apply(info, f).hasModified <==> info.hasModified || f.kind == Modified
    ensures forall v :: v in Apply(info, f).tags <==> v in info.tags || f == Field(Tag, v)
    ensures forall v :: v in Apply(info, f).links <==> v in info.links || f == Field(Link, v)
  {
  }

  lemma {:induction false} BuildHolds(fs: seq<Field>)
    ensures Build(fs).hasTitle <==> Declares(fs, Title)
    ensures Build(fs).hasCreated <==> Declares(fs, Created)
    ensures Build(fs).hasModified <==> Declares(fs, Modified)
    ensures forall v :: v in Build(fs).tags <==> Field(Tag, v) in fs
    ensures forall v :: v in Build(fs).links <==> Field(Link, v) in fs
  {
    if fs != [] {
      var p, f := fs[..|fs| - 1], fs[|fs| - 1];
      BuildHolds(p);
      assert p + [f] == fs;
      DeclaresSnoc(p, f, Title);
      DeclaresSnoc(p, f, Created);
      DeclaresSnoc(p, f, Modified);
      hide Declares, Apply;
      ApplyHolds(Build(p), f);
      assert forall g :: g in fs <==> g in p || g == f;
    }
  }

  lemma RoomIff(p: seq<Field>, f: Field)
    ensures Room(Build(p), f) <==>
            && NewIn(p, f)
            && (f.kind == Tag ==> |Build(p).tags| < LIST_MAX) && (f.kind == Link ==> |Build(p).links| < LIST_MAX)
  {
    hide Build;
    BuildHolds(p);
    if Declares(p, f.kind) {
      var k :| 0 <= k < |p| && p[k].kind == f.kind;
    }
    forall j | 0 <= j < |p| && p[j].kind == f.kind
      ensures Declares(p, f.kind) && (p[j] == f <==> p[j].value == f.value) && p[j] in p
    {
    }
  }

  // ----- the header, spelled out

  predicate IsAscii(text: string) {
    forall i | 0 <= i < |text| :: text[i] as int < 128
  }

  function Ascii(text: string): (s: seq<Byte>)
    requires IsAscii(text)
    ensures |s| == |text| && forall i | 0 <= i < |s| :: s[i] == text[i] as int
  {
    seq(|text|, i requires 0 <= i < |text| => text[i] as int)
  }

  function KeyText(kind: Kind): (k: string)
    ensures IsAscii(k)
  {
    match kind
    case Title => "title: "
    case Created => "created: "
    case Modified => "modified: "
    case Tag => "tag: "
    case Link => "link: "
  }

  lemma LineText(f: Field)
    ensures Line(f) == Ascii(KeyText(f.kind)) + f.value + [LF]
  {
    assert Key(f.kind) + [COLON, BLANK] == Ascii(KeyText(f.kind));
  }

  /** One line for each value, in order. */
  function ListText(kind: Kind, vs: seq<seq<Byte>>): seq<Byte> {
    if vs == [] then [] else Ascii(KeyText(kind)) + vs[0] + [LF] + ListText(kind, vs[1..])
  }

  lemma {:induction false} EachText(kind: Kind, vs: seq<seq<Byte>>)
    ensures Lines(Each(kind, vs)) == ListText(kind, vs)
  {
    if vs != [] {
      var f := Field(kind, vs[0]);
      EachText(kind, vs[1..]);
      assert Each(kind, vs) == [f] + Each(kind, vs[1..]);
      LinesConcat([f], Each(kind, vs[1..]));
      OneLine(f);
      LineText(f);
    }
  }

  lemma {:induction false} OneLine(f: Field)
    ensures Lines([f]) == Line(f) && Lines([]) == []
  {
    assert [f][..0] == [] && Lines([f]) == Lines([]) + Line(f);
  }

  function OptionText(present: bool, kind: Kind, value: seq<Byte>): seq<Byte> {
    if present then Ascii(KeyText(kind)) + value + [LF] else []
  }

  lemma {:induction false} OneText(present: bool, kind: Kind, value: seq<Byte>)
    ensures Lines(One(present, kind, value)) == OptionText(present, kind, value)
  {
    OneLine(Field(kind, value));
    LineText(Field(kind, value));
  }

  lemma Frame()
    ensures Ascii("@yan-note 1\n") == MARKER && Ascii("@end\n") == END
  {
  }

  lemma {:induction false} AllLinesText(info: Info)
    ensures Lines(FieldsOf(info))
            == OptionText(info.hasTitle, Title, info.title) + OptionText(info.hasCreated, Created, info.created)
               + OptionText(info.hasModified, Modified, info.modified)
               + ListText(Tag, info.tags) + ListText(Link, info.links)
  {
    hide Lines, One, Each, OptionText, ListText;
    var a, b, c := One(info.hasTitle, Title, info.title), One(info.hasCreated, Created, info.created),
                   One(info.hasModified, Modified, info.modified);
    var d, e := Each(Tag, info.tags), Each(Link, info.links);
    LinesConcat(a, b);
    LinesConcat(a + b, c);
    LinesConcat(a + b + c, d);
    LinesConcat(a + b + c + d, e);
    OneText(info.hasTitle, Title, info.title);
    OneText(info.hasCreated, Created, info.created);
    OneText(info.hasModified, Modified, info.modified);
    EachText(Tag, info.tags);
    EachText(Link, info.links);
  }

  /** The bytes of an encoded header. */
  lemma {:induction false} HeaderText(info: Info)
    ensures Header(FieldsOf(info))
            == Ascii("@yan-note 1\n")
               + (OptionText(info.hasTitle, Title, info.title) + OptionText(info.hasCreated, Created, info.created)
                  + OptionText(info.hasModified, Modified, info.modified)
                  + ListText(Tag, info.tags) + ListText(Link, info.links))
               + Ascii("@end\n")
  {
    hide Lines, FieldsOf, OptionText, ListText, Ascii;
    AllLinesText(info);
    Frame();
  }
}
