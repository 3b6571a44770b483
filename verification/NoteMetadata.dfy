/** os/note_metadata_format.c: the bounded header parser, the body-offset query and the encoder,
    proved against the language of NoteHeader. */
module NoteMetadata {
  import opened Bytes
  import opened NoteFields
  import opened NoteHeader
  import BlockGrammar

  datatype Status = Ok | Invalid | Metadata | TooLarge

  datatype LineKind = EndLine | FieldLine(kind: Kind) | UnknownLine

  // ----- classify_line

  lemma Separated(f: Field)
    ensures var c, n := Content(f), |Key(f.kind)|;
            && 0 < n && n + 2 <= |c| && c[..n] == Key(f.kind) && c[n + 2..] == f.value
            && c[n] == COLON && c[n + 1] == BLANK && (forall j | 0 <= j < n :: c[j] != COLON)
  {
    var c, n := Content(f), |Key(f.kind)|;
    assert forall j | 0 <= j < n :: c[j] == Key(f.kind)[j];
  }

  method ClassifyLine(line: seq<Byte>) returns (kind: LineKind, valueOffset: nat)
    ensures kind.EndLine? <==> line == END_LINE
    ensures kind.FieldLine? ==> valueOffset <= |line| && line == Content(Field(kind.kind, line[valueOffset..]))
    ensures kind.UnknownLine? ==> forall f :: Content(f) != line
    ensures !kind.FieldLine? ==> valueOffset == 0
  {
    hide Content, Key;
    if line == END_LINE {
      return EndLine, 0;
    }
    var separator := -1;
    var i := 0;
    while i + 1 < |line|
      invariant 0 <= i
      invariant separator == -1 ==> forall j | 0 <= j < i && j + 1 < |line| :: !(line[j] == COLON && line[j + 1] == BLANK)
      invariant separator == -1
    {
      if line[i] == COLON && line[i + 1] == BLANK {
        separator := i;
        break;
      }
      i := i + 1;
    }
    forall f | Content(f) == line
      ensures separator == |Key(f.kind)| && line[..separator] == Key(f.kind) && separator > 0
    {
      Separated(f);
      assert line[|Key(f.kind)|] == COLON;
    }
    if separator <= 0 {
      return UnknownLine, 0;
    }
    kind := KeyOf(line[..separator]);
    if kind.UnknownLine? {
      return UnknownLine, 0;
    }
    valueOffset := separator + 2;
    Assembled(line, separator, kind.kind);
  }

  lemma Assembled(line: seq<Byte>, separator: nat, kind: Kind)
    requires separator + 2 <= |line| && line[separator] == COLON && line[separator + 1] == BLANK
    requires line[..separator] == Key(kind)
    ensures line == Content(Field(kind, line[separator + 2..]))
  {
    hide Key;
  }

  /** The key_is chain. */
  method KeyOf(key: seq<Byte>) returns (kind: LineKind)
    ensures !kind.EndLine?
    ensures kind.FieldLine? ==> key == Key(kind.kind)
    ensures kind.UnknownLine? ==> forall k :: Key(k) != key
  {
    if key == Key(Title) {
      return FieldLine(Title);
    }
    if key == Key(Created) {
      return FieldLine(Created);
    }
    if key == Key(Modified) {
      return FieldLine(Modified);
    }
    if key == Key(Tag) {
      return FieldLine(Tag);
    }
    if key == Key(Link) {
      return FieldLine(Link);
    }
    return UnknownLine;
  }

  method ZeroSlots(slots: array<seq<Byte>>)
    modifies slots
    ensures forall k | 0 <= k < slots.Length :: slots[k] == []
  {
    for i := 0 to slots.Length
      invariant forall k | 0 <= k < i :: slots[k] == []
    {
      slots[i] := [];
    }
  }

  method CopySlots(to: array<seq<Byte>>, from: array<seq<Byte>>)
    requires to.Length == from.Length && to != from
    modifies to
    ensures forall k | 0 <= k < to.Length :: to[k] == from[k]
  {
    for i := 0 to to.Length
      invariant forall k | 0 <= k < i :: to[k] == from[k]
    {
      to[i] := from[i];
    }
  }

  // ----- one note's metadata, as the callers hold it

  class NoteInfo {
    var hasHeader: bool
    var headerBytes: nat
    var hasTitle: bool
    var title: seq<Byte>
    var hasCreated: bool
    var created: seq<Byte>
    var hasModified: bool
    var modified: seq<Byte>
    var tagCount: nat
    const tag: array<seq<Byte>>
    var linkCount: nat
    const link: array<seq<Byte>>

    predicate Slots() {
      tag.Length == LIST_MAX && link.Length == LIST_MAX && tag != link
    }

    predicate Counted()
      reads `tagCount, `linkCount
    {
      tagCount <= LIST_MAX && linkCount <= LIST_MAX
    }

    /** Slots at and above the counts may hold anything. */
    function Value(): Info
      reads this, tag, link
      requires Slots() && Counted()
    {
      Info(hasTitle, title, hasCreated, created, hasModified, modified, tag[..tagCount], link[..linkCount])
    }

    /** An all-zero object. */
    constructor ()
      ensures Slots() && Counted() && Value() == NOTHING && !hasHeader && headerBytes == 0
      ensures fresh(tag) && fresh(link)
    {
      hasHeader, headerBytes := false, 0;
      hasTitle, title, hasCreated, created, hasModified, modified := false, [], false, [], false, [];
      tagCount, linkCount := 0, 0;
      tag := new seq<Byte>[LIST_MAX](_ => []);
      link := new seq<Byte>[LIST_MAX](_ => []);
    }

    /** The resets at the head of parse_header_core; only the full one clears the slots. */
    method Clear(full: bool)
      requires Slots()
      modifies this, tag, link
      ensures Counted() && Value() == NOTHING && !hasHeader && headerBytes == 0
    {
      if full {
        ZeroSlots(tag);
        ZeroSlots(link);
      }
      hasHeader, headerBytes := false, 0;
      hasTitle, title, hasCreated, created, hasModified, modified := false, [], false, [], false, [];
      tagCount, linkCount := 0, 0;
    }

    method CopyLists(from: NoteInfo)
      requires Slots() && from.Slots() && from.Counted() && Separate(this, from)
      modifies `tagCount, `linkCount, tag, link
      ensures Counted() && tagCount == from.tagCount && linkCount == from.linkCount
      ensures tag[..tagCount] == from.tag[..tagCount] && link[..linkCount] == from.link[..linkCount]
    {
      CopySlots(tag, from.tag);
      CopySlots(link, from.link);
      tagCount, linkCount := from.tagCount, from.linkCount;
    }

    method CopyFrom(from: NoteInfo)
      requires Slots() && from.Slots() && from.Counted() && Separate(this, from)
      modifies this, tag, link
      ensures Counted() && Value() == from.Value()
      ensures hasHeader == from.hasHeader && headerBytes == from.headerBytes
    {
      hasHeader, headerBytes := from.hasHeader, from.headerBytes;
      hasTitle, title, hasCreated, created := from.hasTitle, from.title, from.hasCreated, from.created;
      hasModified, modified := from.hasModified, from.modified;
      CopyLists(from);
    }

    method Listed(kind: Kind, value: seq<Byte>) returns (listed: bool)
      requires Slots() && Counted()
      ensures listed <==> value in (if kind == Tag then tag[..tagCount] else link[..linkCount])
    {
      var slots, count := if kind == Tag then tag else link, if kind == Tag then tagCount else linkCount;
      for i := 0 to count
        invariant value !in slots[..i]
      {
        if slots[i] == value {
          assert slots[..count][i] == value;
          return true;
        }
        assert slots[..i + 1] == slots[..i] + [slots[i]];
      }
      return false;
    }

    method ValueIsValid(kind: Kind, value: seq<Byte>) returns (valid: bool)
      ensures valid <==> ValueValid(Field(kind, value))
    {
      match kind {
        case Title => valid := TitleIsValid(value);
        case Created => valid := DateIsValid(value);
        case Modified => valid := DateIsValid(value);
        case Tag => valid := TagIsValid(value);
        case Link => valid := BlockGrammar.NameValid(value);
      }
    }

    /** apply_field */
    method ApplyField(kind: Kind, value: seq<Byte>) returns (ok: bool)
      requires Slots() && Counted()
      modifies this, tag, link
      ensures ok <==> ValueValid(Field(kind, value)) && Room(old(Value()), Field(kind, value))
      ensures Counted() && Value() == if ok then Apply(old(Value()), Field(kind, value)) else old(Value())
      ensures hasHeader == old(hasHeader) && headerBytes == old(headerBytes)
    {
      hide ValueValid;
      var room := match kind
        case Title => !hasTitle
        case Created => !hasCreated
        case Modified => !hasModified
        case Tag => tagCount < LIST_MAX
        case Link => linkCount < LIST_MAX;
      if !room {
        return false;
      }
      var valid := ValueIsValid(kind, value);
      if !valid {
        return false;
      }
      if kind == Tag || kind == Link {
        var listed := Listed(kind, value);
        if listed {
          return false;
        }
      }
      Store(kind, value);
      return true;
    }

    method Store(kind: Kind, value: seq<Byte>)
      requires Slots() && Counted() && Room(Value(), Field(kind, value))
      modifies this, tag, link
      ensures Counted() && Value() == Apply(old(Value()), Field(kind, value))
      ensures hasHeader == old(hasHeader) && headerBytes == old(headerBytes)
    {
      match kind {
        case Title => hasTitle, title := true, value;
        case Created => hasCreated, created := true, value;
        case Modified => hasModified, modified := true, value;
        case Tag =>
          tag[tagCount] := value;
          tagCount := tagCount + 1;
        case Link =>
          link[linkCount] := value;
          linkCount := linkCount + 1;
      }
    }
  }

  // ----- the parser

  /** What the next line of a legal header must be, once the lines of `done` have been read. */
  lemma NextOf(bytes: seq<Byte>, fs: seq<Field>, done: seq<Field>)
    requires Opens(bytes, fs) && Accepted(done) && MARKER + Lines(done) <= bytes
    ensures var rest := bytes[|MARKER + Lines(done)|..];
            var e := IndexFrom(rest, LF, 0);
            e < |rest| && (rest[..e] == END_LINE
              || exists f :: rest[..e] == Content(f) && ValueValid(f) && Room(Build(done), f))
  {
    hide Opens, Accepted, Content, ValueValid, Room, Build;
    ReadSoFar(bytes, fs, done);
    assert fs[..|done|] == done;
    NextLine(bytes, fs, |done|);
    assert Accepted(fs) by { OpensAccepted(bytes, fs); }
    LinesPrefix(fs, |done|);
  }

  lemma OpensAccepted(bytes: seq<Byte>, fs: seq<Field>)
    requires Opens(bytes, fs)
    ensures Accepted(fs)
  {
  }

  lemma Stuck(bytes: seq<Byte>, done: seq<Field>)
    requires PREFIX <= bytes && Accepted(done) && MARKER + Lines(done) <= bytes
    requires var rest := bytes[|MARKER + Lines(done)|..];
             var e := IndexFrom(rest, LF, 0);
             e == |rest| || (rest[..e] != END_LINE
               && forall f | rest[..e] == Content(f) :: !(ValueValid(f) && Room(Build(done), f)))
    ensures Parse(bytes).Broken?
  {
    hide Opens, Accepted, Content, ValueValid, Room, Build;
    forall fs
      ensures !Opens(bytes, fs)
    {
      if Opens(bytes, fs) {
        NextOf(bytes, fs, done);
      }
    }
  }

  lemma NoMarker(bytes: seq<Byte>)
    requires PREFIX <= bytes && !(MARKER <= bytes)
    ensures Parse(bytes).Broken?
  {
    forall fs
      ensures !Opens(bytes, fs)
    {
      assert MARKER <= Header(fs);
    }
  }

  lemma Ends(bytes: seq<Byte>, done: seq<Field>, e: nat)
    requires Accepted(done) && MARKER + Lines(done) <= bytes
    requires var at := |MARKER + Lines(done)|;
             at + e < |bytes| && bytes[at..at + e] == END_LINE && bytes[at + e] == LF
    ensures Parse(bytes) == Found(Build(done), |MARKER + Lines(done)| + e + 1)
  {
    hide Lines, Accepted, Build;
    var at := |MARKER + Lines(done)|;
    assert bytes[..at] == MARKER + Lines(done);
    assert bytes[..at + e + 1] == bytes[..at] + (bytes[at..at + e] + [bytes[at + e]]);
    assert END_LINE + [LF] == END;
    assert Opens(bytes, done);
    ParseOpens(bytes, done);
  }

  method NextLf(bytes: seq<Byte>, position: nat) returns (e: nat)
    requires position <= |bytes|
    ensures position <= e <= |bytes| && e - position == IndexFrom(bytes[position..], LF, 0)
    ensures e < |bytes| ==> bytes[e] == LF
  {
    e := position;
    while e < |bytes| && bytes[e] != LF
      invariant position <= e <= |bytes|
      invariant forall k | position <= k < e :: bytes[k] != LF
    {
      e := e + 1;
    }
    var rest := bytes[position..];
    assert forall k | 0 <= k < e - position :: rest[k] == bytes[position + k];
    if e < |bytes| { assert rest[e - position] == LF; }
  }

  /** The workspace holds exactly what the lines read so far declare. */
  ghost predicate Reading(bytes: seq<Byte>, w: NoteInfo, done: seq<Field>, position: nat)
    reads w, w.tag, w.link
    requires w.Slots()
  {
    && Accepted(done) && MARKER + Lines(done) <= bytes && position == |MARKER + Lines(done)|
    && w.Counted() && w.Value() == Build(done)
  }

  lemma ReadLine(bytes: seq<Byte>, done: seq<Field>, f: Field, e: nat)
    requires Accepted(done) && ValueValid(f) && Room(Build(done), f) && MARKER + Lines(done) <= bytes
    requires var at := |MARKER + Lines(done)|;
             at + e < |bytes| && bytes[at..at + e] == Content(f) && bytes[at + e] == LF
    ensures Accepted(done + [f]) && MARKER + Lines(done + [f]) <= bytes
    ensures |MARKER + Lines(done + [f])| == |MARKER + Lines(done)| + e + 1
    ensures Build(done + [f]) == Apply(Build(done), f)
  {
    hide Lines, Accepted, Build, Content, ValueValid, Room, Apply;
    var at := |MARKER + Lines(done)|;
    LinesSnoc(done, f);
    assert bytes[..at] == MARKER + Lines(done);
    assert bytes[..at + e + 1] == bytes[..at] + (bytes[at..at + e] + [bytes[at + e]]);
    assert MARKER + Lines(done + [f]) == MARKER + Lines(done) + Line(f);
  }

  /** One turn of the line walk. */
  method ReadField(bytes: seq<Byte>, w: NoteInfo, ghost done: seq<Field>, position: nat, e: nat)
    returns (ok: bool, ghost more: seq<Field>)
    requires w.Slots() && Reading(bytes, w, done, position) && PREFIX <= bytes
    requires position <= e < |bytes| && e - position == IndexFrom(bytes[position..], LF, 0)
    requires bytes[position..e] != END_LINE
    modifies w, w.tag, w.link
    ensures ok ==> Reading(bytes, w, more, e + 1)
    ensures !ok ==> Parse(bytes).Broken?
  {
    hide Parse, Accepted, Lines, Build, Content, ValueValid, Room, Apply;
    var line := bytes[position..e];
    assert bytes[position..][..e - position] == line;
    var kind, valueOffset := ClassifyLine(line);
    more := done;
    if !kind.FieldLine? {
      Stuck(bytes, done);
      return false, more;
    }
    ghost var f := Field(kind.kind, line[valueOffset..]);
    ok := w.ApplyField(kind.kind, line[valueOffset..]);
    if !ok {
      forall g | Content(g) == line
        ensures g == f
      {
        ContentInjective(f, g);
      }
      Stuck(bytes, done);
      return false, more;
    }
    ReadLine(bytes, done, f, e - position);
    more := done + [f];
  }

  /** The outcome of a parse, left in the workspace. */
  ghost predicate Outcome(p: Parsed, w: NoteInfo, r: Status, offset: nat)
    reads w, w.tag, w.link
    requires w.Slots()
  {
    match p
    case NoHeader => r == Ok && offset == 0
    case Broken => r == Metadata
    case Found(info, n) =>
      r == Ok && offset == n > 0 && w.hasHeader && w.headerBytes == n && w.Counted() && w.Value() == info
  }

  /** The bounded line walk. */
  method Walk(bytes: seq<Byte>, w: NoteInfo) returns (r: Status, offset: nat)
    requires w.Slots() && MARKER <= bytes && PREFIX <= bytes && Reading(bytes, w, [], |MARKER|)
    modifies w, w.tag, w.link
    ensures Outcome(Parse(bytes), w, r, offset)
  {
    hide Parse, Accepted, Lines, Build;
    var position := |MARKER|;
    ghost var done: seq<Field> := [];
    while position < |bytes|
      invariant position <= |bytes| && Reading(bytes, w, done, position)
      decreases |bytes| - position
    {
      var e := NextLf(bytes, position);
      if e == |bytes| {
        Stuck(bytes, done);
        return Metadata, 0;
      }
      if bytes[position..e] == END_LINE {
        Ends(bytes, done, e - position);
        w.hasHeader, w.headerBytes := true, e + 1;
        return Ok, e + 1;
      }
      var ok;
      ok, done := ReadField(bytes, w, done, position, e);
      if !ok {
        return Metadata, 0;
      }
      position := e + 1;
    }
    Stuck(bytes, done);
    return Metadata, 0;
  }

  /** parse_header_core: whatever the workspace holds, and whether or not the slots are cleared. */
  method ParseHeaderCore(bytes: seq<Byte>, w: NoteInfo, full: bool) returns (r: Status, offset: nat)
    requires w.Slots()
    modifies w, w.tag, w.link
    ensures Outcome(Parse(bytes), w, r, offset)
  {
    if !(|bytes| >= |PREFIX| && bytes[..|PREFIX|] == PREFIX) {
      return Ok, 0;
    }
    if !(|bytes| >= |MARKER| && bytes[..|MARKER|] == MARKER) {
      NoMarker(bytes);
      return Metadata, 0;
    }
    hide Parse;
    w.Clear(full);
    assert Reading(bytes, w, [], |MARKER|) by { assert MARKER + Lines([]) == MARKER; }
    hide Reading;
    r, offset := Walk(bytes, w);
  }

  predicate Separate(a: NoteInfo, b: NoteInfo) {
    a != b && a.tag != b.tag && a.link != b.link && a.tag != b.link && a.link != b.tag
  }

  /** yan_note_parse_header: `out` is written on Ok only. */
  method ParseHeader(bytes: seq<Byte>, out: NoteInfo, w: NoteInfo) returns (r: Status)
    requires out.Slots() && w.Slots() && Separate(out, w)
    modifies out, out.tag, out.link, w, w.tag, w.link
    ensures |bytes| > HEADER_MAX ==> r == TooLarge
    ensures |bytes| <= HEADER_MAX ==> r == if Parse(bytes).Broken? then Metadata else Ok
    ensures r != Ok ==> unchanged(out) && unchanged(out.tag) && unchanged(out.link)
    ensures r == Ok ==> out.Counted() && match Parse(bytes)
      case NoHeader => !out.hasHeader && out.headerBytes == 0 && out.Value() == NOTHING
      case Found(info, n) => out.hasHeader && out.headerBytes == n && out.Value() == info
      case Broken => false
  {
    hide Parse;
    if |bytes| > HEADER_MAX {
      return TooLarge;
    }
    var offset;
    r, offset := ParseHeaderCore(bytes, w, true);
    if r == Ok {
      if offset == 0 {
        out.Clear(true);
      } else {
        out.CopyFrom(w);
      }
    }
  }

  /** yan_note_body_offset: `offset` is published on Ok only. */
  method BodyOffset(bytes: seq<Byte>, w: NoteInfo, before: nat) returns (r: Status, offset: nat)
    requires w.Slots()
    modifies w, w.tag, w.link
    ensures |bytes| > HEADER_MAX ==> r == TooLarge
    ensures |bytes| <= HEADER_MAX ==> r == if Parse(bytes).Broken? then Metadata else Ok
    ensures offset == if r != Ok then before else if Parse(bytes).NoHeader? then 0 else Parse(bytes).headerBytes
  {
    hide Parse;
    offset := before;
    if |bytes| > HEADER_MAX {
      return TooLarge, before;
    }
    var candidate;
    r, candidate := ParseHeaderCore(bytes, w, false);
    if r == Ok {
      offset := candidate;
    }
  }

  /** The two entry points agree on every input, whatever either workspace held before. */
  method Agree(bytes: seq<Byte>, out: NoteInfo, w: NoteInfo, v: NoteInfo)
    returns (r: Status, q: Status, offset: nat)
    requires out.Slots() && w.Slots() && v.Slots() && Separate(out, w) && Separate(out, v) && Separate(w, v)
    modifies out, out.tag, out.link, w, w.tag, w.link, v, v.tag, v.link
    ensures r == q
    ensures r == Ok ==> offset == out.headerBytes
  {
    hide Parse;
    r := ParseHeader(bytes, out, w);
    q, offset := BodyOffset(bytes, v, 0);
  }

  // ----- the encoder

  /** info_is_complete */
  method InfoIsComplete(info: NoteInfo) returns (complete: bool)
    requires info.Slots()
    ensures complete <==> info.Counted() && Complete(info.Value())
  {
    hide TitleValid, DateValid, TagValid, BlockGrammar.NameValid, ListComplete;
    if (!info.hasTitle && |info.title| != 0) || (!info.hasCreated && |info.created| != 0)
       || (!info.hasModified && |info.modified| != 0) {
      return false;
    }
    if info.hasTitle {
      var valid := TitleIsValid(info.title);
      if !valid {
        return false;
      }
    }
    if info.hasCreated {
      var valid := DateIsValid(info.created);
      if !valid {
        return false;
      }
    }
    if info.hasModified {
      var valid := DateIsValid(info.modified);
      if !valid {
        return false;
      }
    }
    if info.tagCount > LIST_MAX || info.linkCount > LIST_MAX {
      return false;
    }
    var valid := ListIsComplete(Tag, info.tag[..info.tagCount]);
    if !valid {
      return false;
    }
    complete := ListIsComplete(Link, info.link[..info.linkCount]);
  }

  method EntryIsValid(kind: Kind, value: seq<Byte>) returns (valid: bool)
    requires kind == Tag || kind == Link
    ensures valid <==> ValueValid(Field(kind, value))
  {
    if kind == Tag {
      valid := TagIsValid(value);
    } else {
      valid := BlockGrammar.NameValid(value);
    }
  }

  /** The two list loops of info_is_complete, which differ in their validator only. */
  method ListIsComplete(kind: Kind, vs: seq<seq<Byte>>) returns (complete: bool)
    requires |vs| <= LIST_MAX && (kind == Tag || kind == Link)
    ensures complete <==> ListComplete(kind, vs)
  {
    hide ValueValid;
    for i := 0 to |vs|
      invariant ListComplete(kind, vs[..i])
    {
      var valid := EntryIsValid(kind, vs[i]);
      if !valid {
        return false;
      }
      for j := 0 to i
        invariant vs[i] !in vs[..j]
      {
        if vs[i] == vs[j] {
          return false;
        }
      }
      assert vs[..i + 1] == vs[..i] + [vs[i]];
      ListSnoc(kind, vs[..i], vs[i]);
    }
    assert vs[..|vs|] == vs;
    return true;
  }

  /** encoded_total */
  method EncodedTotal(info: NoteInfo) returns (total: nat)
    requires info.Slots() && info.Counted()
    ensures total == |Header(FieldsOf(info.Value()))|
  {
    ghost var v := info.Value();
    HeaderParts(v);
    hide Lines, One, Each, Header, FieldsOf;
    total := |MARKER| + |END|;
    if info.hasTitle {
      total := total + 7 + |info.title| + 1;
    }
    if info.hasCreated {
      total := total + 9 + |info.created| + 1;
    }
    if info.hasModified {
      total := total + 10 + |info.modified| + 1;
    }
    var tags := ListTotal(Tag, info.tag[..info.tagCount]);
    var links := ListTotal(Link, info.link[..info.linkCount]);
    total := total + tags + links;
  }

  function OneTotal(present: bool, kind: Kind, value: seq<Byte>): nat {
    if present then |Key(kind)| + 2 + |value| + 1 else 0
  }

  lemma OneExactly(present: bool, kind: Kind, value: seq<Byte>)
    ensures |Lines(One(present, kind, value))| == OneTotal(present, kind, value)
  {
    if present {
      assert [Field(kind, value)][..0] == [];
    }
  }

  lemma HeaderParts(v: Info)
    ensures |Header(FieldsOf(v))| == |MARKER| + |END|
      + (if v.hasTitle then 7 + |v.title| + 1 else 0) + (if v.hasCreated then 9 + |v.created| + 1 else 0)
      + (if v.hasModified then 10 + |v.modified| + 1 else 0)
      + |Lines(Each(Tag, v.tags))| + |Lines(Each(Link, v.links))|
  {
    hide Lines, One, Each;
    var a, b, c := One(v.hasTitle, Title, v.title), One(v.hasCreated, Created, v.created), One(v.hasModified, Modified, v.modified);
    LinesConcat(a, b);
    LinesConcat(a + b, c);
    LinesConcat(a + b + c, Each(Tag, v.tags));
    LinesConcat(a + b + c + Each(Tag, v.tags), Each(Link, v.links));
    OneExactly(v.hasTitle, Title, v.title);
    OneExactly(v.hasCreated, Created, v.created);
    OneExactly(v.hasModified, Modified, v.modified);
  }

  /** The two list loops of encoded_total. */
  method ListTotal(kind: Kind, vs: seq<seq<Byte>>) returns (total: nat)
    requires |vs| <= LIST_MAX
    ensures total == |Lines(Each(kind, vs))|
  {
    hide Line, Key;
    total := 0;
    for i := 0 to |vs|
      invariant total == |Lines(Each(kind, vs)[..i])|
    {
      LineLength(Field(kind, vs[i]));
      var fs := Each(kind, vs)[..i + 1];
      assert fs[..i] == Each(kind, vs)[..i];
      total := total + |Key(kind)| + 2 + |vs[i]| + 1;
    }
    assert Each(kind, vs)[..|vs|] == Each(kind, vs);
  }

  /** emit_literal and emit_bytes */
  method Emit(out: array<Byte>, cursor: nat, bytes: seq<Byte>) returns (next: nat)
    requires cursor + |bytes| <= out.Length
    modifies out
    ensures next == cursor + |bytes|
    ensures out[..next] == old(out[..cursor]) + bytes
    ensures out[next..] == old(out[next..])
  {
    for i := 0 to |bytes|
      invariant forall k | 0 <= k < cursor || cursor + i <= k < out.Length :: out[k] == old(out[k])
      invariant forall k | 0 <= k < i :: out[cursor + k] == bytes[k]
    {
      out[cursor + i] := bytes[i];
    }
    next := cursor + |bytes|;
    assert forall k | cursor <= k < next :: out[k] == bytes[k - cursor];
  }

  /** out holds the marker and the lines of `done`, and past the header of fs it is untouched. */
  ghost predicate Emitted(out: array<Byte>, cursor: nat, done: seq<Field>, fs: seq<Field>, tail: seq<Byte>)
    reads out
  {
    && done <= fs && cursor <= |Header(fs)| <= out.Length
    && out[..cursor] == MARKER + Lines(done) && out[|Header(fs)|..] == tail
  }

  lemma LineFits(done: seq<Field>, f: Field, fs: seq<Field>)
    requires done + [f] <= fs
    ensures |MARKER + Lines(done)| + |Line(f)| + |END| <= |Header(fs)|
  {
    hide Lines, Line;
    LinesSnoc(done, f);
    assert fs[..|done| + 1] == done + [f];
    LinesPrefix(fs, |done| + 1);
    assert |Lines(done + [f])| <= |Lines(fs)|;
  }

  lemma Joined(buffer: seq<Byte>, done: seq<Field>, f: Field, text: seq<Byte>)
    requires buffer == MARKER + Lines(done) + text && text == Line(f)
    ensures buffer == MARKER + Lines(done + [f])
  {
    hide Lines, Line;
    LinesSnoc(done, f);
    assert MARKER + Lines(done) + Line(f) == MARKER + (Lines(done) + Line(f));
  }

  /** key, ": ", value and LF. */
  method EmitText(out: array<Byte>, cursor: nat, key: seq<Byte>, value: seq<Byte>) returns (next: nat)
    requires cursor + |key| + 3 + |value| <= out.Length
    modifies out
    ensures next == cursor + |key| + 3 + |value|
    ensures out[..next] == old(out[..cursor]) + (key + [COLON, BLANK] + value + [LF])
    ensures out[next..] == old(out[next..])
  {
    ghost var end := cursor + |key| + 3 + |value|;
    next := Emit(out, cursor, key + [COLON, BLANK]);
    assert out[next..][end - next..] == out[end..] && old(out[next..])[end - next..] == old(out[end..]);
    label One:
    next := Emit(out, next, value);
    assert out[next..][end - next..] == out[end..] && old@One(out[next..])[end - next..] == old@One(out[end..]);
    next := Emit(out, next, [LF]);
  }

  /** One "key: value\n" line. */
  method EmitLine(out: array<Byte>, cursor: nat, kind: Kind, value: seq<Byte>,
                  ghost done: seq<Field>, ghost fs: seq<Field>, ghost tail: seq<Byte>) returns (next: nat)
    requires Emitted(out, cursor, done, fs, tail) && done + [Field(kind, value)] <= fs
    modifies out
    ensures Emitted(out, next, done + [Field(kind, value)], fs, tail)
  {
    hide Header, Key, MARKER, END, Lines;
    ghost var f, total := Field(kind, value), |Header(fs)|;
    LineFits(done, f, fs);
    LineLength(f);
    assert Line(f) == Key(kind) + [COLON, BLANK] + value + [LF];
    hide Line;
    assert cursor == |MARKER + Lines(done)|;
    next := EmitText(out, cursor, Key(kind), value);
    Joined(out[..next], done, f, Key(kind) + [COLON, BLANK] + value + [LF]);
    assert out[total..] == out[next..][total - next..] && old(out[total..]) == old(out[next..])[total - next..];
  }

  /** The list loops of the encoder. */
  method EmitList(out: array<Byte>, start: nat, kind: Kind, vs: seq<seq<Byte>>,
                  ghost done: seq<Field>, ghost fs: seq<Field>, ghost tail: seq<Byte>) returns (cursor: nat)
    requires Emitted(out, start, done, fs, tail) && done + Each(kind, vs) <= fs
    modifies out
    ensures Emitted(out, cursor, done + Each(kind, vs), fs, tail)
  {
    hide Emitted;
    cursor := start;
    assert done + Each(kind, vs[..0]) == done;
    for i := 0 to |vs|
      invariant Emitted(out, cursor, done + Each(kind, vs[..i]), fs, tail)
    {
      assert vs[..i] + [vs[i]] == vs[..i + 1];
      EachSnoc(done, kind, vs[..i], vs[i]);
      assert done + Each(kind, vs[..i + 1]) <= done + Each(kind, vs);
      cursor := EmitLine(out, cursor, kind, vs[i], done + Each(kind, vs[..i]), fs, tail);
    }
    assert vs[..|vs|] == vs;
  }

  method EmitOne(out: array<Byte>, start: nat, present: bool, kind: Kind, value: seq<Byte>,
                 ghost done: seq<Field>, ghost fs: seq<Field>, ghost tail: seq<Byte>) returns (cursor: nat)
    requires Emitted(out, start, done, fs, tail) && done + One(present, kind, value) <= fs
    modifies out
    ensures Emitted(out, cursor, done + One(present, kind, value), fs, tail)
  {
    hide Emitted;
    cursor := start;
    if present {
      cursor := EmitLine(out, cursor, kind, value, done, fs, tail);
    } else {
      assert done + One(present, kind, value) == done;
    }
  }

  /** yan_note_encode_header; capacity is the length of `out`. */
  method EncodeHeader(info: NoteInfo, out: array<Byte>, before: nat) returns (r: Status, length: nat)
    requires info.Slots()
    modifies out
    ensures r == if !info.Counted() || !Complete(info.Value()) then Invalid
                 else if out.Length < |Header(FieldsOf(info.Value()))| then TooLarge else Ok
    ensures r != Ok ==> out[..] == old(out[..]) && length == before
    ensures r == Ok ==> length == |Header(FieldsOf(info.Value()))| && out[..length] == Header(FieldsOf(info.Value()))
                        && out[length..] == old(out[length..])
  {
    hide Complete, FieldsOf, Header, Lines, One;
    length := before;
    var complete := InfoIsComplete(info);
    if !complete {
      return Invalid, before;
    }
    ghost var v := info.Value();
    HeaderLength(v);
    var total := EncodedTotal(info);
    if total > HEADER_MAX || out.Length < total {
      return TooLarge, before;
    }
    WriteHeader(info.Value(), out);
    return Ok, total;
  }

  method Open(out: array<Byte>, ghost fs: seq<Field>) returns (cursor: nat)
    requires |Header(fs)| <= out.Length
    modifies out
    ensures Emitted(out, cursor, [], fs, old(out[|Header(fs)|..]))
  {
    ghost var total := |Header(fs)|;
    assert |MARKER| <= total;
    cursor := Emit(out, 0, MARKER);
    hide Header;
    assert out[total..] == out[cursor..][total - cursor..] && old(out[total..]) == old(out[cursor..])[total - cursor..];
    assert out[..cursor] == MARKER + Lines([]);
  }

  method Close(out: array<Byte>, cursor: nat, ghost fs: seq<Field>, ghost tail: seq<Byte>)
    requires Emitted(out, cursor, fs, fs, tail)
    modifies out
    ensures out[..|Header(fs)|] == Header(fs) && out[|Header(fs)|..] == tail
  {
    hide Lines;
    var end := Emit(out, cursor, END);
    assert end == |Header(fs)|;
  }

  method WriteHeader(v: Info, out: array<Byte>)
    requires |Header(FieldsOf(v))| <= out.Length
    modifies out
    ensures out[..|Header(FieldsOf(v))|] == Header(FieldsOf(v))
    ensures out[|Header(FieldsOf(v))|..] == old(out[|Header(FieldsOf(v))|..])
  {
    ghost var fs, tail := FieldsOf(v), out[|Header(FieldsOf(v))|..];
    ghost var a := One(v.hasTitle, Title, v.title);
    ghost var b := a + One(v.hasCreated, Created, v.created);
    ghost var c := b + One(v.hasModified, Modified, v.modified);
    ghost var d := c + Each(Tag, v.tags);
    assert [] + a == a && a <= fs && b <= fs && c <= fs && d <= fs && d + Each(Link, v.links) == fs;
    hide Emitted, Header, FieldsOf, One, Each;
    var cursor := Open(out, fs);
    cursor := EmitOne(out, cursor, v.hasTitle, Title, v.title, [], fs, tail);
    cursor := EmitOne(out, cursor, v.hasCreated, Created, v.created, a, fs, tail);
    cursor := EmitOne(out, cursor, v.hasModified, Modified, v.modified, b, fs, tail);
    cursor := EmitList(out, cursor, Tag, v.tags, c, fs, tail);
    cursor := EmitList(out, cursor, Link, v.links, d, fs, tail);
    Close(out, cursor, fs, tail);
  }

  /** Encoding complete metadata, putting any body after it and parsing the result gives the same
      metadata and finds the body where the header ends. */
  method EncodeThenParse(info: NoteInfo, out: array<Byte>, body: seq<Byte>, back: NoteInfo, w: NoteInfo)
    requires info.Slots() && back.Slots() && w.Slots()
    requires Separate(info, back) && Separate(info, w) && Separate(back, w)
    requires info.Counted() && Complete(info.Value())
    requires out.Length >= 2034 && |body| <= HEADER_MAX - 2034
    modifies out, back, back.tag, back.link, w, w.tag, w.link
    ensures back.Counted() && back.hasHeader && back.Value() == old(info.Value())
    ensures back.headerBytes <= 2034 && out[..back.headerBytes] == Header(FieldsOf(old(info.Value())))
  {
    hide Complete, Parse, Header, FieldsOf;
    ghost var v := info.Value();
    HeaderLength(v);
    RoundTrip(v, body);
    var r, length := EncodeHeader(info, out, 0);
    r := ParseHeader(out[..length] + body, back, w);
  }
}
