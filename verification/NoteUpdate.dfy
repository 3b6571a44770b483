/** os/note_metadata.c: metadata edits. A change rewrites the header in front of the old body, inside one
    buffer, and replaces the file once. */
module NoteUpdate {
  import opened Bytes
  import opened LegalText
  import opened NoteFields
  import opened NoteHeader
  import Meta = NoteMetadata
  import BlockGrammar
  import BufferText
  import Memory

  const CANDIDATE_BYTES: nat := 16384
  const PREFIX_BYTES: nat := 4096

  datatype Result = Ok | Invalid | Metadata | TooLarge | InvalidText | Protocol | Failed(code: int)

  /** One file of the filesystem, whose operations may fail; a failed replace changes nothing. */
  class File {
    var content: seq<Byte>

    constructor (content: seq<Byte>)
      ensures this.content == content
    {
      this.content := content;
    }

    /** A read may come back short. */
    method Read(out: array<Byte>, want: nat) returns (r: Result, got: nat)
      requires want <= |content| && want <= out.Length
      modifies out
      ensures r == Ok || r.Failed?
      ensures r == Ok ==> got <= want && out[..got] == content[..got]
    {
      var fails: bool, amount: nat := *, *;
      if fails {
        return Failed(0), 0;
      }
      got := if amount < want then amount else want;
      for i := 0 to got
        invariant out[..i] == content[..i]
      {
        out[i] := content[i];
        assert content[..i + 1] == content[..i] + [content[i]] && out[..i + 1] == out[..i] + [out[i]];
      }
      r := Ok;
    }

    method Replace(bytes: seq<Byte>) returns (r: Result)
      modifies this
      ensures r == Ok ==> content == bytes
      ensures r != Ok ==> r.Failed? && content == old(content)
    {
      var fails: bool := *;
      if fails {
        return Failed(0);
      }
      content := bytes;
      r := Ok;
    }
  }

  // ----- what a file declares

  function Head(content: seq<Byte>): seq<Byte> {
    if |content| < PREFIX_BYTES then content else content[..PREFIX_BYTES]
  }

  ghost function InfoOf(content: seq<Byte>): Info {
    if Parse(Head(content)).Found? then Parse(Head(content)).info else NOTHING
  }

  ghost function BodyAt(content: seq<Byte>): (n: nat)
    ensures n <= |content|
  {
    if Parse(Head(content)).Found? then (BodyIrrelevant(Head(content), []); Parse(Head(content)).headerBytes) else 0
  }

  ghost function Body(content: seq<Byte>): seq<Byte> {
    content[BodyAt(content)..]
  }

  ghost predicate Readable(content: seq<Byte>) {
    !Parse(Head(content)).Broken?
  }

  lemma InfoComplete(content: seq<Byte>)
    ensures Complete(InfoOf(content))
  {
    hide Parse, Complete;
    if Parse(Head(content)).Found? {
      ParsedComplete(Head(content), []);
    } else {
      NothingComplete();
    }
  }

  /** A rewritten file declares the new metadata and keeps its body byte for byte. */
  lemma Rewritten(info: Info, body: seq<Byte>)
    requires Complete(info)
    ensures InfoOf(Header(FieldsOf(info)) + body) == info && Body(Header(FieldsOf(info)) + body) == body
    ensures Readable(Header(FieldsOf(info)) + body)
  {
    hide Parse, Complete, FieldsOf, Header;
    var h := Header(FieldsOf(info));
    HeaderLength(info);
    var head := Head(h + body);
    assert head == h + head[|h|..];
    RoundTrip(info, head[|h|..]);
  }

  // ----- the edits

  datatype Mode = Add | Delete

  function Without(list: seq<seq<Byte>>, v: seq<Byte>): seq<seq<Byte>> {
    if list == [] then []
    else if list[0] == v then list[1..]
    else [list[0]] + Without(list[1..], v)
  }

  function Managed(list: seq<seq<Byte>>, mode: Mode, v: seq<Byte>): seq<seq<Byte>> {
    if mode == Delete then Without(list, v) else if v in list then list else list + [v]
  }

  function WithTitle(info: Info, v: seq<Byte>): Info {
    info.(hasTitle := v != [], title := v)
  }

  function WithDate(info: Info, created: bool, v: seq<Byte>): Info {
    if created then info.(hasCreated := v != [], created := v) else info.(hasModified := v != [], modified := v)
  }

  lemma {:induction false} WithoutMeaning(list: seq<seq<Byte>>, v: seq<Byte>)
    requires forall j, k | 0 <= j < k < |list| :: list[j] != list[k]
    ensures forall w :: w in Without(list, v) <==> w in list && w != v
    ensures forall j, k | 0 <= j < k < |Without(list, v)| :: Without(list, v)[j] != Without(list, v)[k]
    ensures v !in list ==> Without(list, v) == list
    ensures |Without(list, v)| <= |list|
  {
    if list != [] {
      WithoutMeaning(list[1..], v);
      assert forall w :: w in list <==> w == list[0] || w in list[1..];
      assert list[0] !in list[1..];
    }
  }

  lemma ManagedComplete(kind: Kind, list: seq<seq<Byte>>, mode: Mode, v: seq<Byte>)
    requires ListComplete(kind, list) && ValueValid(Field(kind, v)) && |Managed(list, mode, v)| <= LIST_MAX
    ensures ListComplete(kind, Managed(list, mode, v))
  {
    hide ValueValid;
    if mode == Delete {
      WithoutMeaning(list, v);
      var rest := Without(list, v);
      forall k | 0 <= k < |rest|
        ensures ValueValid(Field(kind, rest[k]))
      {
        assert rest[k] in list;
        var j :| 0 <= j < |list| && list[j] == rest[k];
        assert ValueValid(Field(kind, list[j]));
      }
    } else if v !in list {
      ListSnoc(kind, list, v);
    }
  }

  /** Only the title differs: it is `v`, and there is none for no bytes. */
  predicate OnlyTitle(before: Info, after: Info, v: seq<Byte>) {
    && after.title == v && (after.hasTitle <==> v != [])
    && after.hasCreated == before.hasCreated && after.created == before.created
    && after.hasModified == before.hasModified && after.modified == before.modified
    && after.tags == before.tags && after.links == before.links
  }

  /** Only the creation date differs. */
  predicate OnlyCreated(before: Info, after: Info, v: seq<Byte>) {
    && after.created == v && (after.hasCreated <==> v != [])
    && after.hasTitle == before.hasTitle && after.title == before.title
    && after.hasModified == before.hasModified && after.modified == before.modified
    && after.tags == before.tags && after.links == before.links
  }

  /** Only the modification date differs. */
  predicate OnlyModified(before: Info, after: Info, v: seq<Byte>) {
    && after.modified == v && (after.hasModified <==> v != [])
    && after.hasTitle == before.hasTitle && after.title == before.title
    && after.hasCreated == before.hasCreated && after.created == before.created
    && after.tags == before.tags && after.links == before.links
  }

  /** The value stands in the list afterwards, behind what was there, or is taken out of it. */
  predicate ListEdited(before: seq<seq<Byte>>, after: seq<seq<Byte>>, mode: Mode, v: seq<Byte>) {
    if mode == Add then
      if v in before then after == before else after == before + [v]
    else if v !in before then after == before
    else exists i :: 0 <= i < |before| && before[i] == v && v !in before[..i] && after == before[..i] + before[i + 1..]
  }

  /** Only the one list differs. */
  predicate OnlyList(before: Info, after: Info, kind: Kind, mode: Mode, v: seq<Byte>)
    requires kind == Tag || kind == Link
  {
    && after.hasTitle == before.hasTitle && after.title == before.title
    && after.hasCreated == before.hasCreated && after.created == before.created
    && after.hasModified == before.hasModified && after.modified == before.modified
    && (if kind == Tag then ListEdited(before.tags, after.tags, mode, v) && after.links == before.links
        else ListEdited(before.links, after.links, mode, v) && after.tags == before.tags)
  }

  lemma EditsMeaning(info: Info, v: seq<Byte>)
    ensures OnlyTitle(info, WithTitle(info, v), v)
    ensures OnlyCreated(info, WithDate(info, true, v), v)
    ensures OnlyModified(info, WithDate(info, false, v), v)
  {
  }

  lemma {:induction false} WithoutIsCut(list: seq<seq<Byte>>, v: seq<Byte>)
    ensures ListEdited(list, Without(list, v), Delete, v)
  {
    var i := 0;
    while i < |list| && list[i] != v
      invariant i <= |list| && v !in list[..i]
    {
      assert list[..i + 1] == list[..i] + [list[i]];
      i := i + 1;
    }
    WithoutAt(list, i, v);
    assert i == |list| ==> list[..i] == list;
  }

  lemma ListEditMeaning(info: Info, kind: Kind, mode: Mode, v: seq<Byte>)
    requires kind == Tag || kind == Link
    ensures OnlyList(info, Edited(info, kind, mode, v), kind, mode, v)
  {
    hide Without;
    WithoutIsCut(ListOf(info, kind), v);
  }

  /** What a refusal of the update that would declare `info` says about the file. */
  ghost predicate Explained(r: Result, content: seq<Byte>, info: Info) {
    && (r == Metadata ==> !Readable(content))
    && (r == InvalidText ==> !Legal(content))
    && (r == TooLarge ==>
          |content| > CANDIDATE_BYTES || |Header(FieldsOf(info))| + |Body(content)| > CANDIDATE_BYTES)
  }

  // ----- the working area

  class NoteContext {
    const candidate: array<Byte>
    const prefix: array<Byte>
    const current: Meta.NoteInfo
    const working: Meta.NoteInfo
    const workspace: Meta.NoteInfo

    ghost predicate Ready() {
      && candidate.Length == CANDIDATE_BYTES && prefix.Length == PREFIX_BYTES && candidate != prefix
      && current.Slots() && working.Slots() && workspace.Slots()
      && Meta.Separate(current, working) && Meta.Separate(current, workspace) && Meta.Separate(working, workspace)
    }

    constructor ()
      ensures Ready() && fresh(candidate) && fresh(prefix) && fresh(current) && fresh(working) && fresh(workspace)
      ensures fresh(current.tag) && fresh(current.link) && fresh(working.tag) && fresh(working.link)
      ensures fresh(workspace.tag) && fresh(workspace.link)
    {
      candidate := new Byte[CANDIDATE_BYTES];
      prefix := new Byte[PREFIX_BYTES];
      current := new Meta.NoteInfo();
      working := new Meta.NoteInfo();
      workspace := new Meta.NoteInfo();
    }

    /** read_head */
    method ReadHead(file: File) returns (r: Result, size: nat)
      requires Ready()
      modifies prefix, current, current.tag, current.link, workspace, workspace.tag, workspace.link
      ensures r == Ok ==> size == |file.content| && Readable(file.content)
      ensures r == Ok ==> current.Counted() && current.Value() == InfoOf(file.content) && current.headerBytes == BodyAt(file.content)
      ensures r == Metadata ==> !Readable(file.content)
      ensures r == Ok || r == Metadata || r == Protocol || r.Failed?
    {
      hide Parse;
      size := |file.content|;
      var want := if size < PREFIX_BYTES then size else PREFIX_BYTES;
      var got;
      r, got := file.Read(prefix, want);
      if r != Ok {
        return;
      }
      if got != want {
        return Protocol, size;
      }
      assert prefix[..want] == Head(file.content);
      var parsed := Meta.ParseHeader(prefix[..want], current, workspace);
      r := if parsed == Meta.Ok then Ok else Metadata;
    }

    /** The body shift of publish_change: one simultaneous copy, whichever way the body moves. */
    method ShiftBody(from: nat, to: nat, length: nat)
      requires from + length <= candidate.Length && to + length <= candidate.Length
      modifies candidate
      ensures Memory.Moved(candidate[..], old(candidate[..]), to, from, length)
    {
      ghost var was := candidate[..];
      if to > from {
        for i := length downto 0
          invariant Memory.Moved(candidate[..], was, to + i, from + i, length - i)
        {
          candidate[to + i] := candidate[from + i];
        }
      } else if to < from {
        for i := 0 to length
          invariant Memory.Moved(candidate[..], was, to, from, i)
        {
          candidate[to + i] := candidate[from + i];
        }
      }
    }

    method CopyHeader(header: seq<Byte>)
      requires |header| <= candidate.Length
      modifies candidate
      ensures forall k | 0 <= k < |header| :: candidate[k] == header[k]
      ensures forall k | |header| <= k < candidate.Length :: candidate[k] == old(candidate[k])
    {
      for i := 0 to |header|
        invariant forall k | 0 <= k < i :: candidate[k] == header[k]
        invariant forall k | i <= k < candidate.Length :: candidate[k] == old(candidate[k])
      {
        candidate[i] := header[i];
      }
    }

    /** Shifting the body and writing the header gives the new file. */
    method Compose(header: seq<Byte>, oldHeader: nat, size: nat, ghost content: seq<Byte>)
      requires size == |content| <= candidate.Length && oldHeader <= size && candidate[..size] == content
      requires |header| + (size - oldHeader) <= candidate.Length
      modifies candidate
      ensures candidate[..|header| + (size - oldHeader)] == header + content[oldHeader..]
    {
      var length := size - oldHeader;
      ghost var was := candidate[..];
      assert forall k | 0 <= k < size :: was[k] == content[k];
      ShiftBody(oldHeader, |header|, length);
      ghost var moved := candidate[..];
      CopyHeader(header);
      assert forall k | |header| <= k < |header| + length :: candidate[k] == moved[k] == was[oldHeader + (k - |header|)];
    }

    /** The old file, read whole and checked to be text. */
    method LoadOld(file: File, size: nat) returns (r: Result)
      requires Ready() && size == |file.content|
      modifies candidate
      ensures r == Ok ==> size <= CANDIDATE_BYTES && candidate[..size] == file.content && Legal(file.content)
      ensures r == InvalidText ==> !Legal(file.content)
      ensures r == TooLarge <==> size > CANDIDATE_BYTES
      ensures r != Invalid && r != Metadata
    {
      if size > CANDIDATE_BYTES {
        return TooLarge;
      }
      var got;
      r, got := file.Read(candidate, size);
      if r != Ok {
        return;
      }
      if got != size {
        return Protocol;
      }
      var valid := BufferText.EditorTextValid(candidate[..size]);
      r := if valid then Ok else InvalidText;
    }

    /** publish_change: the new file is the encoded metadata followed by the old body, or there is no
        new file. */
    method PublishChange(file: File, size: nat) returns (r: Result)
      requires Ready() && size == |file.content| && current.headerBytes <= size
      requires working.Counted() && Complete(working.Value())
      modifies candidate, prefix, file, working, current, current.tag, current.link
      ensures r == Ok ==> file.content == Header(FieldsOf(old(working.Value()))) + old(file.content)[old(current.headerBytes)..]
      ensures r != Ok ==> file.content == old(file.content)
      ensures r == InvalidText ==> !Legal(old(file.content))
      ensures r == Ok ==> Legal(old(file.content)) && |file.content| <= CANDIDATE_BYTES
      ensures r == TooLarge ==>
                size > CANDIDATE_BYTES || |Header(FieldsOf(old(working.Value())))| + (size - old(current.headerBytes)) > CANDIDATE_BYTES
      ensures r != Invalid && r != Metadata
    {
      hide Complete, Header, FieldsOf, Legal;
      r := LoadOld(file, size);
      if r != Ok {
        return;
      }
      ghost var content := file.content;
      HeaderLength(working.Value());
      var status, encoded := Meta.EncodeHeader(working, prefix, 0);
      assert status == Meta.Ok;
      var oldHeader := current.headerBytes;
      if size - oldHeader > CANDIDATE_BYTES - encoded {
        return TooLarge;
      }
      Compose(prefix[..encoded], oldHeader, size, content);
      r := file.Replace(candidate[..encoded + (size - oldHeader)]);
      if r == Ok {
        working.hasHeader, working.headerBytes := true, encoded;
        current.CopyFrom(working);
      }
    }

    /** What every edit does once its working copy differs from the current metadata. */
    method Publish(file: File, size: nat) returns (r: Result)
      requires Ready() && size == |file.content| && current.headerBytes == BodyAt(file.content)
      requires working.Counted() && Complete(working.Value())
      modifies candidate, prefix, file, working, current, current.tag, current.link
      ensures r == Ok ==> InfoOf(file.content) == old(working.Value()) && Body(file.content) == Body(old(file.content))
      ensures r == Ok ==> Readable(file.content) && Legal(old(file.content))
      ensures r != Ok ==> file.content == old(file.content)
      ensures r != Invalid && Explained(r, old(file.content), old(working.Value()))
    {
      hide Complete, Header, FieldsOf, Legal, InfoOf, BodyAt, Readable;
      ghost var was, v := file.content, working.Value();
      r := PublishChange(file, size);
      if r == Ok { Rewritten(v, was[BodyAt(was)..]); }
    }

    /** The start of every edit: the head is read and copied into the working object. */
    method Begin(file: File) returns (r: Result, size: nat)
      requires Ready()
      modifies prefix, current, current.tag, current.link, workspace, workspace.tag, workspace.link
      modifies working, working.tag, working.link
      ensures r == Ok ==> size == |file.content| && current.headerBytes == BodyAt(file.content)
      ensures r == Ok ==> working.Counted() && working.Value() == InfoOf(file.content) && Complete(working.Value())
      ensures r == Metadata ==> !Readable(file.content)
      ensures r == Ok || r == Metadata || r == Protocol || r.Failed?
    {
      hide InfoOf, BodyAt, Complete, Readable;
      r, size := ReadHead(file);
      if r == Ok {
        InfoComplete(file.content);
        working.CopyFrom(current);
      }
    }

    /** yan_note_set_title; no bytes clear the title. */
    method SetTitle(file: File, bytes: seq<Byte>) returns (r: Result)
      requires Ready()
      modifies candidate, prefix, current, current.tag, current.link, workspace, workspace.tag, workspace.link
      modifies working, working.tag, working.link, file
      ensures r == Ok ==> InfoOf(file.content) == WithTitle(InfoOf(old(file.content)), bytes)
      ensures r == Ok ==> OnlyTitle(InfoOf(old(file.content)), InfoOf(file.content), bytes)
      ensures r == Ok ==> Body(file.content) == Body(old(file.content))
      ensures r == Ok && WithTitle(InfoOf(old(file.content)), bytes) == InfoOf(old(file.content)) ==> file.content == old(file.content)
      ensures r != Ok ==> file.content == old(file.content)
      ensures r == Invalid <==> bytes != [] && !TitleValid(bytes)
      ensures Explained(r, old(file.content), WithTitle(InfoOf(old(file.content)), bytes))
    {
      hide InfoOf, BodyAt, Complete, TitleValid, Readable, Legal, Header, FieldsOf, OnlyTitle;
      EditsMeaning(InfoOf(file.content), bytes);
      if |bytes| != 0 {
        var valid := TitleIsValid(bytes);
        if !valid {
          return Invalid;
        }
      }
      var size;
      r, size := Begin(file);
      if r != Ok {
        return;
      }
      ghost var info := working.Value();
      TitleComplete(info, bytes);
      if |bytes| == 0 && !working.hasTitle {
        assert working.title == [] by { AbsentTitle(info); }
        return Ok;
      }
      if |bytes| != 0 && working.hasTitle && working.title == bytes {
        return Ok;
      }
      working.hasTitle, working.title := |bytes| != 0, bytes;
      r := Publish(file, size);
    }

    /** yan_note_set_date */
    method SetDate(file: File, created: bool, bytes: seq<Byte>) returns (r: Result)
      requires Ready()
      modifies candidate, prefix, current, current.tag, current.link, workspace, workspace.tag, workspace.link
      modifies working, working.tag, working.link, file
      ensures r == Ok ==> InfoOf(file.content) == WithDate(InfoOf(old(file.content)), created, bytes)
      ensures r == Ok && created ==> OnlyCreated(InfoOf(old(file.content)), InfoOf(file.content), bytes)
      ensures r == Ok && !created ==> OnlyModified(InfoOf(old(file.content)), InfoOf(file.content), bytes)
      ensures r == Ok ==> Body(file.content) == Body(old(file.content))
      ensures r == Ok && WithDate(InfoOf(old(file.content)), created, bytes) == InfoOf(old(file.content)) ==> file.content == old(file.content)
      ensures r != Ok ==> file.content == old(file.content)
      ensures r == Invalid <==> bytes != [] && !DateValid(bytes)
      ensures Explained(r, old(file.content), WithDate(InfoOf(old(file.content)), created, bytes))
    {
      hide InfoOf, BodyAt, Complete, DateValid, Readable, Legal, Header, FieldsOf, OnlyCreated, OnlyModified;
      EditsMeaning(InfoOf(file.content), bytes);
      if |bytes| != 0 {
        var valid := DateIsValid(bytes);
        if !valid {
          return Invalid;
        }
      }
      var size;
      r, size := Begin(file);
      if r != Ok {
        return;
      }
      ghost var info := working.Value();
      DateComplete(info, created, bytes);
      AbsentDates(info);
      var flag, stored := if created then working.hasCreated else working.hasModified,
                          if created then working.created else working.modified;
      if (|bytes| == 0 && !flag) || (|bytes| != 0 && flag && stored == bytes) {
        return Ok;
      }
      StoreDate(created, bytes);
      r := Publish(file, size);
    }

    method StoreDate(created: bool, bytes: seq<Byte>)
      requires Ready() && working.Counted()
      modifies working`hasCreated, working`created, working`hasModified, working`modified
      ensures working.Value() == WithDate(old(working.Value()), created, bytes)
    {
      if created {
        working.hasCreated, working.created := |bytes| != 0, bytes;
      } else {
        working.hasModified, working.modified := |bytes| != 0, bytes;
      }
    }

    /** yan_note_tag and yan_note_link: a value is added once, a deletion shifts the rest down. */
    method Manage(file: File, kind: Kind, mode: Mode, v: seq<Byte>) returns (r: Result)
      requires Ready() && (kind == Tag || kind == Link)
      modifies candidate, prefix, current, current.tag, current.link, workspace, workspace.tag, workspace.link
      modifies working, working.tag, working.link, file
      ensures r == Ok ==> InfoOf(file.content) == Edited(InfoOf(old(file.content)), kind, mode, v)
      ensures r == Ok ==> OnlyList(InfoOf(old(file.content)), InfoOf(file.content), kind, mode, v)
      ensures r == Ok ==> Body(file.content) == Body(old(file.content))
      ensures r == Ok && Edited(InfoOf(old(file.content)), kind, mode, v) == InfoOf(old(file.content)) ==> file.content == old(file.content)
      ensures r != Ok ==> file.content == old(file.content)
      ensures !ValueValid(Field(kind, v)) ==> r == Invalid
      ensures r == Invalid && ValueValid(Field(kind, v)) ==> |ListOf(Edited(InfoOf(old(file.content)), kind, mode, v), kind)| > LIST_MAX
      ensures Explained(r, old(file.content), Edited(InfoOf(old(file.content)), kind, mode, v))
    {
      hide InfoOf, BodyAt, Complete, ValueValid, Readable, Legal, Header, FieldsOf, OnlyList;
      ListEditMeaning(InfoOf(file.content), kind, mode, v);
      var valid := Meta.EntryIsValid(kind, v);
      if !valid {
        return Invalid;
      }
      var size;
      r, size := Begin(file);
      if r != Ok {
        return;
      }
      ghost var info := working.Value();
      var changed;
      r, changed := EditList(working, kind, mode, v);
      if r != Ok || !changed {
        return;
      }
      EditedComplete(info, kind, mode, v);
      r := Publish(file, size);
    }
  }

  // ----- the list edits in place

  function ListOf(info: Info, kind: Kind): seq<seq<Byte>> {
    if kind == Tag then info.tags else info.links
  }

  function Edited(info: Info, kind: Kind, mode: Mode, v: seq<Byte>): Info {
    WithList(info, kind, Managed(ListOf(info, kind), mode, v))
  }

  /** The shift inside tag_remove and link_remove. */
  method ShiftDown(slots: array<seq<Byte>>, i: nat, count: nat)
    requires i < count <= slots.Length
    modifies slots
    ensures slots[..count - 1] == old(slots[..i]) + old(slots[i + 1..count])
  {
    for j := i to count - 1
      invariant forall k | 0 <= k < i || j < k < count :: slots[k] == old(slots[k])
      invariant forall k | i <= k < j :: slots[k] == old(slots[k + 1])
    {
      slots[j] := slots[j + 1];
    }
  }

  /** tag_remove, link_remove: the entries behind the removed one move down one slot. */
  method RemoveSlot(slots: array<seq<Byte>>, count: nat, v: seq<Byte>) returns (left: nat)
    requires count <= slots.Length
    modifies slots
    ensures left <= count && slots[..left] == Without(old(slots[..count]), v)
  {
    ghost var was := slots[..count];
    var i := 0;
    while i < count && slots[i] != v
      invariant i <= count && slots[..count] == was && v !in was[..i]
    {
      i := i + 1;
    }
    WithoutAt(was, i, v);
    if i == count {
      return count;
    }
    ShiftDown(slots, i, count);
    assert slots[..count - 1] == was[..i] + was[i + 1..];
    return count - 1;
  }

  lemma {:induction false} WithoutAt(list: seq<seq<Byte>>, i: nat, v: seq<Byte>)
    requires i <= |list| && v !in list[..i] && (i < |list| ==> list[i] == v)
    ensures Without(list, v) == list[..i] + (if i < |list| then list[i + 1..] else [])
  {
    if i > 0 {
      assert list[0] == list[..i][0] && list[1..][..i - 1] == list[..i][1..];
      WithoutAt(list[1..], i - 1, v);
    }
  }

  method EditList(info: Meta.NoteInfo, kind: Kind, mode: Mode, v: seq<Byte>) returns (r: Result, changed: bool)
    requires info.Slots() && info.Counted() && (kind == Tag || kind == Link)
    modifies info`tagCount, info`linkCount, info.tag, info.link
    ensures r == Ok || r == Invalid
    ensures r == Ok ==> info.Counted() && info.Value() == Edited(old(info.Value()), kind, mode, v)
    ensures r == Ok ==> (changed <==> info.Value() != old(info.Value()))
    ensures r == Invalid <==> mode == Add && v !in ListOf(old(info.Value()), kind) && |ListOf(old(info.Value()), kind)| == LIST_MAX
  {
    ghost var list := ListOf(info.Value(), kind);
    var present := info.Listed(kind, v);
    WithoutPresent(list, v);
    if mode == Add {
      if present {
        return Ok, false;
      }
      if (if kind == Tag then info.tagCount else info.linkCount) >= LIST_MAX {
        return Invalid, false;
      }
      AppendSlot(info, kind, v);
      return Ok, true;
    }
    if !present {
      return Ok, false;
    }
    if kind == Tag {
      info.tagCount := RemoveSlot(info.tag, info.tagCount, v);
    } else {
      info.linkCount := RemoveSlot(info.link, info.linkCount, v);
    }
    return Ok, true;
  }

  method AppendSlot(info: Meta.NoteInfo, kind: Kind, v: seq<Byte>)
    requires info.Slots() && info.Counted() && (kind == Tag || kind == Link)
    requires |ListOf(info.Value(), kind)| < LIST_MAX
    modifies info`tagCount, info`linkCount, info.tag, info.link
    ensures info.Counted() && info.Value() == WithList(old(info.Value()), kind, ListOf(old(info.Value()), kind) + [v])
  {
    if kind == Tag {
      info.tag[info.tagCount] := v;
      info.tagCount := info.tagCount + 1;
    } else {
      info.link[info.linkCount] := v;
      info.linkCount := info.linkCount + 1;
    }
  }

  lemma {:induction false} WithoutPresent(list: seq<seq<Byte>>, v: seq<Byte>)
    ensures v !in list ==> Without(list, v) == list
    ensures v in list ==> |Without(list, v)| == |list| - 1
  {
    if list != [] && list[0] != v {
      WithoutPresent(list[1..], v);
      assert v in list <==> v in list[1..];
    }
  }

  lemma TitleComplete(info: Info, v: seq<Byte>)
    requires Complete(info) && (v == [] || TitleValid(v))
    ensures Complete(WithTitle(info, v))
  {
  }

  lemma DateComplete(info: Info, created: bool, v: seq<Byte>)
    requires Complete(info) && (v == [] || DateValid(v))
    ensures Complete(WithDate(info, created, v))
  {
    hide DateValid;
  }

  lemma AbsentTitle(info: Info)
    requires Complete(info)
    ensures !info.hasTitle ==> info.title == []
  {
  }

  lemma AbsentDates(info: Info)
    requires Complete(info)
    ensures !info.hasCreated ==> info.created == []
    ensures !info.hasModified ==> info.modified == []
  {
  }

  lemma EditedComplete(info: Info, kind: Kind, mode: Mode, v: seq<Byte>)
    requires Complete(info) && ValueValid(Field(kind, v)) && (kind == Tag || kind == Link)
    requires |Managed(ListOf(info, kind), mode, v)| <= LIST_MAX
    ensures Complete(Edited(info, kind, mode, v))
  {
    hide ValueValid, ListComplete, Managed, TitleValid, DateValid;
    ManagedComplete(kind, ListOf(info, kind), mode, v);
  }
}
