/** os/note_relations.c: backlinks and related notes, collected over the whole directory before the
    first row, ranked by the shared heapsort and cut to twenty. */
module NoteRelations {
  import opened Bytes
  import opened ByteOrder
  import opened NoteHeader
  import Sort

  const SHOWN: nat := 20

  datatype Row = Row(name: seq<Byte>, exists_: bool, outgoing: bool, incoming: bool, sharedTags: nat)

  /** A file of the directory and what reading its bounded head gives. */
  datatype Head = Parsed(info: Info) | Unreadable(code: int)
  datatype File = File(name: seq<Byte>, head: Head)

  datatype Status = Ok | Stopped | Protocol | Failed(code: int)

  // ----- ranking

  function Score(r: Row): nat {
    (if r.outgoing then 1 else 0) + (if r.incoming then 1 else 0)
  }

  /** row_ranks_after: score descending, shared tags descending, name ascending. */
  predicate RanksAfter(left: Row, right: Row) {
    if Score(left) != Score(right) then Score(left) < Score(right)
    else if left.sharedTags != right.sharedTags then left.sharedTags < right.sharedTags
    else Less(right.name, left.name)
  }

  /** Ranking is a strict order that leaves only equal keys unordered. */
  lemma Ranking(a: Row, b: Row, c: Row)
    ensures !RanksAfter(a, a)
    ensures RanksAfter(a, b) && RanksAfter(b, c) ==> RanksAfter(a, c)
    ensures RanksAfter(a, b) || RanksAfter(b, a)
            || (Score(a) == Score(b) && a.sharedTags == b.sharedTags && a.name == b.name)
    ensures !(RanksAfter(a, b) && RanksAfter(b, a))
  {
    Irreflexive(a.name);
    Total(a.name, b.name);
    if Less(b.name, a.name) && Less(c.name, b.name) { Transitive(c.name, b.name, a.name); }
  }

  lemma Unordered(a: Row, b: Row, c: Row)
    requires !RanksAfter(a, b) && !RanksAfter(b, c)
    ensures !RanksAfter(a, c)
  {
    hide Less;
    Ranking(b, a, c);
    Ranking(c, b, a);
    Ranking(a, c, b);
  }

  // An index array holds indices below |rows| only; the default makes the comparison total.
  function At(rows: seq<Row>, i: nat): Row {
    if i < |rows| then rows[i] else Row([], false, false, false, 0)
  }

  function BeforeIn(rows: seq<Row>): (nat, nat) -> bool {
    (left: nat, right: nat) => RanksAfter(At(rows, right), At(rows, left))
  }

  lemma BeforeIsStrictWeak(rows: seq<Row>)
    ensures Sort.StrictWeak(BeforeIn(rows))
  {
    hide RanksAfter, At;
    var before := BeforeIn(rows);
    forall a: nat
      ensures !before(a, a)
    {
      Ranking(At(rows, a), At(rows, a), At(rows, a));
    }
    forall a: nat, b: nat, c: nat | before(a, b) && before(b, c)
      ensures before(a, c)
    {
      Ranking(At(rows, c), At(rows, b), At(rows, a));
    }
    forall a: nat, b: nat, c: nat | !before(a, b) && !before(b, c)
      ensures !before(a, c)
    {
      Unordered(At(rows, c), At(rows, b), At(rows, a));
    }
  }

  /** order lists every row once, best first. */
  ghost predicate Ranked(rows: seq<Row>, order: seq<nat>) {
    && |order| == |rows| && Sort.Arrangement(order, |rows|)
    && (forall i, j | 0 <= i < j < |order| :: !RanksAfter(At(rows, order[i]), At(rows, order[j])))
  }

  /** The rows shown: the first twenty of the ranking. */
  function Shown(rows: seq<Row>, order: seq<nat>): seq<Row> {
    seq(if |order| < SHOWN then |order| else SHOWN, i requires 0 <= i < |order| => At(rows, order[i]))
  }

  /** No row left out ranks before a row shown, and each row has exactly one place in the order. */
  lemma ShownAreBest(rows: seq<Row>, order: seq<nat>, k: nat)
    requires Ranked(rows, order) && k < |rows|
    ensures multiset(order)[k] == 1
    ensures rows[k] in Shown(rows, order)
            || (|Shown(rows, order)| == SHOWN && forall r | r in Shown(rows, order) :: !RanksAfter(r, rows[k]))
  {
    hide RanksAfter;
    Sort.ArrangementMeaning(order, |rows|);
    Sort.EveryIndex(|rows|, k);
    var p :| 0 <= p < |order| && order[p] == k;
    var shown := Shown(rows, order);
    if p < |shown| {
      assert shown[p] == rows[k];
    } else {
      forall r | r in shown
        ensures !RanksAfter(r, rows[k])
      {
        var q :| 0 <= q < |shown| && shown[q] == r;
        assert !RanksAfter(At(rows, order[q]), At(rows, order[p]));
      }
    }
  }

  // ----- what makes a row

  function Common(source: seq<seq<Byte>>, candidate: seq<seq<Byte>>): set<seq<Byte>> {
    set t | t in source && t in candidate
  }

  /** shared_tag_count: the size of the intersection, however often a tag is repeated. */
  method SharedTagCount(source: seq<seq<Byte>>, candidate: seq<seq<Byte>>) returns (shared: nat)
    ensures shared == |Common(source, candidate)|
  {
    shared := 0;
    for i := 0 to |source|
      invariant shared == |Common(source[..i], candidate)|
    {
      assert source[..i + 1] == source[..i] + [source[i]];
      var seen := Contains(source[..i], source[i]);
      var held := Contains(candidate, source[i]);
      if !seen && held {
        assert Common(source[..i + 1], candidate) == Common(source[..i], candidate) + {source[i]};
        shared := shared + 1;
      } else {
        assert Common(source[..i + 1], candidate) == Common(source[..i], candidate);
      }
    }
    assert source[..|source|] == source;
  }

  /** link_matches, and the two inner loops of shared_tag_count. */
  method Contains(list: seq<seq<Byte>>, target: seq<Byte>) returns (found: bool)
    ensures found <==> target in list
  {
    for i := 0 to |list|
      invariant target !in list[..i]
    {
      if list[i] == target {
        return true;
      }
      assert list[..i + 1] == list[..i] + [list[i]];
    }
    return false;
  }

  predicate Candidate(r: Row) {
    r.outgoing || r.incoming || r.sharedTags > 0
  }

  function RelatedRow(name: seq<Byte>, source: Info, file: seq<Byte>, info: Info): Row {
    Row(file, true, file in source.links, name in info.links, |Common(source.tags, info.tags)|)
  }

  /** The candidates of `related`, in directory order: every other file that links to the source, is
      linked by it or shares a tag with it. */
  function RelatedRows(name: seq<Byte>, source: Info, files: seq<File>): seq<Row> {
    if files == [] then []
    else
      var before, f := RelatedRows(name, source, files[..|files| - 1]), files[|files| - 1];
      if f.name == name || f.head.Unreadable? then before
      else
        var r := RelatedRow(name, source, f.name, f.head.info);
        if Candidate(r) then before + [r] else before
  }

  /** A row of `related`: another file of the directory, with which of the two links to the other, and how many
      tags they share; at least one of the three. */
  ghost predicate Relates(r: Row, name: seq<Byte>, source: Info, files: seq<File>) {
    exists k :: 0 <= k < |files| && RelatesTo(r, name, source, files[k])
  }

  predicate RelatesTo(r: Row, name: seq<Byte>, source: Info, f: File) {
    && f.head.Parsed? && f.name != name && r.name == f.name && r.exists_
    && (r.outgoing <==> f.name in source.links)
    && (r.incoming <==> name in f.head.info.links)
    && r.sharedTags == |set t | t in source.tags && t in f.head.info.tags|
    && (r.outgoing || r.incoming || r.sharedTags > 0)
  }

  lemma RowRelates(name: seq<Byte>, source: Info, f: File)
    requires f.head.Parsed? && f.name != name
    ensures var r := RelatedRow(name, source, f.name, f.head.info);
            Candidate(r) <==> RelatesTo(r, name, source, f)
  {
    assert Common(source.tags, f.head.info.tags) == set t | t in source.tags && t in f.head.info.tags;
  }

  lemma {:induction false} RowIs(r: Row, name: seq<Byte>, source: Info, f: File)
    requires RelatesTo(r, name, source, f)
    ensures r == RelatedRow(name, source, f.name, f.head.info)
  {
    assert Common(source.tags, f.head.info.tags) == set t | t in source.tags && t in f.head.info.tags;
  }

  /** The candidates are exactly the files so related. */
  lemma {:induction false} RelatedMeaning(name: seq<Byte>, source: Info, files: seq<File>, r: Row)
    ensures r in RelatedRows(name, source, files) <==> Relates(r, name, source, files)
  {
    hide RelatesTo, RelatedRow, Candidate;
    if files != [] {
      var n := |files| - 1;
      var front, f := files[..n], files[n];
      RelatedMeaning(name, source, front, r);
      if Relates(r, name, source, front) {
        var k :| 0 <= k < n && RelatesTo(r, name, source, front[k]);
        assert files[k] == front[k];
      }
      if RelatesTo(r, name, source, f) {
        Related1(r, name, source, f);
        RowIs(r, name, source, f);
        RowRelates(name, source, f);
      } else if Relates(r, name, source, files) {
        var k :| 0 <= k < |files| && RelatesTo(r, name, source, files[k]);
        assert front[k] == files[k];
      }
      if f.head.Parsed? && f.name != name { RowRelates(name, source, f); }
    }
  }

  lemma Related1(r: Row, name: seq<Byte>, source: Info, f: File)
    requires RelatesTo(r, name, source, f)
    ensures f.head.Parsed? && f.name != name
  {
  }

  /** A backlink row: a file of the directory that declares a link to the name. */
  ghost predicate LinksBack(r: Row, name: seq<Byte>, files: seq<File>) {
    exists k :: 0 <= k < |files| && LinksFrom(r, name, files[k])
  }

  predicate LinksFrom(r: Row, name: seq<Byte>, f: File) {
    f.head.Parsed? && name in f.head.info.links && r == Row(f.name, true, false, true, 0)
  }

  lemma {:induction false} BacklinksMeaning(name: seq<Byte>, files: seq<File>, r: Row)
    ensures r in BacklinkRows(name, files) <==> LinksBack(r, name, files)
  {
    if files != [] {
      var n := |files| - 1;
      var front := files[..n];
      BacklinksMeaning(name, front, r);
      if LinksBack(r, name, front) {
        var k :| 0 <= k < n && LinksFrom(r, name, front[k]);
        assert files[k] == front[k];
      }
      if LinksFrom(r, name, files[n]) {
      } else if LinksBack(r, name, files) {
        var k :| 0 <= k < |files| && LinksFrom(r, name, files[k]);
        assert front[k] == files[k];
      }
    }
  }

  /** More directions linked first, then more tags shared, then the lower name. */
  predicate NoLater(a: Row, b: Row) {
    var x := (if a.outgoing && a.incoming then 2 else if a.outgoing || a.incoming then 1 else 0);
    var y := (if b.outgoing && b.incoming then 2 else if b.outgoing || b.incoming then 1 else 0);
    x > y || (x == y && (a.sharedTags > b.sharedTags || (a.sharedTags == b.sharedTags && !Less(b.name, a.name))))
  }

  /** The rows shown are rows of the list, best first. */
  ghost predicate BestFirst(shown: seq<Row>, rows: seq<Row>) {
    && (forall i | 0 <= i < |shown| :: shown[i] in rows)
    && (forall i, j | 0 <= i < j < |shown| :: NoLater(shown[i], shown[j]))
  }

  lemma ShownBestFirst(rows: seq<Row>, order: seq<nat>)
    requires Ranked(rows, order)
    ensures BestFirst(Shown(rows, order), rows)
  {
    hide Less, RanksAfter;
    Sort.ArrangementMeaning(order, |rows|);
    var shown := Shown(rows, order);
    forall i, j | 0 <= i < j < |shown|
      ensures NoLater(shown[i], shown[j])
    {
      assert !RanksAfter(At(rows, order[i]), At(rows, order[j]));
      NoLaterIsRank(shown[i], shown[j]);
    }
  }

  lemma NoLaterIsRank(a: Row, b: Row)
    ensures NoLater(a, b) <==> !RanksAfter(a, b)
  {
    hide Less;
  }

  predicate AllReadable(files: seq<File>, except: seq<seq<Byte>>) {
    forall k | 0 <= k < |files| :: files[k].head.Parsed? || files[k].name in except
  }

  /** A failure is the listing's own (code 0), or the one a header that had to be read reported. */
  predicate Excused(code: int, files: seq<File>, except: seq<seq<Byte>>) {
    code == 0 || exists k | 0 <= k < |files| :: files[k].name !in except && files[k].head == Unreadable(code)
  }

  lemma Listing(files: seq<File>, except: seq<seq<Byte>>)
    ensures Excused(0, files, except)
  {
  }

  lemma Blamed(files: seq<File>, k: nat, except: seq<seq<Byte>>)
    requires k < |files| && files[k].name !in except && files[k].head.Unreadable?
    ensures Excused(files[k].head.code, files, except)
  {
  }

  predicate Listed(files: seq<File>, name: seq<Byte>) {
    exists k :: 0 <= k < |files| && files[k].name == name
  }

  lemma NoneListed(name: seq<Byte>)
    ensures !Listed([], name)
  {
  }

  lemma ListedSnoc(files: seq<File>, name: seq<Byte>, k: nat)
    requires k < |files|
    ensures Listed(files[..k + 1], name) <==> Listed(files[..k], name) || files[k].name == name
  {
    var s, t := files[..k], files[..k + 1];
    if Listed(s, name) {
      var j :| 0 <= j < |s| && s[j].name == name;
      assert t[j].name == name;
    }
    if Listed(t, name) && files[k].name != name {
      var j :| 0 <= j < |t| && t[j].name == name;
      assert s[j].name == name;
    }
    if files[k].name == name { assert t[k].name == name; }
  }

  function BacklinkRow(file: seq<Byte>): Row {
    Row(file, true, false, true, 0)
  }

  /** The rows of `backlinks`: every file that declares the name, itself included. */
  function BacklinkRows(name: seq<Byte>, files: seq<File>): seq<Row> {
    if files == [] then []
    else
      var before, f := BacklinkRows(name, files[..|files| - 1]), files[|files| - 1];
      if f.head.Parsed? && name in f.head.info.links then before + [BacklinkRow(f.name)] else before
  }

  /** The caller's sink. Its answer is an arbitrary function of what it has received. */
  class RowSink {
    const accepts: seq<Row> -> bool
    var delivered: seq<Row>

    constructor (accepts: seq<Row> -> bool)
      ensures delivered == [] && this.accepts == accepts
    {
      this.accepts := accepts;
      delivered := [];
    }

    method Receive(r: Row) returns (keep: bool)
      modifies this
      ensures delivered == old(delivered) + [r] && keep == accepts(delivered)
    {
      delivered := delivered + [r];
      keep := accepts(delivered);
    }
  }

  class RelationContext {
    const rows: array<Row>
    var rowCount: nat

    ghost predicate Valid()
      reads `rowCount
    {
      rowCount <= rows.Length
    }

    function Rows(): seq<Row>
      reads this, rows
      requires Valid()
    {
      rows[..rowCount]
    }

    constructor (capacity: nat)
      ensures Valid() && rowCount == 0 && rows.Length == capacity && fresh(rows)
    {
      rows := new Row[capacity](_ => Row([], false, false, false, 0));
      rowCount := 0;
    }

    /** sort_rows */
    method SortRows() returns (index: array<nat>)
      requires Valid()
      ensures fresh(index) && Ranked(Rows(), index[..])
    {
      BeforeIsStrictWeak(rows[..rowCount]);
      index := Sort.IndexSorted(rowCount, BeforeIn(rows[..rowCount]));
      Sort.ArrangementMeaning(index[..], rowCount);
    }

    /** The callbacks: at most twenty rows, best first. */
    method Emit(sink: RowSink) returns (r: Status, shown: nat, ghost order: seq<nat>)
      requires Valid()
      modifies sink
      ensures Ranked(Rows(), order) && (r == Ok || r == Stopped)
      ensures r == Ok ==> sink.delivered == old(sink.delivered) + Shown(Rows(), order) && shown == |Shown(Rows(), order)|
      ensures sink.delivered <= old(sink.delivered) + Shown(Rows(), order)
      ensures r == Stopped ==> sink.delivered != [] && !sink.accepts(sink.delivered)
    {
      var index := SortRows();
      order := index[..];
      ghost var all := Shown(Rows(), order);
      var limit := if rowCount < SHOWN then rowCount else SHOWN;
      EachInRange(Rows(), order);
      assert |all| == limit && forall i | 0 <= i < limit :: index[i] < rowCount && all[i] == rows[index[i]];
      r, shown := Deliver(index, limit, sink, all);
    }

    method Deliver(index: array<nat>, limit: nat, sink: RowSink, ghost all: seq<Row>) returns (r: Status, shown: nat)
      requires Valid() && limit <= index.Length && limit == |all|
      requires forall i | 0 <= i < limit :: index[i] < rowCount && all[i] == rows[index[i]]
      modifies sink
      ensures r == Ok || r == Stopped
      ensures r == Ok ==> sink.delivered == old(sink.delivered) + all && shown == |all|
      ensures sink.delivered <= old(sink.delivered) + all
      ensures r == Stopped ==> sink.delivered != [] && !sink.accepts(sink.delivered)
    {
      shown := 0;
      while shown < limit
        invariant shown <= limit && sink.delivered == old(sink.delivered) + all[..shown]
      {
        var keep := sink.Receive(rows[index[shown]]);
        assert all[..shown + 1] == all[..shown] + [all[shown]];
        if !keep {
          return Stopped, shown;
        }
        shown := shown + 1;
      }
      assert all[..limit] == all;
      r := Ok;
    }

    method Append(row: Row) returns (ok: bool)
      requires Valid()
      modifies `rowCount, rows
      ensures Valid() && ok == (|old(Rows())| < rows.Length)
      ensures Rows() == old(Rows()) + (if ok then [row] else [])
    {
      if rowCount >= rows.Length {
        return false;
      }
      rows[rowCount] := row;
      rowCount := rowCount + 1;
      return true;
    }

    /** The directory walk of yan_relation_related. */
    method CollectRelated(name: seq<Byte>, source: Info, files: seq<File>) returns (r: Status)
      requires Valid() && rowCount == 0
      modifies `rowCount, rows
      ensures Valid() && r != Stopped
      ensures r == Ok ==> AllReadable(files, [name]) && Rows() == RelatedRows(name, source, files)
      ensures r == Protocol ==> |RelatedRows(name, source, files)| > rows.Length
      ensures r.Failed? ==> Excused(r.code, files, [name])
    {
      hide Common, Excused;
      assert Excused(0, files, [name]) by { Listing(files, [name]); }
      for k := 0 to |files|
        invariant Valid() && Rows() == RelatedRows(name, source, files[..k]) && AllReadable(files[..k], [name])
      {
        var listed: bool := *;
        if !listed {
          return Failed(0);
        }
        var f := files[k];
        assert files[..k + 1][..k] == files[..k];
        RelatedGrows(name, source, files, k + 1);
        if f.name != name {
          if f.head.Unreadable? {
            Blamed(files, k, [name]);
            return Failed(f.head.code);
          }
          var outgoing := Contains(source.links, f.name);
          var incoming := Contains(f.head.info.links, name);
          var shared := SharedTagCount(source.tags, f.head.info.tags);
          if outgoing || incoming || shared != 0 {
            var ok := Append(Row(f.name, true, outgoing, incoming, shared));
            if !ok {
              return Protocol;
            }
          }
        }
      }
      assert files[..|files|] == files;
      return Ok;
    }

    /** yan_relation_related. A header that cannot be read, wherever it is, means no row at all. */
    method Related(name: seq<Byte>, source: Head, files: seq<File>, sink: RowSink)
      returns (r: Status, total: nat, shown: nat, ghost order: seq<nat>)
      requires Valid()
      modifies `rowCount, rows, sink
      ensures Valid()
      ensures source.Unreadable? ==> r == Failed(source.code)
      ensures source.Unreadable? || !AllReadable(files, [name]) ==> r != Ok && sink.delivered == old(sink.delivered)
      ensures r.Failed? || r == Protocol ==> sink.delivered == old(sink.delivered)
      ensures r.Failed? && source.Parsed? ==> Excused(r.code, files, [name])
      ensures r == Protocol ==> source.Parsed? && |RelatedRows(name, source.info, files)| > rows.Length
      ensures r == Stopped ==> sink.delivered != [] && !sink.accepts(sink.delivered)
      ensures r == Ok ==> source.Parsed? && Ranked(RelatedRows(name, source.info, files), order)
      ensures r == Ok ==> sink.delivered == old(sink.delivered) + Shown(RelatedRows(name, source.info, files), order)
      ensures r == Ok ==> (forall row :: row in RelatedRows(name, source.info, files) <==> Relates(row, name, source.info, files))
      ensures r == Ok ==> BestFirst(sink.delivered[|old(sink.delivered)|..], RelatedRows(name, source.info, files))
      ensures r == Ok ==> total == |RelatedRows(name, source.info, files)| && shown == (if total < SHOWN then total else SHOWN)
    {
      hide Ranked, RelatedRows, Excused, Relates, BestFirst;
      total, shown, order := 0, 0, [];
      rowCount := 0;
      if source.Unreadable? {
        r := Failed(source.code);
        return;
      }
      r := CollectRelated(name, source.info, files);
      if r == Ok {
        r, shown, order := Emit(sink);
        total := rowCount;
        RankedLength(Rows(), order);
        ShownBestFirst(Rows(), order);
        forall row ensures row in RelatedRows(name, source.info, files) <==> Relates(row, name, source.info, files) {
          RelatedMeaning(name, source.info, files, row);
        }
      }
    }

    method CollectBacklinks(name: seq<Byte>, files: seq<File>) returns (r: Status, targetExists: bool)
      requires Valid() && rowCount == 0
      modifies `rowCount, rows
      ensures Valid() && r != Stopped
      ensures r == Ok ==> AllReadable(files, []) && Rows() == BacklinkRows(name, files)
      ensures r == Ok ==> (targetExists <==> Listed(files, name))
      ensures r == Protocol ==> |BacklinkRows(name, files)| > rows.Length
      ensures r.Failed? ==> Excused(r.code, files, [])
    {
      hide Listed, Excused;
      assert Excused(0, files, []) by { Listing(files, []); }
      targetExists := false;
      assert !Listed(files[..0], name) by { NoneListed(name); assert files[..0] == []; }
      for k := 0 to |files|
        invariant Valid() && Rows() == BacklinkRows(name, files[..k]) && AllReadable(files[..k], [])
        invariant targetExists <==> Listed(files[..k], name)
      {
        var listed: bool := *;
        if !listed {
          return Failed(0), targetExists;
        }
        var f := files[k];
        assert files[..k + 1][..k] == files[..k];
        BacklinksGrow(name, files, k + 1);
        ListedSnoc(files, name, k);
        if f.name == name {
          targetExists := true;
        }
        if f.head.Unreadable? {
          Blamed(files, k, []);
          return Failed(f.head.code), targetExists;
        }
        var links := Contains(f.head.info.links, name);
        if links {
          var ok := Append(BacklinkRow(f.name));
          if !ok {
            return Protocol, targetExists;
          }
        }
      }
      assert files[..|files|] == files;
      r := Ok;
    }

    /** yan_relation_backlinks */
    method Backlinks(name: seq<Byte>, files: seq<File>, sink: RowSink)
      returns (r: Status, total: nat, shown: nat, targetExists: bool, ghost order: seq<nat>)
      requires Valid()
      modifies `rowCount, rows, sink
      ensures Valid()
      ensures !AllReadable(files, []) ==> r != Ok && sink.delivered == old(sink.delivered)
      ensures r.Failed? || r == Protocol ==> sink.delivered == old(sink.delivered)
      ensures r.Failed? ==> Excused(r.code, files, [])
      ensures r == Protocol ==> |BacklinkRows(name, files)| > rows.Length
      ensures r == Stopped ==> sink.delivered != [] && !sink.accepts(sink.delivered)
      ensures r == Ok ==> Ranked(BacklinkRows(name, files), order)
      ensures r == Ok ==> sink.delivered == old(sink.delivered) + Shown(BacklinkRows(name, files), order)
      ensures r == Ok ==> (forall row :: row in BacklinkRows(name, files) <==> LinksBack(row, name, files))
      ensures r == Ok ==> BestFirst(sink.delivered[|old(sink.delivered)|..], BacklinkRows(name, files))
      ensures r == Ok ==> total == |BacklinkRows(name, files)| && shown == (if total < SHOWN then total else SHOWN)
      ensures r == Ok ==> (targetExists <==> Listed(files, name))
    {
      hide Ranked, BacklinkRows, Excused, LinksBack, BestFirst;
      total, shown, order := 0, 0, [];
      rowCount := 0;
      r, targetExists := CollectBacklinks(name, files);
      if r == Ok {
        r, shown, order := Emit(sink);
        total := rowCount;
        RankedLength(Rows(), order);
        ShownBestFirst(Rows(), order);
        forall row ensures row in BacklinkRows(name, files) <==> LinksBack(row, name, files) {
          BacklinksMeaning(name, files, row);
        }
      }
    }
  }

  lemma RankedLength(rows: seq<Row>, order: seq<nat>)
    requires Ranked(rows, order)
    ensures |order| == |rows|
  {
  }

  lemma EachInRange(rows: seq<Row>, order: seq<nat>)
    requires Ranked(rows, order)
    ensures forall i | 0 <= i < |order| :: order[i] < |rows|
  {
    Sort.ArrangementMeaning(order, |rows|);
  }

  lemma {:induction false} RelatedGrows(name: seq<Byte>, source: Info, files: seq<File>, k: nat)
    requires k <= |files|
    ensures RelatedRows(name, source, files[..k]) <= RelatedRows(name, source, files)
  {
    if k < |files| {
      RelatedGrows(name, source, files[..|files| - 1], k);
      assert files[..|files| - 1][..k] == files[..k];
    } else {
      assert files[..k] == files;
    }
  }

  lemma {:induction false} BacklinksGrow(name: seq<Byte>, files: seq<File>, k: nat)
    requires k <= |files|
    ensures BacklinkRows(name, files[..k]) <= BacklinkRows(name, files)
  {
    if k < |files| {
      BacklinksGrow(name, files[..|files| - 1], k);
      assert files[..|files| - 1][..k] == files[..k];
    } else {
      assert files[..k] == files;
    }
  }
}
