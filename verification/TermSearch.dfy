/** The linear term search of os/search_terms_linear.c, from the query to the delivered matches: every file
    of the listing is scanned, the best lines are kept, and each is shown with its snippet. */
module TermSearch {
  import opened Bytes
  import opened Utf8
  import opened FileSource
  import opened SearchRank
  import opened TermLines
  import opened TermQuery
  import opened QueryLines
  import SearchTerms
  import SearchSnippet

  const SNIPPET_SCRATCH: nat := 4096

  /** A file of the listing at its directory slot. */
  datatype File = File(name: seq<Byte>, slot: nat, content: seq<Byte>)

  datatype Match = Match(name: seq<Byte>, lineNumber: nat, score: nat, snippet: SearchSnippet.Snippet)

  datatype Status = Ok | Stopped | Invalid | Protocol | Refused(code: nat)

  /** The caller's sink. Its answer is an arbitrary function of what it has received. */
  class MatchSink {
    const accepts: seq<Match> -> bool
    var delivered: seq<Match>

    constructor (accepts: seq<Match> -> bool)
      ensures delivered == [] && this.accepts == accepts
    {
      this.accepts := accepts;
      delivered := [];
    }

    method Receive(m: Match) returns (keep: bool)
      modifies this
      ensures delivered == old(delivered) + [m] && keep == accepts(delivered)
    {
      delivered := delivered + [m];
      keep := accepts(delivered);
    }
  }

  // ----- what all files together rank

  /** Not searched: a file with a NUL, or one that is not UTF-8. */
  ghost predicate Skipped(f: File) {
    0 in f.content || !ValidUtf8(f.content)
  }

  predicate SlotsAscend(files: seq<File>) {
    forall j, k | 0 <= j < k < |files| :: files[j].slot < files[k].slot
  }

  ghost predicate SourcedAt(c: Candidate, f: File, q: seq<Byte>, slots: seq<Slot>)
    requires AllInside(q, slots)
  {
    !Skipped(f) && FromLine(c, f.name, f.slot, f.content, q, slots)
  }

  /** The entry is that of a wanted line of a searched file. */
  ghost predicate Sourced(c: Candidate, files: seq<File>, q: seq<Byte>, slots: seq<Slot>)
    requires AllInside(q, slots)
  {
    exists k :: 0 <= k < |files| && SourcedAt(c, files[k], q, slots)
  }

  /** Every wanted line of the file has an entry. */
  ghost predicate FileRanked(history: seq<Candidate>, f: File, q: seq<Byte>, slots: seq<Slot>)
    requires AllInside(q, slots)
  {
    Skipped(f) || forall l | LineOf(f.content, l) && Wanted(l.text, q, slots) :: HasEntry(history, f.name, f.slot, f.content, q, slots, l)
  }

  predicate Precedes(a: Candidate, b: Candidate) {
    a.slot < b.slot || (a.slot == b.slot && a.lineNumber < b.lineNumber)
  }

  /** The history holds one entry for each wanted line of each searched file, and nothing else, in the order
      of slots and lines. */
  ghost predicate RanksFiles(history: seq<Candidate>, files: seq<File>, q: seq<Byte>, slots: seq<Slot>)
    requires AllInside(q, slots)
  {
    && (forall i | 0 <= i < |history| :: Sourced(history[i], files, q, slots))
    && (forall k | 0 <= k < |files| :: FileRanked(history, files[k], q, slots))
    && (forall i, j | 0 <= i < j < |history| :: Precedes(history[i], history[j]))
  }

  ghost function SkippedFiles(files: seq<File>): set<nat> {
    set k: nat | k < |files| && Skipped(files[k])
  }

  lemma SkippedSnoc(files: seq<File>, k: nat)
    requires k < |files|
    ensures |SkippedFiles(files[..k + 1])| == |SkippedFiles(files[..k])| + (if Skipped(files[k]) then 1 else 0)
  {
    hide Skipped;
    assert forall j | 0 <= j < k :: files[..k + 1][j] == files[..k][j];
    if Skipped(files[k]) {
      assert SkippedFiles(files[..k + 1]) == SkippedFiles(files[..k]) + {k};
    } else {
      assert SkippedFiles(files[..k + 1]) == SkippedFiles(files[..k]);
    }
  }

  lemma SourcedSlot(c: Candidate, f: File, q: seq<Byte>, slots: seq<Slot>)
    requires AllInside(q, slots) && SourcedAt(c, f, q, slots)
    ensures c.slot == f.slot
  {
  }

  /** Entries kept when more follow. */
  lemma FileStaysRanked(history: seq<Candidate>, more: seq<Candidate>, f: File, q: seq<Byte>, slots: seq<Slot>)
    requires AllInside(q, slots) && FileRanked(history, f, q, slots)
    ensures FileRanked(history + more, f, q, slots)
  {
    hide Skipped, LineOf, Wanted, Entered;
    if !Skipped(f) {
      forall l | LineOf(f.content, l) && Wanted(l.text, q, slots)
        ensures HasEntry(history + more, f.name, f.slot, f.content, q, slots, l)
      {
        var i :| 0 <= i < |history| && Entered(history[i], f.name, f.slot, f.content, q, slots, l);
        assert (history + more)[i] == history[i];
      }
    }
  }

  lemma NewFileRanked(history: seq<Candidate>, entries: seq<Candidate>, f: File, q: seq<Byte>, slots: seq<Slot>)
    requires AllInside(q, slots) && (Skipped(f) || RanksFile(entries, f.name, f.slot, f.content, q, slots))
    ensures FileRanked(history + entries, f, q, slots)
  {
    hide Skipped, LineOf, Wanted, Entered;
    if !Skipped(f) {
      forall l | LineOf(f.content, l) && Wanted(l.text, q, slots)
        ensures HasEntry(history + entries, f.name, f.slot, f.content, q, slots, l)
      {
        assert HasEntry(entries, f.name, f.slot, f.content, q, slots, l);
        var i :| 0 <= i < |entries| && Entered(entries[i], f.name, f.slot, f.content, q, slots, l);
        assert (history + entries)[|history| + i] == entries[i];
      }
    }
  }

  lemma OneMoreFile(history: seq<Candidate>, entries: seq<Candidate>, files: seq<File>, k: nat, q: seq<Byte>, slots: seq<Slot>)
    requires AllInside(q, slots) && k < |files| && SlotsAscend(files) && RanksFiles(history, files[..k], q, slots)
    requires if Skipped(files[k]) then entries == []
             else RanksFile(entries, files[k].name, files[k].slot, files[k].content, q, slots)
    ensures RanksFiles(history + entries, files[..k + 1], q, slots)
  {
    hide Skipped, FileRanked, RanksFile, FromLine;
    var all, more, f := history + entries, files[..k + 1], files[k];
    forall i | 0 <= i < |history|
      ensures Sourced(all[i], more, q, slots) && all[i].slot < f.slot
    {
      assert Sourced(history[i], files[..k], q, slots);
      var j :| 0 <= j < |files[..k]| && SourcedAt(history[i], files[..k][j], q, slots);
      SourcedSlot(history[i], files[j], q, slots);
      assert more[j] == files[..k][j] == files[j];
    }
    forall i | 0 <= i < |entries|
      ensures Sourced(entries[i], more, q, slots) && entries[i].slot == f.slot
    {
      EntrySourced(entries, i, f, q, slots);
      SourcedSlot(entries[i], f, q, slots);
      assert more[k] == f;
    }
    assert forall i, j | 0 <= i < j < |entries| :: entries[i].lineNumber < entries[j].lineNumber by {
      if entries != [] { EntriesAscend(entries, f, q, slots); }
    }
    forall j | 0 <= j < |more|
      ensures FileRanked(all, more[j], q, slots)
    {
      if j < k {
        assert more[j] == files[..k][j];
        FileStaysRanked(history, entries, more[j], q, slots);
      } else {
        NewFileRanked(history, entries, f, q, slots);
      }
    }
  }

  lemma EntrySourced(entries: seq<Candidate>, i: nat, f: File, q: seq<Byte>, slots: seq<Slot>)
    requires AllInside(q, slots) && i < |entries| && !Skipped(f) && RanksFile(entries, f.name, f.slot, f.content, q, slots)
    ensures SourcedAt(entries[i], f, q, slots)
  {
    hide Skipped;
  }

  lemma EntriesAscend(entries: seq<Candidate>, f: File, q: seq<Byte>, slots: seq<Slot>)
    requires AllInside(q, slots) && RanksFile(entries, f.name, f.slot, f.content, q, slots)
    ensures forall i, j | 0 <= i < j < |entries| :: entries[i].lineNumber < entries[j].lineNumber
  {
  }

  /** The loop over the listing. */
  method RankFiles(pattern: SearchTerms.Pattern, ring: array<bool>, rank: Rank, files: seq<File>, ghost q: seq<Byte>, ghost slots: seq<Slot>)
    returns (r: Status)
    requires pattern.Valid() && ring.Length == SearchTerms.RING && rank.Valid() && rank.history == [] && rank.skipped == 0
    requires AllInside(q, slots) && pattern.groups == GroupsOf(q, slots) && SlotsAscend(files)
    modifies ring, rank, rank.candidate
    ensures rank.Valid() && r != Stopped && r != Status.Invalid
    ensures r == Ok ==> RanksFiles(rank.history, files, q, slots) && rank.skipped == |SkippedFiles(files)|
  {
    hide SearchTerms.Pattern.Valid, Rank.Valid, RanksFiles, Entries, TermLinesFrom, RanksFile, SkippedFiles, GroupsOf;
    assert RanksFiles([], files[..0], q, slots) && SkippedFiles(files[..0]) == {} by { Nothing(files, q, slots); }
    for k := 0 to |files|
      invariant pattern.Valid() && rank.Valid()
      invariant RanksFiles(rank.history, files[..k], q, slots) && rank.skipped == |SkippedFiles(files[..k])|
    {
      var listed: bool := *;
      if !listed {
        return Refused(0);
      }
      var f := files[k];
      ghost var before := rank.history;
      var status, entries := SearchTerms.ScanFile(pattern, ring, rank, f.name, f.slot, f.content);
      match status {
        case Protocol => return Protocol;
        case Failed(code) => return Refused(code);
        case Ok =>
      }
      if !Skipped(f) { ScanRanksFile(entries, f.name, f.slot, f.content, q, slots); }
      OneMoreFile(before, entries, files, k, q, slots);
      SkippedSnoc(files, k);
    }
    assert files[..|files|] == files;
    r := Ok;
  }

  lemma Nothing(files: seq<File>, q: seq<Byte>, slots: seq<Slot>)
    requires AllInside(q, slots)
    ensures RanksFiles([], files[..0], q, slots) && SkippedFiles(files[..0]) == {}
  {
  }

  // ----- the groups of a query

  /** The distinct groups of a legal query, in the order of their first occurrence. */
  ghost function Groups(q: seq<Byte>): (slots: seq<Slot>)
    requires LegalQuery(q)
    ensures AllInside(q, slots)
  {
    RunsInside(q, 0);
    Distinct(q, Runs(q, 0))
  }

  lemma {:induction false} TotalCons(s: Slot, rest: seq<Slot>)
    ensures TotalLength([s] + rest) == s.length + TotalLength(rest)
  {
    if rest == [] {
      assert [s] + rest == [s] && [s][..0] == [];
    } else {
      TotalCons(s, rest[..|rest| - 1]);
      assert ([s] + rest)[..|rest|] == [s] + rest[..|rest| - 1];
    }
  }

  lemma {:induction false} RunsTotal(q: seq<Byte>, at: nat)
    requires at <= |q|
    ensures TotalLength(Runs(q, at)) <= |q| - at
    decreases |q| - at
  {
    hide Scan;
    var start := Scan(q, at, false);
    if start < |q| {
      var end := Scan(q, start, true);
      RunsTotal(q, end);
      TotalCons(Slot(start, end - start), Runs(q, end));
    }
  }

  lemma {:induction false} DistinctTotal(q: seq<Byte>, runs: seq<Slot>)
    requires AllInside(q, runs)
    ensures TotalLength(Distinct(q, runs)) <= TotalLength(runs)
  {
    hide Known;
    if runs != [] {
      var front := runs[..|runs| - 1];
      DistinctTotal(q, front);
      assert (Distinct(q, front) + [runs[|runs| - 1]])[..|Distinct(q, front)|] == Distinct(q, front);
    }
  }

  /** The groups of a legal query fit the folded text and the tables. */
  lemma GroupsFit(q: seq<Byte>)
    requires LegalQuery(q)
    ensures TotalLength(Groups(q)) <= QUERY_MAX && 1 <= |Groups(q)| <= SearchTerms.GROUP_MAX
    ensures forall k | 0 <= k < |Groups(q)| :: LegalGroup(GroupOf(q, Groups(q)[k]))
    ensures forall k | 0 <= k < |Groups(q)| :: Maximal(q, 0, Groups(q)[k])
  {
    hide Runs, Distinct, LegalGroup, GroupOf, Maximal;
    RunsInside(q, 0);
    RunsTotal(q, 0);
    DistinctTotal(q, Runs(q, 0));
    LegalGroups(q);
    RunsAreMaximal(q, 0);
    DistinctKeepsOne(q, Runs(q, 0));
  }

  // ----- where a match begins, a scalar begins

  /** In UTF-8 text a byte that is no continuation byte begins a scalar. */
  lemma ScalarHere(vs: seq<Scalar>, p: nat) returns (a: nat)
    requires p < |EncodeAll(vs)| && !Continuation(EncodeAll(vs)[p])
    ensures a < |vs| && SearchSnippet.Pos(vs, a) == p
  {
    hide EncodeAll, Encode, SearchSnippet.Pos;
    SearchSnippet.PosEnds(vs);
    a := SearchSnippet.FirstAt(vs, p, |vs|);
    SearchSnippet.CutScalar(vs, p, a);
    if a < |vs| { SearchSnippet.PosSpan(vs, a, |vs|); }
  }

  /** A group begins where a scalar of the query begins: behind a separator, which is ASCII. */
  lemma GroupFirst(q: seq<Byte>, s: Slot)
    requires ValidUtf8(q) && Maximal(q, 0, s)
    ensures !Continuation(q[s.offset])
  {
    hide Encode, EncodeAll, SearchSnippet.Pos;
    var ws: seq<Scalar> :| EncodeAll(ws) == q;
    SearchSnippet.PosEnds(ws);
    var j := SearchSnippet.FirstAt(ws, s.offset, |ws|);
    if SearchSnippet.Pos(ws, j) == s.offset {
      BeginsScalar(ws, j);
    } else {
      InsideScalar(ws, j, s.offset);
    }
  }

  lemma BeginsScalar(ws: seq<Scalar>, j: nat)
    requires j <= |ws| && SearchSnippet.Pos(ws, j) < |EncodeAll(ws)|
    ensures !Continuation(EncodeAll(ws)[SearchSnippet.Pos(ws, j)])
  {
    hide Encode, EncodeAll;
    SearchSnippet.PosEnds(ws);
    SearchSnippet.PosStep(ws, j);
    SearchSnippet.FirstByte(ws[j]);
    var s, p := EncodeAll(ws), SearchSnippet.Pos(ws, j);
    assert s[p] == s[p..SearchSnippet.Pos(ws, j + 1)][0];
  }

  /** Both bytes around a place inside a scalar are above ASCII. */
  lemma InsideScalar(ws: seq<Scalar>, j: nat, p: nat)
    requires 0 < j <= |ws| && SearchSnippet.Pos(ws, j - 1) < p < SearchSnippet.Pos(ws, j)
    ensures p < |EncodeAll(ws)| && EncodeAll(ws)[p - 1] >= 0x80
  {
    hide Encode, EncodeAll;
    SearchSnippet.PosStep(ws, j - 1);
    var s, b, e := EncodeAll(ws), SearchSnippet.Pos(ws, j - 1), SearchSnippet.Pos(ws, j);
    assert s[b..e][p - 1 - b] == s[p - 1];
    HighBytes(ws[j - 1]);
  }

  lemma HighBytes(v: Scalar)
    ensures |Encode(v)| > 1 ==> forall i | 0 <= i < |Encode(v)| :: Encode(v)[i] >= 0x80
  {
  }

  /** What stands at the anchor of an entry. */
  lemma {:induction false} AtAnchor(c: Candidate, name: seq<Byte>, slot: nat, file: seq<Byte>, q: seq<Byte>, slots: seq<Slot>, l: TermLine)
    requires AllInside(q, slots) && ValidUtf8(q) && forall k | 0 <= k < |slots| :: Maximal(q, 0, slots[k])
    requires LineOf(file, l) && Entered(c, name, slot, file, q, slots, l)
    ensures c.anchor < |file| && file[c.anchor] != LF && !Continuation(file[c.anchor])
  {
    hide ValidUtf8, Worth, Count, BeginsOne, Maximal;
    var s: nat := c.anchor - l.start;
    assert QueryLines.Begins(l.text, q, slots, s);
    var k :| 0 <= k < |slots| && BeginsOne(l.text, Raw(q, slots[k]), s);
    GroupFirst(q, slots[k]);
    FirstMatched(l.text, Raw(q, slots[k]), s);
    assert l.text[s] == file[c.anchor];
  }

  /** The anchor of an entry stands at a scalar of its file, and not at a line feed. */
  lemma {:induction false} AnchorScalar(c: Candidate, f: File, q: seq<Byte>) returns (vs: seq<Scalar>, a: nat)
    requires LegalQuery(q) && SourcedAt(c, f, q, Groups(q))
    ensures EncodeAll(vs) == f.content && a < |vs| && SearchSnippet.Pos(vs, a) == c.anchor
    ensures c.fileSize == |f.content| && c.anchor < |f.content| && f.content[c.anchor] != LF && c.name == f.name
  {
    hide EncodeAll, LegalQuery, Wanted, LineOf, QueryLines.Begins, Worth, SearchSnippet.Pos, Maximal, Groups;
    GroupsFit(q);
    QueryText(q);
    vs :| EncodeAll(vs) == f.content;
    var l :| LineOf(f.content, l) && Wanted(l.text, q, Groups(q)) && Entered(c, f.name, f.slot, f.content, q, Groups(q), l);
    AtAnchor(c, f.name, f.slot, f.content, q, Groups(q), l);
    a := ScalarHere(vs, c.anchor);
  }

  lemma QueryText(q: seq<Byte>)
    requires LegalQuery(q)
    ensures ValidUtf8(q)
  {
  }

  lemma FirstMatched(text: seq<Byte>, raw: seq<Byte>, s: nat)
    requires BeginsOne(text, raw, s)
    ensures s < |text| && raw != [] && SameLetter(text[s], raw[0])
  {
    hide SameLetter, Word;
    assert text[s..s + |raw|][0] == text[s];
  }

  // ----- the matches shown

  /** The read callback gives the whole window around the entry's anchor. */
  predicate WindowRead(read: (seq<Byte>, nat, nat) -> Outcome, c: Candidate, content: seq<Byte>) {
    c.anchor < |content| &&
    var lo, hi := SearchSnippet.WindowStart(c.anchor), SearchSnippet.WindowEnd(c.anchor, |content|);
    read(c.name, lo, hi - lo) == Data(content[lo..hi])
  }

  /** The match shows the entry, with the snippet of the entry's place in the file at its slot. */
  ghost predicate Shows(m: Match, c: Candidate, files: seq<File>, read: (seq<Byte>, nat, nat) -> Outcome) {
    && m.name == c.name && m.lineNumber == c.lineNumber && m.score == c.score
    && forall k | 0 <= k < |files| && files[k].slot == c.slot && WindowRead(read, c, files[k].content) ::
         SnippetAt(m.snippet, files[k].content, c.anchor)
  }

  ghost predicate SnippetAt(snippet: SearchSnippet.Snippet, content: seq<Byte>, anchor: nat) {
    exists vs: seq<Scalar>, a: nat ::
      EncodeAll(vs) == content && a < |vs| && SearchSnippet.Pos(vs, a) == anchor && snippet == SearchSnippet.SnippetOf(vs, a)
  }

  ghost predicate AllShow(ms: seq<Match>, cs: seq<Candidate>, files: seq<File>, read: (seq<Byte>, nat, nat) -> Outcome) {
    |ms| == |cs| && forall i | 0 <= i < |ms| :: Shows(ms[i], cs[i], files, read)
  }

  /** The snippet of one entry. */
  method ShowOne(c: Candidate, ghost files: seq<File>, ghost q: seq<Byte>, read: (seq<Byte>, nat, nat) -> Outcome)
    returns (r: Status, m: Match)
    requires LegalQuery(q) && Sourced(c, files, q, Groups(q)) && SlotsAscend(files)
    ensures r == Ok ==> Shows(m, c, files, read)
    ensures r == Ok || r == Protocol || r.Refused?
  {
    hide LegalQuery, Groups, SourcedAt, SnippetAt, EncodeAll, SearchSnippet.Pos, SearchSnippet.SnippetOf;
    ghost var k :| 0 <= k < |files| && SourcedAt(c, files[k], q, Groups(q));
    ghost var vs, a := AnchorScalar(c, files[k], q);
    SourcedSlot(c, files[k], q, Groups(q));
    var status, snippet := SearchSnippet.CoreSnippet(c.fileSize, c.anchor, SNIPPET_SCRATCH,
                                                     (offset: nat, want: nat) => read(c.name, offset, want), files[k].content, vs, a);
    m := Match(c.name, c.lineNumber, c.score, snippet);
    match status {
      case Ok =>
      case Invalid => assert false;
      case Protocol => return Protocol, m;
      case Failed(code) => return Refused(code), m;
    }
    r := Ok;
    if WindowRead(read, c, files[k].content) {
      assert SnippetAt(snippet, files[k].content, c.anchor) by {
        Here(snippet, files[k].content, c.anchor, vs, a);
      }
    }
    assert forall j | 0 <= j < |files| && files[j].slot == c.slot :: j == k;
  }

  lemma Here(snippet: SearchSnippet.Snippet, content: seq<Byte>, anchor: nat, vs: seq<Scalar>, a: nat)
    requires EncodeAll(vs) == content && a < |vs| && SearchSnippet.Pos(vs, a) == anchor && snippet == SearchSnippet.SnippetOf(vs, a)
    ensures SnippetAt(snippet, content, anchor)
  {
  }

  /** The delivery loop. */
  method ShowAll(rank: Rank, ghost files: seq<File>, ghost q: seq<Byte>, read: (seq<Byte>, nat, nat) -> Outcome, sink: MatchSink)
    returns (r: Status, shown: nat, ghost ms: seq<Match>)
    requires rank.Valid() && LegalQuery(q) && SlotsAscend(files) && RanksFiles(rank.history, files, q, Groups(q))
    modifies sink
    ensures sink.delivered == old(sink.delivered) + ms
    ensures |ms| <= |Shown(Ranked(rank.history))| && AllShow(ms, Shown(Ranked(rank.history))[..|ms|], files, read)
    ensures r == Ok ==> |ms| == shown == |Shown(Ranked(rank.history))|
    ensures forall i, j | 0 <= i < j < |ms| :: ms[i].score >= ms[j].score
    ensures r == Stopped ==> sink.delivered != [] && !sink.accepts(sink.delivered)
    ensures r != Status.Invalid
  {
    hide LegalQuery, Groups, Sourced, SnippetAt, WindowRead, FileRanked, Ranked;
    RankOrder(rank.history);
    ghost var best := Shown(Ranked(rank.history));
    ms := [];
    shown := if rank.count < SHOWN_MAX then rank.count else SHOWN_MAX;
    assert rank.candidate[..shown] == best;
    for i := 0 to shown
      invariant |ms| == i && sink.delivered == old(sink.delivered) + ms && AllShow(ms, best[..i], files, read)
    {
      var c := rank.candidate[i];
      assert c == best[i];
      ShownSourced(rank.history, i, files, q);
      var status, m := ShowOne(c, files, q, read);
      if status != Ok {
        return status, shown, ms;
      }
      var keep := sink.Receive(m);
      ms := ms + [m];
      assert best[..i + 1] == best[..i] + [c];
      if !keep {
        return Stopped, shown, ms;
      }
    }
    assert best[..shown] == best;
    r := Ok;
  }

  lemma ShownSourced(history: seq<Candidate>, i: nat, files: seq<File>, q: seq<Byte>)
    requires LegalQuery(q) && RanksFiles(history, files, q, Groups(q)) && i < |Shown(Ranked(history))|
    ensures Sourced(Shown(Ranked(history))[i], files, q, Groups(q))
  {
    hide LegalQuery, Groups, Sourced, FileRanked, Ranked;
    RankedSorts(history);
    var c := Ranked(history)[i];
    assert c in multiset(Ranked(history));
    assert multiset(Ranked(history)) == multiset(history);
    assert c in history;
  }

  /** linear_query_locked, without a tag filter. On success the sink has received, in rank order, the best
      twenty of all wanted lines of all searched files, with the exact counts. */
  method Query(q: seq<Byte>, files: seq<File>, folded: array<Byte>, prefix: array<nat>, ring: array<bool>,
               read: (seq<Byte>, nat, nat) -> Outcome, sink: MatchSink)
    returns (r: Status, total: nat, shown: nat, skipped: nat, ghost history: seq<Candidate>, ghost ms: seq<Match>)
    requires folded.Length == prefix.Length == QUERY_MAX && ring.Length == SearchTerms.RING && SlotsAscend(files)
    modifies folded, prefix, ring, sink
    ensures r == Status.Invalid <==> !LegalQuery(q)
    ensures sink.delivered == old(sink.delivered) + ms
    ensures ms != [] ==> LegalQuery(q) && RanksFiles(history, files, q, Groups(q))
    ensures |ms| <= |Shown(Ranked(history))| && AllShow(ms, Shown(Ranked(history))[..|ms|], files, read)
    ensures forall i, j | 0 <= i < j < |ms| :: ms[i].score >= ms[j].score
    ensures r == Ok ==> LegalQuery(q) && RanksFiles(history, files, q, Groups(q))
    ensures r == Ok ==> total == |history| && skipped == |SkippedFiles(files)| && |ms| == shown == |Shown(Ranked(history))|
    ensures r == Stopped ==> sink.delivered != [] && !sink.accepts(sink.delivered)
  {
    hide LegalQuery, Groups, RanksFiles, Ranked, SkippedFiles, Shows, AllInside, SearchTerms.Pattern.Valid, TotalLength, LegalGroup, GroupOf;
    total, shown, skipped, history, ms := 0, 0, 0, [], [];
    var parsed := Parse(q);
    if parsed.Invalid? {
      r := Status.Invalid;
      return;
    }
    GroupsFit(q);
    assert parsed.slots == Groups(q) && AllInside(q, Groups(q)) by { GroupsAre(q); }
    var pattern := PatternBuild(q, parsed.slots, folded, prefix);
    assert pattern != null;
    var rank := new Rank();
    r := RankFiles(pattern, ring, rank, files, q, Groups(q));
    if r != Ok {
      return;
    }
    history := rank.history;
    r, shown, ms := ShowAll(rank, files, q, read, sink);
    total, skipped := rank.total, rank.skipped;
  }

  lemma GroupsAre(q: seq<Byte>)
    requires LegalQuery(q)
    ensures AllInside(q, Runs(q, 0)) && Groups(q) == Distinct(q, Runs(q, 0)) && AllInside(q, Groups(q))
  {
    RunsInside(q, 0);
  }
}
