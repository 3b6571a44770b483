/** host/knowledge_graph.c: looking a text up in the published graph. */
module GraphLookup {
  import opened Bytes
  import opened ByteOrder
  import EditorText

  const NONE: nat := 0xFFFF_FFFF
  const QUERY_MAX: nat := 256

  // ----- yan_kg_lookup

  /** One entry of the label table: a name or an alias of a concept. */
  datatype Entry = Entry(text: seq<Byte>, concept: nat)

  predicate EntryBefore(a: Entry, b: Entry) {
    Less(a.text, b.text) || (a.text == b.text && a.concept <= b.concept)
  }

  ghost predicate IdsAscend(ids: seq<seq<Byte>>) {
    forall j, k | 0 <= j < k < |ids| :: Less(ids[j], ids[k])
  }

  ghost predicate EntriesAscend(entries: seq<Entry>) {
    forall j, k | 0 <= j < k < |entries| :: EntryBefore(entries[j], entries[k])
  }

  /** The concepts that a text names. */
  function Named(entries: seq<Entry>, text: seq<Byte>): set<nat> {
    set k | 0 <= k < |entries| && entries[k].text == text :: entries[k].concept
  }

  datatype Verdict = Ok | Invalid | Ambiguous | NotFound
  datatype Kind = ById | ByLabel
  datatype Match = Match(kind: Kind, concept: nat, candidates: nat)

  /** The search for the exact ID. */
  method FindId(ids: seq<seq<Byte>>, text: seq<Byte>) returns (found: bool, index: nat)
    requires IdsAscend(ids)
    ensures found <==> text in ids
    ensures found ==> index < |ids| && ids[index] == text
  {
    hide Less;
    var low, high := 0, |ids|;
    while low < high
      invariant 0 <= low <= high <= |ids|
      invariant forall k | 0 <= k < low :: Less(ids[k], text)
      invariant forall k | high <= k < |ids| :: Less(text, ids[k])
    {
      var middle := low + (high - low) / 2;
      var order := Compare(text, ids[middle]);
      if order == 0 {
        return true, middle;
      }
      if order < 0 {
        forall k | middle < k < |ids|
          ensures Less(text, ids[k])
        {
          Transitive(text, ids[middle], ids[k]);
        }
        high := middle;
      } else {
        forall k | 0 <= k < middle
          ensures Less(ids[k], text)
        {
          Transitive(ids[k], ids[middle], text);
        }
        low := middle + 1;
      }
    }
    Irreflexive(text);
    return false, 0;
  }

  /** The lower bound of the run of equal labels. */
  method LowerBound(entries: seq<Entry>, text: seq<Byte>) returns (low: nat)
    requires EntriesAscend(entries)
    ensures low <= |entries|
    ensures forall k | 0 <= k < low :: Less(entries[k].text, text)
    ensures forall k | low <= k < |entries| :: !Less(entries[k].text, text)
  {
    hide Less;
    var high := |entries|;
    low := 0;
    while low < high
      invariant low <= high <= |entries|
      invariant forall k | 0 <= k < low :: Less(entries[k].text, text)
      invariant forall k | high <= k < |entries| :: !Less(entries[k].text, text)
    {
      var middle := low + (high - low) / 2;
      var order := Compare(text, entries[middle].text);
      forall k | 0 <= k < middle && Less(entries[middle].text, text)
        ensures Less(entries[k].text, text)
      {
        assert EntryBefore(entries[k], entries[middle]);
        if entries[k].text != entries[middle].text { Transitive(entries[k].text, entries[middle].text, text); }
      }
      forall k | middle < k < |entries| && !Less(entries[middle].text, text)
        ensures !Less(entries[k].text, text)
      {
        assert EntryBefore(entries[middle], entries[k]);
        if Less(entries[middle].text, entries[k].text) && Less(entries[k].text, text) {
          Transitive(entries[middle].text, entries[k].text, text);
        }
      }
      Total(text, entries[middle].text);
      if order <= 0 {
        high := middle;
      } else {
        low := middle + 1;
      }
    }
  }

  /** The walk over the run: it ascends by concept, so one comparison tells each new candidate. */
  method CountRun(entries: seq<Entry>, text: seq<Byte>, low: nat) returns (distinct: nat, first: nat)
    requires EntriesAscend(entries) && low <= |entries| && forall k | 0 <= k < |entries| :: entries[k].concept < NONE
    requires forall k | 0 <= k < low :: Less(entries[k].text, text)
    requires forall k | low <= k < |entries| :: !Less(entries[k].text, text)
    ensures distinct == |Named(entries, text)|
    ensures distinct == 1 ==> Named(entries, text) == {first}
  {
    hide Less, Named, EntriesAscend;
    var previous := NONE;
    distinct, first := 0, NONE;
    var index := low;
    BeforeRun(entries, text, low);
    while index < |entries| && entries[index].text == text
      invariant low <= index <= |entries|
      invariant forall k | low <= k < index :: entries[k].text == text
      invariant distinct == |Named(entries[..index], text)|
      invariant previous == if index == low then NONE else entries[index - 1].concept
      invariant distinct == 0 <==> index == low
      invariant distinct == 1 ==> Named(entries[..index], text) == {first}
    {
      Grown(entries, text, low, index);
      if entries[index].concept != previous {
        if distinct == 0 {
          first := entries[index].concept;
        }
        distinct := distinct + 1;
        previous := entries[index].concept;
      }
      index := index + 1;
    }
    AfterRun(entries, text, index);
  }

  lemma BeforeRun(entries: seq<Entry>, text: seq<Byte>, low: nat)
    requires low <= |entries| && forall k | 0 <= k < low :: Less(entries[k].text, text)
    ensures Named(entries[..low], text) == {}
    ensures forall k | 0 <= k < low :: entries[k].text != text
  {
    hide Less;
    Irreflexive(text);
  }

  lemma AfterRun(entries: seq<Entry>, text: seq<Byte>, index: nat)
    requires EntriesAscend(entries) && index <= |entries|
    requires index < |entries| ==> entries[index].text != text && !Less(entries[index].text, text)
    ensures Named(entries, text) == Named(entries[..index], text)
  {
    hide Less;
    forall k | index <= k < |entries|
      ensures entries[k].text != text
    {
      if k > index { PastRun(entries, text, index, k); }
    }
    forall c
      ensures c in Named(entries, text) <==> c in Named(entries[..index], text)
    {
      if c in Named(entries, text) {
        var k :| 0 <= k < |entries| && entries[k].text == text && entries[k].concept == c;
        assert entries[..index][k] == entries[k];
      }
    }
  }

  lemma Grown(entries: seq<Entry>, text: seq<Byte>, low: nat, index: nat)
    requires EntriesAscend(entries) && low <= index < |entries| && entries[index].text == text
    requires forall k | 0 <= k < low :: entries[k].text != text
    requires forall k | low <= k < index :: entries[k].text == text
    ensures var before, c := Named(entries[..index], text), entries[index].concept;
            && Named(entries[..index + 1], text) == before + {c}
            && |before + {c}| == |before| + (if low < index && entries[index - 1].concept == c then 0 else 1)
            && (before == {} ==> before + {c} == {c})
            && (low < index && entries[index - 1].concept == c ==> before + {c} == before)
  {
    hide Less;
    Irreflexive(text);
    var before, c := Named(entries[..index], text), entries[index].concept;
    forall k | low <= k < index
      ensures entries[k].concept <= c
      ensures entries[k].concept == c ==> entries[index - 1].concept == c
    {
      assert EntryBefore(entries[k], entries[index]);
      if k < index - 1 {
        assert EntryBefore(entries[k], entries[index - 1]) && EntryBefore(entries[index - 1], entries[index]);
      }
    }
    if low < index { assert entries[..index][index - 1] == entries[index - 1]; }
    NamedSnoc(entries, text, index);
    assert c in before <==> low < index && entries[index - 1].concept == c;
  }

  lemma NamedSnoc(entries: seq<Entry>, text: seq<Byte>, index: nat)
    requires index < |entries| && entries[index].text == text
    ensures Named(entries[..index + 1], text) == Named(entries[..index], text) + {entries[index].concept}
  {
    var more := entries[..index + 1];
    forall x
      ensures x in Named(more, text) <==> x in Named(entries[..index], text) + {entries[index].concept}
    {
      if x in Named(more, text) {
        var k :| 0 <= k < |more| && more[k].text == text && more[k].concept == x;
        if k < index { assert entries[..index][k] == more[k]; }
      }
      if x in Named(entries[..index], text) {
        var k :| 0 <= k < index && entries[..index][k].text == text && entries[..index][k].concept == x;
        assert more[k] == entries[..index][k];
      }
      if x == entries[index].concept { assert more[index] == entries[index]; }
    }
  }

  lemma PastRun(entries: seq<Entry>, text: seq<Byte>, index: nat, k: nat)
    requires EntriesAscend(entries) && index < k < |entries|
    requires entries[index].text != text && !Less(entries[index].text, text)
    ensures entries[k].text != text
  {
    hide Less;
    assert EntryBefore(entries[index], entries[k]);
    Irreflexive(text);
  }

  /** yan_kg_lookup: the exact ID wins; otherwise the number of distinct concepts that the text names
      decides, and it is reported whatever it is. */
  method Lookup(ids: seq<seq<Byte>>, entries: seq<Entry>, text: seq<Byte>) returns (r: Verdict, m: Match)
    requires IdsAscend(ids) && EntriesAscend(entries) && |ids| < NONE
    requires forall k | 0 <= k < |entries| :: entries[k].concept < |ids|
    ensures r == Invalid <==> !(1 <= |text| <= QUERY_MAX && EditorText.QueryText(text))
    ensures r != Invalid && text in ids ==> r == Ok && m.kind == ById && m.candidates == 1 && m.concept < |ids| && ids[m.concept] == text
    ensures r != Invalid && text !in ids ==> m.kind == ByLabel && m.candidates == |Named(entries, text)|
    ensures r != Invalid && text !in ids ==>
              r == if Named(entries, text) == {} then NotFound else if |Named(entries, text)| == 1 then Ok else Ambiguous
    ensures r == Ok && text !in ids ==> Named(entries, text) == {m.concept}
  {
    m := Match(ById, NONE, 0);
    var valid := EditorText.QueryValid(text);
    if |text| < 1 || |text| > QUERY_MAX || !valid {
      return Invalid, m;
    }
    hide EditorText.QueryText;
    var found, index := FindId(ids, text);
    if found {
      return Ok, Match(ById, index, 1);
    }
    var low := LowerBound(entries, text);
    var distinct, first := CountRun(entries, text, low);
    if distinct == 1 {
      return Ok, Match(ByLabel, first, 1);
    }
    if distinct > 1 {
      return Ambiguous, Match(ByLabel, NONE, distinct);
    }
    return NotFound, Match(ByLabel, NONE, 0);
  }
}
