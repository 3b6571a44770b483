/** host/knowledge_graph.c: the candidate graph while files are scanned. Hash tables find concepts and
    aliases, and the declarations of a concept are chained through one array. */
module GraphBuild {
  import opened Bytes
  import opened Buckets
  import opened OpenTable

  const CONCEPT_MAX: nat := 8192
  const DECLARATION_MAX: nat := 16384
  const ALIAS_MAX: nat := 16384
  const RELATION_MAX: nat := 16384
  const ID_BUCKETS: nat := 16384
  const ALIAS_BUCKETS: nat := 32768
  const NONE: nat := 0xFFFF_FFFF

  datatype Provenance = Provenance(file: seq<Byte>, start: nat, end: nat, line: nat, block: seq<Byte>)
  datatype Concept = Concept(id: seq<Byte>, name: seq<Byte>, head: nat, tail: nat, count: nat)
  datatype Declaration = Declaration(concept: nat, next: nat, where_: Provenance)
  datatype Alias = Alias(id: seq<Byte>, text: seq<Byte>)
  datatype Relation = Relation(kind: seq<Byte>, subject: seq<Byte>, object_: seq<Byte>, where_: Provenance)

  datatype Result = Ok | Conflict | Limit | NoSpace

  // ----- declaration chains

  function Owners(ds: seq<Declaration>): seq<int> {
    seq(|ds|, i requires 0 <= i < |ds| => ds[i].concept)
  }

  /** The chain of concept c links exactly its declarations, in the order they were recorded. */
  ghost predicate Chained(ds: seq<Declaration>, c: Concept, ordinal: nat) {
    var m := Picks(Owners(ds), ordinal);
    && c.count == |m|
    && (if m == [] then c.head == c.tail == NONE else c.head == m[0] && c.tail == m[|m| - 1])
    && (forall k | 0 <= k < |m| :: Linked(ds, m, k))
  }

  predicate Linked(ds: seq<Declaration>, m: seq<nat>, k: nat)
    requires k < |m|
  {
    m[k] < |ds| && ds[m[k]].next == if k + 1 < |m| then m[k + 1] else NONE
  }

  /** What following the links from a node visits. */
  function Walk(ds: seq<Declaration>, node: nat): seq<nat>
    decreases |ds| - node
  {
    if node >= |ds| then []
    else if ds[node].next <= node then [node]
    else [node] + Walk(ds, ds[node].next)
  }

  lemma {:induction false} WalkFrom(ds: seq<Declaration>, m: seq<nat>, k: nat)
    requires k < |m| && |ds| <= NONE && forall j | 0 <= j < |m| :: Linked(ds, m, j)
    requires forall i, j | 0 <= i < j < |m| :: m[i] < m[j]
    ensures Walk(ds, m[k]) == m[k..]
    decreases |m| - k
  {
    assert Linked(ds, m, k);
    if k + 1 < |m| {
      WalkFrom(ds, m, k + 1);
    }
  }

  /** Walking a concept's chain visits its declarations, each once, in declaration order. */
  lemma WalkIsPicks(ds: seq<Declaration>, c: Concept, ordinal: nat)
    requires Chained(ds, c, ordinal) && |ds| <= NONE
    ensures Walk(ds, c.head) == Picks(Owners(ds), ordinal)
  {
    hide Picks;
    var m := Picks(Owners(ds), ordinal);
    PicksMeaning(Owners(ds), ordinal);
    if m != [] { WalkFrom(ds, m, 0); }
  }

  function Appended(ds: seq<Declaration>, c: Concept, ordinal: nat, where_: Provenance): seq<Declaration> {
    (if c.tail < |ds| then ds[c.tail := ds[c.tail].(next := |ds|)] else ds) + [Declaration(ordinal, NONE, where_)]
  }

  function Lengthened(ds: seq<Declaration>, c: Concept): Concept {
    c.(head := if c.tail == NONE then |ds| else c.head, tail := |ds|, count := c.count + 1)
  }

  lemma OwnersAppended(ds: seq<Declaration>, c: Concept, ordinal: nat, where_: Provenance, o: nat)
    ensures Owners(Appended(ds, c, ordinal, where_)) == Owners(ds) + [ordinal]
    ensures Picks(Owners(Appended(ds, c, ordinal, where_)), o) == Picks(Owners(ds), o) + (if o == ordinal then [|ds|] else [])
  {
    var after := Owners(ds) + [ordinal];
    assert after[..|ds|] == Owners(ds);
  }

  lemma ChainGrows(ds: seq<Declaration>, c: Concept, ordinal: nat, where_: Provenance)
    requires Chained(ds, c, ordinal) && |ds| < NONE
    ensures Chained(Appended(ds, c, ordinal, where_), Lengthened(ds, c), ordinal)
  {
    hide Picks;
    var m, after := Picks(Owners(ds), ordinal), Appended(ds, c, ordinal, where_);
    OwnersAppended(ds, c, ordinal, where_, ordinal);
    PicksMeaning(Owners(ds), ordinal);
    var n := m + [|ds|];
    forall k | 0 <= k < |n|
      ensures Linked(after, n, k)
    {
      if k < |m| { assert Linked(ds, m, k); }
    }
  }

  lemma OtherChainKept(ds: seq<Declaration>, c: Concept, ordinal: nat, where_: Provenance, d: Concept, o: nat)
    requires Chained(ds, c, ordinal) && Chained(ds, d, o) && o != ordinal && |ds| < NONE
    ensures Chained(Appended(ds, c, ordinal, where_), d, o)
  {
    hide Picks;
    var m, after := Picks(Owners(ds), o), Appended(ds, c, ordinal, where_);
    OwnersAppended(ds, c, ordinal, where_, o);
    PicksMeaning(Owners(ds), o);
    PicksMeaning(Owners(ds), ordinal);
    var t := Picks(Owners(ds), ordinal);
    assert t == [] || Owners(ds)[t[|t| - 1]] == ordinal;
    assert m + [] == m;
    forall k | 0 <= k < |m|
      ensures Linked(after, m, k)
    {
      assert Linked(ds, m, k) && Owners(ds)[m[k]] == o;
    }
  }

  lemma NewChain(ds: seq<Declaration>, id: seq<Byte>, name: seq<Byte>, ordinal: nat)
    requires forall k | 0 <= k < |ds| :: ds[k].concept < ordinal
    ensures Chained(ds, Concept(id, name, NONE, NONE, 0), ordinal)
  {
    hide Picks;
    PicksNone(Owners(ds), ordinal);
  }

  // ----- the build

  function Ids(cs: seq<Concept>): seq<seq<Byte>> {
    seq(|cs|, i requires 0 <= i < |cs| => cs[i].id)
  }

  function Names(cs: seq<Concept>): seq<(seq<Byte>, seq<Byte>)> {
    seq(|cs|, i requires 0 <= i < |cs| => (cs[i].id, cs[i].name))
  }

  predicate Clashes(names: seq<(seq<Byte>, seq<Byte>)>, id: seq<Byte>, name: seq<Byte>) {
    exists k :: 0 <= k < |names| && names[k].0 == id && names[k].1 != name
  }

  function Pairs(xs: seq<Alias>): seq<(seq<Byte>, seq<Byte>)> {
    seq(|xs|, i requires 0 <= i < |xs| => (xs[i].id, xs[i].text))
  }

  function Wheres(ds: seq<Declaration>): seq<Provenance> {
    seq(|ds|, i requires 0 <= i < |ds| => ds[i].where_)
  }

  ghost predicate AllChained(cs: seq<Concept>, ds: seq<Declaration>) {
    && |ds| <= DECLARATION_MAX
    && (forall k | 0 <= k < |ds| :: ds[k].concept < |cs|)
    && (forall o: nat | o < |cs| :: Chained(ds, cs[o], o))
  }

  lemma AddedDeclaration(cs: seq<Concept>, ds: seq<Declaration>, ordinal: nat, where_: Provenance)
    requires AllChained(cs, ds) && ordinal < |cs| && |ds| < DECLARATION_MAX
    ensures AllChained(cs[ordinal := Lengthened(ds, cs[ordinal])], Appended(ds, cs[ordinal], ordinal, where_))
    ensures Names(cs[ordinal := Lengthened(ds, cs[ordinal])]) == Names(cs)
    ensures Ids(cs[ordinal := Lengthened(ds, cs[ordinal])]) == Ids(cs)
    ensures Wheres(Appended(ds, cs[ordinal], ordinal, where_)) == Wheres(ds) + [where_]
    ensures Owners(Appended(ds, cs[ordinal], ordinal, where_)) == Owners(ds) + [ordinal]
  {
    hide Chained;
    var now, after := cs[ordinal := Lengthened(ds, cs[ordinal])], Appended(ds, cs[ordinal], ordinal, where_);
    OwnersAppended(ds, cs[ordinal], ordinal, where_, ordinal);
    forall o: nat | o < |now|
      ensures Chained(after, now[o], o)
    {
      assert Chained(ds, cs[o], o) && Chained(ds, cs[ordinal], ordinal);
      if o == ordinal {
        ChainGrows(ds, cs[ordinal], ordinal, where_);
      } else {
        OtherChainKept(ds, cs[ordinal], ordinal, where_, cs[o], o);
      }
    }
  }

  class Build {
    var concepts: seq<Concept>
    var declarations: seq<Declaration>
    var aliases: seq<Alias>
    var relations: seq<Relation>
    const ids: Index<seq<Byte>>
    const pairs: Index<(seq<Byte>, seq<Byte>)>

    ghost predicate Valid()
      reads this, ids, ids.slots, pairs, pairs.slots
    {
      && ids.slots != pairs.slots
      && ids.Valid() && ids.slots.Length == ID_BUCKETS && ids.keys == Ids(concepts)
      && pairs.Valid() && pairs.slots.Length == ALIAS_BUCKETS && pairs.keys == Pairs(aliases)
      && |concepts| <= CONCEPT_MAX && |aliases| <= ALIAS_MAX && |relations| <= RELATION_MAX
      && AllChained(concepts, declarations)
    }

    constructor (idHash: seq<Byte> -> nat, pairHash: ((seq<Byte>, seq<Byte>)) -> nat)
      ensures Valid() && concepts == [] && declarations == [] && aliases == [] && relations == []
      ensures fresh(ids) && fresh(ids.slots) && fresh(pairs) && fresh(pairs.slots)
    {
      concepts, declarations, aliases, relations := [], [], [], [];
      ids := new Index<seq<Byte>>(ID_BUCKETS, idHash);
      pairs := new Index<(seq<Byte>, seq<Byte>)>(ALIAS_BUCKETS, pairHash);
    }

    /** kg_add_declaration */
    method AddDeclaration(ordinal: nat, where_: Provenance) returns (r: Result)
      requires Valid() && ordinal < |concepts|
      modifies `concepts, `declarations
      ensures Valid() && r == if |old(declarations)| == DECLARATION_MAX then Limit else Ok
      ensures Names(concepts) == old(Names(concepts))
      ensures r != Ok ==> unchanged(this)
      ensures r == Ok ==> Owners(declarations) == old(Owners(declarations)) + [ordinal]
      ensures r == Ok ==> Wheres(declarations) == old(Wheres(declarations)) + [where_]
    {
      hide Index.Valid;
      if |declarations| == DECLARATION_MAX {
        return Limit;
      }
      AddedDeclaration(concepts, declarations, ordinal, where_);
      hide AllChained;
      var entry, owner := |declarations|, concepts[ordinal];
      assert owner.tail == NONE || owner.tail < entry by { TailInRange(concepts, declarations, ordinal); }
      if owner.tail == NONE {
        declarations := declarations + [Declaration(ordinal, NONE, where_)];
      } else {
        declarations := declarations[owner.tail := declarations[owner.tail].(next := entry)]
                        + [Declaration(ordinal, NONE, where_)];
      }
      concepts := concepts[ordinal := owner.(head := if owner.tail == NONE then entry else owner.head,
                                             tail := entry, count := owner.count + 1)];
      return Ok;
    }

    /** kg_record_concept: the same ID may be declared again under the same name only. */
    method RecordConcept(id: seq<Byte>, name: seq<Byte>, where_: Provenance) returns (r: Result)
      requires Valid()
      modifies `concepts, `declarations, ids`keys, ids.slots
      ensures Valid() && r != NoSpace
      ensures r == Conflict <==> Clashes(old(Names(concepts)), id, name)
      ensures r == Limit ==> |old(declarations)| == DECLARATION_MAX
                             || (|old(concepts)| == CONCEPT_MAX && id !in old(Ids(concepts)))
      ensures r == Ok ==> Names(concepts) == old(Names(concepts)) + (if id in old(Ids(concepts)) then [] else [(id, name)])
      ensures r == Ok ==> Wheres(declarations) == old(Wheres(declarations)) + [where_]
      ensures r == Ok ==> |declarations| > 0 && declarations[|declarations| - 1].concept < |concepts|
      ensures r == Ok ==> Names(concepts)[declarations[|declarations| - 1].concept] == (id, name)
    {
      hide Index.Valid, AllChained;
      var known, ordinal := ids.Find(Ids(concepts), id);
      if known {
        OneName(id, name, ordinal);
        if concepts[ordinal].name != name {
          return Conflict;
        }
        r := AddDeclaration(ordinal, where_);
        LastOwner();
        return;
      }
      assert !Clashes(Names(concepts), id, name) by { Undeclared(id, name); }
      if |concepts| == CONCEPT_MAX {
        return Limit;
      }
      ordinal := |concepts|;
      var inserted := ids.Insert(id, ordinal);
      assert inserted;
      if !inserted {
        return NoSpace;
      }
      NewConcept(concepts, declarations, id, name);
      concepts := concepts + [Concept(id, name, NONE, NONE, 0)];
      assert Names(concepts)[ordinal] == (id, name);
      r := AddDeclaration(ordinal, where_);
      LastOwner();
    }

    lemma OneName(id: seq<Byte>, name: seq<Byte>, ordinal: nat)
      requires Valid() && ordinal < |concepts| && Ids(concepts)[ordinal] == id
      ensures Clashes(Names(concepts), id, name) <==> concepts[ordinal].name != name
    {
      forall k | 0 <= k < |concepts| && Names(concepts)[k].0 == id
        ensures k == ordinal
      {
        assert Ids(concepts)[k] == id;
      }
      assert Names(concepts)[ordinal] == (id, concepts[ordinal].name);
    }

    lemma Undeclared(id: seq<Byte>, name: seq<Byte>)
      requires id !in Ids(concepts)
      ensures !Clashes(Names(concepts), id, name)
    {
      forall k | 0 <= k < |concepts|
        ensures Names(concepts)[k].0 != id
      {
        assert Ids(concepts)[k] == concepts[k].id;
      }
    }

    lemma DistinctConcepts()
      requires Valid()
      ensures forall i, j | 0 <= i < j < |concepts| :: concepts[i].id != concepts[j].id
      ensures AllChained(concepts, declarations)
    {
      forall i, j | 0 <= i < j < |concepts|
        ensures concepts[i].id != concepts[j].id
      {
        assert Ids(concepts)[i] != Ids(concepts)[j];
      }
    }

    lemma LastOwner()
      ensures |Owners(declarations)| == |declarations|
      ensures |declarations| > 0 ==> Owners(declarations)[|declarations| - 1] == declarations[|declarations| - 1].concept
    {
    }

    /** kg_record_alias: an (ID, alias) pair is kept once and a repetition costs nothing. */
    method RecordAlias(id: seq<Byte>, text: seq<Byte>) returns (r: Result)
      requires Valid()
      modifies `aliases, pairs`keys, pairs.slots
      ensures Valid() && (r == Ok || r == Limit)
      ensures r == Limit <==> |old(aliases)| == ALIAS_MAX && (id, text) !in old(Pairs(aliases))
      ensures Pairs(aliases) == old(Pairs(aliases)) + (if r == Limit || (id, text) in old(Pairs(aliases)) then [] else [(id, text)])
    {
      hide Index.Valid, AllChained;
      var known, _ := pairs.Find(Pairs(aliases), (id, text));
      if known {
        return Ok;
      }
      if |aliases| == ALIAS_MAX {
        return Limit;
      }
      var inserted := pairs.Insert((id, text), |aliases|);
      assert inserted;
      aliases := aliases + [Alias(id, text)];
      return Ok;
    }

    /** kg_record_relation */
    method RecordRelation(kind: seq<Byte>, subject: seq<Byte>, object_: seq<Byte>, where_: Provenance) returns (r: Result)
      requires Valid()
      modifies `relations
      ensures Valid() && r == if |old(relations)| == RELATION_MAX then Limit else Ok
      ensures relations == old(relations) + (if r == Ok then [Relation(kind, subject, object_, where_)] else [])
    {
      if |relations| == RELATION_MAX {
        return Limit;
      }
      relations := relations + [Relation(kind, subject, object_, where_)];
      return Ok;
    }
  }

  lemma TailInRange(cs: seq<Concept>, ds: seq<Declaration>, o: nat)
    requires AllChained(cs, ds) && o < |cs|
    ensures cs[o].tail == NONE || cs[o].tail < |ds|
  {
    PicksMeaning(Owners(ds), o);
    assert Chained(ds, cs[o], o);
  }

  lemma NewConcept(cs: seq<Concept>, ds: seq<Declaration>, id: seq<Byte>, name: seq<Byte>)
    requires AllChained(cs, ds)
    ensures AllChained(cs + [Concept(id, name, NONE, NONE, 0)], ds)
  {
    hide Chained;
    var now := cs + [Concept(id, name, NONE, NONE, 0)];
    NewChain(ds, id, name, |cs|);
    forall o: nat | o < |now|
      ensures Chained(ds, now[o], o)
    {
      if o < |cs| { assert Chained(ds, cs[o], o); }
    }
  }
}
