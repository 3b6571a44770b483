/** host/knowledge_graph.c: kg_publish turns the scanned candidate into the graph that is queried. The
    three qsort calls are the shared index sort; any sorted permutation would do. */
module GraphPublish {
  import opened Bytes
  import opened ByteOrder
  import opened Buckets
  import opened OpenTable
  import opened GraphBuild
  import opened GraphLookup
  import opened GraphRows
  import Sort

  datatype Outcome = Published | Unresolved

  // ----- sorting by key

  function KeyAt(keys: seq<Entry>, i: nat): Entry {
    if i < |keys| then keys[i] else Entry([], 0)
  }

  /** kg_compare_labels < 0; with concept 0 throughout it is kg_compare_keys. */
  predicate EntryLess(a: Entry, b: Entry) {
    Less(a.text, b.text) || (a.text == b.text && a.concept < b.concept)
  }

  function BeforeIn(keys: seq<Entry>): (nat, nat) -> bool {
    (left: nat, right: nat) => EntryLess(KeyAt(keys, left), KeyAt(keys, right))
  }

  lemma EntryOrder(a: Entry, b: Entry, c: Entry)
    ensures !EntryLess(a, a)
    ensures EntryLess(a, b) && EntryLess(b, c) ==> EntryLess(a, c)
    ensures !EntryLess(a, b) <==> EntryBefore(b, a)
    ensures !EntryLess(a, b) && !EntryLess(b, c) ==> !EntryLess(a, c)
  {
    hide Less;
    Irreflexive(a.text);
    Total(a.text, b.text);
    Total(b.text, c.text);
    Total(a.text, c.text);
    if Less(a.text, b.text) && Less(b.text, c.text) { Transitive(a.text, b.text, c.text); }
    if Less(c.text, b.text) && Less(b.text, a.text) { Transitive(c.text, b.text, a.text); }
  }

  lemma BeforeIsStrictWeak(keys: seq<Entry>)
    ensures Sort.StrictWeak(BeforeIn(keys))
  {
    hide EntryLess, KeyAt;
    var before := BeforeIn(keys);
    forall a: nat, b: nat, c: nat
      ensures !before(a, a)
      ensures before(a, b) && before(b, c) ==> before(a, c)
      ensures !before(a, b) && !before(b, c) ==> !before(a, c)
    {
      EntryOrder(KeyAt(keys, a), KeyAt(keys, b), KeyAt(keys, c));
    }
  }

  function Pick(keys: seq<Entry>, order: seq<nat>): seq<Entry> {
    seq(|order|, k requires 0 <= k < |order| => KeyAt(keys, order[k]))
  }

  method SortEntries(keys: seq<Entry>) returns (order: array<nat>)
    ensures fresh(order) && Sort.Arrangement(order[..], |keys|) && EntriesAscend(Pick(keys, order[..]))
  {
    BeforeIsStrictWeak(keys);
    order := Sort.IndexSorted(|keys|, BeforeIn(keys));
    ghost var s := Pick(keys, order[..]);
    forall j, k | 0 <= j < k < |s|
      ensures EntryBefore(s[j], s[k])
    {
      assert !BeforeIn(keys)(order[..][k], order[..][j]);
      EntryOrder(s[k], s[j], s[j]);
    }
  }

  /** Sorting the label table changes what no text names. */
  lemma SameNames(keys: seq<Entry>, order: seq<nat>, text: seq<Byte>)
    requires Sort.Arrangement(order, |keys|)
    ensures Named(Pick(keys, order), text) == Named(keys, text)
  {
    Sort.ArrangementMeaning(order, |keys|);
    var s := Pick(keys, order);
    forall c
      ensures c in Named(s, text) <==> c in Named(keys, text)
    {
      if c in Named(keys, text) {
        var k: nat :| k < |keys| && keys[k].text == text && keys[k].concept == c;
        assert k in order;
        var p :| 0 <= p < |order| && order[p] == k;
        assert s[p] == keys[k];
      }
      if c in Named(s, text) {
        var p :| 0 <= p < |s| && s[p].text == text && s[p].concept == c;
        assert keys[order[p]] == s[p];
      }
    }
  }

  // ----- concepts in ID order

  function IdKeys(cs: seq<Concept>): seq<Entry> {
    seq(|cs|, i requires 0 <= i < |cs| => Entry(cs[i].id, 0))
  }

  /** order arranges the concepts by ascending ID and inverse undoes it. */
  ghost predicate ConceptOrder(cs: seq<Concept>, order: seq<nat>, inverse: seq<nat>, ids: seq<seq<Byte>>) {
    && |order| == |inverse| == |ids| == |cs|
    && (forall k | 0 <= k < |cs| :: order[k] < |cs| && ids[k] == cs[order[k]].id)
    && (forall o | 0 <= o < |cs| :: inverse[o] < |cs| && ids[inverse[o]] == cs[o].id && order[inverse[o]] == o)
    && IdsAscend(ids)
  }

  method OrderConcepts(cs: seq<Concept>) returns (order: seq<nat>, inverse: seq<nat>, ids: seq<seq<Byte>>)
    requires forall i, j | 0 <= i < j < |cs| :: cs[i].id != cs[j].id
    ensures ConceptOrder(cs, order, inverse, ids)
  {
    hide Less;
    var keys := IdKeys(cs);
    var sorted := SortEntries(keys);
    order := sorted[..];
    Sort.ArrangementMeaning(order, |cs|);
    var at := new nat[|cs|](_ => 0);
    ids := [];
    for k := 0 to |cs|
      invariant |ids| == k && forall j | 0 <= j < k :: ids[j] == cs[order[j]].id && at[order[j]] == j
    {
      at[order[k]] := k;
      ids := ids + [cs[order[k]].id];
    }
    inverse := at[..];
    forall o: nat | o < |cs|
      ensures inverse[o] < |cs| && order[inverse[o]] == o
    {
      assert o in order;
      var k :| 0 <= k < |cs| && order[k] == o;
      assert at[order[k]] == k;
    }
    forall j, k | 0 <= j < k < |ids|
      ensures Less(ids[j], ids[k])
    {
      assert EntryBefore(Pick(keys, order)[j], Pick(keys, order)[k]);
      assert order[j] != order[k];
    }
  }

  /** Each published concept lists where it was declared, in declaration order. */
  ghost predicate Declared(ds: seq<Declaration>, order: seq<nat>, declared: seq<seq<Provenance>>) {
    |declared| == |order| && forall k | 0 <= k < |order| :: declared[k] == WheresAt(ds, Picks(Owners(ds), order[k]))
  }

  function WheresAt(ds: seq<Declaration>, at: seq<nat>): seq<Provenance> {
    seq(|at|, i requires 0 <= i < |at| => if at[i] < |ds| then ds[at[i]].where_ else Provenance([], 0, 0, 0, []))
  }

  /** The walk over one declaration chain. */
  method Collect(ds: seq<Declaration>, c: Concept, ghost ordinal: nat) returns (wheres: seq<Provenance>)
    requires Chained(ds, c, ordinal) && |ds| <= DECLARATION_MAX
    ensures wheres == WheresAt(ds, Picks(Owners(ds), ordinal))
  {
    hide Picks, Owners;
    ghost var m := Picks(Owners(ds), ordinal);
    assert |Owners(ds)| == |ds| by { OwnersLength(ds); }
    PicksMeaning(Owners(ds), ordinal);
    wheres := [];
    var node := c.head;
    ghost var k := 0;
    while node != GraphBuild.NONE
      invariant 0 <= k <= |m| && wheres == WheresAt(ds, m[..k])
      invariant node == if k < |m| then m[k] else GraphBuild.NONE
      decreases |m| - k
    {
      assert Linked(ds, m, k);
      wheres := wheres + [ds[node].where_];
      assert m[..k + 1] == m[..k] + [m[k]];
      node := ds[node].next;
      k := k + 1;
    }
    assert m[..|m|] == m;
  }

  lemma OwnersLength(ds: seq<Declaration>)
    ensures |Owners(ds)| == |ds|
  {
  }

  method CollectAll(cs: seq<Concept>, ds: seq<Declaration>, order: seq<nat>) returns (names: seq<seq<Byte>>, declared: seq<seq<Provenance>>)
    requires AllChained(cs, ds) && |order| == |cs| && forall k | 0 <= k < |order| :: order[k] < |cs|
    ensures Declared(ds, order, declared)
    ensures |names| == |order| && forall k | 0 <= k < |order| :: names[k] == cs[order[k]].name
  {
    hide Chained, WheresAt;
    names, declared := [], [];
    for k := 0 to |order|
      invariant |names| == |declared| == k
      invariant forall j | 0 <= j < k :: names[j] == cs[order[j]].name
      invariant forall j | 0 <= j < k :: declared[j] == WheresAt(ds, Picks(Owners(ds), order[j]))
    {
      assert Chained(ds, cs[order[k]], order[k]);
      var wheres := Collect(ds, cs[order[k]], order[k]);
      names := names + [cs[order[k]].name];
      declared := declared + [wheres];
    }
  }

  // ----- references

  /** Every ID of the list is declared; `at` holds the ordinals. */
  ghost predicate Resolved(cs: seq<Concept>, wanted: seq<seq<Byte>>, at: seq<nat>) {
    |at| == |wanted| && forall i | 0 <= i < |wanted| :: at[i] < |cs| && cs[at[i]].id == wanted[i]
  }

  method Resolve(b: Build, wanted: seq<seq<Byte>>) returns (ok: bool, at: seq<nat>)
    requires b.Valid()
    ensures ok <==> forall id | id in wanted :: id in Ids(b.concepts)
    ensures ok ==> Resolved(b.concepts, wanted, at)
  {
    at := [];
    for i := 0 to |wanted|
      invariant |at| == i && forall j | 0 <= j < i :: at[j] < |b.concepts| && b.concepts[at[j]].id == wanted[j]
      invariant forall j | 0 <= j < i :: wanted[j] in Ids(b.concepts)
    {
      var found, ordinal := b.ids.Find(Ids(b.concepts), wanted[i]);
      if !found {
        assert wanted[i] in wanted;
        return false, at;
      }
      assert Ids(b.concepts)[ordinal] == wanted[i];
      at := at + [ordinal];
    }
    ok := true;
  }

  function AliasIds(xs: seq<Alias>): seq<seq<Byte>> {
    seq(|xs|, i requires 0 <= i < |xs| => xs[i].id)
  }

  function Subjects(rs: seq<Relation>): seq<seq<Byte>> {
    seq(|rs|, i requires 0 <= i < |rs| => rs[i].subject)
  }

  function Objects(rs: seq<Relation>): seq<seq<Byte>> {
    seq(|rs|, i requires 0 <= i < |rs| => rs[i].object_)
  }

  // ----- labels and relations

  /** Names first, then aliases. */
  function RawEntries(names: seq<seq<Byte>>, xs: seq<Alias>, at: seq<nat>, inverse: seq<nat>): seq<Entry>
    requires |at| == |xs| && forall i | 0 <= i < |at| :: at[i] < |inverse|
  {
    seq(|names|, i requires 0 <= i < |names| => Entry(names[i], i))
    + seq(|xs|, i requires 0 <= i < |xs| => Entry(xs[i].text, inverse[at[i]]))
  }

  /** A text names concept c exactly when it is its name or one of its aliases. */
  ghost predicate LabelsRight(cs: seq<Concept>, xs: seq<Alias>, order: seq<nat>, entries: seq<Entry>) {
    && EntriesAscend(entries)
    && (forall k | 0 <= k < |entries| :: entries[k].concept < |cs|)
    && (forall text, c: nat | c < |cs| && c < |order| && order[c] < |cs| ::
          c in Named(entries, text) <==> cs[order[c]].name == text || (cs[order[c]].id, text) in Pairs(xs))
  }

  method BuildEntries(cs: seq<Concept>, xs: seq<Alias>, at: seq<nat>, order: seq<nat>, inverse: seq<nat>, ids: seq<seq<Byte>>,
                      names: seq<seq<Byte>>) returns (entries: seq<Entry>)
    requires ConceptOrder(cs, order, inverse, ids) && Resolved(cs, AliasIds(xs), at)
    requires forall i, j | 0 <= i < j < |cs| :: cs[i].id != cs[j].id
    requires |names| == |order| && forall k | 0 <= k < |order| :: names[k] == cs[order[k]].name
    ensures LabelsRight(cs, xs, order, entries)
  {
    assert forall i | 0 <= i < |xs| :: AliasIds(xs)[i] == xs[i].id;
    var raw := RawEntries(names, xs, at, inverse);
    var sorted := SortEntries(raw);
    entries := Pick(raw, sorted[..]);
    ghost var arranged := sorted[..];
    forall text, c: nat | c < |cs|
      ensures c in Named(entries, text) <==> cs[order[c]].name == text || (cs[order[c]].id, text) in Pairs(xs)
    {
      SameNames(raw, arranged, text);
      RawNames(cs, xs, at, order, inverse, ids, names, text, c);
    }
    Sort.ArrangementMeaning(arranged, |raw|);
    assert forall i | 0 <= i < |raw| :: raw[i].concept < |cs|;
  }

  lemma RawNames(cs: seq<Concept>, xs: seq<Alias>, at: seq<nat>, order: seq<nat>, inverse: seq<nat>, ids: seq<seq<Byte>>,
                 names: seq<seq<Byte>>, text: seq<Byte>, c: nat)
    requires ConceptOrder(cs, order, inverse, ids) && Resolved(cs, AliasIds(xs), at) && c < |cs|
    requires forall i, j | 0 <= i < j < |cs| :: cs[i].id != cs[j].id
    requires |names| == |order| && forall k | 0 <= k < |order| :: names[k] == cs[order[k]].name
    requires |at| == |xs| && |order| == |cs| && (forall i | 0 <= i < |at| :: at[i] < |inverse|) && order[c] < |cs|
    ensures c in Named(RawEntries(names, xs, at, inverse), text) <==>
            cs[order[c]].name == text || (cs[order[c]].id, text) in Pairs(xs)
  {
    hide ConceptOrder, Resolved;
    var raw := RawEntries(names, xs, at, inverse);
    assert |names| == |cs| by { OrderLength(cs, order, inverse, ids); }
    forall i: nat | i < |xs|
      ensures inverse[at[i]] == c <==> xs[i].id == cs[order[c]].id
    {
      AliasOwner(cs, xs, at, order, inverse, ids, i, c);
    }
    if c in Named(raw, text) {
      var k: nat :| k < |raw| && raw[k].text == text && raw[k].concept == c;
      if k >= |names| { assert Pairs(xs)[k - |names|] == (cs[order[c]].id, text); }
    }
    if cs[order[c]].name == text { assert raw[c] == Entry(text, c); }
    if (cs[order[c]].id, text) in Pairs(xs) {
      var i: nat :| i < |xs| && Pairs(xs)[i] == (cs[order[c]].id, text);
      assert raw[|names| + i] == Entry(text, c);
    }
  }

  lemma OrderLength(cs: seq<Concept>, order: seq<nat>, inverse: seq<nat>, ids: seq<seq<Byte>>)
    requires ConceptOrder(cs, order, inverse, ids)
    ensures |order| == |inverse| == |cs|
  {
  }

  lemma AliasOwner(cs: seq<Concept>, xs: seq<Alias>, at: seq<nat>, order: seq<nat>, inverse: seq<nat>, ids: seq<seq<Byte>>,
                   i: nat, c: nat)
    requires ConceptOrder(cs, order, inverse, ids) && Resolved(cs, AliasIds(xs), at) && c < |cs| && i < |xs|
    requires forall j, k | 0 <= j < k < |cs| :: cs[j].id != cs[k].id
    ensures at[i] < |inverse| && (inverse[at[i]] == c <==> xs[i].id == cs[order[c]].id)
  {
    hide IdsAscend;
    assert AliasIds(xs)[i] == xs[i].id;
    var o := at[i];
    assert order[inverse[o]] == o && inverse[o] < |cs|;
    if xs[i].id == cs[order[c]].id {
      assert o == order[c];
      SameId(cs, order, inverse, ids, inverse[o], c);
    }
  }

  lemma SameId(cs: seq<Concept>, order: seq<nat>, inverse: seq<nat>, ids: seq<seq<Byte>>, j: nat, k: nat)
    requires ConceptOrder(cs, order, inverse, ids) && j < |cs| && k < |cs| && order[j] == order[k]
    ensures j == k
  {
    hide Less;
    Irreflexive(ids[j]);
  }

  /** The relations in the order they were recorded, their ends by published ordinal. */
  ghost predicate EdgesRight(rs: seq<Relation>, ids: seq<seq<Byte>>, edges: seq<Edge>) {
    |edges| == |rs| && forall i | 0 <= i < |rs| :: EdgeRight(rs[i], ids, edges[i])
  }

  predicate EdgeRight(r: Relation, ids: seq<seq<Byte>>, e: Edge) {
    && e.subject < |ids| && e.object_ < |ids|
    && ids[e.subject] == r.subject == e.subjectId && ids[e.object_] == r.object_ == e.objectId
    && e.kind == r.kind && e.file == r.where_.file && e.start == r.where_.start && e.end == r.where_.end
  }

  method BuildEdges(cs: seq<Concept>, rs: seq<Relation>, subjects: seq<nat>, objects: seq<nat>, inverse: seq<nat>,
                    ids: seq<seq<Byte>>, ghost order: seq<nat>) returns (edges: seq<Edge>)
    requires ConceptOrder(cs, order, inverse, ids)
    requires Resolved(cs, Subjects(rs), subjects) && Resolved(cs, Objects(rs), objects)
    ensures EdgesRight(rs, ids, edges)
  {
    hide IdsAscend;
    edges := [];
    for i := 0 to |rs|
      invariant |edges| == i && forall j | 0 <= j < i :: EdgeRight(rs[j], ids, edges[j])
    {
      assert Subjects(rs)[i] == rs[i].subject && Objects(rs)[i] == rs[i].object_;
      var s, o := inverse[subjects[i]], inverse[objects[i]];
      edges := edges + [Edge(rs[i].kind, s, o, ids[s], ids[o], rs[i].where_.file, rs[i].where_.start, rs[i].where_.end)];
    }
  }

  // ----- the published graph

  datatype Slices = Slices(offsets: seq<nat>, items: seq<nat>)

  datatype Graph = Graph(ids: seq<seq<Byte>>, names: seq<seq<Byte>>, declared: seq<seq<Provenance>>,
                         entries: seq<Entry>, edges: seq<Edge>, out: Slices, in_: Slices, self: Slices)

  /** The slice of concept c. */
  function SliceOf(s: Slices, c: nat): seq<nat> {
    if c + 1 < |s.offsets| && s.offsets[c] <= s.offsets[c + 1] <= |s.items| then s.items[s.offsets[c]..s.offsets[c + 1]] else []
  }

  /** Every concept's slice holds its relations of one direction, each once, in declaration order. */
  ghost predicate SlicesRight(edges: seq<Edge>, d: Direction, s: Slices, concepts: nat) {
    forall c: nat | c < concepts :: SliceOf(s, c) == Picks(Lanes(edges, d), c)
  }

  /** Concept c's out slice holds the relations it is the subject of, its in slice those it is the object of,
      its self slice those it is both of; each once and in declaration order. */
  ghost predicate OutRight(edges: seq<Edge>, s: Slices, concepts: nat) {
    && (forall c: nat, i: nat | c < concepts ::
          i in SliceOf(s, c) <==> i < |edges| && edges[i].subject == c && edges[i].object_ != c)
    && forall c: nat | c < concepts :: Ascending(SliceOf(s, c))
  }

  ghost predicate InRight(edges: seq<Edge>, s: Slices, concepts: nat) {
    && (forall c: nat, i: nat | c < concepts ::
          i in SliceOf(s, c) <==> i < |edges| && edges[i].object_ == c && edges[i].subject != c)
    && forall c: nat | c < concepts :: Ascending(SliceOf(s, c))
  }

  ghost predicate SelfRight(edges: seq<Edge>, s: Slices, concepts: nat) {
    && (forall c: nat, i: nat | c < concepts ::
          i in SliceOf(s, c) <==> i < |edges| && edges[i].subject == c && edges[i].object_ == c)
    && forall c: nat | c < concepts :: Ascending(SliceOf(s, c))
  }

  predicate Ascending(items: seq<nat>) {
    forall j, k | 0 <= j < k < |items| :: items[j] < items[k]
  }

  lemma SlicesMeaning(edges: seq<Edge>, d: Direction, s: Slices, concepts: nat)
    requires SlicesRight(edges, d, s, concepts)
    ensures d.Out? ==> OutRight(edges, s, concepts)
    ensures d.In? ==> InRight(edges, s, concepts)
    ensures d.Self? ==> SelfRight(edges, s, concepts)
  {
    hide Picks, Lanes, SliceOf;
    forall c: nat | c < concepts
      ensures Ascending(SliceOf(s, c))
      ensures forall i: nat :: i in SliceOf(s, c) <==> RowRight(edges, c, Row(i, d))
    {
      SliceMeaning(edges, c, d);
    }
  }

  lemma GraphSlices(cs: seq<Concept>, ds: seq<Declaration>, xs: seq<Alias>, rs: seq<Relation>, g: Graph)
    requires Describes(cs, ds, xs, rs, g)
    ensures OutRight(g.edges, g.out, |cs|) && InRight(g.edges, g.in_, |cs|) && SelfRight(g.edges, g.self, |cs|)
  {
    hide ConceptOrder, Declared, LabelsRight, EdgesRight, SlicesRight;
    SlicesMeaning(g.edges, Out, g.out, |cs|);
    SlicesMeaning(g.edges, In, g.in_, |cs|);
    SlicesMeaning(g.edges, Self, g.self, |cs|);
  }

  method BuildSlices(edges: seq<Edge>, d: Direction, concepts: nat) returns (s: Slices)
    requires forall i | 0 <= i < |edges| :: edges[i].subject < concepts && edges[i].object_ < concepts
    ensures SlicesRight(edges, d, s, concepts)
    ensures d.Out? ==> OutRight(edges, s, concepts)
    ensures d.In? ==> InRight(edges, s, concepts)
    ensures d.Self? ==> SelfRight(edges, s, concepts)
  {
    hide Picks, OutRight, InRight, SelfRight;
    var offsets, items := Distribute(Lanes(edges, d), concepts);
    s := Slices(offsets[..], items[..]);
    forall c: nat | c < concepts
      ensures SliceOf(s, c) == Picks(Lanes(edges, d), c)
    {
      assert SliceIs(offsets[..], items[..], Lanes(edges, d), c);
    }
    SlicesMeaning(edges, d, s, concepts);
  }

  /** What publication promises about a graph. */
  ghost predicate Describes(cs: seq<Concept>, ds: seq<Declaration>, xs: seq<Alias>, rs: seq<Relation>, g: Graph) {
    exists order, inverse :: DescribesBy(cs, ds, xs, rs, g, order, inverse)
  }

  ghost predicate DescribesBy(cs: seq<Concept>, ds: seq<Declaration>, xs: seq<Alias>, rs: seq<Relation>, g: Graph,
                              order: seq<nat>, inverse: seq<nat>) {
    && ConceptOrder(cs, order, inverse, g.ids)
    && |g.names| == |order| && (forall k | 0 <= k < |order| :: order[k] < |cs| && g.names[k] == cs[order[k]].name)
    && Declared(ds, order, g.declared)
    && LabelsRight(cs, xs, order, g.entries)
    && EdgesRight(rs, g.ids, g.edges)
    && SlicesRight(g.edges, Out, g.out, |cs|) && SlicesRight(g.edges, In, g.in_, |cs|) && SlicesRight(g.edges, Self, g.self, |cs|)
  }

  ghost predicate AllDeclared(b: Build)
    reads b
  {
    && (forall id | id in AliasIds(b.aliases) :: id in Ids(b.concepts))
    && (forall id | id in Subjects(b.relations) :: id in Ids(b.concepts))
    && (forall id | id in Objects(b.relations) :: id in Ids(b.concepts))
  }

  /** kg_publish: it fails exactly when some alias or relation names an undeclared concept. */
  method Publish(b: Build) returns (r: Outcome, g: Graph)
    requires b.Valid()
    ensures r == Unresolved <==> !AllDeclared(b)
    ensures r == Published ==> Describes(b.concepts, b.declarations, b.aliases, b.relations, g)
    ensures r == Published ==> OutRight(g.edges, g.out, |b.concepts|) && InRight(g.edges, g.in_, |b.concepts|)
                               && SelfRight(g.edges, g.self, |b.concepts|)
  {
    hide ConceptOrder, Declared, LabelsRight, EdgesRight, SlicesRight, Resolved, AllChained, Index.Valid, OutRight, InRight, SelfRight;
    g := Graph([], [], [], [], [], Slices([], []), Slices([], []), Slices([], []));
    var ok, at := Resolve(b, AliasIds(b.aliases));
    if !ok {
      return Unresolved, g;
    }
    var subjects, objects;
    ok, subjects := Resolve(b, Subjects(b.relations));
    if !ok {
      return Unresolved, g;
    }
    ok, objects := Resolve(b, Objects(b.relations));
    if !ok {
      return Unresolved, g;
    }
    b.DistinctConcepts();
    g := Assemble(b.concepts, b.declarations, b.aliases, b.relations, at, subjects, objects);
    GraphSlices(b.concepts, b.declarations, b.aliases, b.relations, g);
    r := Published;
  }

  method Assemble(cs: seq<Concept>, ds: seq<Declaration>, xs: seq<Alias>, rs: seq<Relation>,
                  at: seq<nat>, subjects: seq<nat>, objects: seq<nat>) returns (g: Graph)
    requires forall i, j | 0 <= i < j < |cs| :: cs[i].id != cs[j].id
    requires AllChained(cs, ds) && Resolved(cs, AliasIds(xs), at)
    requires Resolved(cs, Subjects(rs), subjects) && Resolved(cs, Objects(rs), objects)
    ensures Describes(cs, ds, xs, rs, g)
  {
    hide Declared, LabelsRight, SlicesRight, Resolved, AllChained, IdsAscend;
    var order, inverse, ids := OrderConcepts(cs);
    var names, declared := CollectAll(cs, ds, order);
    var entries := BuildEntries(cs, xs, at, order, inverse, ids, names);
    var edges := BuildEdges(cs, rs, subjects, objects, inverse, ids, order);
    assert forall i | 0 <= i < |edges| :: EdgeRight(rs[i], ids, edges[i]);
    hide ConceptOrder, EdgesRight;
    var out := BuildSlices(edges, Out, |ids|);
    var in_ := BuildSlices(edges, In, |ids|);
    var self := BuildSlices(edges, Self, |ids|);
    g := Graph(ids, names, declared, entries, edges, out, in_, self);
    assert DescribesBy(cs, ds, xs, rs, g, order, inverse);
  }

  /** The rows of a published concept: the first ones of its relations in canonical order. */
  method ConceptRows(cs: seq<Concept>, ds: seq<Declaration>, xs: seq<Alias>, rs: seq<Relation>, g: Graph, c: nat, rows: array<Row>)
    returns (count: nat)
    requires Describes(cs, ds, xs, rs, g) && c < |cs| && Canonical(g.edges)
    modifies rows
    ensures count == (if |Touching(g.edges, c)| < rows.Length then |Touching(g.edges, c)| else rows.Length)
    ensures rows[..count] == Touching(g.edges, c)[..count]
    ensures RowsRight(g.edges, c, rows[..count], count < rows.Length)
  {
    hide ConceptOrder, Declared, LabelsRight, EdgesRight, Picks, SliceOf, Canonical;
    assert SlicesRight(g.edges, Out, g.out, |cs|) && SlicesRight(g.edges, In, g.in_, |cs|) && SlicesRight(g.edges, Self, g.self, |cs|);
    count := RowsCollect(g.edges, c, SliceOf(g.out, c), SliceOf(g.in_, c), SliceOf(g.self, c), rows);
  }
}
