/** The bounded ranking of os/search_terms_core.c: only the best 20 lines are kept, in an
    array that is shifted in place, while the total counts every line. */
module SearchRank {
  import opened Bytes

  const SHOWN_MAX: nat := 20
  const NAME_MAX: nat := 31

  datatype Candidate = Candidate(name: seq<Byte>, slot: nat, lineNumber: nat, fileSize: nat,
                                 anchor: nat, score: nat)

  /** rank_better */
  predicate Better(a: Candidate, b: Candidate) {
    if a.score != b.score then a.score > b.score
    else if a.slot != b.slot then a.slot < b.slot
    else a.lineNumber < b.lineNumber
  }

  lemma BetterIsStrictWeak(a: Candidate, b: Candidate, c: Candidate)
    ensures !(Better(a, b) && Better(b, a))
    ensures Better(a, b) && Better(b, c) ==> Better(a, c)
    ensures !Better(a, b) && !Better(b, c) ==> !Better(a, c)
  {
  }

  /** Where c belongs in a list: before the first entry it is better than. */
  function Position(s: seq<Candidate>, c: Candidate): (i: nat)
    ensures i <= |s|
    ensures forall k | 0 <= k < i :: !Better(c, s[k])
    ensures i < |s| ==> Better(c, s[i])
  {
    if s == [] then 0
    else
      var i := Position(s[..|s| - 1], c);
      if i < |s| - 1 || Better(c, s[|s| - 1]) then i else |s|
  }

  function Insert(s: seq<Candidate>, c: Candidate): seq<Candidate> {
    var i := Position(s, c);
    s[..i] + [c] + s[i..]
  }

  /** The whole history in rank order; equally ranked lines stay in order of arrival. */
  function Ranked(history: seq<Candidate>): seq<Candidate> {
    if history == [] then [] else Insert(Ranked(history[..|history| - 1]), history[|history| - 1])
  }

  function Shown(s: seq<Candidate>): seq<Candidate> {
    if |s| <= SHOWN_MAX then s else s[..SHOWN_MAX]
  }

  predicate Sorted(s: seq<Candidate>) {
    forall i, j | 0 <= i < j < |s| :: !Better(s[j], s[i])
  }

  lemma InsertSorted(s: seq<Candidate>, c: Candidate)
    requires Sorted(s)
    ensures Sorted(Insert(s, c)) && multiset(Insert(s, c)) == multiset(s) + multiset{c}
  {
    var i := Position(s, c);
    var r := Insert(s, c);
    assert s == s[..i] + s[i..];
    forall a, b | 0 <= a < b < |r| ensures !Better(r[b], r[a]) {
      if a < i && b == i {
      } else if a == i {
        assert r[b] == s[b - 1];
        if i < b - 1 { BetterIsStrictWeak(s[b - 1], s[i], c); }
        BetterIsStrictWeak(c, s[i], s[b - 1]);
      } else {
        var a' := if a < i then a else a - 1;
        var b' := if b < i then b else b - 1;
        assert r[a] == s[a'] && r[b] == s[b'];
      }
    }
  }

  /** Ranked is the stable sort of the history by the ranking order. */
  lemma {:induction false} RankedSorts(history: seq<Candidate>)
    ensures Sorted(Ranked(history)) && multiset(Ranked(history)) == multiset(history)
  {
    if history != [] {
      var before := history[..|history| - 1];
      RankedSorts(before);
      InsertSorted(Ranked(before), history[|history| - 1]);
      assert history == before + [history[|history| - 1]];
    }
  }

  /** Every line that is not shown is no better than any line that is. */
  lemma ShownAreBest(history: seq<Candidate>)
    ensures var r := Ranked(history);
            && |Shown(r)| == (if |history| < SHOWN_MAX then |history| else SHOWN_MAX)
            && forall i, j | 0 <= i < |Shown(r)| && |Shown(r)| <= j < |r| :: !Better(r[j], Shown(r)[i])
  {
    RankedSorts(history);
    assert |multiset(Ranked(history))| == |multiset(history)|;
  }

  /** Higher score first, then the lower slot, then the lower line. */
  predicate NoLater(a: Candidate, b: Candidate) {
    || a.score > b.score
    || (a.score == b.score && (a.slot < b.slot || (a.slot == b.slot && a.lineNumber <= b.lineNumber)))
  }

  /** The whole ranking descends in score, then ascends in slot, then in line; what is shown is its front. */
  lemma RankOrder(history: seq<Candidate>)
    ensures forall i, j | 0 <= i < j < |Ranked(history)| :: NoLater(Ranked(history)[i], Ranked(history)[j])
    ensures Shown(Ranked(history)) <= Ranked(history)
  {
    RankedSorts(history);
  }

  /** Dropping all but the best 20 before an insertion does not change the best 20 after. */
  lemma InsertShown(s: seq<Candidate>, c: Candidate)
    ensures Shown(Insert(Shown(s), c)) == Shown(Insert(s, c))
  {
    if |s| > SHOWN_MAX {
      PositionTake(s, SHOWN_MAX, c);
      var i := Position(s, c);
      var j := Position(Shown(s), c);
      if i < SHOWN_MAX {
        assert Insert(Shown(s), c)[..SHOWN_MAX] == Insert(s, c)[..SHOWN_MAX];
      }
    }
  }

  lemma PositionTake(s: seq<Candidate>, n: nat, c: Candidate)
    requires n <= |s|
    ensures Position(s[..n], c) == if Position(s, c) < n then Position(s, c) else n
  {
    var i := Position(s, c);
    var j := Position(s[..n], c);
    if j < n { assert Better(c, s[j]); }
  }

  class Rank {
    const candidate: array<Candidate>
    var count: nat
    var total: nat
    var skipped: nat
    ghost var history: seq<Candidate>

    ghost predicate Valid()
      reads `count, `total, `history, candidate
    {
      && candidate.Length == SHOWN_MAX && count <= SHOWN_MAX
      && total == |history|
      && candidate[..count] == Shown(Ranked(history))
    }

    /** yan_search_terms_rank_init */
    constructor ()
      ensures Valid() && history == [] && skipped == 0 && fresh(candidate)
    {
      candidate := new Candidate[SHOWN_MAX](_ => Candidate([], 0, 0, 0, 0, 0));
      count, total, skipped := 0, 0, 0;
      history := [];
    }

    /** yan_search_terms_rank_add: the table is again the best 20 of everything added. */
    method Add(c: Candidate)
      requires Valid()
      modifies this`count, this`total, this`history, candidate
      ensures Valid() && history == old(history) + [c]
    {
      hide Position, Ranked;
      ghost var table := candidate[..count];
      total := total + 1;
      history := history + [c];
      RankedSnoc(old(history), c);
      InsertShown(Ranked(old(history)), c);
      var position := Find(c);
      assert Insert(table, c) == table[..position] + [c] + table[position..];
      if position >= SHOWN_MAX {
        assert Shown(Insert(table, c)) == table;
        return;
      }
      var last := if count < SHOWN_MAX then count else SHOWN_MAX - 1;
      ShiftDown(position, last);
      candidate[position] := c;
      if count < SHOWN_MAX {
        count := count + 1;
      }
      assert candidate[..count] == Shown(Insert(table, c));
    }

    /** A file that is not text is counted once and ranks nothing. */
    method CountSkipped()
      requires Valid()
      modifies this`skipped
      ensures Valid() && history == old(history) && skipped == old(skipped) + 1
    {
      skipped := skipped + 1;
    }

    method Find(c: Candidate) returns (position: nat)
      requires candidate.Length == SHOWN_MAX && count <= SHOWN_MAX
      ensures position == Position(candidate[..count], c)
    {
      hide Position;
      for i := 0 to count
        invariant forall k | 0 <= k < i :: !Better(c, candidate[k])
      {
        if Better(c, candidate[i]) {
          PositionIs(candidate[..count], c, i);
          return i;
        }
      }
      PositionIs(candidate[..count], c, count);
      return count;
    }

    method ShiftDown(position: nat, last: nat)
      requires position <= last < candidate.Length
      modifies candidate
      ensures forall k | 0 <= k < candidate.Length ::
                candidate[k] == if position < k <= last then old(candidate[k - 1]) else old(candidate[k])
    {
      for i := last downto position
        invariant forall k | 0 <= k < candidate.Length ::
                    candidate[k] == if i < k <= last then old(candidate[k - 1]) else old(candidate[k])
      {
        candidate[i + 1] := candidate[i];
      }
    }
  }

  lemma PositionIs(s: seq<Candidate>, c: Candidate, i: nat)
    requires i <= |s| && (forall k | 0 <= k < i :: !Better(c, s[k])) && (i < |s| ==> Better(c, s[i]))
    ensures Position(s, c) == i
  {
  }

  lemma RankedSnoc(history: seq<Candidate>, c: Candidate)
    ensures Ranked(history + [c]) == Insert(Ranked(history), c)
  {
    assert (history + [c])[..|history|] == history;
  }
}
