/** The Knuth-Morris-Pratt machine that os/search_linear.c and os/search_terms_core.c each
    run: a table of longest proper borders, and a state that is the longest prefix of the
    pattern at the end of the text read so far. */
module Kmp {
  import opened Bytes

  /** The first k bytes of p are the last k bytes of t. */
  predicate EndsWith(t: seq<Byte>, p: seq<Byte>, k: nat) {
    k <= |p| && k <= |t| && t[|t| - k..] == p[..k]
  }

  /** k is the longest such length below limit. */
  predicate Longest(t: seq<Byte>, p: seq<Byte>, k: nat, limit: nat) {
    k < limit && EndsWith(t, p, k) && forall j | k < j < limit :: !EndsWith(t, p, j)
  }

  /** table[q - 1] is the longest proper border of the first q bytes, for q up to n. */
  predicate Table(p: seq<Byte>, table: seq<nat>, n: nat) {
    n <= |p| && n <= |table| && forall q | 1 <= q <= n :: Longest(p[..q], p, table[q - 1], q)
  }

  predicate Occurs(t: seq<Byte>, p: seq<Byte>) {
    exists e | 0 <= e <= |t| :: EndsWith(t[..e], p, |p|)
  }

  // ----- suffixes of suffixes

  lemma EndsWithTrans(t: seq<Byte>, p: seq<Byte>, q: nat, j: nat)
    requires EndsWith(t, p, q) && j <= q
    ensures EndsWith(p[..q], p, j) <==> EndsWith(t, p, j)
  {
    assert t[|t| - j..] == t[|t| - q..][q - j..] == p[..q][q - j..];
  }

  lemma EndsWithSnoc(t: seq<Byte>, p: seq<Byte>, c: Byte, j: nat)
    requires j < |p|
    ensures EndsWith(t + [c], p, j + 1) <==> EndsWith(t, p, j) && p[j] == c
  {
    var u := t + [c];
    if j <= |t| {
      assert u[|u| - (j + 1)..] == t[|t| - j..] + [c];
      assert p[..j + 1] == p[..j] + [p[j]];
    }
  }

  /** A border of the first q bytes is a suffix of p[1..q] that starts the pattern. */
  lemma BorderShift(p: seq<Byte>, q: nat, j: nat)
    requires 1 <= q <= |p| && j < q
    ensures EndsWith(p[..q], p, j) <==> EndsWith(p[1..q], p, j)
  {
    assert p[1..q][|p[1..q]| - j..] == p[..q][q - j..];
  }

  lemma LongestShift(p: seq<Byte>, q: nat, k: nat)
    requires 1 <= q <= |p| && k < q
    ensures Longest(p[..q], p, k, q) <==> Longest(p[1..q], p, k, q)
  {
    forall j | 0 <= j < q ensures EndsWith(p[..q], p, j) <==> EndsWith(p[1..q], p, j) {
      BorderShift(p, q, j);
    }
  }

  // ----- the machine

  /** Every candidate longer than q has been ruled out for the next byte c. */
  predicate Falling(t: seq<Byte>, p: seq<Byte>, c: Byte, q: nat, limit: nat)
    requires limit <= |p|
  {
    q < limit && EndsWith(t, p, q) && forall j | q < j < limit :: EndsWith(t, p, j) ==> p[j] != c
  }

  lemma Fall(t: seq<Byte>, p: seq<Byte>, c: Byte, q: nat, limit: nat, border: nat)
    requires limit <= |p| && Falling(t, p, c, q, limit) && q > 0 && p[q] != c
    requires Longest(p[..q], p, border, q)
    ensures Falling(t, p, c, border, limit)
  {
    EndsWithTrans(t, p, q, border);
    forall j | border < j < limit && EndsWith(t, p, j) ensures p[j] != c {
      if j < q { EndsWithTrans(t, p, q, j); }
    }
  }

  lemma Land(t: seq<Byte>, p: seq<Byte>, c: Byte, q: nat, limit: nat)
    requires limit <= |p| && Falling(t, p, c, q, limit) && (q == 0 || p[q] == c)
    ensures Longest(t + [c], p, if p[q] == c then q + 1 else 0, limit + 1)
  {
    forall j | 0 <= j < limit
      ensures EndsWith(t + [c], p, j + 1) <==> EndsWith(t, p, j) && p[j] == c
    {
      EndsWithSnoc(t, p, c, j);
    }
    var k := if p[q] == c then q + 1 else 0;
    forall i | k < i < limit + 1 ensures !EndsWith(t + [c], p, i) {
      assert EndsWith(t + [c], p, (i - 1) + 1) <==> EndsWith(t, p, i - 1) && p[i - 1] == c;
    }
  }

  /** The fallback loop and the comparison after it. The pattern and its table are the
      length-byte ranges of the two buffers that start at base. */
  method Advance(folded: array<Byte>, prefix: array<nat>, base: nat, length: nat, state: nat, c: Byte,
                 ghost t: seq<Byte>, ghost limit: nat) returns (k: nat)
    requires base + length <= folded.Length && base + length <= prefix.Length
    requires limit <= length && Longest(t, folded[base..base + length], state, limit)
    requires Table(folded[base..base + length], prefix[base..base + length], limit)
    ensures Longest(t + [c], folded[base..base + length], k, limit + 1)
  {
    ghost var p := folded[base..base + length];
    ghost var table := prefix[base..base + length];
    var q: nat := state;
    while q > 0 && folded[base + q] != c
      invariant q < limit && Falling(t, p, c, q, limit)
    {
      assert p[q] == folded[base + q] && table[q - 1] == prefix[base + q - 1];
      Fall(t, p, c, q, limit, prefix[base + q - 1]);
      q := prefix[base + q - 1];
    }
    assert p[q] == folded[base + q];
    Land(t, p, c, q, limit);
    k := if folded[base + q] == c then q + 1 else 0;
  }

  /** After a full match the machine continues from the longest proper border. */
  lemma AfterFull(t: seq<Byte>, p: seq<Byte>, border: nat)
    requires p != [] && EndsWith(t, p, |p|) && Longest(p[..|p|], p, border, |p|)
    ensures Longest(t, p, border, |p|)
  {
    forall j | 0 <= j < |p| ensures EndsWith(p[..|p|], p, j) <==> EndsWith(t, p, j) {
      EndsWithTrans(t, p, |p|, j);
    }
  }

  /** The table construction of linear_build_prefix and of yan_search_terms_pattern_build. */
  method Build(folded: array<Byte>, prefix: array<nat>, base: nat, length: nat)
    requires 1 <= length && base + length <= folded.Length && base + length <= prefix.Length
    modifies prefix
    ensures Table(folded[base..base + length], prefix[base..base + length], length)
    ensures forall i | 0 <= i < prefix.Length && !(base <= i < base + length) :: prefix[i] == old(prefix[i])
  {
    hide Longest, EndsWith;
    ghost var p := folded[base..base + length];
    prefix[base] := 0;
    var k: nat := 0;
    EmptyBorder(p);
    for j := 1 to length
      invariant Table(p, prefix[base..base + length], j)
      invariant k < j && Longest(p[1..j], p, k, j)
      invariant forall i | 0 <= i < prefix.Length && !(base <= i < base + length) :: prefix[i] == old(prefix[i])
    {
      k := Advance(folded, prefix, base, length, k, folded[base + j], p[1..j], j);
      assert p[1..j] + [p[j]] == p[1..j + 1];
      LongestBelow(p[1..j + 1], p, k, j + 1);
      LongestShift(p, j + 1, k);
      ghost var was := prefix[base..base + length];
      prefix[base + j] := k;
      assert prefix[base..base + length] == was[j := k];
    }
  }

  lemma EmptyBorder(p: seq<Byte>)
    requires p != []
    ensures Longest(p[..1], p, 0, 1) && Longest(p[1..1], p, 0, 1)
  {
  }

  lemma LongestBelow(t: seq<Byte>, p: seq<Byte>, k: nat, limit: nat)
    requires Longest(t, p, k, limit)
    ensures k < limit
  {
  }

  /** Reading the machine: the pattern ends here exactly when the state is its length. */
  lemma FullOrNot(t: seq<Byte>, p: seq<Byte>, k: nat)
    requires Longest(t, p, k, |p| + 1)
    ensures k <= |p| && (k == |p| <==> EndsWith(t, p, |p|))
    ensures k < |p| ==> Longest(t, p, k, |p|)
  {
  }

  lemma FromFull(t: seq<Byte>, p: seq<Byte>, table: seq<nat>)
    requires p != [] && EndsWith(t, p, |p|) && Table(p, table, |p|)
    ensures Longest(t, p, table[|p| - 1], |p|)
  {
    assert p[..|p|] == p;
    AfterFull(t, p, table[|p| - 1]);
  }
}
