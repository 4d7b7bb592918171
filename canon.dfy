/** Canonicalisation of a raw fingerprint board, read in row-major order:
    fingerprints whose count is odd or above four become empty (0), and the
    survivors are renumbered 1, 2, … in order of first appearance. */
module Canon {
  /** Fingerprint f survives: it is not the empty marker and it occurs an
      even number of times, at most four, in the raw board. */
  predicate Kept(raw: seq<int>, f: int) {
    f != 0 && multiset(raw)[f] % 2 == 0 && multiset(raw)[f] <= 4
  }

  predicate Distinct(s: seq<int>) {
    forall i, j :: 0 <= i < j < |s| ==> s[i] != s[j]
  }

  /** The fingerprints of s that survive in `whole`, each once, in order of
      first appearance in s. */
  function Order(whole: seq<int>, s: seq<int>): (o: seq<int>)
    ensures forall f :: f in o <==> f in s && Kept(whole, f)
    ensures Distinct(o)
    decreases |s|
  {
    if s == [] then []
    else
      var init, f := s[..|s| - 1], s[|s| - 1];
      assert s == init + [f];
      Order(whole, init) + (if Kept(whole, f) && f !in init then [f] else [])
  }

  /** Position of the first occurrence of f in s. */
  function IndexOf(s: seq<int>, f: int): (i: nat)
    requires f in s
    ensures i < |s| && s[i] == f && f !in s[..i]
  {
    if s[0] == f then 0
    else
      var i := 1 + IndexOf(s[1..], f);
      assert s[..i] == [s[0]] + s[1..][..i - 1];
      i
  }

  /** The number of distinct surviving fingerprints. */
  function TypeCount(raw: seq<int>): nat {
    |Order(raw, raw)|
  }

  /** The canonical id of fingerprint f: 0 if it does not survive, otherwise
      one more than its rank in order of first appearance. */
  function CanonId(raw: seq<int>, f: int): (id: int)
    requires f in raw
    ensures id != 0 <==> Kept(raw, f)
    ensures 0 <= id <= TypeCount(raw)
  {
    if Kept(raw, f) then 1 + IndexOf(Order(raw, raw), f) else 0
  }

  /** The canonical board: each cell's fingerprint replaced by its id. */
  function Canonical(raw: seq<int>): (ids: seq<int>)
    ensures |ids| == |raw|
  {
    seq(|raw|, p requires 0 <= p < |raw| => CanonId(raw, raw[p]))
  }

  /** Reading one more cell appends its fingerprint to the order exactly when
      it survives and has not been seen before. */
  lemma OrderStep(whole: seq<int>, s: seq<int>, n: nat)
    requires n < |s|
    ensures Order(whole, s[..n + 1]) ==
      Order(whole, s[..n]) + (if Kept(whole, s[n]) && s[n] !in s[..n] then [s[n]] else [])
  {
    assert s[..n + 1][..n] == s[..n];
  }

  /** In a sequence without repetitions, the first index of the element at k is k. */
  lemma IndexOfDistinct(s: seq<int>, k: nat)
    requires Distinct(s) && k < |s|
    ensures IndexOf(s, s[k]) == k
  {
  }

  /** Looking a value up in a prefix gives the same index as in the whole. */
  lemma IndexOfPrefix(s: seq<int>, t: seq<int>, f: int)
    requires s <= t && f in s
    ensures IndexOf(t, f) == IndexOf(s, f)
  {
    var i := IndexOf(s, f);
    assert t[i] == f;
    assert t[..i] == s[..i];
  }

  /** A cell's id is non-zero exactly when its fingerprint survives, and
      never exceeds the type count. */
  lemma CanonicalCell(raw: seq<int>, p: nat)
    requires p < |raw|
    ensures Canonical(raw)[p] != 0 <==> Kept(raw, raw[p])
    ensures 0 <= Canonical(raw)[p] <= TypeCount(raw)
  {
  }

  /** Two surviving cells get the same id exactly when they have the same
      fingerprint; a surviving cell never shares its id with an empty one. */
  lemma CanonicalSameId(raw: seq<int>, p: nat, q: nat)
    requires p < |raw| && q < |raw| && Canonical(raw)[p] != 0
    ensures Canonical(raw)[p] == Canonical(raw)[q] <==> raw[p] == raw[q]
  {
    var o := Order(raw, raw);
    if Canonical(raw)[p] == Canonical(raw)[q] {
      assert o[IndexOf(o, raw[p])] == raw[p];
      assert o[IndexOf(o, raw[q])] == raw[q];
    }
  }

  /** The ids in use are exactly 1 … TypeCount: each of them occurs. */
  lemma CanonicalDense(raw: seq<int>, k: int)
    requires 1 <= k <= TypeCount(raw)
    ensures exists p :: 0 <= p < |raw| && Canonical(raw)[p] == k
  {
    var o := Order(raw, raw);
    var f := o[k - 1];
    assert f in o;
    var p := IndexOf(raw, f);
    IndexOfDistinct(o, k - 1);
    assert Canonical(raw)[p] == k;
  }

  /** The order of the cells read before position q is a prefix of the full order. */
  lemma {:induction false} OrderOfPrefix(raw: seq<int>, q: nat)
    requires q <= |raw|
    ensures Order(raw, raw[..q]) <= Order(raw, raw)
    decreases |raw| - q
  {
    if q == |raw| {
      assert raw[..q] == raw;
    } else {
      OrderOfPrefix(raw, q + 1);
      OrderStep(raw, raw, q);
    }
  }

  /** A fingerprint first met at position q is ranked after everything met earlier. */
  lemma RankOfFirstOccurrence(raw: seq<int>, q: nat)
    requires q < |raw| && Kept(raw, raw[q]) && raw[q] !in raw[..q]
    ensures raw[q] in Order(raw, raw)
    ensures IndexOf(Order(raw, raw), raw[q]) == |Order(raw, raw[..q])|
  {
    var f, before := raw[q], Order(raw, raw[..q]);
    OrderStep(raw, raw, q);
    OrderOfPrefix(raw, q + 1);
    assert (before + [f])[|before|] == f;
    IndexOfPrefix(before + [f], Order(raw, raw), f);
    assert IndexOf(before + [f], f) == |before|;
  }

  /** A fingerprint already met before position q is ranked among the earlier ones. */
  lemma RankOfEarlier(raw: seq<int>, p: nat, q: nat)
    requires p < q <= |raw| && Kept(raw, raw[p])
    ensures raw[p] in Order(raw, raw)
    ensures IndexOf(Order(raw, raw), raw[p]) < |Order(raw, raw[..q])|
  {
    assert raw[p] in raw[..q];
    OrderOfPrefix(raw, q);
    IndexOfPrefix(Order(raw, raw[..q]), Order(raw, raw), raw[p]);
  }

  /** Ids follow first appearance: every cell read before the first
      occurrence of a surviving fingerprint has a smaller id. */
  lemma CanonicalFirstAppearance(raw: seq<int>, p: nat, q: nat)
    requires p < q < |raw| && Kept(raw, raw[q]) && raw[q] !in raw[..q]
    ensures Canonical(raw)[p] < Canonical(raw)[q]
  {
    RankOfFirstOccurrence(raw, q);
    if Kept(raw, raw[p]) {
      RankOfEarlier(raw, p, q);
    }
  }

  /** Cells in matching positions that hold a in s exactly when they hold b
      in t: a occurs in s as often as b occurs in t. */
  lemma {:induction false} CountsCorrespond(s: seq<int>, t: seq<int>, a: int, b: int)
    requires |s| == |t|
    requires forall i :: 0 <= i < |s| ==> (s[i] == a <==> t[i] == b)
    ensures multiset(s)[a] == multiset(t)[b]
  {
    if s != [] {
      var n := |s| - 1;
      assert s == s[..n] + [s[n]];
      assert t == t[..n] + [t[n]];
      CountsCorrespond(s[..n], t[..n], a, b);
    }
  }

  /** Every id in use occurs exactly as often as its fingerprint, which is
      two or four times. */
  lemma CanonicalGroupSize(raw: seq<int>, p: nat)
    requires p < |raw| && Canonical(raw)[p] != 0
    ensures multiset(Canonical(raw))[Canonical(raw)[p]] == multiset(raw)[raw[p]]
    ensures multiset(raw)[raw[p]] == 2 || multiset(raw)[raw[p]] == 4
  {
    forall q | 0 <= q < |raw|
      ensures Canonical(raw)[q] == Canonical(raw)[p] <==> raw[q] == raw[p]
    {
      CanonicalSameId(raw, p, q);
    }
    CountsCorrespond(Canonical(raw), raw, Canonical(raw)[p], raw[p]);
    assert raw[p] in multiset(raw);
  }

  /** A sequence without repetitions has as many distinct elements as entries. */
  lemma {:induction false} DistinctCard(s: seq<int>)
    requires Distinct(s)
    ensures |set f | f in s| == |s|
  {
    if s != [] {
      var init, f := s[..|s| - 1], s[|s| - 1];
      assert s == init + [f];
      assert Distinct(init);
      DistinctCard(init);
      assert (set g | g in s) == (set g | g in init) + {f};
    }
  }
}
