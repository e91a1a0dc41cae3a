/**
 * Running counters.  scholar_graph.py keeps its counters in
 * `defaultdict(int)` objects that are only ever incremented; such a counter
 * is modelled as a `map<K, nat>`, and what it has counted as a multiset: a
 * counter that has counted the multiset `bag` is `Tally(bag)`, whose keys
 * are the elements of `bag` and whose values are their multiplicities.  The totals over a list of publication records are
 * sums of per-record multisets, and the lemmas here say that such a sum does
 * not depend on the order of the records nor on records that contribute
 * nothing.
 */
module Counters {

  /** The counter that has counted exactly the elements of `bag`: a key for
      every element, mapped to its multiplicity (so never to 0), and no
      other key. */
  function Tally<K>(bag: multiset<K>): map<K, nat> {
    map k | k in bag :: bag[k]
  }

  /** A tally has a key for exactly the elements counted, each mapped to its
      multiplicity, which is never 0. */
  lemma TallyAt<K>(bag: multiset<K>, k: K)
    ensures k in Tally(bag) <==> k in bag
    ensures k in bag ==> Tally(bag)[k] == bag[k] >= 1
  {
  }

  /** `counter[k]` on a `defaultdict(int)`: 0 for a missing key. */
  function Get<K>(m: map<K, nat>, k: K): nat {
    if k in m then m[k] else 0
  }

  /** `counter[k] += 1` on a `defaultdict(int)`. */
  function Inc<K>(m: map<K, nat>, k: K): map<K, nat> {
    m[k := Get(m, k) + 1]
  }

  /** Incrementing a key of a tally tallies one more occurrence of it. */
  lemma TallyInc<K>(bag: multiset<K>, k: K)
    ensures Inc(Tally(bag), k) == Tally(bag + multiset{k})
  {
    var m, m' := Inc(Tally(bag), k), Tally(bag + multiset{k});
    forall x | x in m ensures x in m' && m[x] == m'[x] {
    }
    forall x | x in m' ensures x in m {
    }
  }

  lemma AddAssoc<K>(a: multiset<K>, b: multiset<K>, c: multiset<K>)
    ensures (a + b) + c == a + (b + c)
  {
  }

  /** The multiset counted over a list of records, `f` saying what one
      record contributes. */
  function Sum<R, K>(records: seq<R>, f: R -> multiset<K>): multiset<K> {
    if records == [] then multiset{} else f(records[0]) + Sum(records[1..], f)
  }

  lemma {:induction false} SumAppend<R, K>(xs: seq<R>, ys: seq<R>, f: R -> multiset<K>)
    ensures Sum(xs + ys, f) == Sum(xs, f) + Sum(ys, f)
  {
    if xs != [] {
      assert (xs + ys)[0] == xs[0];
      assert (xs + ys)[1..] == xs[1..] + ys;
      SumAppend(xs[1..], ys, f);
    } else {
      assert xs + ys == ys;
    }
  }

  /** Processing one more record adds exactly that record's contribution. */
  lemma SumSnoc<R, K>(records: seq<R>, k: nat, f: R -> multiset<K>)
    requires k < |records|
    ensures Sum(records[..k + 1], f) == Sum(records[..k], f) + f(records[k])
  {
    assert records[..k + 1] == records[..k] + [records[k]];
    SumAppend(records[..k], [records[k]], f);
  }

  /** Taking the record at `i` out of a list takes its contribution out of
      the sum. */
  lemma {:induction false} SumAt<R, K>(ys: seq<R>, i: nat, f: R -> multiset<K>)
    requires i < |ys|
    ensures Sum(ys, f) == f(ys[i]) + Sum(ys[..i] + ys[i + 1..], f)
  {
    if i == 0 {
      assert ys[..0] + ys[1..] == ys[1..];
    } else {
      var tail := ys[1..];
      SumAt(tail, i - 1, f);
      assert ys[..i] + ys[i + 1..] == [ys[0]] + (tail[..i - 1] + tail[i..]);
      MoveFront(f(ys[0]), f(ys[i]), Sum(tail[..i - 1] + tail[i..], f));
    }
  }

  /** ... and one occurrence of it out of the multiset of records. */
  lemma MultisetAt<R>(ys: seq<R>, i: nat)
    requires i < |ys|
    ensures multiset(ys) == multiset{ys[i]} + multiset(ys[..i] + ys[i + 1..])
  {
    assert ys == ys[..i] + [ys[i]] + ys[i + 1..];
  }

  lemma MoveFront<K>(p: multiset<K>, q: multiset<K>, r: multiset<K>)
    ensures p + q + r == q + (p + r)
  {
  }

  lemma MultisetCancel<R>(x: R, a: multiset<R>, b: multiset<R>)
    requires multiset{x} + a == multiset{x} + b
    ensures a == b
  {
    forall z ensures a[z] == b[z] {
      assert (multiset{x} + a)[z] == (multiset{x} + b)[z];
    }
  }

  /** The sum depends only on the multiset of records, not on their order. */
  lemma {:induction false} SumPermutation<R, K>(xs: seq<R>, ys: seq<R>, f: R -> multiset<K>)
    requires multiset(xs) == multiset(ys)
    ensures Sum(xs, f) == Sum(ys, f)
    decreases |xs|
  {
    if xs != [] {
      var x := xs[0];
      assert xs == [x] + xs[1..];
      assert x in multiset(ys);
      var i :| 0 <= i < |ys| && ys[i] == x;
      var rest := ys[..i] + ys[i + 1..];
      SumAt(ys, i, f);
      MultisetAt(ys, i);
      MultisetCancel(x, multiset(xs[1..]), multiset(rest));
      SumPermutation(xs[1..], rest, f);
    }
  }

  /** `records` without the elements equal to `e`. */
  function Without<R(==)>(records: seq<R>, e: R): (r: seq<R>)
    ensures forall k :: 0 <= k < |r| ==> r[k] != e
    ensures multiset(r) == multiset(records)[e := 0]
  {
    if records == [] then []
    else
      assert records == [records[0]] + records[1..];
      (if records[0] == e then [] else [records[0]]) + Without(records[1..], e)
  }

  /** Dropping records that contribute nothing leaves the sum unchanged. */
  lemma {:induction false} SumWithout<R, K>(records: seq<R>, e: R, f: R -> multiset<K>)
    requires f(e) == multiset{}
    ensures Sum(Without(records, e), f) == Sum(records, f)
  {
    if records != [] {
      SumWithout(records[1..], e, f);
      var head := if records[0] == e then [] else [records[0]];
      SumAppend(head, Without(records[1..], e), f);
    }
  }
}
