/**
 * The counting pass of `Scholarnet.extract_graph`: for every publication
 * record (an ordered list of author names) each name occurrence is counted in
 * `author_papers`, and each pair of positions i < j in the record is counted
 * in `edge_weights` under the lexicographically sorted pair of the two names.
 *
 * The specification is given as multisets: `AuthorBag` holds every name
 * occurrence of every record, `PairBag` every sorted pair of every record.
 * `CountCoauthors` is the loop and is proved to produce the tallies of these
 * two multisets; the lemmas say what the multisets contain.
 */
module Coauthors {
  import opened Text
  import opened Counters

  /** One publication's author names, in page order. */
  type Record = seq<string>

  /** An edge key of `edge_weights`: two author names. */
  type Pair = (string, string)

  /** The first name does not sort after the second. */
  predicate IsCanonical(p: Pair) {
    !Less(p.1, p.0)
  }

  /** `tuple(sorted((x, y)))`: the same two names, smaller first. */
  function SortedPair(x: string, y: string): (p: Pair)
    ensures p == (x, y) || p == (y, x)
    ensures IsCanonical(p)
  {
    LessTrichotomy(x, y);
    if Less(y, x) then (y, x) else (x, y)
  }

  /** (x, y) and (y, x) reach the same counter. */
  lemma SortedPairSymmetric(x: string, y: string)
    ensures SortedPair(x, y) == SortedPair(y, x)
  {
    LessTrichotomy(x, y);
  }

  /** Two sorted pairs are equal exactly when they hold the same two names. */
  lemma SortedPairEquals(x: string, y: string, a: string, b: string)
    ensures SortedPair(x, y) == SortedPair(a, b) <==> (x == a && y == b) || (x == b && y == a)
  {
    SortedPairSymmetric(x, y);
  }

  /** A canonical pair is its own sorted form. */
  lemma SortedPairOfCanonical(p: Pair)
    requires IsCanonical(p)
    ensures SortedPair(p.0, p.1) == p
  {
  }

  /** `[a.text.strip() for a in ...]`: one paper's author names. */
  function AuthorList(raw: seq<string>): (r: Record)
    ensures |r| == |raw|
    ensures forall i :: 0 <= i < |r| ==> IsStripped(r[i])
  {
    seq(|raw|, i requires 0 <= i < |raw| => Strip(raw[i]))
  }

  /** The author lists of all papers of a profile page. */
  function Rosters(papers: seq<seq<string>>): (rs: seq<Record>)
    ensures |rs| == |papers|
  {
    seq(|papers|, k requires 0 <= k < |papers| => AuthorList(papers[k]))
  }

  /** The sorted pairs of `x` with each later name `rest[j]`: the inner loop
      `for j in range(i + 1, len(authors))` for `x == authors[i]`. */
  function Fan(x: string, rest: Record): multiset<Pair> {
    if rest == [] then multiset{} else multiset{SortedPair(x, rest[0])} + Fan(x, rest[1..])
  }

  /** The sorted pairs of all positions i < j of a record. */
  function RecordPairs(r: Record): multiset<Pair> {
    if r == [] then multiset{} else Fan(r[0], r[1..]) + RecordPairs(r[1..])
  }

  /** What one record adds to `author_papers`: each name once per occurrence. */
  function Occurrences(r: Record): multiset<string> {
    multiset(r)
  }

  /** Everything `author_papers` counts over a list of records. */
  function AuthorBag(records: seq<Record>): multiset<string> {
    Sum(records, Occurrences)
  }

  /** Everything `edge_weights` counts over a list of records. */
  function PairBag(records: seq<Record>): multiset<Pair> {
    Sum(records, RecordPairs)
  }

  // ---------------------------------------------------------------------
  // What one record contributes

  lemma {:induction false} FanSize(x: string, rest: Record)
    ensures |Fan(x, rest)| == |rest|
  {
    if rest != [] {
      FanSize(x, rest[1..]);
    }
  }

  /** A record of n names adds n * (n - 1) / 2 to the sum of all weights. */
  lemma {:induction false} RecordPairsSize(r: Record)
    ensures 2 * |RecordPairs(r)| == |r| * (|r| - 1)
  {
    if r != [] {
      FanSize(r[0], r[1..]);
      RecordPairsSize(r[1..]);
      var n: int := |r|;
      assert |r[1..]| == n - 1;
      assert 2 * |RecordPairs(r)| == 2 * (n - 1) + (n - 1) * (n - 2);
      Triangle(n);
    }
  }

  lemma Triangle(n: int)
    ensures 2 * (n - 1) + (n - 1) * (n - 2) == n * (n - 1)
  {
  }

  /** How often the fan of `x` holds the pair of two different names. */
  lemma {:induction false} FanCount(x: string, rest: Record, a: string, b: string)
    requires a != b
    ensures Fan(x, rest)[SortedPair(a, b)] ==
            if x == a then multiset(rest)[b] else if x == b then multiset(rest)[a] else 0
  {
    if rest != [] {
      var p := SortedPair(a, b);
      FanCount(x, rest[1..], a, b);
      SortedPairEquals(x, rest[0], a, b);
      MultisetCons(rest, a);
      MultisetCons(rest, b);
      assert Fan(x, rest)[p] == multiset{SortedPair(x, rest[0])}[p] + Fan(x, rest[1..])[p];
    }
  }

  /** How often the fan of `x` holds the pair of a name with itself. */
  lemma {:induction false} FanSelfCount(x: string, rest: Record, a: string)
    ensures Fan(x, rest)[(a, a)] == if x == a then multiset(rest)[a] else 0
  {
    if rest != [] {
      FanSelfCount(x, rest[1..], a);
      SortedPairEquals(x, rest[0], a, a);
      SortedPairOfCanonical((a, a));
      LessTrichotomy(a, a);
      MultisetCons(rest, a);
      assert Fan(x, rest)[(a, a)] == multiset{SortedPair(x, rest[0])}[(a, a)] + Fan(x, rest[1..])[(a, a)];
    }
  }

  /** Two different names are paired once for every occurrence of the one
      and every occurrence of the other, whatever their positions. */
  lemma {:induction false} RecordPairsCount(r: Record, a: string, b: string)
    requires a != b
    ensures RecordPairs(r)[SortedPair(a, b)] == multiset(r)[a] * multiset(r)[b]
  {
    if r != [] {
      var x, rest := r[0], r[1..];
      var p := SortedPair(a, b);
      var ma, mb := multiset(rest)[a], multiset(rest)[b];
      var fa: int, fb: int := if x == a then 1 else 0, if x == b then 1 else 0;
      var fan, earlier := Fan(x, rest)[p], RecordPairs(rest)[p];
      assert fan == if fa == 1 then mb else if fb == 1 then ma else 0 by {
        FanCount(x, rest, a, b);
      }
      assert earlier == ma * mb by {
        RecordPairsCount(rest, a, b);
      }
      assert multiset(r)[a] == fa + ma && multiset(r)[b] == fb + mb by {
        MultisetCons(r, a);
        MultisetCons(r, b);
      }
      assert RecordPairs(r)[p] == fan + earlier by {
        RecordPairsAt(r, p);
      }
      PairStep(RecordPairs(r)[p], fan, earlier, multiset(r)[a], multiset(r)[b], fa, fb, ma, mb);
    }
  }

  /** The count of a pair in a non-empty record: the first name's fan plus
      the rest. */
  lemma RecordPairsAt(r: Record, p: Pair)
    requires r != []
    ensures RecordPairs(r)[p] == Fan(r[0], r[1..])[p] + RecordPairs(r[1..])[p]
  {
  }

  lemma MultisetCons(r: Record, z: string)
    requires r != []
    ensures multiset(r)[z] == (if r[0] == z then 1 else 0) + multiset(r[1..])[z]
  {
    assert r == [r[0]] + r[1..];
  }

  /** Arithmetic of one step of `RecordPairsCount`: `fa`, `fb` say whether
      the first name is `a` or `b`, `ma`, `mb` count them in the rest, `ca`,
      `cb` in the whole record. */
  lemma PairStep(total: int, fan: int, earlier: int, ca: int, cb: int, fa: int, fb: int, ma: int, mb: int)
    requires 0 <= fa <= 1 && 0 <= fb <= 1 && fa + fb <= 1
    requires fan == if fa == 1 then mb else if fb == 1 then ma else 0
    requires earlier == ma * mb && total == fan + earlier
    requires ca == fa + ma && cb == fb + mb
    ensures total == ca * cb
  {
    if fa == 1 {
      assert (1 + ma) * mb == mb + ma * mb;
    } else if fb == 1 {
      assert ma * (1 + mb) == ma + ma * mb;
    }
  }

  /** A name repeated m times in one record is paired with itself
      m * (m - 1) / 2 times. */
  lemma {:induction false} RecordPairsSelfCount(r: Record, a: string)
    ensures var m: int := multiset(r)[a]; 2 * RecordPairs(r)[(a, a)] == m * (m - 1)
  {
    if r != [] {
      var x, rest := r[0], r[1..];
      RecordPairsSelfCount(rest, a);
      FanSelfCount(x, rest, a);
      assert RecordPairs(r)[(a, a)] == Fan(x, rest)[(a, a)] + RecordPairs(rest)[(a, a)];
      MultisetCons(r, a);
      SelfStep(if x == a then 1 else 0, multiset(rest)[a]);
    }
  }

  lemma SelfStep(f: int, m: int)
    requires 0 <= f <= 1
    ensures 2 * (if f == 1 then m else 0) + m * (m - 1) == (f + m) * (f + m - 1)
  {
    if f == 1 {
      assert (1 + m) * m == 2 * m + m * (m - 1);
    }
  }

  /** Every pair key is sorted and made of names of the record. */
  lemma {:induction false} RecordPairsKeys(r: Record, p: Pair)
    requires p in RecordPairs(r)
    ensures IsCanonical(p) && p.0 in r && p.1 in r
  {
    if p !in Fan(r[0], r[1..]) {
      RecordPairsKeys(r[1..], p);
    } else {
      FanKeys(r[0], r[1..], p);
    }
  }

  lemma {:induction false} FanKeys(x: string, rest: Record, p: Pair)
    requires p in Fan(x, rest)
    ensures IsCanonical(p) && (p.0 == x || p.0 in rest) && (p.1 == x || p.1 in rest)
  {
    if p != SortedPair(x, rest[0]) {
      FanKeys(x, rest[1..], p);
    }
  }

  /** The pairs a record adds do not depend on the order of its names. */
  lemma RecordPairsOrderFree(r: Record, s: Record)
    requires multiset(r) == multiset(s)
    ensures RecordPairs(r) == RecordPairs(s)
  {
    forall p: Pair ensures RecordPairs(r)[p] == RecordPairs(s)[p] {
      if IsCanonical(p) {
        SortedPairOfCanonical(p);
        if p.0 != p.1 {
          RecordPairsCount(r, p.0, p.1);
          RecordPairsCount(s, p.0, p.1);
        } else {
          RecordPairsSelfCount(r, p.0);
          RecordPairsSelfCount(s, p.0);
        }
      } else {
        if p in RecordPairs(r) { RecordPairsKeys(r, p); }
        if p in RecordPairs(s) { RecordPairsKeys(s, p); }
      }
    }
  }

  /** A repeated name in one record pairs the name with itself. */
  lemma RepeatedNameSelfPair(a: string)
    ensures RecordPairs([a, a]) == multiset{(a, a)}
  {
    LessTrichotomy(a, a);
  }

  // ---------------------------------------------------------------------
  // Over a list of records

  /** No name is listed twice in the record. */
  predicate Distinct(r: Record) {
    forall i, j :: 0 <= i < j < |r| ==> r[i] != r[j]
  }

  predicate AllDistinct(records: seq<Record>) {
    forall k :: 0 <= k < |records| ==> Distinct(records[k])
  }

  /** The number of records that list `a`. */
  function RecordsWith(records: seq<Record>, a: string): nat {
    if records == [] then 0
    else (if a in records[0] then 1 else 0) + RecordsWith(records[1..], a)
  }

  /** The number of records that list both `a` and `b`. */
  function RecordsWithBoth(records: seq<Record>, a: string, b: string): nat {
    if records == [] then 0
    else (if a in records[0] && b in records[0] then 1 else 0) + RecordsWithBoth(records[1..], a, b)
  }

  lemma {:induction false} DistinctMultiplicity(r: Record, a: string)
    requires Distinct(r)
    ensures multiset(r)[a] == if a in r then 1 else 0
  {
    if r != [] {
      MultisetCons(r, a);
      DistinctMultiplicity(r[1..], a);
      assert r[0] !in r[1..];
    }
  }

  /** With no name repeated inside a record, an author's count is the number
      of records listing the author. */
  lemma {:induction false} AuthorBagCountsRecords(records: seq<Record>, a: string)
    requires AllDistinct(records)
    ensures AuthorBag(records)[a] == RecordsWith(records, a)
  {
    if records != [] {
      DistinctMultiplicity(records[0], a);
      AuthorBagCountsRecords(records[1..], a);
    }
  }

  /** With no name repeated inside a record, the weight of the pair of two
      different names is the number of records listing both. */
  lemma {:induction false} PairBagCountsRecords(records: seq<Record>, a: string, b: string)
    requires AllDistinct(records) && a != b
    ensures PairBag(records)[SortedPair(a, b)] == RecordsWithBoth(records, a, b)
  {
    if records != [] {
      RecordPairsCount(records[0], a, b);
      DistinctMultiplicity(records[0], a);
      DistinctMultiplicity(records[0], b);
      PairBagCountsRecords(records[1..], a, b);
    }
  }

  /** With no name repeated inside a record, no name is paired with itself. */
  lemma {:induction false} NoSelfPairs(records: seq<Record>, a: string)
    requires AllDistinct(records)
    ensures (a, a) !in PairBag(records)
  {
    if records != [] {
      RecordPairsSelfCount(records[0], a);
      DistinctMultiplicity(records[0], a);
      NoSelfPairs(records[1..], a);
    }
  }

  /** Every pair key is sorted and both of its names are counted authors. */
  lemma {:induction false} PairBagKeys(records: seq<Record>, p: Pair)
    requires p in PairBag(records)
    ensures IsCanonical(p) && p.0 in AuthorBag(records) && p.1 in AuthorBag(records)
  {
    if p in RecordPairs(records[0]) {
      RecordPairsKeys(records[0], p);
    } else {
      PairBagKeys(records[1..], p);
    }
  }

  /** A record of n names adds exactly n * (n - 1) / 2 to the sum of all
      pair counts. */
  lemma PairBagGrowth(records: seq<Record>, r: Record)
    ensures 2 * |PairBag(records + [r])| == 2 * |PairBag(records)| + |r| * (|r| - 1)
  {
    SumAppend(records, [r], RecordPairs);
    RecordPairsSize(r);
  }

  /** Both counters depend only on the multiset of records, not their order. */
  lemma CountsOrderFree(records: seq<Record>, others: seq<Record>)
    requires multiset(records) == multiset(others)
    ensures AuthorBag(records) == AuthorBag(others)
    ensures PairBag(records) == PairBag(others)
  {
    SumPermutation(records, others, Occurrences);
    SumPermutation(records, others, RecordPairs);
  }

  /** Records without authors change neither counter. */
  lemma EmptyRecordsIgnored(records: seq<Record>)
    ensures AuthorBag(Without(records, [])) == AuthorBag(records)
    ensures PairBag(Without(records, [])) == PairBag(records)
  {
    SumWithout(records, [], Occurrences);
    SumWithout(records, [], RecordPairs);
  }

  // ---------------------------------------------------------------------
  // The counting loop

  /** One more record adds its names and its pairs to the two multisets. */
  lemma CountedPrefix(records: seq<Record>, k: nat)
    requires k < |records|
    ensures AuthorBag(records[..k + 1]) == AuthorBag(records[..k]) + multiset(records[k])
    ensures PairBag(records[..k + 1]) == PairBag(records[..k]) + RecordPairs(records[k])
    ensures |records[k]| == 0 ==>
      AuthorBag(records[..k + 1]) == AuthorBag(records[..k]) &&
      PairBag(records[..k + 1]) == PairBag(records[..k])
  {
    SumSnoc(records, k, Occurrences);
    SumSnoc(records, k, RecordPairs);
    if |records[k]| == 0 {
      assert records[k] == [];
    }
  }

  /** `for author in authors: author_papers[author] += 1` */
  method CountAuthors(authorPapers: map<string, nat>, authors: Record, ghost before: multiset<string>)
    returns (counted: map<string, nat>)
    requires authorPapers == Tally(before)
    ensures counted == Tally(before + multiset(authors))
  {
    counted := authorPapers;
    for q := 0 to |authors|
      invariant counted == Tally(before + multiset(authors[..q]))
    {
      TallyInc(before + multiset(authors[..q]), authors[q]);
      counted := Inc(counted, authors[q]);
      assert authors[..q + 1] == authors[..q] + [authors[q]];
    }
    assert authors[..|authors|] == authors;
  }

  /** `for j in range(i + 1, len(authors)): edge_weights[pair] += 1`:
      pairs `authors[i]` with every later name. */
  method CountFan(edgeWeights: map<Pair, nat>, authors: Record, i: nat, ghost before: multiset<Pair>)
    returns (counted: map<Pair, nat>)
    requires i < |authors|
    requires edgeWeights == Tally(before)
    ensures counted == Tally(before + Fan(authors[i], authors[i + 1..]))
  {
    counted := edgeWeights;
    ghost var fanned: multiset<Pair> := multiset{};
    var j := i + 1;
    while j < |authors|
      invariant i + 1 <= j <= |authors|
      invariant fanned + Fan(authors[i], authors[j..]) == Fan(authors[i], authors[i + 1..])
      invariant counted == Tally(before + fanned)
    {
      var pair := SortedPair(authors[i], authors[j]);
      ghost var later := authors[j + 1..];
      assert authors[j..][1..] == later;
      AddAssoc(fanned, multiset{pair}, Fan(authors[i], later));
      AddAssoc(before, fanned, multiset{pair});
      TallyInc(before + fanned, pair);
      counted := Inc(counted, pair);
      fanned := fanned + multiset{pair};
      j := j + 1;
      assert authors[j..] == later;
    }
  }

  /** `for i in range(len(authors))`: the outer loop over the first position
      of a pair. */
  method CountPairs(edgeWeights: map<Pair, nat>, authors: Record, ghost before: multiset<Pair>)
    returns (counted: map<Pair, nat>)
    requires edgeWeights == Tally(before)
    ensures counted == Tally(before + RecordPairs(authors))
  {
    counted := edgeWeights;
    ghost var seen: multiset<Pair> := multiset{};
    var i := 0;
    while i < |authors|
      invariant i <= |authors|
      invariant seen + RecordPairs(authors[i..]) == RecordPairs(authors)
      invariant counted == Tally(before + seen)
    {
      ghost var later := authors[i + 1..];
      assert authors[i..][1..] == later;
      ghost var fan := Fan(authors[i], later);
      AddAssoc(seen, fan, RecordPairs(later));
      AddAssoc(before, seen, fan);
      counted := CountFan(counted, authors, i, before + seen);
      seen := seen + fan;
      i := i + 1;
      assert authors[i..] == later;
    }
  }

  /** The counting loop of `extract_graph`: every author of every paper is
      counted in `author_papers`, every pair of positions i < j of a paper in
      `edge_weights`; papers without authors are skipped. */
  method CountCoauthors(papers: seq<seq<string>>)
    returns (authorPapers: map<string, nat>, edgeWeights: map<Pair, nat>)
    ensures authorPapers == Tally(AuthorBag(Rosters(papers)))
    ensures edgeWeights == Tally(PairBag(Rosters(papers)))
  {
    ghost var records := Rosters(papers);
    authorPapers, edgeWeights := map[], map[];
    for k := 0 to |papers|
      invariant authorPapers == Tally(AuthorBag(records[..k]))
      invariant edgeWeights == Tally(PairBag(records[..k]))
    {
      var authors := AuthorList(papers[k]);
      assert authors == records[k];
      CountedPrefix(records, k);
      if |authors| == 0 {
        continue;
      }
      authorPapers := CountAuthors(authorPapers, authors, AuthorBag(records[..k]));
      edgeWeights := CountPairs(edgeWeights, authors, PairBag(records[..k]));
    }
    assert records[..|papers|] == records;
  }
}
