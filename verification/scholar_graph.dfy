/**
 * `Scholarnet.extract_graph` of scholar_graph.py: the primary author's name
 * is read from the profile page's title, the co-author counters are filled by
 * `Coauthors.CountCoauthors`, and the graph receives one styled node per
 * counted author and one weighted edge per counted pair.
 *
 * The graph is two maps: node attributes by author name, and edge weights by
 * sorted name pair.  `BuildGraph` is the graph one pass produces from a list
 * of records; the lemmas below state the node and edge invariants of that
 * graph, and `Scholarnet.ExtractGraph` is proved to add exactly it.
 */
module ScholarGraph {
  import opened Wrappers
  import opened Text
  import opened Counters
  import opened Coauthors

  /** Separates the author's name from the rest of the page title. */
  const TitleSeparator: string := "::"
  /** The primary author's name when the page has no title. */
  const FallbackAuthor: string := "Author"
  /** Node colour of the primary author. */
  const PrimaryColor: string := "red"
  /** Node colour of every other author. */
  const CoauthorColor: string := "#1f78b4"
  /** Node size of an author with no papers; each paper adds 2. */
  const BaseSize: int := 10

  /** What `extract_graph` reads from the fetched profile page: the text of
      the `<title>` element if there is one, and for each publication entry
      the raw text of its author elements, in page order. */
  datatype ProfilePage = ProfilePage(title: Option<string>, papers: seq<seq<string>>)

  /** The attributes `add_node` stores for an author. */
  datatype NodeAttrs = NodeAttrs(labelText: string, title: string, size: int, color: string)

  /** The co-author graph: node attributes by author name, edge weights by
      sorted pair of author names. */
  datatype Graph = Graph(nodes: map<string, NodeAttrs>, edges: map<Pair, nat>)

  /** `title_tag.text.split("::")[0].strip() if title_tag else "Author"` */
  function MainAuthor(title: Option<string>): (name: string)
    ensures IsStripped(name)
    ensures title.None? ==> name == FallbackAuthor
  {
    match title
    case None => FallbackAuthor
    case Some(text) => Strip(BeforeFirst(text, TitleSeparator))
  }

  /** The hover text of a node: the author's name, then a line with the
      paper count for the primary author, or with the count of papers shared
      with the primary author for everyone else. */
  function Tooltip(author: string, count: nat, main: string): string {
    author + "\n" + CountLine(author, count, main)
  }

  function CountLine(author: string, count: nat, main: string): string {
    if author == main then "Total Papers: " + NatToString(count)
    else "Co-authored with " + main + ": " + NatToString(count)
  }

  /** Splitting a concatenation at the end of its first part. */
  lemma SplitAfter<T>(x: seq<T>, y: seq<T>)
    ensures (x + y)[..|x|] == x && (x + y)[|x|..] == y
  {
  }

  /** The hover text names the author on its first line; its second line
      ends with the count and starts with "Total Papers: " exactly for the
      primary author. */
  lemma TooltipShape(author: string, count: nat, main: string)
    ensures var t := Tooltip(author, count, main);
      StartsWith(t, author + "\n") && t[|author| + 1..] == CountLine(author, count, main)
    ensures var line, digits := CountLine(author, count, main), NatToString(count);
      |digits| <= |line| && line[|line| - |digits|..] == digits &&
      (author == main <==> StartsWith(line, "Total Papers: "))
  {
    SplitAfter(author + "\n", CountLine(author, count, main));
    var digits := NatToString(count);
    var head := if author == main then "Total Papers: " else "Co-authored with " + main + ": ";
    assert CountLine(author, count, main) == head + digits;
    SplitAfter(head, digits);
    if author != main {
      assert (head + digits)[0] == 'C';
    }
  }

  /** The attributes of the node of `author`, counted `count` times.  The
      head is `author_short(author)`, computed by the character scan that
      `AuthorShortIsWordStarts` proves equal to `AuthorShort`. */
  function NodeFor(author: string, count: nat, main: string): NodeAttrs {
    NodeAttrs(
      WordStarts(author, true),
      Tooltip(author, count, main),
      BaseSize + 2 * count,
      if author == main then PrimaryColor else CoauthorColor)
  }

  /** One node per key of the `author_papers` counter. */
  function NodesOf(authorPapers: map<string, nat>, main: string): map<string, NodeAttrs> {
    map a | a in authorPapers :: NodeFor(a, authorPapers[a], main)
  }

  /** The graph one counting pass over `records` produces. */
  function BuildGraph(main: string, records: seq<Record>): Graph {
    Graph(NodesOf(Tally(AuthorBag(records)), main), Tally(PairBag(records)))
  }

  // ---------------------------------------------------------------------
  // The primary author's name

  /** A string starts with the separator exactly when its first two
      characters are colons. */
  lemma SeparatorChars(x: string)
    ensures StartsWith(x, TitleSeparator) <==> |x| >= 2 && x[0] == ':' && x[1] == ':'
  {
    if |x| >= 2 && x[0] == ':' && x[1] == ':' {
      assert x[..2] == TitleSeparator;
    }
  }

  /** Two colons start at position `j` of `s`. */
  predicate ColonPairAt(s: string, j: int) {
    0 <= j && j + 1 < |s| && s[j] == ':' && s[j + 1] == ':'
  }

  /** No two colons follow each other in the part of a title before its
      first separator. */
  lemma NoColonPairBefore(text: string, r: string)
    requires r == BeforeFirst(text, TitleSeparator)
    ensures forall j :: 0 <= j < |r| ==> !ColonPairAt(r, j)
  {
    forall j | 0 <= j < |r| ensures !ColonPairAt(r, j) {
      SeparatorChars(text[j..]);
      if j + 1 < |r| {
        assert r[j] == text[j] && r[j + 1] == text[j + 1];
      }
    }
  }

  /** A copy of a stretch of `r` holds no separator when no two colons
      follow each other in `r`. */
  lemma NoSeparatorInCopy(name: string, r: string, lead: nat)
    requires lead + |name| <= |r|
    requires forall i :: 0 <= i < |name| ==> name[i] == r[lead + i]
    requires forall j :: 0 <= j < |r| ==> !ColonPairAt(r, j)
    ensures !Contains(name, TitleSeparator)
  {
    forall i | 0 <= i <= |name| ensures !StartsWith(name[i..], TitleSeparator) {
      SeparatorChars(name[i..]);
      if i + 2 <= |name| {
        assert !ColonPairAt(r, lead + i);
      }
    }
  }

  /** Stripping a string in which no two colons follow each other leaves
      no separator. */
  lemma StripHasNoSeparator(r: string)
    requires forall j :: 0 <= j < |r| ==> !ColonPairAt(r, j)
    ensures !Contains(Strip(r), TitleSeparator)
  {
    NoSeparatorInCopy(Strip(r), r, |r| - |TrimStart(r)|);
  }

  /** The name read from a title never contains the separator. */
  lemma MainAuthorHasNoSeparator(text: string)
    ensures !Contains(MainAuthor(Some(text)), TitleSeparator)
  {
    var r := BeforeFirst(text, TitleSeparator);
    NoColonPairBefore(text, r);
    StripHasNoSeparator(r);
  }

  lemma SeparatorAt(name: string, rest: string)
    ensures var text := name + " :: " + rest;
      StartsWith(text[|name| + 1..], TitleSeparator) &&
      (!Contains(name, TitleSeparator) ==>
        forall i {:trigger StartsWith(text[i..], TitleSeparator)} :: 0 <= i < |name| + 1 ==> !StartsWith(text[i..], TitleSeparator))
  {
    var text := name + " :: " + rest;
    assert text[|name| + 1..][..2] == "::";
    if !Contains(name, TitleSeparator) {
      forall i | 0 <= i < |name| + 1 ensures !StartsWith(text[i..], TitleSeparator) {
        if i + 2 <= |name| {
          assert text[i..][..2] == name[i..][..2];
          assert !StartsWith(name[i..], TitleSeparator);
        } else if i + 1 == |name| {
          assert text[i + 1] == ' ';
        } else {
          assert text[i] == ' ';
        }
      }
    }
  }

  /** Stripping removes the blank that follows a stripped name. */
  lemma StripTrailingBlank(name: string)
    requires IsStripped(name)
    ensures Strip(name + " ") == name
  {
    var s := name + " ";
    if name != "" {
      assert TrimStart(s) == s;
      assert s[..|s| - 1] == name;
      assert TrimEnd(s) == TrimEnd(name);
    } else {
      assert TrimStart(s) == TrimStart(s[1..]);
    }
  }

  /** A page titled "<name> :: <anything>" yields exactly <name>, for every
      name without surrounding white space and without the separator. */
  lemma MainAuthorOfTitle(name: string, rest: string)
    requires IsStripped(name) && !Contains(name, TitleSeparator)
    ensures MainAuthor(Some(name + " :: " + rest)) == name
  {
    var text := name + " :: " + rest;
    var r := BeforeFirst(text, TitleSeparator);
    SeparatorAt(name, rest);
    assert |r| == |name| + 1;
    assert r == name + " ";
    StripTrailingBlank(name);
  }

  // ---------------------------------------------------------------------
  // Nodes and edges of the built graph

  /** There is one node per author named in some record; its size is
      10 + 2 * (the author's count), its label the author's initials, and it
      is red exactly when the author is the primary author. */
  lemma GraphNode(main: string, records: seq<Record>, a: string)
    ensures var g := BuildGraph(main, records);
      (a in g.nodes <==> a in AuthorBag(records)) &&
      (a in g.nodes ==>
        g.nodes[a].size == BaseSize + 2 * AuthorBag(records)[a] &&
        g.nodes[a].size >= BaseSize + 2 &&
        g.nodes[a].labelText == AuthorShort(a) &&
        g.nodes[a].title == Tooltip(a, AuthorBag(records)[a], main) &&
        (g.nodes[a].color == PrimaryColor <==> a == main) &&
        (g.nodes[a].color == CoauthorColor <==> a != main))
  {
    TallyAt(AuthorBag(records), a);
    AuthorShortIsWordStarts(a);
  }

  /** At most one node is the primary author's: there is one exactly when the
      primary author's name occurs in some record. */
  lemma PrimaryNode(main: string, records: seq<Record>, a: string)
    ensures var g := BuildGraph(main, records);
      a in g.nodes && g.nodes[a].color == PrimaryColor <==> a == main && main in AuthorBag(records)
  {
    GraphNode(main, records, a);
  }

  /** There is one edge per counted pair, weighted by its count (never 0);
      its key is sorted and both ends are nodes of the graph. */
  lemma GraphEdge(main: string, records: seq<Record>, p: Pair)
    ensures var g := BuildGraph(main, records);
      (p in g.edges <==> p in PairBag(records)) &&
      (p in g.edges ==>
        g.edges[p] == PairBag(records)[p] && g.edges[p] >= 1 &&
        IsCanonical(p) && p.0 in g.nodes && p.1 in g.nodes)
  {
    TallyAt(PairBag(records), p);
    if p in PairBag(records) {
      PairBagKeys(records, p);
      GraphNode(main, records, p.0);
      GraphNode(main, records, p.1);
    }
  }

  /** With no name repeated within a record, a node's count is the number of
      records listing the author, the edge of two different authors is
      weighted by the number of records listing both (and absent when there
      is none), and no author has an edge to themself. */
  lemma DistinctRecordsGraph(main: string, records: seq<Record>, a: string, b: string)
    requires AllDistinct(records)
    ensures var g := BuildGraph(main, records);
      (a in g.nodes ==> g.nodes[a].size == BaseSize + 2 * RecordsWith(records, a)) &&
      (a != b ==> (SortedPair(a, b) in g.edges <==> RecordsWithBoth(records, a, b) >= 1)) &&
      (a != b && SortedPair(a, b) in g.edges ==> g.edges[SortedPair(a, b)] == RecordsWithBoth(records, a, b)) &&
      (a, a) !in g.edges
  {
    GraphNode(main, records, a);
    AuthorBagCountsRecords(records, a);
    if a != b {
      GraphEdge(main, records, SortedPair(a, b));
      PairBagCountsRecords(records, a, b);
    }
    GraphEdge(main, records, (a, a));
    NoSelfPairs(records, a);
  }

  /** The graph depends only on the multiset of records, not on their order. */
  lemma GraphOrderFree(main: string, records: seq<Record>, others: seq<Record>)
    requires multiset(records) == multiset(others)
    ensures BuildGraph(main, records) == BuildGraph(main, others)
  {
    CountsOrderFree(records, others);
  }

  /** Records without authors leave the graph unchanged. */
  lemma GraphIgnoresEmptyRecords(main: string, records: seq<Record>)
    ensures BuildGraph(main, Without(records, [])) == BuildGraph(main, records)
  {
    EmptyRecordsIgnored(records);
  }

  lemma ThreeRecords(r1: Record, r2: Record, r3: Record)
    ensures AuthorBag([r1, r2, r3]) == multiset(r1) + multiset(r2) + multiset(r3)
    ensures PairBag([r1, r2, r3]) == RecordPairs(r1) + RecordPairs(r2) + RecordPairs(r3)
  {
    var records := [r1, r2, r3];
    assert records[1..] == [r2, r3] && records[1..][1..] == [r3] && records[1..][1..][1..] == [];
    assert Sum([r3], Occurrences) == Occurrences(r3);
    assert Sum([r2, r3], Occurrences) == Occurrences(r2) + Sum([r3], Occurrences);
    assert Sum(records, Occurrences) == Occurrences(r1) + Sum([r2, r3], Occurrences);
    assert Sum([r3], RecordPairs) == RecordPairs(r3);
    assert Sum([r2, r3], RecordPairs) == RecordPairs(r2) + Sum([r3], RecordPairs);
    assert Sum(records, RecordPairs) == RecordPairs(r1) + Sum([r2, r3], RecordPairs);
  }

  /** Three names in increasing order are distinct and sort pairwise as
      given. */
  lemma OrderedNames(a: string, b: string, c: string)
    requires Less(a, b) && Less(a, c) && Less(b, c)
    ensures a != b && a != c && b != c
    ensures SortedPair(a, b) == (a, b) && SortedPair(a, c) == (a, c) && SortedPair(b, c) == (b, c)
  {
    LessTrichotomy(a, b);
    LessTrichotomy(a, c);
    LessTrichotomy(b, c);
  }

  /** The pairs one name makes with one later name. */
  lemma FanOfOne(x: string, y: string)
    ensures Fan(x, [y]) == multiset{SortedPair(x, y)}
  {
    assert [y][1..] == [];
  }

  /** The pairs one name makes with two later names. */
  lemma FanOfTwo(x: string, y: string, z: string)
    ensures Fan(x, [y, z]) == multiset{SortedPair(x, y), SortedPair(x, z)}
  {
    assert [y, z][1..] == [z];
    FanOfOne(x, z);
  }

  /** The pairs of a record of two names that sort as given. */
  lemma PairsOfTwo(x: string, y: string)
    requires SortedPair(x, y) == (x, y)
    ensures RecordPairs([x, y]) == multiset{(x, y)}
  {
    var r: Record := [x, y];
    assert r[1..] == [y];
    assert [y][1..] == [];
    FanOfOne(x, y);
    assert RecordPairs([y]) == multiset{};
  }

  /** The pairs of a record of three names that sort pairwise as given. */
  lemma PairsOfThree(x: string, y: string, z: string)
    requires SortedPair(x, y) == (x, y) && SortedPair(x, z) == (x, z) && SortedPair(y, z) == (y, z)
    ensures RecordPairs([x, y, z]) == multiset{(x, y), (x, z), (y, z)}
  {
    var r: Record := [x, y, z];
    assert r[1..] == [y, z];
    FanOfTwo(x, y, z);
    PairsOfTwo(y, z);
    assert RecordPairs(r) == Fan(x, [y, z]) + RecordPairs([y, z]);
  }

  /** The pairs of the records [a, b], [a, b, c] and [b, c]. */
  lemma ThreeRecordPairs(a: string, b: string, c: string)
    requires Less(a, b) && Less(a, c) && Less(b, c)
    ensures RecordPairs([a, b]) == multiset{(a, b)}
    ensures RecordPairs([a, b, c]) == multiset{(a, b), (a, c), (b, c)}
    ensures RecordPairs([b, c]) == multiset{(b, c)}
  {
    OrderedNames(a, b, c);
    PairsOfTwo(a, b);
    PairsOfThree(a, b, c);
    PairsOfTwo(b, c);
  }

  /** Occurrences in [x, y] + [x, y, z] + [y, z], for three distinct values. */
  lemma ThreeRecordTally<T>(x: T, y: T, z: T)
    requires x != y && x != z && y != z
    ensures var m := multiset([x, y]) + multiset([x, y, z]) + multiset([y, z]);
      m[x] == 2 && m[y] == 3 && m[z] == 2 && forall w :: w in m ==> w == x || w == y || w == z
  {
  }

  /** Occurrences in {x} + {x, y, z} + {z}, for three distinct values. */
  lemma ThreePairTally<T>(x: T, y: T, z: T)
    requires x != y && x != z && y != z
    ensures var m := multiset{x} + multiset{x, y, z} + multiset{z};
      m[x] == 2 && m[y] == 1 && m[z] == 2 && forall w :: w in m ==> w == x || w == y || w == z
  {
  }

  /** Among the papers [a, b], [a, b, c] and [b, c] with a < b < c, a occurs
      twice, b three times, c twice and no one else occurs. */
  lemma ThreePaperAuthors(a: string, b: string, c: string)
    requires Less(a, b) && Less(a, c) && Less(b, c)
    ensures var authors := AuthorBag([[a, b], [a, b, c], [b, c]]);
      authors[a] == 2 && authors[b] == 3 && authors[c] == 2 &&
      forall x :: x in authors ==> x == a || x == b || x == c
  {
    OrderedNames(a, b, c);
    ThreeRecords([a, b], [a, b, c], [b, c]);
    ThreeRecordTally(a, b, c);
  }

  /** In the same papers (a, b) and (b, c) are counted twice, (a, c) once
      and no other pair is counted. */
  lemma ThreePaperPairs(a: string, b: string, c: string)
    requires Less(a, b) && Less(a, c) && Less(b, c)
    ensures var pairs := PairBag([[a, b], [a, b, c], [b, c]]);
      pairs[(a, b)] == 2 && pairs[(a, c)] == 1 && pairs[(b, c)] == 2 &&
      forall p :: p in pairs ==> p == (a, b) || p == (a, c) || p == (b, c)
  {
    OrderedNames(a, b, c);
    ThreeRecordPairs(a, b, c);
    ThreeRecords([a, b], [a, b, c], [b, c]);
    ThreePairTally((a, b), (a, c), (b, c));
  }

  /** The nodes of the graph of those papers with a as primary author: a, b
      and c of sizes 14, 16 and 14, only a in red. */
  lemma ThreePaperNodes(a: string, b: string, c: string)
    requires Less(a, b) && Less(a, c) && Less(b, c)
    ensures var g := BuildGraph(a, [[a, b], [a, b, c], [b, c]]);
      (forall x :: x in g.nodes <==> x == a || x == b || x == c) &&
      g.nodes[a].size == 14 && g.nodes[b].size == 16 && g.nodes[c].size == 14 &&
      g.nodes[a].color == PrimaryColor && g.nodes[b].color == CoauthorColor &&
      g.nodes[c].color == CoauthorColor
  {
    var records: seq<Record> := [[a, b], [a, b, c], [b, c]];
    ThreePaperAuthors(a, b, c);
    OrderedNames(a, b, c);
    var g := BuildGraph(a, records);
    forall x ensures x in g.nodes <==> x == a || x == b || x == c {
      GraphNode(a, records, x);
    }
    GraphNode(a, records, a);
    GraphNode(a, records, b);
    GraphNode(a, records, c);
  }

  /** The edges of that graph: (a, b) and (b, c) of weight 2, (a, c) of
      weight 1. */
  lemma ThreePaperEdges(a: string, b: string, c: string)
    requires Less(a, b) && Less(a, c) && Less(b, c)
    ensures var g := BuildGraph(a, [[a, b], [a, b, c], [b, c]]);
      (forall p :: p in g.edges <==> p == (a, b) || p == (a, c) || p == (b, c)) &&
      g.edges[(a, b)] == 2 && g.edges[(a, c)] == 1 && g.edges[(b, c)] == 2
  {
    var records: seq<Record> := [[a, b], [a, b, c], [b, c]];
    ThreePaperPairs(a, b, c);
    var g := BuildGraph(a, records);
    forall p ensures p in g.edges <==> p == (a, b) || p == (a, c) || p == (b, c) {
      GraphEdge(a, records, p);
    }
    GraphEdge(a, records, (a, b));
    GraphEdge(a, records, (a, c));
    GraphEdge(a, records, (b, c));
  }

  /** The same, with the names "A", "B" and "C". */
  lemma ThreePapersABC()
    ensures var g := BuildGraph("A", [["A", "B"], ["A", "B", "C"], ["B", "C"]]);
      "B" in g.nodes && g.nodes["B"].size == 16 && ("A", "C") in g.edges && g.edges[("A", "C")] == 1
  {
    assert Less("A", "B") && Less("A", "C") && Less("B", "C");
    ThreePaperNodes("A", "B", "C");
    ThreePaperEdges("A", "B", "C");
  }

  // ---------------------------------------------------------------------
  // The object

  /** Adding one more key of `m` to a merge of `base` with part of `m`. */
  lemma AddOneKey<K, V>(base: map<K, V>, m: map<K, V>, pending: set<K>, k: K)
    requires k in pending && pending <= m.Keys
    ensures (base + (m - pending))[k := m[k]] == base + (m - (pending - {k}))
  {
  }

  /** Taking one more key out of the pending keys of `m`. */
  lemma TakeKey<K, V>(m: map<K, V>, pending: set<K>, k: K)
    requires k in pending && pending <= m.Keys
    ensures (m - pending)[k := m[k]] == m - (pending - {k})
  {
  }

  /** Updating a merge of two maps updates the second one. */
  lemma UpdateMerged<K, V>(base: map<K, V>, m: map<K, V>, k: K, v: V)
    ensures (base + m)[k := v] == base + m[k := v]
  {
  }

  /** Counting one more author adds that author's node. */
  lemma NodesOfInsert(done: map<string, nat>, author: string, count: nat, main: string)
    ensures NodesOf(done[author := count], main) == NodesOf(done, main)[author := NodeFor(author, count, main)]
  {
  }

  /** Adding the node of one more pending author. */
  lemma NodesStep(base: map<string, NodeAttrs>, authorPapers: map<string, nat>, pending: set<string>,
                  author: string, main: string)
    requires author in pending && pending <= authorPapers.Keys
    ensures (base + NodesOf(authorPapers - pending, main))[author := NodeFor(author, authorPapers[author], main)]
      == base + NodesOf(authorPapers - (pending - {author}), main)
  {
    var done := authorPapers - pending;
    TakeKey(authorPapers, pending, author);
    NodesOfInsert(done, author, authorPapers[author], main);
    UpdateMerged(base, NodesOf(done, main), author, NodeFor(author, authorPapers[author], main));
  }

  /** A `Scholarnet`: the profile it was made for, the graph built so far and
      the primary author's name once known. */
  class Scholarnet {
    const dblpUrl: string
    var graph: Graph
    var mainAuthor: Option<string>

    constructor (dblpUrl: string)
      ensures this.dblpUrl == dblpUrl
      ensures graph == Graph(map[], map[]) && mainAuthor == None
    {
      this.dblpUrl := dblpUrl;
      graph := Graph(map[], map[]);
      mainAuthor := None;
    }

    /** `extract_graph` on the profile page fetched from `dblpUrl`: sets the
        primary author and adds the nodes and edges of `BuildGraph` to the
        graph, replacing the attributes of nodes and edges already there. */
    method ExtractGraph(page: ProfilePage)
      modifies this
      ensures mainAuthor == Some(MainAuthor(page.title))
      ensures var built := BuildGraph(MainAuthor(page.title), Rosters(page.papers));
        graph == Graph(old(graph.nodes) + built.nodes, old(graph.edges) + built.edges)
    {
      var main := MainAuthor(page.title);
      mainAuthor := Some(main);
      var authorPapers, edgeWeights := CountCoauthors(page.papers);
      AddNodes(authorPapers, main);
      forall p | p in edgeWeights ensures p.0 in graph.nodes && p.1 in graph.nodes {
        GraphEdge(main, Rosters(page.papers), p);
      }
      AddEdges(edgeWeights);
    }

    /** The node loop of `extract_graph`: one node per counted author. */
    method AddNodes(authorPapers: map<string, nat>, main: string)
      modifies this
      ensures graph == Graph(old(graph.nodes) + NodesOf(authorPapers, main), old(graph.edges))
      ensures mainAuthor == old(mainAuthor)
    {
      var pending := authorPapers.Keys;
      assert authorPapers - pending == map[];
      assert old(graph.nodes) + NodesOf(map[], main) == old(graph.nodes);
      while pending != {}
        invariant pending <= authorPapers.Keys
        invariant graph.nodes == old(graph.nodes) + NodesOf(authorPapers - pending, main)
        invariant graph.edges == old(graph.edges)
        invariant mainAuthor == old(mainAuthor)
        decreases pending
      {
        var author :| author in pending;
        NodesStep(old(graph.nodes), authorPapers, pending, author, main);
        graph := graph.(nodes := graph.nodes[author := NodeFor(author, authorPapers[author], main)]);
        pending := pending - {author};
      }
      assert authorPapers - {} == authorPapers;
    }

    /** The edge loop of `extract_graph`: one edge per counted pair, weighted
        by its count.  `add_edge` would add a missing end as a node without
        attributes; here both ends are always nodes already. */
    method AddEdges(edgeWeights: map<Pair, nat>)
      requires forall p :: p in edgeWeights ==> p.0 in graph.nodes && p.1 in graph.nodes
      modifies this
      ensures graph == Graph(old(graph.nodes), old(graph.edges) + edgeWeights)
      ensures mainAuthor == old(mainAuthor)
    {
      var pending := edgeWeights.Keys;
      assert edgeWeights - pending == map[];
      assert old(graph.edges) + map[] == old(graph.edges);
      while pending != {}
        invariant pending <= edgeWeights.Keys
        invariant graph.nodes == old(graph.nodes)
        invariant graph.edges == old(graph.edges) + (edgeWeights - pending)
        invariant mainAuthor == old(mainAuthor)
        decreases pending
      {
        var pair :| pair in pending;
        AddOneKey(old(graph.edges), edgeWeights, pending, pair);
        graph := graph.(edges := graph.edges[pair := edgeWeights[pair]]);
        pending := pending - {pair};
      }
      assert edgeWeights - {} == edgeWeights;
    }
  }
}
