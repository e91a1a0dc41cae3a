# Scholarnet: a verified model of the co-author graph builder

`scholar_graph.py` builds a weighted co-authorship graph for one researcher.
It fetches the researcher's DBLP profile page and reads the primary author's
name from the page title. For every publication entry it counts each listed
author and each pair of co-authors. It then materialises one styled node per
author and one weighted edge per pair. When given a name instead of a URL, it
first resolves the name to a DBLP profile URL through the DBLP author search.

This project models that core in Dafny:

- `wrappers.dfy` (`Wrappers`): `Option` and `Result`.
- `text.dfy` (`Text`): the Python string operations the program relies on,
  written out on `seq<char>`:
  - `str.isspace`, `startswith`, the `in` test on strings;
  - `split("::")[0]`, `strip()`, `split()`;
  - `<` on `str`, and `str(n)` for a count;
  - `Scholarnet.author_short`, together with an independent reference
    definition of it (`WordStarts`) that is proved equal to it.
- `counters.dfy` (`Counters`): a `defaultdict(int)` counter as `map<K, nat>`,
  tied to a multiset. `Tally(bag)` is the counter that has counted `bag`. The
  module also has sums over record lists that do not depend on record order or
  on records that add nothing.
- `coauthors.dfy` (`Coauthors`): the counting pass of `extract_graph`.
  - `AuthorBag` and `PairBag` are the multisets of everything the two counters
    count.
  - `CountCoauthors` and its inner loops are imperative and are proved to
    produce exactly the tallies of those multisets.
  - The lemmas say what the multisets hold: counts per occurrence, sorted
    pair keys, n(n-1)/2 pairs per paper, order independence, and the
    skipping of empty papers.
- `scholar_graph.dfy` (`ScholarGraph`): the primary author's name and the
  node and edge attributes.
  - `BuildGraph` is the graph one counting pass produces.
  - The class `Scholarnet` keeps `graph` and `mainAuthor` as fields.
    `ExtractGraph` is proved to add exactly `BuildGraph`'s nodes and edges to
    them.
- `resolver.dfy` (`Resolver`): `find_dblp_profile_by_name` on a search result
  page, and the resolution step of `cli`.

The code and the system's design description differ in one place, and the
model follows the code. The description says that a node's count and an
edge's weight are numbers of papers, and that the graph has no self-loops.
The code counts name occurrences instead:

- A name listed twice in one paper is counted twice.
- Such a name is paired with itself, giving the edge `(a, a)`
  (`Coauthors.RepeatedNameSelfPair`).

When no paper lists a name twice, the described properties hold
(`ScholarGraph.DistinctRecordsGraph`, `Coauthors.AuthorBagCountsRecords`,
`Coauthors.PairBagCountsRecords`, `Coauthors.NoSelfPairs`).

## Model

| member | source | states |
|---|---|---|
| Text.BeforeFirst | scholar_graph.py:37 | `split("::")[0]` is the prefix of the title before the first "::": no separator starts inside it, and it is followed by the separator, or it is the whole title when the title holds none |
| Text.Strip | scholar_graph.py:41 | `strip()` yields a string with no white space at either end, found in the input with only white space before and after it |
| Text.WordsAreWords | scholar_graph.py:24 | every word `split()` yields is non-empty and holds no white space, so the `if w` filter of `author_short` drops nothing |
| Text.AuthorShortPerWord | scholar_graph.py:23-24 | `author_short` has exactly one character per word of the name, the word's first character, never white space |
| Text.AuthorShortIsWordStarts | scholar_graph.py:23-24 | `author_short` equals the reference scan: the non-space characters that start the name or follow white space |
| Text.LessTrichotomy | scholar_graph.py:48 | the order `sorted` uses on names is strict and total, so each pair of names has exactly one sorted form |
| Text.NatToString | scholar_graph.py:56-58 | the count printed in a tooltip is a non-empty string of decimal digits |
| Text.NatToStringValue | scholar_graph.py:56-58 | the printed count reads back as the count and has no leading zero |
| Counters.TallyAt | scholar_graph.py:33-34 | a counter that has counted a bag has a key for exactly the counted elements, each mapped to its multiplicity (at least 1) |
| Counters.TallyInc | scholar_graph.py:45 | `counter[k] += 1` on a `defaultdict(int)` turns the tally of a bag into the tally of the bag plus one `k` (the same holds for line 49) |
| Counters.SumPermutation | scholar_graph.py:40-49 | what is counted over a list of papers depends only on the multiset of papers, not their order |
| Counters.SumWithout | scholar_graph.py:42-43 | papers that contribute nothing can be dropped without changing what is counted |
| Coauthors.SortedPair | scholar_graph.py:48 | `tuple(sorted((x, y)))` holds the same two names, the smaller first |
| Coauthors.SortedPairSymmetric | scholar_graph.py:48 | (x, y) and (y, x) are counted under the same key |
| Coauthors.SortedPairEquals | scholar_graph.py:48 | two sorted pairs are the same key exactly when they hold the same two names |
| Coauthors.AuthorList | scholar_graph.py:41 | one name per author element, in order, each stripped of surrounding white space |
| Coauthors.FanSize | scholar_graph.py:47-49 | the inner loop for position i counts one pair per later position |
| Coauthors.FanCount | scholar_graph.py:47-49 | the inner loop for name x counts the pair of two different names a, b as often as the other of the two occurs later, and only when x is one of them |
| Coauthors.RecordPairsSize | scholar_graph.py:46-49 | a paper of n names adds n(n-1)/2 pair counts |
| Coauthors.RecordPairsCount | scholar_graph.py:46-49 | in one paper, the pair of two different names is counted (occurrences of a) times (occurrences of b), whatever their positions |
| Coauthors.RecordPairsSelfCount | scholar_graph.py:46-49 | a name occurring m times in one paper is paired with itself m(m-1)/2 times |
| Coauthors.RecordPairsKeys | scholar_graph.py:46-49 | every pair key a paper adds is sorted and made of names of that paper |
| Coauthors.RecordPairsOrderFree | scholar_graph.py:46-49 | the pairs a paper adds do not depend on the order of its names |
| Coauthors.RepeatedNameSelfPair | scholar_graph.py:46-49 | a paper listing the same name twice pairs that name with itself |
| Coauthors.AuthorBagCountsRecords | scholar_graph.py:40-45 | when no paper repeats a name, an author's count is the number of papers listing the author |
| Coauthors.PairBagCountsRecords | scholar_graph.py:40-49 | when no paper repeats a name, the count of two different names is the number of papers listing both |
| Coauthors.NoSelfPairs | scholar_graph.py:40-49 | when no paper repeats a name, no name is paired with itself |
| Coauthors.PairBagKeys | scholar_graph.py:44-49 | every counted pair key is sorted, and both of its names are counted authors |
| Coauthors.PairBagGrowth | scholar_graph.py:46-49 | one more paper of n names adds exactly n(n-1)/2 to the sum of all pair counts |
| Coauthors.CountsOrderFree | scholar_graph.py:40-49 | both counters depend only on the multiset of papers, not their order |
| Coauthors.EmptyRecordsIgnored | scholar_graph.py:42-43 | papers without authors change neither counter |
| Coauthors.CountedPrefix | scholar_graph.py:40-49 | one more paper adds its names and its pairs to what has been counted, and an empty paper adds nothing |
| Coauthors.CountAuthors | scholar_graph.py:44-45 | the author loop turns the tally of the names counted so far into the tally with this paper's names added |
| Coauthors.CountFan | scholar_graph.py:47-49 | the inner pair loop adds the sorted pairs of `authors[i]` with every later name to the pair tally |
| Coauthors.CountPairs | scholar_graph.py:46-49 | the nested pair loops add exactly the sorted pairs of all positions i < j of the paper to the pair tally |
| Coauthors.CountCoauthors | scholar_graph.py:40-49 | after the loop over all papers, `author_papers` is the tally of every name occurrence and `edge_weights` the tally of every sorted pair of every paper |
| ScholarGraph.MainAuthor | scholar_graph.py:36-37 | the primary author's name has no surrounding white space, and is "Author" when the page has no title |
| ScholarGraph.MainAuthorHasNoSeparator | scholar_graph.py:37 | the name taken from a title never holds "::" |
| ScholarGraph.MainAuthorOfTitle | scholar_graph.py:37 | a title "<name> :: <rest>" yields exactly <name>, for every stripped name without "::" |
| ScholarGraph.TooltipShape | scholar_graph.py:55-59 | the hover text is the author's name, a newline, then a line that ends with the count and starts with "Total Papers: " exactly for the primary author |
| ScholarGraph.GraphNode | scholar_graph.py:51-66 | there is a node for exactly the counted authors. Its size is 10 + 2·count (at least 12), its label is `author_short` of the name, its hover text is the tooltip of its count, and it is red exactly when the author is the primary author, "#1f78b4" otherwise |
| ScholarGraph.PrimaryNode | scholar_graph.py:53-54 | a red node exists only for the primary author, and exactly when that name was counted |
| ScholarGraph.GraphEdge | scholar_graph.py:68-73 | there is an edge for exactly the counted pairs, weighted by the pair's count (at least 1), with a sorted key and both ends nodes of the graph |
| ScholarGraph.DistinctRecordsGraph | scholar_graph.py:39-73 | when no paper repeats a name: node size is 10 + 2·(papers listing the author); two different authors have an edge iff some paper lists both, weighted by the number of such papers; there are no self-loops |
| ScholarGraph.GraphOrderFree | scholar_graph.py:39-73 | the built graph, attributes included, depends only on the multiset of papers |
| ScholarGraph.GraphIgnoresEmptyRecords | scholar_graph.py:42-43 | papers without authors leave the built graph unchanged |
| ScholarGraph.ThreePaperAuthors | scholar_graph.py:44-45 | for the papers [a, b], [a, b, c], [b, c]: a is counted twice, b three times, c twice, and no one else |
| ScholarGraph.ThreePaperPairs | scholar_graph.py:46-49 | for the same papers: (a, b) and (b, c) are counted twice, (a, c) once, and no other pair |
| ScholarGraph.ThreePaperNodes | scholar_graph.py:51-66 | for the same papers, with a as the primary author: nodes a, b, c of sizes 14, 16, 14; only a is red |
| ScholarGraph.ThreePaperEdges | scholar_graph.py:68-73 | for the same papers: edges (a, b) and (b, c) of weight 2, (a, c) of weight 1, and no others |
| ScholarGraph.ThreePapersABC | scholar_graph.py:39-73 | the same worked example with the names "A", "B" and "C" |
| ScholarGraph.NodesOfInsert | scholar_graph.py:60-66 | counting one more author adds, or replaces, exactly that author's node |
| ScholarGraph.Scholarnet.constructor | scholar_graph.py:17-20 | a new object keeps its URL, has an empty graph and no primary author yet |
| ScholarGraph.Scholarnet.ExtractGraph | scholar_graph.py:26-73 | sets the primary author from the page title and adds exactly the nodes and edges of the built graph, replacing the attributes of any already present |
| ScholarGraph.Scholarnet.AddNodes | scholar_graph.py:51-66 | the node loop adds one node per counted author with its derived attributes and touches no edge |
| ScholarGraph.Scholarnet.AddEdges | scholar_graph.py:68-73 | the edge loop adds one edge per counted pair with its count as weight and touches no node |
| Resolver.FirstProfileLink | scholar_graph.py:117-120 | the fallback yields the first link in document order that contains "/pid/", and nothing exactly when no link does |
| Resolver.FindProfile | scholar_graph.py:110-122 | the first link of the first "entry author" item wins when it contains "/pid/"; otherwise the page's first "/pid/" link, if any. Every result contains "/pid/" |
| Resolver.Resolve | scholar_graph.py:139-146 | a query starting with "http" is used as the URL unchanged; any other query fails with not-found exactly when the search finds no profile, and otherwise yields the found profile URL |
| Resolver.ProfileLinkNotEmpty | scholar_graph.py:144 | a found profile link is never empty, so the emptiness test rejects only a missing result |

## Left out

- HTTP requests, their 30-second timeouts and `raise_for_status` (lines 28-29 and 105-107) are left out, because they are I/O. A profile page enters the model as a `ProfilePage`, and the author search as a function parameter of `Resolver.Resolve`.
- HTML parsing with BeautifulSoup is left out. A `ProfilePage` holds the `<title>` text, if any, and the raw text of each entry's author elements. A `SearchPage` holds the first "entry author" item's first link and every link of the page. Matching `href` against the regular expression `/pid/` is modelled as substring containment, which is what that pattern matches.
- The edge colour (lines 70-72) is left out: it is floating-point arithmetic on RGB channels through matplotlib. Edges carry their weight only.
- networkx is modelled as two maps: node attributes by name, and edge weights by sorted pair. An undirected edge is stored under its sorted key. Adding an existing node or edge replaces its attributes.
- ScholarGraph.Scholarnet.AddEdges: requires both ends of every pair to be nodes already. `add_edge` would otherwise add a missing end as a node without attributes. `ExtractGraph` always meets this requirement (`GraphEdge`), so the case never arises in the program.
- The loops over `author_papers.items()` and `edge_weights.items()` pick keys in an unspecified order, not dict insertion order. The final graph does not depend on that order.
- `show`, pyvis and the HTML output (lines 75-100) are left out as rendering I/O.
- In `cli`, argument parsing, the `--depth` warning, the messages printed to stdout and stderr, `sys.exit(1)`, and the calls to `extract_graph` and `show` are left out as I/O. The not-found exit is modelled as the `NotFound` failure of `Resolver.Resolve`.
- `quote_plus` and building the search URL (line 105) are left out. The search parameter receives the query as given.
- Text.IsSpace: `str.isspace` and `str.split()` are modelled with a fixed set of the white space characters Python recognises. Unicode tables are not consulted at run time.
- Python strings are sequences of code points. Dafny's `char` is used for them, with no normalisation.
