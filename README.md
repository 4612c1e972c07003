# Alphabet discovery from a sorted dictionary

This project models the alphabet-discovery program in `Solution.java` in Dafny and proves properties of the model.

The program reads a dictionary of words, sorted under an alphabet it does not know, and recovers that alphabet. It has two parts:

- **`DirectedGraph<E>`** keeps two maps that it updates in place:
  - an adjacency set per vertex;
  - an in-degree counter per vertex, where a missing counter means 0.

  Its topological sort is Kahn's algorithm with two extra rules:
  - it refuses to choose when two vertices wait at once (the *ambiguous* outcome);
  - it reports a cycle when vertices are left over (the *cyclic* outcome).
- **`getAlphabet`** reads the dictionary column by column, with words left-aligned.
  - In each column it pairs every word that has a letter there with the previous such word.
  - It adds the edge "earlier letter before later letter" when the two letters differ and the two words agree on every earlier column.
  - It stops after the first column that fewer than two words reach.
  - It then sorts the graph. An ambiguous sort becomes an *underspecified* dictionary, and a cyclic sort a *malformed* one.

The model has four modules:

- `TopologicalOrder` (`topological_order.dfy`) holds the reference definition of the constrained sort, as a pure function of an adjacency map:
  - `KahnRun` extends the output while exactly one vertex waits;
  - `KahnSort` decides the outcome.

  Its lemmas say what the three outcomes mean: the unique topological order, no unique order, a directed cycle.
- `Graphs` (`directed_graph.dfy`) has the class `DirectedGraph`. Its fields are the two maps, and `Valid()` is the graph invariant: every counter equals the number of distinct predecessors, and every successor is a vertex.
  - `AddEdge` and `UpdateInDegree` change the fields in place.
  - `TopologicalSort` runs Kahn's loop on a copied counter map and a queue.
  - `TopologicalSort` is proved to return exactly `KahnSort` of the adjacency map. The order in which the Java hash maps and sets are visited therefore cannot change the outcome. The model picks vertices with `:|`.
- `AlphabetDiscovery` (`alphabet.dfy`) defines what a dictionary implies:
  - `Constraint` is a pair of words consecutive among those reaching a column, with equal prefixes and different letters.
  - `Edges` is the set of all constraints, and `ConstraintGraph` their graph.
  - `AlphabetOf` is the sort of that graph, with the failures renamed.

  The exceptions become result variants. `SortResult`'s `Ambiguous` and `Cyclic` stand for `AmbiguousTopologicalSortException` and `CyclicDirectedGraphException` (Solution.java:15-24). `AlphabetResult`'s `Underspecified` and `Malformed` stand for `UnderspecifiedDictionaryException` and `MalformedDictionaryException` (Solution.java:162-171). `FromSort` is the translation done by the two `catch` blocks.

  `GetAlphabet` is the column scan over a `DirectedGraph<char>`, and it is proved to return `AlphabetOf(dict)`. The scan follows the Java statement for statement. The single Java method is split into helper methods along its own structure, which keeps each proof small:
  - the opening of a column is `OpenColumn`;
  - the loop over the remaining words is `ScanRest`;
  - the skip over short words is `SkipShortWords`;
  - the edge insertion is `AddOrdering`.

  The previous and current letters and prefixes are `Option` values, with `None` standing for Java's `null`.
  - The prefixes persist from column to column, as in the Java.
  - Calling `.value` on them is checked by the verifier. This shows that the receiver of `equals`, `prefixBeforePrevLetter`, and the `addEdge` arguments at lines 235-237 and 250-253 are never `null`. The argument of `equals` can be `null`: for the dictionary `["a"]`, line 235 compares `""` with `null`. `SameString` models that comparison, which is false for a missing string, and `SameStringIsCharwise` states what it means.
  - Whenever only one word reaches a column, the prefix it is compared with is `null` or comes from an earlier column. A `null` prefix never compares equal, and a prefix from an earlier column is shorter, so no edge is added.

- `AlphabetTraces` (`traces.dfy`) works three small dictionaries through by hand. It proves the constraint edges each one implies and the result of discovery on it: an alphabet, an underspecified dictionary and a malformed one.

Vertices are created only by `addEdge` (Solution.java:72-91). A letter that takes part in no constraint is therefore not in the result, and a dictionary with fewer than two words yields the empty alphabet. The vertices of the model's graph are exactly the letters of some constraint.

## Model

| member | source | states |
|---|---|---|
| Graphs.DirectedGraph.constructor | Solution.java:35-37 | A new graph has no vertices and no counters, and satisfies the graph invariant. |
| Graphs.DirectedGraph.HasEdge | Solution.java:46-52 | There is no edge out of a `from` that is not a vertex. In a valid graph, both ends of an edge are vertices. |
| Graphs.DirectedGraph.InDegree | Solution.java:57-63 | A vertex with no counter has in-degree 0, and one with a counter has that counter. The counter copy at lines 118-121 reads it the same way. In a valid graph the in-degree of a vertex is its number of distinct predecessors, and a non-vertex has in-degree 0. |
| Graphs.DirectedGraph.UpdateInDegree | Solution.java:55-64 | The counter of `vertex` rises by exactly one, starting from 1 when it was missing. No other counter changes. |
| Graphs.DirectedGraph.AddEdge | Solution.java:72-91 | The graph invariant is kept, and afterwards the edge is there. The vertices become the old ones plus both endpoints. The edges become the old ones plus this one. Only the target's in-degree changes, and it rises by one exactly when the edge is new. Inserting an existing edge changes neither map. |
| Graphs.AddEdgeKeepsConsistent | Solution.java:72-91 | Inserting a new edge and adding one to its target's counter keeps the invariant: every counter equals the number of distinct predecessors, and successors are vertices. |
| Graphs.DirectedGraph.VertexCount | Solution.java:99-101 | The result is the number of vertices. |
| Graphs.DirectedGraph.TopologicalSort | Solution.java:110-157 | The result is the reference sort of the adjacency map, whatever order the maps and sets are visited in. |
| Graphs.InitialCounts | Solution.java:116-123 | The copied counter map has an entry for every vertex, equal to its number of predecessors. |
| Graphs.ZeroInDegrees | Solution.java:126-131 | The initial queue holds, each once, exactly the vertices whose counter is zero. |
| Graphs.InitialQueue | Solution.java:126-131 | Before the loop, the queue holds exactly the vertices the reference run has waiting, and the loop invariant holds. |
| Graphs.StopAmbiguous | Solution.java:136-137 | With more than one vertex queued, the reference sort is ambiguous with exactly the queued vertices as contenders. |
| Graphs.OutputStep | Solution.java:139-140 | Outputting the single queued vertex extends the output as the reference run does. Each of its successors then has one decrement pending. |
| Graphs.ReleaseSuccessors | Solution.java:143-148 | Lowering each successor's counter and queueing those that reach zero restores the loop invariant. Afterwards the queue holds exactly the vertices now waiting. |
| Graphs.WaitingIff | Solution.java:144-146 | A vertex not yet output is waiting exactly when none of its predecessors is left, which is when its counter reaches zero. |
| Graphs.StopEmpty | Solution.java:153-156 | With the queue empty, the reference sort has output exactly `sorted`. It is cyclic when fewer vertices came out than exist, and sorted otherwise. |
| TopologicalOrder.SortedIsChainOrder | Solution.java:133-156 | A successful sort lists every vertex exactly once, so its length is the vertex count. Every edge points forwards, and consecutive vertices are joined by an edge. |
| TopologicalOrder.SortedIffUniqueOrder | Solution.java:104-157 | The sort succeeds with `s` if and only if `s` is the graph's one and only topological order. |
| TopologicalOrder.AmbiguousHasNoUniqueOrder | Solution.java:136-137 | An ambiguous outcome names at least two vertices, and the graph has no unique topological order. |
| TopologicalOrder.TwoOrdersAreAmbiguous | Solution.java:133-148 | A graph with two different topological orders is always reported ambiguous, whatever the traversal order. |
| TopologicalOrder.CyclicHasNoOrder | Solution.java:153-154 | A graph reported cyclic has no topological order at all. |
| TopologicalOrder.CyclicMeansCycle | Solution.java:153-154 | A graph is reported cyclic only when it has a directed cycle, so an acyclic graph is never reported cyclic. |
| TopologicalOrder.CycleIsNeverSorted | Solution.java:133-156 | A graph with a directed cycle has no topological order and never sorts successfully. It is reported cyclic, or ambiguous when that check fires first. |
| TopologicalOrder.OrderedEdgesNeverCyclic | Solution.java:153-154 | If every edge agrees with an irreflexive, transitive relation, the graph has no cycle and is never reported cyclic. |
| TopologicalOrder.EmptyGraphSortsToEmpty | Solution.java:110-156 | The empty graph sorts to the empty list. |
| AlphabetDiscovery.FromSort | Solution.java:264-275 | Each sort outcome maps to its own discovery outcome. A successful sort gives the alphabet with the same letters. An ambiguous sort gives an underspecified dictionary with the same contenders. A cyclic graph gives a malformed dictionary. |
| AlphabetDiscovery.SameStringIsCharwise | Solution.java:235 | The comparison at lines 235 and 250 holds exactly when the other prefix is present and has the same length and the same character at every position. A missing prefix never compares equal. |
| AlphabetDiscovery.GetAlphabet | Solution.java:190-278 | The result is the constrained sort of the dictionary's constraint graph. An ambiguous sort becomes Underspecified, carrying the waiting letters, and a cyclic sort becomes Malformed. |
| AlphabetDiscovery.OpenColumn | Solution.java:207-237 | The first two words reaching the column are found and compared, and the edge is added exactly when they form a constraint. The current letter stays `null` exactly when fewer than two words reach the column. Together with `ScanRest`, which keeps whether the current letter is `null`, the column loop stops exactly at the first column that fewer than two words reach. |
| AlphabetDiscovery.SkipShortWords | Solution.java:215 | The scan stops at the next word that reaches the column, or at the end. The words passed over reach no further and add no constraint. |
| AlphabetDiscovery.ScanRest | Solution.java:240-257 | Each remaining word that reaches the column is paired with the previous such word. Afterwards the graph holds exactly the constraints of this and earlier columns. |
| AlphabetDiscovery.AddOrdering | Solution.java:235-237 | Adding the edge with `addEdge` keeps the graph invariant, and the graph then holds exactly the earlier edges plus this one. |
| AlphabetDiscovery.NoPairEndsAt | Solution.java:242 | A word that does not reach the column, or the first word that does, adds no constraint. |
| AlphabetDiscovery.PairEndsAt | Solution.java:242-253 | A word reaching the column, paired with the previous word that reaches it, adds exactly that pair's constraint and nothing else. |
| AlphabetDiscovery.AdjacentUnique | Solution.java:244-246 | A word reaching a column has only one possible previous partner there. |
| AlphabetDiscovery.LastColumn | Solution.java:259-261 | Once a column is reached by at most one word, no later column holds a constraint. Stopping there loses nothing. |
| AlphabetDiscovery.ConstraintGraphEdges | Solution.java:206-261 | The graph has the edge x -> y exactly when, in some column c, x and y are the letters of two words that are consecutive among the words longer than c and agree on positions 0..c-1. |
| AlphabetDiscovery.ConstraintGraphShape | Solution.java:233-253 | There are no self-loops, and every vertex is a letter of some word. |
| AlphabetDiscovery.AlphabetIffUniqueOrder | Solution.java:264-277 | Discovery returns the alphabet `s` exactly when `s` is the only order of the graph's letters that respects every constraint. |
| AlphabetDiscovery.FailuresExplained | Solution.java:264-275 | An Underspecified result names at least two letters of the graph, and no unique order exists. A Malformed result means the constraints contain a cycle. A cycle never yields an alphabet. |
| AlphabetDiscovery.FewerThanTwoWords | Solution.java:206-261 | The empty dictionary and a one-word dictionary give the empty alphabet. |
| AlphabetDiscovery.ConstraintAgreesWithOrder | Solution.java:183-189 | In a dictionary sorted lexicographically under a strict total order of letters, every constraint puts the smaller letter first. |
| AlphabetDiscovery.EdgesAgreeWithOrder | Solution.java:233-253 | Every edge of a sorted dictionary's graph agrees with its alphabet. |
| AlphabetDiscovery.SortedIsNeverMalformed | Solution.java:273-274 | A sorted dictionary's graph has no cycle, so discovery never reports it malformed. |
| AlphabetDiscovery.SortedGivesTheOrder | Solution.java:264-277 | For a sorted dictionary, a successful result lists exactly the graph's letters, in strictly increasing alphabet order. It is the alphabet restricted to those letters. |
| AlphabetTraces.SortedEdges | Solution.java:206-261 | The dictionary cbca, cbb, aa, aba implies exactly c before a, a before b and c before b. |
| AlphabetTraces.DictionaryGivesItsAlphabet | Solution.java:190-278 | Discovery on cbca, cbb, aa, aba returns the alphabet c, a, b. |
| AlphabetTraces.TiedEdges | Solution.java:206-261 | The dictionary c, ac, ab implies exactly c before a and c before b. |
| AlphabetTraces.TiedDictionaryIsUnderspecified | Solution.java:264-271 | Discovery on c, ac, ab reports an underspecified dictionary, with a and b as the letters whose order is unknown. |
| AlphabetTraces.CircularEdges | Solution.java:206-261 | The dictionary c, a, b, c implies exactly c before a, a before b and b before c. |
| AlphabetTraces.CircularDictionaryIsMalformed | Solution.java:264-275 | Discovery on c, a, b, c reports a malformed dictionary. |

## Left out

- `main` (Solution.java:280-302): the argument check, reading the word file, printing and exiting are I/O and are not modelled. The dictionary is a parameter.
- The text of the ambiguity message (Solution.java:137) is not modelled. The ambiguous outcome carries the set of waiting vertices instead, and Underspecified carries the same set.
- Letters are compared with `!=` on boxed `Character` values (Solution.java:235, 250), which is reference identity. It agrees with value equality only for the cached characters up to `\u007F`. The model compares letters by value.
- Java `char` is a UTF-16 code unit, and `length()` and `charAt` (Solution.java:215, 219, 225, 229, 242, 246) count code units. The model's `char` is a Unicode scalar value, one column per letter. It therefore covers dictionaries whose letters are single UTF-16 units, the Basic Multilingual Plane. For a letter outside it, Java scans its two surrogate halves as two columns and orders the halves. For `["𝔸","𝔹"]`, Java finds equal high surrogates in column 0 and orders the two low surrogates in column 1, while the model orders 𝔸 before 𝔹 in column 0.
- A `null` dictionary or a `null` word would make the Java throw `NullPointerException`. A `seq<string>` has no `null`, so this case is not modelled.
- The in-degree counters are Java `Integer`s (Solution.java:55-64) and could overflow past 2^31 - 1 edges into one vertex. The model counts with unbounded `nat`.
- The anonymous-subclass initialisers of the counter copy and the queue (Solution.java:116-131) are modelled as a map comprehension and the method `ZeroInDegrees`. `LinkedList`/`Deque` is modelled as `seq`, and hash iteration order as arbitrary choice.
- `addEdge` updates the successor `HashSet` object in place and stores it back (Solution.java:76-83). The model replaces the map entry with a new set value. No other reference to those sets exists, so this aliasing is not observable.
