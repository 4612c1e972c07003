/**
 * Alphabet discovery: the letter orderings a dictionary implies, column by
 * column, and the method that gathers them into a DirectedGraph and sorts
 * the graph into the alphabet.
 */
module AlphabetDiscovery {
  import opened TopologicalOrder
  import opened Graphs

  datatype Option<T> = None | Some(value: T)

  /** Outcome of alphabet discovery: the alphabet, the letters whose order
      the dictionary leaves open (an underspecified dictionary), or the
      signal that the dictionary contradicts itself (a malformed one). */
  datatype AlphabetResult = Alphabet(letters: seq<char>) | Underspecified(contenders: set<char>) | Malformed

  /** Turns the outcome of the sort into the outcome of discovery. */
  function FromSort(s: SortResult<char>): (r: AlphabetResult)
    ensures r.Alphabet? <==> s.Sorted?
    ensures r.Underspecified? <==> s.Ambiguous?
    ensures r.Malformed? <==> s.Cyclic?
    ensures s.Sorted? ==> r.letters == s.order
    ensures s.Ambiguous? ==> r.contenders == s.contenders
  {
    match s
    case Sorted(order) => Alphabet(order)
    case Ambiguous(c) => Underspecified(c)
    case Cyclic => Malformed
  }

  // ---------------------------------------------------------------------
  // The constraints a dictionary implies

  /** Word `i` has a letter in column `c` (words are left-aligned). */
  predicate Reaches(dict: seq<string>, c: nat, i: int)
  {
    0 <= i < |dict| && c < |dict[i]|
  }

  /** Words `i < j` both reach column `c` and no word between them does:
      they are consecutive among the words that reach the column. */
  ghost predicate Adjacent(dict: seq<string>, c: nat, i: int, j: int)
  {
    && Reaches(dict, c, i) && Reaches(dict, c, j) && i < j
    && forall k :: i < k < j ==> !Reaches(dict, c, k)
  }

  /** Consecutive words in column `c` that agree on every earlier position
      and differ in this one: the first word's letter there comes before
      the second word's. */
  ghost predicate Constraint(dict: seq<string>, c: nat, i: int, j: int)
  {
    Adjacent(dict, c, i, j) && dict[i][c] != dict[j][c] && dict[i][..c] == dict[j][..c]
  }

  /** The longest word's length: no word reaches a column at or past it. */
  function MaxLen(dict: seq<string>): (m: nat)
    ensures forall i :: 0 <= i < |dict| ==> |dict[i]| <= m
  {
    if dict == [] then 0
    else if |dict[0]| > MaxLen(dict[1..]) then |dict[0]|
    else MaxLen(dict[1..])
  }

  /** The letter pairs ordered by constraints in the columns before `col`,
      and in column `col` by the pairs whose second word comes before `n`. */
  ghost function EdgesBefore(dict: seq<string>, col: nat, n: int): set<(char, char)>
  {
    set c: nat, i, j | c <= col && 0 <= i < |dict| && 0 <= j < |dict| && (c < col || j < n) && Constraint(dict, c, i, j)
      :: (dict[i][c], dict[j][c])
  }

  /** Every letter pair some constraint of the dictionary orders. */
  ghost function Edges(dict: seq<string>): set<(char, char)>
  {
    EdgesBefore(dict, MaxLen(dict), 0)
  }

  /** The letters that occur in a set of pairs. */
  ghost function Ends(found: set<(char, char)>): set<char>
  {
    (set p | p in found :: p.0) + (set p | p in found :: p.1)
  }

  /** The adjacency map whose edges are `found` and whose vertices are the
      letters that occur in them. */
  ghost function GraphOf(found: set<(char, char)>): map<char, set<char>>
  {
    map u | u in Ends(found) :: set p | p in found && p.0 == u :: p.1
  }

  /** The graph of every ordering the dictionary implies. */
  ghost function ConstraintGraph(dict: seq<string>): map<char, set<char>>
  {
    GraphOf(Edges(dict))
  }

  /** What discovery returns for `dict`: the constrained topological sort
      of its constraint graph, with the failures renamed. */
  ghost function AlphabetOf(dict: seq<string>): AlphabetResult
  {
    FromSort(KahnSort(ConstraintGraph(dict)))
  }

  // ---------------------------------------------------------------------
  // Discovery

  /** A prefix remembered from an earlier column is shorter than `col`. */
  predicate Stale(prefix: Option<string>, col: nat)
  {
    prefix.Some? ==> |prefix.value| < col
  }

  /** String equality against a possibly missing string, which never equals
      a present one. */
  predicate SameString(s: string, t: Option<string>)
  {
    t == Some(s)
  }

  /** The comparison is String.equals: the other string is present and has
      the same characters, position by position. */
  lemma SameStringIsCharwise(s: string, t: Option<string>)
    ensures SameString(s, t) <==> t.Some? && |t.value| == |s| && forall k :: 0 <= k < |s| ==> t.value[k] == s[k]
  {
    if t.Some? && |t.value| == |s| && forall k :: 0 <= k < |s| ==> t.value[k] == s[k] {
      assert t.value == s;
    }
  }

  /** Scans the dictionary column by column. In each column it pairs every
      word that reaches the column with the previous such word, and adds
      an edge between their letters when the letters differ and the words
      agree before the column. It stops after the first column fewer than
      two words reach, then sorts the graph; an ambiguous sort means an
      underspecified dictionary and a cyclic one a malformed dictionary. */
  method GetAlphabet(dict: seq<string>) returns (r: AlphabetResult)
    ensures r == AlphabetOf(dict)
  {
    var col: nat := 0;
    var dg := new DirectedGraph<char>();
    var prevLetter: Option<char> := None;
    var currLetter: Option<char> := None;
    var prefixBeforePrevLetter: Option<string> := None;
    var prefixBeforeCurrLetter: Option<string> := None;
    ghost var found: set<(char, char)> := {};
    NothingBeforeFirstColumn(dict);
    SpansEmpty(dg.adjLists);

    while true
      invariant dg.Valid() && Spans(dg.adjLists, found)
      invariant found == EdgesBefore(dict, col, 0)
      invariant col <= MaxLen(dict)
      invariant Stale(prefixBeforePrevLetter, col) && Stale(prefixBeforeCurrLetter, col)
      decreases MaxLen(dict) - col
    {
      var wordIdx;
      ghost var last;
      prevLetter, currLetter, prefixBeforePrevLetter, prefixBeforeCurrLetter, wordIdx, last, found :=
        OpenColumn(dict, col, dg, prefixBeforePrevLetter, prefixBeforeCurrLetter, found);
      prevLetter, currLetter, prefixBeforePrevLetter, prefixBeforeCurrLetter, found :=
        ScanRest(dict, col, dg, wordIdx, prevLetter, currLetter, prefixBeforePrevLetter, prefixBeforeCurrLetter, last, found);
      ColumnDone(dict, col);
      col := col + 1;
      if !(prevLetter.Some? && currLetter.Some?) {
        LastColumn(dict, col - 1);
        break;
      }
    }

    assert found == Edges(dict);
    SpansIsGraphOf(dg.adjLists, found);
    assert dg.adjLists == ConstraintGraph(dict);
    var sorted := dg.TopologicalSort();
    r := FromSort(sorted);
  }

  /** The opening of a column's scan: finds the first two words that reach
      column `col` and adds an edge if they order two letters. A prefix is
      only replaced when a word of this column is found, so one remembered
      from an earlier column is still there otherwise. */
  method OpenColumn(dict: seq<string>, col: nat, dg: DirectedGraph<char>,
                    prefixBeforePrevLetter0: Option<string>, prefixBeforeCurrLetter0: Option<string>,
                    ghost found0: set<(char, char)>)
    returns (prevLetter: Option<char>, currLetter: Option<char>,
             prefixBeforePrevLetter: Option<string>, prefixBeforeCurrLetter: Option<string>,
             wordIdx: int, ghost last: int, ghost found: set<(char, char)>)
    requires Stale(prefixBeforePrevLetter0, col) && Stale(prefixBeforeCurrLetter0, col)
    requires dg.Valid() && Spans(dg.adjLists, found0)
    requires found0 == EdgesBefore(dict, col, 0)
    modifies dg
    ensures 0 <= wordIdx <= |dict|
    ensures currLetter.None? ==> wordIdx == |dict| && AtMostOneReaches(dict, col)
    ensures currLetter.Some? ==> !AtMostOneReaches(dict, col)
    ensures currLetter.Some? ==> prevLetter.Some? && Current(dict, col, last, wordIdx, currLetter, prefixBeforeCurrLetter)
    ensures Stale(prefixBeforePrevLetter, col + 1) && Stale(prefixBeforeCurrLetter, col + 1)
    ensures dg.Valid() && Spans(dg.adjLists, found)
    ensures found == EdgesBefore(dict, col, wordIdx)
  {
    prevLetter := None;
    currLetter := None;
    prefixBeforePrevLetter, prefixBeforeCurrLetter := prefixBeforePrevLetter0, prefixBeforeCurrLetter0;
    found := found0;
    wordIdx := 0;

    wordIdx := SkipShortWords(dict, col, wordIdx);
    last := wordIdx;
    if wordIdx < |dict| {
      prevLetter := Some(dict[wordIdx][col]);
      prefixBeforePrevLetter := Some(dict[wordIdx][..col]);
      NoPairEndsAt(dict, col, wordIdx);
      wordIdx := wordIdx + 1;
    }

    ghost var first := last;
    wordIdx := SkipShortWords(dict, col, wordIdx);
    if wordIdx < |dict| {
      assert Reaches(dict, col, first) && Reaches(dict, col, wordIdx) && first != wordIdx;
      currLetter := Some(dict[wordIdx][col]);
      prefixBeforeCurrLetter := Some(dict[wordIdx][..col]);
      PairEndsAt(dict, col, last, wordIdx);
      last := wordIdx;
      wordIdx := wordIdx + 1;
    }
    if prevLetter != currLetter && SameString(prefixBeforePrevLetter.value, prefixBeforeCurrLetter) {
      found := AddOrdering(dg, prevLetter.value, currLetter.value, found);
    }
  }

  /** The rest of a column's scan: pairs each remaining word that reaches
      column `col` with the previous such word, adding an edge wherever the
      pair orders two letters. */
  method ScanRest(dict: seq<string>, col: nat, dg: DirectedGraph<char>, from: int,
                  prevLetter0: Option<char>, currLetter0: Option<char>,
                  prefixBeforePrevLetter0: Option<string>, prefixBeforeCurrLetter0: Option<string>,
                  ghost last0: int, ghost found0: set<(char, char)>)
    returns (prevLetter: Option<char>, currLetter: Option<char>,
             prefixBeforePrevLetter: Option<string>, prefixBeforeCurrLetter: Option<string>,
             ghost found: set<(char, char)>)
    requires 0 <= from <= |dict|
    requires currLetter0.None? ==> from == |dict|
    requires currLetter0.Some? ==> prevLetter0.Some? && Current(dict, col, last0, from, currLetter0, prefixBeforeCurrLetter0)
    requires Stale(prefixBeforePrevLetter0, col + 1) && Stale(prefixBeforeCurrLetter0, col + 1)
    requires dg.Valid() && Spans(dg.adjLists, found0)
    requires found0 == EdgesBefore(dict, col, from)
    modifies dg
    ensures currLetter.Some? == currLetter0.Some? && (currLetter.Some? ==> prevLetter.Some?)
    ensures Stale(prefixBeforePrevLetter, col + 1) && Stale(prefixBeforeCurrLetter, col + 1)
    ensures dg.Valid() && Spans(dg.adjLists, found)
    ensures found == EdgesBefore(dict, col, |dict|)
  {
    prevLetter, currLetter := prevLetter0, currLetter0;
    prefixBeforePrevLetter, prefixBeforeCurrLetter := prefixBeforePrevLetter0, prefixBeforeCurrLetter0;
    found := found0;
    ghost var last := last0;
    var wordIdx := from;
    while wordIdx < |dict|
      invariant wordIdx <= |dict|
      invariant currLetter.Some? == currLetter0.Some?
      invariant currLetter.Some? ==> prevLetter.Some? && Current(dict, col, last, wordIdx, currLetter, prefixBeforeCurrLetter)
      invariant Stale(prefixBeforePrevLetter, col + 1) && Stale(prefixBeforeCurrLetter, col + 1)
      invariant dg.Valid() && Spans(dg.adjLists, found)
      invariant found == EdgesBefore(dict, col, wordIdx)
    {
      if |dict[wordIdx]| > col {
        prevLetter := currLetter;
        prefixBeforePrevLetter := prefixBeforeCurrLetter;
        currLetter := Some(dict[wordIdx][col]);
        prefixBeforeCurrLetter := Some(dict[wordIdx][..col]);
        PairEndsAt(dict, col, last, wordIdx);
        if prevLetter != currLetter && SameString(prefixBeforePrevLetter.value, prefixBeforeCurrLetter) {
          found := AddOrdering(dg, prevLetter.value, currLetter.value, found);
        }
        last := wordIdx;
      } else {
        NoPairEndsAt(dict, col, wordIdx);
      }
      wordIdx := wordIdx + 1;
    }
  }

  /** Adds the edge `a -> b` to a graph that spans `found`. */
  method AddOrdering(dg: DirectedGraph<char>, a: char, b: char, ghost found: set<(char, char)>)
    returns (ghost found': set<(char, char)>)
    requires dg.Valid() && Spans(dg.adjLists, found)
    modifies dg
    ensures found' == found + {(a, b)}
    ensures dg.Valid() && Spans(dg.adjLists, found')
  {
    ghost var adj0 := dg.adjLists;
    dg.AddEdge(a, b);
    SpansAfterAddEdge(dg, adj0, found, a, b);
    found' := found + {(a, b)};
  }

  /** The first word from `from` on that reaches column `col`, or the end
      of the dictionary; the words skipped add no constraint. */
  method SkipShortWords(dict: seq<string>, col: nat, from: int) returns (next: int)
    requires 0 <= from <= |dict|
    ensures from <= next <= |dict|
    ensures next < |dict| ==> Reaches(dict, col, next)
    ensures forall k :: from <= k < next ==> !Reaches(dict, col, k)
    ensures EdgesBefore(dict, col, next) == EdgesBefore(dict, col, from)
  {
    next := from;
    while next < |dict| && |dict[next]| <= col
      invariant from <= next <= |dict|
      invariant forall k :: from <= k < next ==> !Reaches(dict, col, k)
      invariant EdgesBefore(dict, col, next) == EdgesBefore(dict, col, from)
    {
      NoPairEndsAt(dict, col, next);
      next := next + 1;
    }
  }

  /** Word `last` is the latest word before `n` that reaches column `col`,
      and `letter` and `prefix` hold its letter there and what precedes it. */
  ghost predicate Current(dict: seq<string>, col: nat, last: int, n: int, letter: Option<char>, prefix: Option<string>)
  {
    && 0 <= last < n
    && Reaches(dict, col, last)
    && letter == Some(dict[last][col])
    && prefix == Some(dict[last][..col])
    && forall k :: last < k < n ==> !Reaches(dict, col, k)
  }

  /** At most one word reaches column `col`. */
  ghost predicate AtMostOneReaches(dict: seq<string>, col: nat)
  {
    forall i, j :: Reaches(dict, col, i) && Reaches(dict, col, j) ==> i == j
  }

  /** `adj` has exactly the edges `found`, and its vertices are exactly the
      letters occurring in them. */
  ghost predicate Spans(adj: map<char, set<char>>, found: set<(char, char)>)
  {
    && adj.Keys == Ends(found)
    && forall x, y :: (x in adj && y in adj[x]) <==> (x, y) in found
  }

  // ---------------------------------------------------------------------
  // Lemmas behind the scan

  lemma NothingBeforeFirstColumn(dict: seq<string>)
    ensures EdgesBefore(dict, 0, 0) == {}
  {
  }

  lemma SpansEmpty(adj: map<char, set<char>>)
    requires adj == map[]
    ensures Spans(adj, {})
  {
  }

  /** Only one word can be the partner of `j` from above. */
  lemma AdjacentUnique(dict: seq<string>, c: nat, i: int, i': int, j: int)
    requires Adjacent(dict, c, i, j) && Adjacent(dict, c, i', j)
    ensures i == i'
  {
    assert i < i' ==> !Reaches(dict, c, i');
    assert i' < i ==> !Reaches(dict, c, i);
  }

  /** A word with no partner in its column adds no constraint. */
  lemma NoPairEndsAt(dict: seq<string>, col: nat, j: int)
    requires 0 <= j < |dict|
    requires !Reaches(dict, col, j) || forall k :: 0 <= k < j ==> !Reaches(dict, col, k)
    ensures EdgesBefore(dict, col, j + 1) == EdgesBefore(dict, col, j)
  {
    forall p | p in EdgesBefore(dict, col, j + 1) ensures p in EdgesBefore(dict, col, j) {
      var c: nat, i, k :| c <= col && 0 <= i < |dict| && 0 <= k < |dict| && (c < col || k < j + 1)
        && Constraint(dict, c, i, k) && p == (dict[i][c], dict[k][c]);
      assert c < col || k < j;
    }
  }

  /** Word `j`'s partner `i` adds exactly the constraint of the pair. */
  lemma PairEndsAt(dict: seq<string>, col: nat, i: int, j: int)
    requires Adjacent(dict, col, i, j)
    ensures EdgesBefore(dict, col, j + 1) ==
      EdgesBefore(dict, col, j) + if Constraint(dict, col, i, j) then {(dict[i][col], dict[j][col])} else {}
  {
    forall p | p in EdgesBefore(dict, col, j + 1) && p !in EdgesBefore(dict, col, j)
      ensures Constraint(dict, col, i, j) && p == (dict[i][col], dict[j][col])
    {
      var c: nat, i', k :| c <= col && 0 <= i' < |dict| && 0 <= k < |dict| && (c < col || k < j + 1)
        && Constraint(dict, c, i', k) && p == (dict[i'][c], dict[k][c]);
      assert c == col && k == j;
      AdjacentUnique(dict, col, i, i', j);
    }
  }

  /** Finishing a column is starting the next one. */
  lemma ColumnDone(dict: seq<string>, col: nat)
    ensures EdgesBefore(dict, col, |dict|) == EdgesBefore(dict, col + 1, 0)
  {
  }

  /** Once a column is reached by at most one word, no later column holds
      a constraint: the scan has found all of them. */
  lemma LastColumn(dict: seq<string>, col: nat)
    requires AtMostOneReaches(dict, col)
    ensures EdgesBefore(dict, col + 1, 0) == Edges(dict)
  {
    forall p | p in Edges(dict) ensures p in EdgesBefore(dict, col + 1, 0) {
      var c: nat, i, j :| c <= MaxLen(dict) && 0 <= i < |dict| && 0 <= j < |dict| && c < MaxLen(dict)
        && Constraint(dict, c, i, j) && p == (dict[i][c], dict[j][c]);
      if c > col {
        assert Reaches(dict, col, i) && Reaches(dict, col, j);
        assert false;
      }
    }
    forall p | p in EdgesBefore(dict, col + 1, 0) ensures p in Edges(dict) {
      var c: nat, i, j :| c <= col + 1 && 0 <= i < |dict| && 0 <= j < |dict| && c < col + 1
        && Constraint(dict, c, i, j) && p == (dict[i][c], dict[j][c]);
      assert c < |dict[i]| <= MaxLen(dict);
    }
  }

  /** Adding an edge with AddEdge adds it to the edges the graph spans. */
  lemma SpansAfterAddEdge(dg: DirectedGraph<char>, adj0: map<char, set<char>>, found: set<(char, char)>, a: char, b: char)
    requires Spans(adj0, found)
    requires dg.adjLists.Keys == adj0.Keys + {a, b}
    requires forall u, v :: dg.HasEdge(u, v) <==> (u in adj0 && v in adj0[u]) || (u == a && v == b)
    ensures Spans(dg.adjLists, found + {(a, b)})
  {
    var adj := dg.adjLists;
    forall x, y ensures (x in adj && y in adj[x]) <==> (x, y) in found + {(a, b)} {
      assert dg.HasEdge(x, y) <==> (x in adj && y in adj[x]);
    }
    EndsInsert(found, a, b);
  }

  lemma EndsInsert(found: set<(char, char)>, a: char, b: char)
    ensures Ends(found + {(a, b)}) == Ends(found) + {a, b}
  {
    assert (a, b).0 == a && (a, b).1 == b;
  }

  /** A map spanning `found` is the graph of `found`. */
  lemma SpansIsGraphOf(adj: map<char, set<char>>, found: set<(char, char)>)
    requires Spans(adj, found)
    ensures adj == GraphOf(found)
  {
    var g := GraphOf(found);
    forall u | u in adj ensures adj[u] == g[u] {
      forall v ensures v in adj[u] <==> v in g[u] {
        if v in adj[u] {
          assert (u, v) in found && (u, v).0 == u;
        }
      }
    }
  }

  // ---------------------------------------------------------------------
  // What the constraint graph holds

  /** The graph has the edge `x -> y` exactly when some column has two
      consecutive words, agreeing before the column, with letters `x` and
      `y` there. */
  lemma ConstraintGraphEdges(dict: seq<string>, x: char, y: char)
    ensures (x in ConstraintGraph(dict) && y in ConstraintGraph(dict)[x]) <==>
      exists c: nat, i, j :: Constraint(dict, c, i, j) && dict[i][c] == x && dict[j][c] == y
  {
    var g := ConstraintGraph(dict);
    if x in g && y in g[x] {
      var p :| p in Edges(dict) && p.0 == x && p.1 == y;
      var c: nat, i, j :| c <= MaxLen(dict) && 0 <= i < |dict| && 0 <= j < |dict| && c < MaxLen(dict)
        && Constraint(dict, c, i, j) && p == (dict[i][c], dict[j][c]);
      assert dict[i][c] == x && dict[j][c] == y;
    }
    if exists c: nat, i, j :: Constraint(dict, c, i, j) && dict[i][c] == x && dict[j][c] == y {
      var c: nat, i, j :| Constraint(dict, c, i, j) && dict[i][c] == x && dict[j][c] == y;
      assert c < |dict[i]| <= MaxLen(dict);
      assert (x, y) in Edges(dict);
      assert x in Ends(Edges(dict));
    }
  }

  /** No letter is ordered before itself, and every vertex is a letter of
      some word. */
  lemma ConstraintGraphShape(dict: seq<string>)
    ensures forall x :: x in ConstraintGraph(dict) ==> x !in ConstraintGraph(dict)[x]
    ensures forall x :: x in ConstraintGraph(dict) ==>
      exists i, k :: 0 <= i < |dict| && 0 <= k < |dict[i]| && dict[i][k] == x
  {
    var g := ConstraintGraph(dict);
    forall x | x in g ensures x !in g[x] {
      if x in g[x] {
        ConstraintGraphEdges(dict, x, x);
        assert false;
      }
    }
    forall x | x in g ensures exists i, k :: 0 <= i < |dict| && 0 <= k < |dict[i]| && dict[i][k] == x {
      var p :| p in Edges(dict) && (p.0 == x || p.1 == x);
      var c: nat, i, j :| c <= MaxLen(dict) && 0 <= i < |dict| && 0 <= j < |dict| && c < MaxLen(dict)
        && Constraint(dict, c, i, j) && p == (dict[i][c], dict[j][c]);
      if p.0 == x {
        assert dict[i][c] == x;
      } else {
        assert dict[j][c] == x;
      }
    }
  }

  // ---------------------------------------------------------------------
  // What the outcome means

  /** Discovery succeeds with `s` exactly when `s` is the only order of the
      constraint graph's letters that respects every constraint. */
  lemma AlphabetIffUniqueOrder(dict: seq<string>, s: seq<char>)
    ensures AlphabetOf(dict) == Alphabet(s) <==> IsUniqueTopologicalOrder(ConstraintGraph(dict), s)
  {
    SortedIffUniqueOrder(ConstraintGraph(dict), s);
  }

  /** An underspecified dictionary names at least two letters waiting
      together and has no unique order; a malformed one has a cycle of
      constraints; a dictionary with a cycle never yields an alphabet. */
  lemma FailuresExplained(dict: seq<string>)
    ensures AlphabetOf(dict).Underspecified? ==>
      |AlphabetOf(dict).contenders| >= 2 && AlphabetOf(dict).contenders <= ConstraintGraph(dict).Keys &&
      forall s :: !IsUniqueTopologicalOrder(ConstraintGraph(dict), s)
    ensures AlphabetOf(dict) == Malformed ==> HasCycle(ConstraintGraph(dict))
    ensures HasCycle(ConstraintGraph(dict)) ==> !AlphabetOf(dict).Alphabet?
  {
    var g := ConstraintGraph(dict);
    if KahnSort(g).Ambiguous? {
      AmbiguousHasNoUniqueOrder(g, KahnSort(g).contenders);
    }
    if KahnSort(g) == Cyclic {
      CyclicMeansCycle(g);
    }
    if HasCycle(g) {
      var c :| IsCycle(g, c);
      CycleIsNeverSorted(g, c);
    }
  }

  /** A dictionary of fewer than two words (the empty one included) yields
      the empty alphabet. */
  lemma FewerThanTwoWords(dict: seq<string>)
    requires |dict| <= 1
    ensures AlphabetOf(dict) == Alphabet([])
  {
    assert Edges(dict) == {};
    assert ConstraintGraph(dict) == map[];
    EmptyGraphSortsToEmpty(ConstraintGraph(dict));
  }

  // ---------------------------------------------------------------------
  // Soundness for a dictionary sorted under some alphabet

  ghost predicate StrictTotalOrder(lt: (char, char) -> bool)
  {
    && (forall x :: !lt(x, x))
    && (forall x, y, z :: lt(x, y) && lt(y, z) ==> lt(x, z))
    && (forall x, y :: x != y ==> lt(x, y) || lt(y, x))
  }

  /** `a` comes no later than `b` in the dictionary order `lt` induces:
      they agree up to a position where `a` ends or has the smaller letter. */
  ghost predicate LexLeq(lt: (char, char) -> bool, a: string, b: string)
  {
    exists k :: 0 <= k <= |a| && k <= |b| && a[..k] == b[..k] && (k == |a| || (k < |b| && lt(a[k], b[k])))
  }

  /** Every word comes no later than the words after it. */
  ghost predicate SortedBy(lt: (char, char) -> bool, dict: seq<string>)
  {
    forall i, j :: 0 <= i < j < |dict| ==> LexLeq(lt, dict[i], dict[j])
  }

  /** In a sorted dictionary, every constraint agrees with the alphabet. */
  lemma ConstraintAgreesWithOrder(lt: (char, char) -> bool, dict: seq<string>, c: nat, i: int, j: int)
    requires StrictTotalOrder(lt) && SortedBy(lt, dict)
    requires Constraint(dict, c, i, j)
    ensures lt(dict[i][c], dict[j][c])
  {
    var a, b := dict[i], dict[j];
    assert LexLeq(lt, a, b);
    var k :| 0 <= k <= |a| && k <= |b| && a[..k] == b[..k] && (k == |a| || (k < |b| && lt(a[k], b[k])));
    assert k == c;
  }

  /** Every edge of a sorted dictionary's graph agrees with the alphabet. */
  lemma EdgesAgreeWithOrder(lt: (char, char) -> bool, dict: seq<string>)
    requires StrictTotalOrder(lt) && SortedBy(lt, dict)
    ensures forall x, y :: x in ConstraintGraph(dict) && y in ConstraintGraph(dict)[x] ==> lt(x, y)
  {
    var g := ConstraintGraph(dict);
    forall x, y | x in g && y in g[x] ensures lt(x, y) {
      ConstraintGraphEdges(dict, x, y);
      var c: nat, i, j :| Constraint(dict, c, i, j) && dict[i][c] == x && dict[j][c] == y;
      ConstraintAgreesWithOrder(lt, dict, c, i, j);
    }
  }

  /** A sorted dictionary is never reported malformed. */
  lemma SortedIsNeverMalformed(lt: (char, char) -> bool, dict: seq<string>)
    requires StrictTotalOrder(lt) && SortedBy(lt, dict)
    ensures !HasCycle(ConstraintGraph(dict))
    ensures AlphabetOf(dict) != Malformed
  {
    EdgesAgreeWithOrder(lt, dict);
    OrderedEdgesNeverCyclic(ConstraintGraph(dict), lt);
  }

  /** The alphabet found for a sorted dictionary lists exactly the graph's
      letters, in the dictionary's own order. */
  lemma SortedGivesTheOrder(lt: (char, char) -> bool, dict: seq<string>, s: seq<char>)
    requires StrictTotalOrder(lt) && SortedBy(lt, dict)
    requires AlphabetOf(dict) == Alphabet(s)
    ensures Elems(s) == ConstraintGraph(dict).Keys
    ensures forall i, j :: 0 <= i < j < |s| ==> lt(s[i], s[j])
  {
    var g := ConstraintGraph(dict);
    assert KahnSort(g) == Sorted(s);
    SortedIsChainOrder(g, s);
    EdgesAgreeWithOrder(lt, dict);
    forall i, j | 0 <= i < j < |s| ensures lt(s[i], s[j]) {
      ChainRises(lt, g, s, i, j);
    }
  }

  lemma {:induction false} ChainRises(lt: (char, char) -> bool, adj: map<char, set<char>>, s: seq<char>, i: int, j: int)
    requires forall x, y, z :: lt(x, y) && lt(y, z) ==> lt(x, z)
    requires forall x, y :: x in adj && y in adj[x] ==> lt(x, y)
    requires IsChain(adj, s) && 0 <= i < j < |s|
    ensures lt(s[i], s[j])
    decreases j - i
  {
    assert Joined(adj, s, j);
    if i < j - 1 {
      ChainRises(lt, adj, s, i, j - 1);
    }
  }
}
