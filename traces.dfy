/**
 * Small dictionaries worked through by hand: what the scan finds in each
 * column and what the sort then makes of the graph.
 */
module AlphabetTraces {
  import opened TopologicalOrder
  import opened AlphabetDiscovery

  /** Every word reaches column 0, so each word is paired with the next. */
  lemma CircularEdges()
    ensures Edges(["c", "a", "b", "c"]) == {('c', 'a'), ('a', 'b'), ('b', 'c')}
  {
    var d := ["c", "a", "b", "c"];
    var e := {('c', 'a'), ('a', 'b'), ('b', 'c')};
    assert MaxLen(d) == 1;
    forall p | p in Edges(d) ensures p in e {
      var c: nat, i, j :| c <= 1 && 0 <= i < 4 && 0 <= j < 4 && c < 1
        && Constraint(d, c, i, j) && p == (d[i][c], d[j][c]);
      assert j == i + 1 by {
        assert Reaches(d, 0, i + 1);
      }
    }
    assert Constraint(d, 0, 0, 1) && Constraint(d, 0, 1, 2) && Constraint(d, 0, 2, 3);
  }

  /** The edge map of the cycle spans exactly its three pairs. */
  lemma CircularSpans()
    ensures Spans(map['c' := {'a'}, 'a' := {'b'}, 'b' := {'c'}], {('c', 'a'), ('a', 'b'), ('b', 'c')})
  {
    var e := {('c', 'a'), ('a', 'b'), ('b', 'c')};
    var g := map['c' := {'a'}, 'a' := {'b'}, 'b' := {'c'}];
    assert Ends(e) == g.Keys;
    forall x, y | (x, y) in e ensures x in g && y in g[x] { }
    forall x, y | x in g && y in g[x] ensures (x, y) in e {
      assert x == 'c' || x == 'a' || x == 'b';
    }
  }

  /** The cycle dictionary's constraint graph. */
  lemma CircularGraph()
    ensures ConstraintGraph(["c", "a", "b", "c"]) == map['c' := {'a'}, 'a' := {'b'}, 'b' := {'c'}]
  {
    CircularEdges();
    CircularSpans();
    SpansIsGraphOf(map['c' := {'a'}, 'a' := {'b'}, 'b' := {'c'}], {('c', 'a'), ('a', 'b'), ('b', 'c')});
  }

  /** Every vertex has a predecessor, so nothing is ever waiting. */
  lemma CircularSort()
    ensures KahnSort(map['c' := {'a'}, 'a' := {'b'}, 'b' := {'c'}]) == Cyclic
  {
    var g := map['c' := {'a'}, 'a' := {'b'}, 'b' := {'c'}];
    assert 'c' in Preds(g, 'a') && 'a' in Preds(g, 'b') && 'b' in Preds(g, 'c');
    assert Candidates(g, {}) == {};
    var none: seq<char> := [];
    assert Elems(none) == {};
    KahnRunStops(g, none);
  }

  /** Three one-letter words in a circle: c before a, a before b, b before
      c. The only column holds a cycle of constraints. */
  lemma CircularDictionaryIsMalformed()
    ensures AlphabetOf(["c", "a", "b", "c"]) == Malformed
  {
    CircularGraph();
    CircularSort();
  }

  /** Column 0 orders c before a; in column 1 only "ac" and "ab" remain. */
  lemma TiedEdges()
    ensures Edges(["c", "ac", "ab"]) == {('c', 'a'), ('c', 'b')}
  {
    var d := ["c", "ac", "ab"];
    var e := {('c', 'a'), ('c', 'b')};
    assert MaxLen(d) == 2;
    forall p | p in Edges(d) ensures p in e {
      var c: nat, i, j :| c <= 2 && 0 <= i < 3 && 0 <= j < 3 && c < 2
        && Constraint(d, c, i, j) && p == (d[i][c], d[j][c]);
      if c == 0 {
        assert j == i + 1 by {
          assert Reaches(d, 0, i + 1);
        }
      } else {
        assert i == 1 && j == 2;
      }
    }
    assert d[1][..1] == d[2][..1];
    assert Constraint(d, 0, 0, 1) && Constraint(d, 1, 1, 2);
  }

  /** The edge map with c ahead of both a and b spans exactly those pairs. */
  lemma TiedSpans()
    ensures Spans(map['c' := {'a', 'b'}, 'a' := {}, 'b' := {}], {('c', 'a'), ('c', 'b')})
  {
    var e := {('c', 'a'), ('c', 'b')};
    var g := map['c' := {'a', 'b'}, 'a' := {}, 'b' := {}];
    assert Ends(e) == g.Keys;
    forall x, y | (x, y) in e ensures x in g && y in g[x] { }
    forall x, y | x in g && y in g[x] ensures (x, y) in e {
      assert x == 'c' || x == 'a' || x == 'b';
    }
  }

  /** The tied dictionary's constraint graph. */
  lemma TiedGraph()
    ensures ConstraintGraph(["c", "ac", "ab"]) == map['c' := {'a', 'b'}, 'a' := {}, 'b' := {}]
  {
    TiedEdges();
    TiedSpans();
    SpansIsGraphOf(map['c' := {'a', 'b'}, 'a' := {}, 'b' := {}], {('c', 'a'), ('c', 'b')});
  }

  /** After c is output, a and b wait together. */
  lemma TiedSort()
    ensures KahnSort(map['c' := {'a', 'b'}, 'a' := {}, 'b' := {}]) == Ambiguous({'a', 'b'})
  {
    var g := map['c' := {'a', 'b'}, 'a' := {}, 'b' := {}];
    assert 'c' in Preds(g, 'a') && 'c' in Preds(g, 'b') && Preds(g, 'c') == {};
    assert Candidates(g, {}) == {'c'};
    var none: seq<char> := [];
    assert Elems(none) == {};
    KahnRunStep(g, none, 'c');
    assert none + ['c'] == ['c'];
    assert Elems(['c']) == {'c'};
    assert Preds(g, 'a') == {'c'} && Preds(g, 'b') == {'c'};
    assert Candidates(g, {'c'}) == {'a', 'b'};
    KahnRunStops(g, ['c']);
  }

  /** Only c is known to come first: the words "ac" and "ab" order c before
      b, and "c" before "ac" orders c before a, but nothing orders a and b. */
  lemma TiedDictionaryIsUnderspecified()
    ensures AlphabetOf(["c", "ac", "ab"]) == Underspecified({'a', 'b'})
  {
    TiedGraph();
    TiedSort();
  }

  /** Column 0 orders c before a, column 1 a before b, column 2 c before
      b; column 3 is reached by "cbca" alone. */
  lemma SortedConstraint(c: nat, i: int, j: int)
    requires c < 4 && 0 <= i < 4 && 0 <= j < 4
    requires Constraint(["cbca", "cbb", "aa", "aba"], c, i, j)
    ensures (["cbca", "cbb", "aa", "aba"][i][c], ["cbca", "cbb", "aa", "aba"][j][c])
         in {('c', 'a'), ('a', 'b'), ('c', 'b')}
  {
    var d := ["cbca", "cbb", "aa", "aba"];
    assert c < |d[j]| <= 3;
    assert d[1][..2][0] != d[3][..2][0];
    if c < 2 {
      assert Reaches(d, c, i + 1);
      assert j == i + 1;
    } else {
      assert Reaches(d, 2, 1) && Reaches(d, 2, 3) && !Reaches(d, 2, 2);
      assert (i == 0 && j == 1) || (i == 1 && j == 3);
    }
  }

  /** The worked dictionary orders exactly c before a, a before b and c before b. */
  lemma SortedEdges()
    ensures Edges(["cbca", "cbb", "aa", "aba"]) == {('c', 'a'), ('a', 'b'), ('c', 'b')}
  {
    var d := ["cbca", "cbb", "aa", "aba"];
    assert MaxLen(d) == 4;
    forall p | p in Edges(d) ensures p in {('c', 'a'), ('a', 'b'), ('c', 'b')} {
      var c: nat, i, j :| c <= 4 && 0 <= i < 4 && 0 <= j < 4 && c < 4
        && Constraint(d, c, i, j) && p == (d[i][c], d[j][c]);
      SortedConstraint(c, i, j);
    }
    assert d[1][..1] == "c" && d[2][..1] == "a" && d[3][..1] == "a";
    assert d[0][..2] == d[1][..2];
    assert Constraint(d, 0, 1, 2) && Constraint(d, 1, 2, 3) && Constraint(d, 2, 0, 1);
  }

  /** The edge map of the worked dictionary spans exactly its three pairs. */
  lemma SortedSpans()
    ensures Spans(map['c' := {'a', 'b'}, 'a' := {'b'}, 'b' := {}], {('c', 'a'), ('a', 'b'), ('c', 'b')})
  {
    var e := {('c', 'a'), ('a', 'b'), ('c', 'b')};
    var g := map['c' := {'a', 'b'}, 'a' := {'b'}, 'b' := {}];
    assert Ends(e) == g.Keys;
    forall x, y | (x, y) in e ensures x in g && y in g[x] { }
    forall x, y | x in g && y in g[x] ensures (x, y) in e {
      assert x == 'c' || x == 'a' || x == 'b';
    }
  }

  /** The worked dictionary's constraint graph. */
  lemma SortedGraph()
    ensures ConstraintGraph(["cbca", "cbb", "aa", "aba"]) == map['c' := {'a', 'b'}, 'a' := {'b'}, 'b' := {}]
  {
    SortedEdges();
    SortedSpans();
    SpansIsGraphOf(map['c' := {'a', 'b'}, 'a' := {'b'}, 'b' := {}], {('c', 'a'), ('a', 'b'), ('c', 'b')});
  }

  /** c, then a, then b are each the only vertex waiting. */
  lemma SortedSort()
    ensures KahnSort(map['c' := {'a', 'b'}, 'a' := {'b'}, 'b' := {}]) == Sorted(['c', 'a', 'b'])
  {
    var g := map['c' := {'a', 'b'}, 'a' := {'b'}, 'b' := {}];
    assert Preds(g, 'c') == {} && Preds(g, 'a') == {'c'} && Preds(g, 'b') == {'c', 'a'};
    var none: seq<char> := [];
    assert Elems(none) == {};
    assert Candidates(g, {}) == {'c'};
    KahnRunStep(g, none, 'c');
    assert none + ['c'] == ['c'] && Elems(['c']) == {'c'};
    assert Candidates(g, {'c'}) == {'a'};
    KahnRunStep(g, ['c'], 'a');
    assert ['c'] + ['a'] == ['c', 'a'] && Elems(['c', 'a']) == {'c', 'a'};
    assert Candidates(g, {'c', 'a'}) == {'b'};
    KahnRunStep(g, ['c', 'a'], 'b');
    assert ['c', 'a'] + ['b'] == ['c', 'a', 'b'] && Elems(['c', 'a', 'b']) == {'c', 'a', 'b'};
    assert Candidates(g, {'c', 'a', 'b'}) == {};
    KahnRunStops(g, ['c', 'a', 'b']);
  }

  /** The worked dictionary: column 0 orders c before a, column 1 a before
      b, column 2 c before b, and the sort finds the single order c, a, b. */
  lemma DictionaryGivesItsAlphabet()
    ensures AlphabetOf(["cbca", "cbb", "aa", "aba"]) == Alphabet(['c', 'a', 'b'])
  {
    SortedGraph();
    SortedSort();
  }
}
