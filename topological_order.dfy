/**
 * Directed graphs as adjacency maps, and the reference definition of the
 * constrained topological sort: Kahn's algorithm that refuses to choose
 * between two waiting vertices.  Everything here is a pure function of the
 * adjacency map, so the outcome of the sort cannot depend on the order in
 * which a hash map or hash set happens to be traversed.
 */
module TopologicalOrder {

  /** Outcome of the sort: the unique order, the vertices that were waiting
      together when the order turned out to be ambiguous, or the signal that
      some vertices could never be reached because of a cycle. */
  datatype SortResult<E> = Sorted(order: seq<E>) | Ambiguous(contenders: set<E>) | Cyclic

  /** The set of elements of a sequence. */
  function Elems<E>(s: seq<E>): set<E>
  {
    set x | x in s
  }

  ghost predicate NoDup<E>(s: seq<E>)
  {
    forall i, j :: 0 <= i < j < |s| ==> s[i] != s[j]
  }

  /** Every successor of a vertex is itself a vertex. */
  ghost predicate Closed<E>(adj: map<E, set<E>>)
  {
    forall u, v :: u in adj && v in adj[u] ==> v in adj
  }

  /** The vertices with an edge into `v`; their number is `v`'s in-degree. */
  ghost function Preds<E>(adj: map<E, set<E>>, v: E): set<E>
  {
    set u | u in adj && v in adj[u]
  }

  /** Vertices not yet output all of whose predecessors have been output:
      exactly the vertices that Kahn's algorithm holds in its queue. */
  ghost function Candidates<E>(adj: map<E, set<E>>, done: set<E>): set<E>
  {
    set w | w in adj && w !in done && Preds(adj, w) <= done
  }

  /** Extends the output `p` one vertex at a time for as long as exactly one
      vertex is waiting. */
  ghost function KahnRun<E>(adj: map<E, set<E>>, p: seq<E>): seq<E>
    decreases adj.Keys - Elems(p)
  {
    var c := Candidates(adj, Elems(p));
    if |c| == 1 then
      var v :| v in c;
      assert Elems(p + [v]) == Elems(p) + {v};
      KahnRun(adj, p + [v])
    else
      p
  }

  /** The constrained topological sort: it stops when no vertex or more than
      one vertex is waiting; in the first case the output is the order if it
      holds every vertex, and the graph is cyclic otherwise. */
  ghost function KahnSort<E>(adj: map<E, set<E>>): SortResult<E>
  {
    var q := KahnRun(adj, []);
    var c := Candidates(adj, Elems(q));
    if |c| > 1 then Ambiguous(c)
    else if |q| == |adj| then Sorted(q)
    else Cyclic
  }

  /** Every vertex exactly once, and every edge pointing forwards. */
  ghost predicate IsTopologicalOrder<E>(adj: map<E, set<E>>, s: seq<E>)
  {
    && NoDup(s)
    && Elems(s) == adj.Keys
    && forall i, j :: 0 <= i < |s| && 0 <= j < |s| && s[i] in adj && s[j] in adj[s[i]] ==> i < j
  }

  ghost predicate IsUniqueTopologicalOrder<E(!new)>(adj: map<E, set<E>>, s: seq<E>)
  {
    IsTopologicalOrder(adj, s) && forall t :: IsTopologicalOrder(adj, t) ==> t == s
  }

  /** The element at `k` is a successor of the one before it. */
  ghost predicate Joined<E>(adj: map<E, set<E>>, s: seq<E>, k: int)
    requires 0 < k < |s|
  {
    s[k - 1] in adj && s[k] in adj[s[k - 1]]
  }

  /** Consecutive elements are joined by an edge. */
  ghost predicate IsChain<E>(adj: map<E, set<E>>, s: seq<E>)
  {
    forall k :: 0 < k < |s| ==> Joined(adj, s, k)
  }

  /** A closed walk of at least one edge. */
  ghost predicate IsCycle<E>(adj: map<E, set<E>>, c: seq<E>)
  {
    && |c| >= 2
    && c[0] == c[|c| - 1]
    && forall k :: 0 <= k < |c| - 1 ==> c[k] in adj && c[k + 1] in adj[c[k]]
  }

  ghost predicate HasCycle<E(!new)>(adj: map<E, set<E>>)
  {
    exists c :: IsCycle(adj, c)
  }

  /** A non-empty set of vertices each of which has a predecessor inside the
      set: what Kahn's algorithm leaves behind when it runs dry too early. */
  ghost predicate Stuck<E>(adj: map<E, set<E>>, r: set<E>)
  {
    && r != {}
    && r <= adj.Keys
    && forall w :: w in r ==> Preds(adj, w) * r != {}
  }

  /** Every prefix of `p` had exactly the next element of `p` as its only
      waiting vertex. */
  ghost predicate KahnPrefix<E>(adj: map<E, set<E>>, p: seq<E>)
  {
    forall k :: 0 <= k < |p| ==> Candidates(adj, Elems(p[..k])) == {p[k]}
  }

  // ---------------------------------------------------------------------
  // Small facts about sequences and sets

  ghost function IndexOf<E>(s: seq<E>, x: E): (i: nat)
    requires x in s
    ensures i < |s| && s[i] == x
    ensures forall j :: 0 <= j < i ==> s[j] != x
  {
    if s[0] == x then 0 else 1 + IndexOf(s[1..], x)
  }

  lemma {:induction false} NoDupCard<E>(s: seq<E>)
    requires NoDup(s)
    ensures |Elems(s)| == |s|
  {
    if s != [] {
      var t := s[..|s| - 1];
      assert Elems(s) == Elems(t) + {s[|s| - 1]};
      forall x | x in Elems(t) ensures x != s[|s| - 1] {
        var i := IndexOf(t, x);
        assert t[i] == s[i];
      }
      assert NoDup(t) by {
        forall i, j | 0 <= i < j < |t| ensures t[i] != t[j] {
          assert t[i] == s[i] && t[j] == s[j];
        }
      }
      NoDupCard(t);
    }
  }

  lemma AppendFresh<E>(s: seq<E>, x: E)
    requires NoDup(s) && x !in s
    ensures NoDup(s + [x])
    ensures Elems(s + [x]) == Elems(s) + {x}
  {
    var t := s + [x];
    forall i, j | 0 <= i < j < |t| ensures t[i] != t[j] {
      if j == |s| {
        assert t[i] == s[i];
      } else {
        assert t[i] == s[i] && t[j] == s[j];
      }
    }
  }

  lemma SubsetCard<E>(a: set<E>, b: set<E>)
    requires a <= b
    ensures |a| <= |b|
    ensures |a| == |b| ==> a == b
  {
    assert b == a + (b - a);
    assert |b| == |a| + |b - a|;
    if |a| == |b| {
      assert |b - a| == 0;
    }
  }

  lemma SingletonSet<E>(c: set<E>, v: E)
    requires |c| == 1 && v in c
    ensures c == {v}
  {
    assert |c - {v}| == 0;
  }

  lemma ElemsOfPrefix<E>(s: seq<E>, k: nat)
    requires k < |s|
    ensures Elems(s[..k + 1]) == Elems(s[..k]) + {s[k]}
  {
    assert s[..k + 1] == s[..k] + [s[k]];
  }

  lemma MemberOfPrefix<E>(s: seq<E>, i: nat, k: nat)
    requires i < k <= |s|
    ensures s[i] in Elems(s[..k])
  {
    assert s[..k][i] == s[i];
  }

  // ---------------------------------------------------------------------
  // What a run of the algorithm produces

  lemma {:induction false} KahnPrefixFacts<E>(adj: map<E, set<E>>, p: seq<E>)
    requires KahnPrefix(adj, p)
    ensures NoDup(p)
    ensures Elems(p) <= adj.Keys
    ensures forall k :: 0 <= k < |p| ==> p[k] in adj && Preds(adj, p[k]) <= Elems(p[..k])
    ensures IsChain(adj, p)
  {
    forall i, j | 0 <= i < j < |p| ensures p[i] != p[j] {
      assert p[j] in Candidates(adj, Elems(p[..j]));
      MemberOfPrefix(p, i, j);
    }
    forall x | x in Elems(p) ensures x in adj {
      var k := IndexOf(p, x);
      assert p[k] in Candidates(adj, Elems(p[..k]));
    }
    forall k | 0 <= k < |p| ensures p[k] in adj && Preds(adj, p[k]) <= Elems(p[..k]) {
      assert p[k] in Candidates(adj, Elems(p[..k]));
    }
    forall k | 0 < k < |p| ensures Joined(adj, p, k) {
      KahnPrefixJoined(adj, p, k);
    }
  }

  /** The vertex chosen at step `k` was released by the one chosen at step
      `k - 1`: had it not been, both would have been waiting together. */
  lemma KahnPrefixJoined<E>(adj: map<E, set<E>>, p: seq<E>, k: nat)
    requires KahnPrefix(adj, p) && 0 < k < |p|
    ensures Joined(adj, p, k)
  {
    var v := p[k];
    var before := Elems(p[..k - 1]);
    assert v in Candidates(adj, Elems(p[..k]));
    assert p[k - 1] in Candidates(adj, before);
    ElemsOfPrefix(p, k - 1);
    assert v != p[k - 1] by {
      assert p[k - 1] in Elems(p[..k]);
    }
    assert v !in Candidates(adj, before);
    var u :| u in Preds(adj, v) && u !in before;
    assert u == p[k - 1];
  }

  /** One step of the run: the single waiting vertex is output. */
  lemma KahnRunStep<E>(adj: map<E, set<E>>, p: seq<E>, v: E)
    requires Candidates(adj, Elems(p)) == {v}
    ensures KahnRun(adj, p) == KahnRun(adj, p + [v])
  {
    assert |Candidates(adj, Elems(p))| == 1;
  }

  /** The run stops once zero or several vertices are waiting. */
  lemma KahnRunStops<E>(adj: map<E, set<E>>, p: seq<E>)
    requires |Candidates(adj, Elems(p))| != 1
    ensures KahnRun(adj, p) == p
  {
  }

  lemma {:induction false} KahnRunFrom<E>(adj: map<E, set<E>>, p: seq<E>)
    requires KahnPrefix(adj, p)
    ensures KahnPrefix(adj, KahnRun(adj, p))
    ensures |Candidates(adj, Elems(KahnRun(adj, p)))| != 1
    decreases adj.Keys - Elems(p)
  {
    var c := Candidates(adj, Elems(p));
    if |c| == 1 {
      var v :| v in c;
      SingletonSet(c, v);
      assert Elems(p + [v]) == Elems(p) + {v};
      assert KahnRun(adj, p) == KahnRun(adj, p + [v]);
      var q := p + [v];
      forall k | 0 <= k < |q| ensures Candidates(adj, Elems(q[..k])) == {q[k]} {
        if k < |p| {
          assert q[..k] == p[..k];
        } else {
          assert q[..k] == p;
        }
      }
      KahnRunFrom(adj, q);
    }
  }

  /** The run of the algorithm is a valid run: a prefix on which exactly one
      vertex was waiting at every step, and at whose end zero or several are. */
  lemma KahnRunIsPrefix<E>(adj: map<E, set<E>>)
    ensures KahnPrefix(adj, KahnRun(adj, []))
    ensures |Candidates(adj, Elems(KahnRun(adj, [])))| != 1
  {
    KahnRunFrom(adj, []);
  }

  /** A successful sort lists every vertex once, puts every edge forwards and
      joins consecutive vertices by an edge. */
  lemma SortedIsChainOrder<E>(adj: map<E, set<E>>, s: seq<E>)
    requires KahnSort(adj) == Sorted(s)
    ensures IsTopologicalOrder(adj, s) && IsChain(adj, s)
    ensures |s| == |adj|
  {
    KahnRunIsPrefix(adj);
    KahnPrefixFacts(adj, s);
    NoDupCard(s);
    SubsetCard(Elems(s), adj.Keys);
    forall i, j | 0 <= i < |s| && 0 <= j < |s| && s[i] in adj && s[j] in adj[s[i]]
      ensures i < j
    {
      assert s[i] in Preds(adj, s[j]);
      var m := IndexOf(s[..j], s[i]);
      assert s[m] == s[i];
    }
  }

  // ---------------------------------------------------------------------
  // Uniqueness

  /** An order whose consecutive elements are joined by edges is the only
      topological order. */
  lemma ChainOrderIsUnique<E>(adj: map<E, set<E>>, s: seq<E>, t: seq<E>)
    requires IsTopologicalOrder(adj, s) && IsChain(adj, s)
    requires IsTopologicalOrder(adj, t)
    ensures t == s
  {
    NoDupCard(s);
    NoDupCard(t);
    ChainPositionsFromBelow(adj, s, t);
    ChainPositionsFromAbove(adj, s, t);
    forall i | 0 <= i < |s| ensures t[i] == s[i] {
      assert t[IndexOf(t, s[i])] == s[i];
    }
  }

  /** The position in `t` of `s[i]` is at least `i` ... */
  lemma ChainPositionsFromBelow<E>(adj: map<E, set<E>>, s: seq<E>, t: seq<E>)
    requires IsChain(adj, s) && Elems(s) == adj.Keys
    requires IsTopologicalOrder(adj, t)
    ensures forall i :: 0 <= i < |s| ==> s[i] in t && IndexOf(t, s[i]) >= i
  {
    var m := 0;
    while m < |s|
      invariant 0 <= m <= |s|
      invariant forall i :: 0 <= i < m ==> s[i] in t && IndexOf(t, s[i]) >= i
    {
      assert s[m] in Elems(t);
      if m > 0 {
        ChainRisesInOrder(adj, s, t, m);
      }
      m := m + 1;
    }
  }

  /** ... and at most `i`, when both orders have the same length. */
  lemma ChainPositionsFromAbove<E>(adj: map<E, set<E>>, s: seq<E>, t: seq<E>)
    requires IsChain(adj, s) && Elems(s) == adj.Keys
    requires IsTopologicalOrder(adj, t) && |t| == |s|
    ensures forall i :: 0 <= i < |s| ==> s[i] in t && IndexOf(t, s[i]) <= i
  {
    var m := |s|;
    while m > 0
      invariant 0 <= m <= |s|
      invariant forall i :: m <= i < |s| ==> s[i] in t && IndexOf(t, s[i]) <= i
    {
      m := m - 1;
      assert s[m] in Elems(t);
      if m < |s| - 1 {
        ChainRisesInOrder(adj, s, t, m + 1);
      }
    }
  }

  /** Along a chain, positions in any topological order increase. */
  lemma ChainRisesInOrder<E>(adj: map<E, set<E>>, s: seq<E>, t: seq<E>, m: nat)
    requires IsChain(adj, s) && Elems(s) == adj.Keys
    requires IsTopologicalOrder(adj, t)
    requires 0 < m < |s|
    ensures s[m - 1] in t && s[m] in t && IndexOf(t, s[m - 1]) < IndexOf(t, s[m])
  {
    assert Joined(adj, s, m);
    assert s[m - 1] in Elems(t) && s[m] in Elems(t);
    var i, j := IndexOf(t, s[m - 1]), IndexOf(t, s[m]);
    assert t[i] in adj && t[j] in adj[t[i]];
  }

  function Swap<E>(s: seq<E>, k: nat): (t: seq<E>)
    requires k + 1 < |s|
    ensures |t| == |s| && t[k] == s[k + 1] && t[k + 1] == s[k]
    ensures forall i :: 0 <= i < |s| && i != k && i != k + 1 ==> t[i] == s[i]
  {
    s[k := s[k + 1]][k + 1 := s[k]]
  }

  /** A topological order that is not a chain is not the only one: swapping
      two consecutive vertices with no edge between them gives another. */
  lemma SwapGivesAnotherOrder<E>(adj: map<E, set<E>>, s: seq<E>, k: nat)
    requires IsTopologicalOrder(adj, s)
    requires k + 1 < |s| && !(s[k] in adj && s[k + 1] in adj[s[k]])
    ensures IsTopologicalOrder(adj, Swap(s, k)) && Swap(s, k) != s
  {
    var t := Swap(s, k);
    forall i, j | 0 <= i < j < |t| ensures t[i] != t[j] {
      var si := if i == k then k + 1 else if i == k + 1 then k else i;
      var sj := if j == k then k + 1 else if j == k + 1 then k else j;
      assert t[i] == s[si] && t[j] == s[sj];
    }
    assert Elems(t) == Elems(s) by {
      forall x | x in Elems(s) ensures x in Elems(t) {
        var i := IndexOf(s, x);
        var ti := if i == k then k + 1 else if i == k + 1 then k else i;
        assert t[ti] == x;
      }
      forall x | x in Elems(t) ensures x in Elems(s) {
        var i := IndexOf(t, x);
        var si := if i == k then k + 1 else if i == k + 1 then k else i;
        assert s[si] == x;
      }
    }
    forall i, j | 0 <= i < |t| && 0 <= j < |t| && t[i] in adj && t[j] in adj[t[i]]
      ensures i < j
    {
      var si := if i == k then k + 1 else if i == k + 1 then k else i;
      var sj := if j == k then k + 1 else if j == k + 1 then k else j;
      assert t[i] == s[si] && t[j] == s[sj];
      assert si < sj;
    }
    assert t[k] != s[k];
  }

  /** A topological order whose consecutive vertices are joined by edges is
      exactly what the algorithm returns. */
  lemma ChainOrderIsSorted<E>(adj: map<E, set<E>>, s: seq<E>)
    requires IsTopologicalOrder(adj, s) && IsChain(adj, s)
    ensures KahnSort(adj) == Sorted(s)
  {
    NoDupCard(s);
    forall k | 0 <= k < |s| ensures Candidates(adj, Elems(s[..k])) == {s[k]} {
      ChainStepHasOneCandidate(adj, s, k);
    }
    assert Candidates(adj, Elems(s)) == {};
    RunThroughPrefix(adj, s, 0);
    assert s[..0] == [];
  }

  lemma ChainStepHasOneCandidate<E>(adj: map<E, set<E>>, s: seq<E>, k: nat)
    requires IsTopologicalOrder(adj, s) && IsChain(adj, s) && k < |s|
    ensures Candidates(adj, Elems(s[..k])) == {s[k]}
  {
    var done := Elems(s[..k]);
    forall i | 0 <= i < k ensures s[i] in done {
      MemberOfPrefix(s, i, k);
    }
    forall i | k <= i < |s| ensures s[i] !in done {
      forall x | x in done ensures x != s[i] {
        var m := IndexOf(s[..k], x);
        assert s[..k][m] == s[m];
      }
    }
    forall u | u in Preds(adj, s[k]) ensures u in done {
      var i := IndexOf(s, u);
    }
    assert s[k] in Candidates(adj, done);
    forall i | k < i < |s| ensures s[i] !in Candidates(adj, done) {
      assert Joined(adj, s, i);
      assert s[i - 1] in Preds(adj, s[i]);
    }
    forall w | w in Candidates(adj, done) ensures w == s[k] {
      var j := IndexOf(s, w);
    }
  }

  lemma {:induction false} RunThroughPrefix<E>(adj: map<E, set<E>>, s: seq<E>, k: nat)
    requires k <= |s|
    requires forall m :: 0 <= m < |s| ==> Candidates(adj, Elems(s[..m])) == {s[m]}
    requires Candidates(adj, Elems(s)) == {}
    ensures KahnRun(adj, s[..k]) == s
    decreases |s| - k
  {
    if k == |s| {
      assert s[..k] == s;
    } else {
      ElemsOfPrefix(s, k);
      assert s[..k] + [s[k]] == s[..k + 1];
      assert KahnRun(adj, s[..k]) == KahnRun(adj, s[..k + 1]);
      RunThroughPrefix(adj, s, k + 1);
    }
  }

  /** The sort succeeds with `s` exactly when `s` is the graph's one and only
      topological order. */
  lemma SortedIffUniqueOrder<E(!new)>(adj: map<E, set<E>>, s: seq<E>)
    ensures KahnSort(adj) == Sorted(s) <==> IsUniqueTopologicalOrder(adj, s)
  {
    if KahnSort(adj) == Sorted(s) {
      SortedIsUniqueOrder(adj, s);
    }
    if IsUniqueTopologicalOrder(adj, s) {
      UniqueOrderIsSorted(adj, s);
    }
  }

  lemma SortedIsUniqueOrder<E(!new)>(adj: map<E, set<E>>, s: seq<E>)
    requires KahnSort(adj) == Sorted(s)
    ensures IsUniqueTopologicalOrder(adj, s)
  {
    SortedIsChainOrder(adj, s);
    forall t | IsTopologicalOrder(adj, t) ensures t == s {
      ChainOrderIsUnique(adj, s, t);
    }
  }

  lemma UniqueOrderIsSorted<E(!new)>(adj: map<E, set<E>>, s: seq<E>)
    requires IsUniqueTopologicalOrder(adj, s)
    ensures KahnSort(adj) == Sorted(s)
  {
    forall k | 0 < k < |s| ensures Joined(adj, s, k) {
      if !Joined(adj, s, k) {
        SwapGivesAnotherOrder(adj, s, k - 1);
        assert false;
      }
    }
    ChainOrderIsSorted(adj, s);
  }

  /** Ambiguity is reported with at least two waiting vertices, and only for
      graphs that do not have exactly one topological order. */
  lemma AmbiguousHasNoUniqueOrder<E(!new)>(adj: map<E, set<E>>, c: set<E>)
    requires KahnSort(adj) == Ambiguous(c)
    ensures |c| >= 2 && c <= adj.Keys
    ensures forall s :: !IsUniqueTopologicalOrder(adj, s)
  {
    forall s ensures !IsUniqueTopologicalOrder(adj, s) {
      SortedIffUniqueOrder(adj, s);
    }
  }

  /** Two different topological orders force the ambiguity outcome. */
  lemma TwoOrdersAreAmbiguous<E(!new)>(adj: map<E, set<E>>, s: seq<E>, t: seq<E>)
    requires IsTopologicalOrder(adj, s) && IsTopologicalOrder(adj, t) && s != t
    ensures KahnSort(adj).Ambiguous?
  {
    if KahnSort(adj).Sorted? {
      var u := KahnSort(adj).order;
      SortedIffUniqueOrder(adj, u);
      assert false;
    }
    if KahnSort(adj).Cyclic? {
      CyclicHasNoOrder(adj);
      assert false;
    }
  }

  // ---------------------------------------------------------------------
  // Cycles

  /** When the algorithm runs dry before every vertex is output, the vertices
      left over form a stuck set. */
  lemma CyclicLeavesStuckSet<E>(adj: map<E, set<E>>)
    requires KahnSort(adj) == Cyclic
    ensures Stuck(adj, adj.Keys - Elems(KahnRun(adj, [])))
  {
    var q := KahnRun(adj, []);
    KahnRunIsPrefix(adj);
    KahnPrefixFacts(adj, q);
    NoDupCard(q);
    var r := adj.Keys - Elems(q);
    assert |adj.Keys| == |adj|;
    assert Elems(q) != adj.Keys;
    forall w | w in r ensures Preds(adj, w) * r != {} {
      assert w !in Candidates(adj, Elems(q));
      var u :| u in Preds(adj, w) && u !in Elems(q);
      assert u in Preds(adj, w) * r;
    }
  }

  lemma StuckHasNoOrder<E>(adj: map<E, set<E>>, r: set<E>, t: seq<E>)
    requires Stuck(adj, r)
    ensures !IsTopologicalOrder(adj, t)
  {
    if Elems(t) == adj.Keys {
      // The first vertex of `t` inside the stuck set has a predecessor in it,
      // which `t` places later.
      var x :| x in r;
      var k := FirstIndexIn(t, r, IndexOf(t, x));
      var u :| u in Preds(adj, t[k]) * r;
      var i := IndexOf(t, u);
      assert t[i] in adj && t[k] in adj[t[i]] && !(i < k);
    }
  }

  ghost function FirstIndexIn<E>(t: seq<E>, r: set<E>, bound: nat): (k: nat)
    requires bound < |t| && t[bound] in r
    ensures k <= bound && t[k] in r
    ensures forall i :: 0 <= i < k ==> t[i] !in r
  {
    if t[0] in r then 0 else 1 + FirstIndexIn(t[1..], r, bound - 1)
  }

  /** A graph on which the sort reports a cycle has no topological order. */
  lemma CyclicHasNoOrder<E>(adj: map<E, set<E>>)
    requires KahnSort(adj) == Cyclic
    ensures forall t :: !IsTopologicalOrder(adj, t)
  {
    CyclicLeavesStuckSet(adj);
    forall t ensures !IsTopologicalOrder(adj, t) {
      StuckHasNoOrder(adj, adj.Keys - Elems(KahnRun(adj, [])), t);
    }
  }

  /** A walk of `n` edges ending at `w` that stays inside the stuck set. */
  lemma {:induction false} StuckWalk<E>(adj: map<E, set<E>>, r: set<E>, w: E, n: nat)
    returns (walk: seq<E>)
    requires Stuck(adj, r) && w in r
    ensures |walk| == n + 1 && walk[n] == w
    ensures forall k :: 0 <= k <= n ==> walk[k] in r
    ensures forall k :: 0 <= k < n ==> walk[k] in adj && walk[k + 1] in adj[walk[k]]
  {
    if n == 0 {
      walk := [w];
    } else {
      var tail := StuckWalk(adj, r, w, n - 1);
      assert tail[0] in r;
      assert Preds(adj, tail[0]) * r != {};
      var u :| u in Preds(adj, tail[0]) * r;
      walk := [u] + tail;
      assert forall k :: 1 <= k <= n ==> walk[k] == tail[k - 1];
    }
  }

  /** The vertices left over by a sort that reports a cycle do lie on a
      directed cycle. */
  lemma StuckHasCycle<E(!new)>(adj: map<E, set<E>>, r: set<E>)
    requires Stuck(adj, r)
    ensures HasCycle(adj)
  {
    var w :| w in r;
    var walk := StuckWalk(adj, r, w, |r|);
    if NoDup(walk) {
      NoDupCard(walk);
      assert Elems(walk) <= r;
      SubsetCard(Elems(walk), r);
      assert false;
    }
    var i, j :| 0 <= i < j < |walk| && walk[i] == walk[j];
    var c := walk[i..j + 1];
    assert IsCycle(adj, c);
  }

  /** The sort reports a cycle only for graphs that have one. */
  lemma CyclicMeansCycle<E(!new)>(adj: map<E, set<E>>)
    requires KahnSort(adj) == Cyclic
    ensures HasCycle(adj)
  {
    CyclicLeavesStuckSet(adj);
    StuckHasCycle(adj, adj.Keys - Elems(KahnRun(adj, [])));
  }

  lemma {:induction false} CycleRisesInOrder<E>(adj: map<E, set<E>>, c: seq<E>, t: seq<E>, k: nat)
    requires IsCycle(adj, c) && IsTopologicalOrder(adj, t)
    requires 1 <= k < |c|
    ensures c[0] in t && c[k] in t && IndexOf(t, c[0]) < IndexOf(t, c[k])
  {
    assert c[k - 1] in adj && c[k] in adj[c[k - 1]];
    assert c[k - 1] in Elems(t);
    assert c[k] in adj by {
      if k < |c| - 1 { assert c[k] in adj && c[k + 1] in adj[c[k]]; }
    }
    var i, j := IndexOf(t, c[k - 1]), IndexOf(t, c[k]);
    assert t[i] in adj && t[j] in adj[t[i]];
    if k > 1 {
      CycleRisesInOrder(adj, c, t, k - 1);
    }
  }

  /** A graph with a directed cycle never sorts successfully. */
  lemma CycleIsNeverSorted<E>(adj: map<E, set<E>>, c: seq<E>)
    requires IsCycle(adj, c)
    ensures forall t :: !IsTopologicalOrder(adj, t)
    ensures !KahnSort(adj).Sorted?
  {
    forall t | IsTopologicalOrder(adj, t) ensures false {
      CycleRisesInOrder(adj, c, t, |c| - 1);
    }
    if KahnSort(adj).Sorted? {
      SortedIsChainOrder(adj, KahnSort(adj).order);
    }
  }

  /** Edges that all agree with an irreflexive, transitive relation admit no
      cycle, so such a graph is never reported cyclic. */
  lemma OrderedEdgesNeverCyclic<E(!new)>(adj: map<E, set<E>>, lt: (E, E) -> bool)
    requires forall x :: !lt(x, x)
    requires forall x, y, z :: lt(x, y) && lt(y, z) ==> lt(x, z)
    requires forall u, v :: u in adj && v in adj[u] ==> lt(u, v)
    ensures !HasCycle(adj)
    ensures KahnSort(adj) != Cyclic
  {
    forall c | IsCycle(adj, c) ensures false {
      var k := 1;
      while k < |c|
        invariant 1 <= k <= |c|
        invariant lt(c[0], c[k - 1]) || k == 1
      {
        assert c[k - 1] in adj && c[k] in adj[c[k - 1]];
        k := k + 1;
      }
    }
    if KahnSort(adj) == Cyclic {
      CyclicMeansCycle(adj);
    }
  }

  /** The empty graph sorts to the empty order. */
  lemma EmptyGraphSortsToEmpty<E>(adj: map<E, set<E>>)
    requires adj == map[]
    ensures KahnSort(adj) == Sorted([])
  {
    var none: seq<E> := [];
    assert Candidates(adj, Elems(none)) == {};
  }
}
