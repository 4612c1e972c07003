/**
 * The generic directed graph the alphabet is sorted with: an adjacency set
 * per vertex and an in-degree counter per vertex, both updated in place.
 */
module Graphs {
  import opened TopologicalOrder

  class DirectedGraph<E(==)> {
    /** Successors of each vertex; its keys are the vertices. */
    var adjLists: map<E, set<E>>
    /** In-degree of each vertex that has one; a missing entry means 0. */
    var inDegrees: map<E, nat>

    /** In-degree as the graph reads it: 0 for a vertex with no entry. In a
        valid graph it is the number of distinct predecessors. */
    function InDegree(v: E): (d: nat)
      reads this
      ensures v !in inDegrees ==> d == 0
      ensures v in inDegrees ==> d == inDegrees[v]
      ensures Valid() && v in adjLists ==> d == |Preds(adjLists, v)|
      ensures Valid() && v !in adjLists ==> d == 0
    {
      Count(inDegrees, v)
    }

    ghost predicate Valid()
      reads this
    {
      Consistent(adjLists, inDegrees)
    }

    constructor ()
      ensures Valid()
      ensures adjLists == map[] && inDegrees == map[]
    {
      adjLists := map[];
      inDegrees := map[];
    }

    /** A `from` that is not a vertex has no edges, and both endpoints of an
        edge are vertices. */
    function HasEdge(from: E, to: E): (r: bool)
      reads this
      ensures from !in adjLists ==> !r
      ensures Valid() && r ==> from in adjLists && to in adjLists
    {
      if from in adjLists then to in adjLists[from] else false
    }

    /** Adds one to the counter of `vertex`, creating it at 1. */
    method UpdateInDegree(vertex: E)
      modifies this`inDegrees
      ensures InDegree(vertex) == old(InDegree(vertex)) + 1
      ensures inDegrees == old(inDegrees)[vertex := InDegree(vertex)]
    {
      if vertex !in inDegrees {
        inDegrees := inDegrees[vertex := 1];
      } else {
        inDegrees := inDegrees[vertex := inDegrees[vertex] + 1];
      }
    }

    /** Inserts the edge `from -> to`, creating both endpoints; inserting an
        edge that is already there changes nothing. */
    method AddEdge(from: E, to: E)
      requires Valid()
      modifies this
      ensures Valid()
      ensures HasEdge(from, to)
      ensures adjLists.Keys == old(adjLists.Keys) + {from, to}
      ensures forall u, v :: HasEdge(u, v) <==> (u in old(adjLists) && v in old(adjLists)[u]) || (u == from && v == to)
      ensures forall v :: InDegree(v) == Count(old(inDegrees), v) + (if v == to && !old(HasEdge(from, to)) then 1 else 0)
      ensures old(HasEdge(from, to)) ==> adjLists == old(adjLists) && inDegrees == old(inDegrees)
    {
      if !HasEdge(from, to) {
        ghost var oldAdj, oldDeg := adjLists, inDegrees;
        var fromAdjList := if from in adjLists then adjLists[from] else {};
        fromAdjList := fromAdjList + {to};
        adjLists := adjLists[from := fromAdjList];
        UpdateInDegree(to);
        if to !in adjLists {
          adjLists := adjLists[to := {}];
        }
        assert Inserted(oldAdj, adjLists, from, to);
        AddEdgeKeepsConsistent(oldAdj, oldDeg, adjLists, inDegrees, from, to);
        InsertedEdges(oldAdj, adjLists, from, to);
      }
    }

    /** The number of vertices. */
    function VertexCount(): (n: nat)
      reads this
      ensures n == |adjLists.Keys|
    {
      |adjLists|
    }

    /** Kahn's algorithm on a snapshot of the in-degrees, failing as soon as
        two vertices wait at once and reporting a cycle when vertices are
        left over. Whatever order the maps and sets are visited in, the
        outcome is the reference sort of the adjacency map. */
    method TopologicalSort() returns (r: SortResult<E>)
      requires Valid()
      ensures r == KahnSort(adjLists)
    {
      var sorted: seq<E> := [];
      var tracker: map<E, int> := map v | v in adjLists :: InDegree(v);
      InitialCounts(adjLists, inDegrees, tracker);

      var queue := ZeroInDegrees(tracker);
      InitialQueue(adjLists, tracker, queue, sorted);

      while queue != []
        invariant Round(adjLists, tracker, sorted, queue, {})
        decreases adjLists.Keys - Elems(sorted)
      {
        if |queue| > 1 {
          StopAmbiguous(adjLists, tracker, sorted, queue);
          return Ambiguous(Elems(queue));
        }
        var v := queue[0];
        OutputStep(adjLists, tracker, sorted, queue);
        queue := queue[1..];
        sorted := sorted + [v];

        tracker, queue := ReleaseSuccessors(adjLists, tracker, sorted, queue, adjLists[v]);
      }

      StopEmpty(adjLists, tracker, sorted, queue);
      if |sorted| != VertexCount() {
        return Cyclic;
      }
      return Sorted(sorted);
    }
  }

  /** The initial queue of the sort: every vertex whose counter is zero,
      each once, in whatever order the counters are visited. */
  method ZeroInDegrees<E>(tracker: map<E, int>) returns (queue: seq<E>)
    ensures NoDup(queue)
    ensures forall w :: w in queue <==> w in tracker && tracker[w] == 0
  {
    queue := [];
    var unseen := tracker.Keys;
    while unseen != {}
      invariant unseen <= tracker.Keys
      invariant forall w :: w in queue <==> w in tracker && w !in unseen && tracker[w] == 0
      invariant NoDup(queue)
      decreases unseen
    {
      var v :| v in unseen;
      if tracker[v] == 0 {
        AppendFresh(queue, v);
        queue := queue + [v];
      }
      unseen := unseen - {v};
    }
  }

  /** The inner loop of the sort: lowers the counter of each successor of
      the vertex just output and queues those whose counter reaches zero. */
  method ReleaseSuccessors<E>(adj: map<E, set<E>>, tracker0: map<E, int>, sorted: seq<E>,
                              queue0: seq<E>, successors: set<E>)
    returns (tracker: map<E, int>, queue: seq<E>)
    requires Round(adj, tracker0, sorted, queue0, successors)
    ensures Round(adj, tracker, sorted, queue, {})
  {
    tracker, queue := tracker0, queue0;
    var todo := successors;
    while todo != {}
      invariant Round(adj, tracker, sorted, queue, todo)
      decreases todo
    {
      var w :| w in todo;
      ReleaseOne(adj, tracker, sorted, queue, todo, w);
      var inDegree := tracker[w] - 1;
      if inDegree == 0 {
        queue := queue + [w];
      }
      tracker := tracker[w := inDegree];
      todo := todo - {w};
    }
  }

  /** The state of the sort between steps: `sorted` is a prefix of the
      reference run, `tracker` counts for every vertex its predecessors not
      yet output (plus one while its decrement is still in `todo`), and
      `queue` holds, once each, the waiting vertices not in `todo`. */
  ghost predicate Round<E>(adj: map<E, set<E>>, tracker: map<E, int>, sorted: seq<E>, queue: seq<E>, todo: set<E>)
  {
    && Closed(adj)
    && todo <= adj.Keys - Elems(sorted)
    && Pending(adj, tracker, Elems(sorted), todo)
    && Waiting(adj, queue, Elems(sorted), todo)
    && Output(adj, sorted)
  }

  ghost predicate Pending<E>(adj: map<E, set<E>>, tracker: map<E, int>, done: set<E>, todo: set<E>)
  {
    && adj.Keys <= tracker.Keys
    && forall w {:trigger tracker[w]} :: w in adj ==> tracker[w] == |Preds(adj, w) - done| + (if w in todo then 1 else 0)
  }

  ghost predicate Waiting<E>(adj: map<E, set<E>>, queue: seq<E>, done: set<E>, todo: set<E>)
  {
    Elems(queue) == Candidates(adj, done) - todo && NoDup(queue)
  }

  ghost predicate Output<E>(adj: map<E, set<E>>, sorted: seq<E>)
  {
    && Elems(sorted) <= adj.Keys
    && (forall w :: w in Elems(sorted) ==> Preds(adj, w) <= Elems(sorted))
    && KahnRun(adj, sorted) == KahnRun(adj, [])
  }

  lemma InitialCounts<E>(adj: map<E, set<E>>, deg: map<E, nat>, tracker: map<E, int>)
    requires Consistent(adj, deg)
    requires tracker == map v | v in adj :: Count(deg, v)
    ensures tracker.Keys == adj.Keys
    ensures Pending(adj, tracker, {}, {})
  {
    forall w | w in adj ensures tracker[w] == |Preds(adj, w) - {}| {
      assert Preds(adj, w) - {} == Preds(adj, w);
    }
  }

  lemma InitialQueue<E>(adj: map<E, set<E>>, tracker: map<E, int>, queue: seq<E>, sorted: seq<E>)
    requires Closed(adj)
    requires sorted == [] && tracker.Keys == adj.Keys
    requires Pending(adj, tracker, {}, {})
    requires forall w :: w in queue <==> w in tracker && tracker[w] == 0
    requires NoDup(queue)
    ensures Round(adj, tracker, sorted, queue, {})
  {
    assert Elems(sorted) == {};
    InitialWaiting(adj, tracker, queue);
  }

  /** The vertices with a zero counter are the ones waiting at the start. */
  lemma InitialWaiting<E>(adj: map<E, set<E>>, tracker: map<E, int>, queue: seq<E>)
    requires tracker.Keys == adj.Keys
    requires Pending(adj, tracker, {}, {})
    requires forall w :: w in queue <==> w in tracker && tracker[w] == 0
    requires NoDup(queue)
    ensures Waiting(adj, queue, {}, {})
  {
    forall w ensures w in Elems(queue) <==> w in Candidates(adj, {}) {
      if w in adj {
        WaitingIff(adj, {}, w);
      }
    }
  }

  /** More than one vertex waiting: the reference sort stops with exactly
      those vertices. */
  lemma StopAmbiguous<E>(adj: map<E, set<E>>, tracker: map<E, int>, sorted: seq<E>, queue: seq<E>)
    requires Round(adj, tracker, sorted, queue, {}) && |queue| > 1
    ensures KahnSort(adj) == Ambiguous(Elems(queue))
  {
    NoDupCard(queue);
    assert Candidates(adj, Elems(sorted)) == Elems(queue);
    KahnRunStops(adj, sorted);
  }

  /** Nothing waiting: the reference sort has produced exactly `sorted`. */
  lemma StopEmpty<E>(adj: map<E, set<E>>, tracker: map<E, int>, sorted: seq<E>, queue: seq<E>)
    requires Round(adj, tracker, sorted, queue, {}) && queue == []
    ensures KahnSort(adj) == if |sorted| != |adj.Keys| then Cyclic else Sorted(sorted)
  {
    assert Elems(queue) == {};
    assert Candidates(adj, Elems(sorted)) == {};
    KahnRunStops(adj, sorted);
  }

  /** Outputting the one waiting vertex follows the reference run and
      leaves a pending decrement for each of its successors. */
  lemma OutputStep<E>(adj: map<E, set<E>>, tracker: map<E, int>, sorted: seq<E>, queue: seq<E>)
    requires Round(adj, tracker, sorted, queue, {}) && |queue| == 1
    ensures queue[0] in adj
    ensures adj.Keys - Elems(sorted + [queue[0]]) < adj.Keys - Elems(sorted)
    ensures Round(adj, tracker, sorted + [queue[0]], queue[1..], adj[queue[0]])
  {
    OutputSuccessors(adj, sorted, queue);
    OutputCounts(adj, tracker, sorted, queue);
    OutputQueue(adj, sorted, queue);
    OutputPrefix(adj, sorted, queue);
  }

  /** The vertex output is the one the reference run picks next. */
  lemma OutputChoice<E>(adj: map<E, set<E>>, sorted: seq<E>, queue: seq<E>)
    requires Waiting(adj, queue, Elems(sorted), {}) && |queue| == 1
    ensures Candidates(adj, Elems(sorted)) == {queue[0]}
    ensures queue[0] in Candidates(adj, Elems(sorted))
    ensures Elems(sorted + [queue[0]]) == Elems(sorted) + {queue[0]}
  {
    assert queue == [queue[0]];
    assert Elems(queue) == {queue[0]};
  }

  lemma OutputSuccessors<E>(adj: map<E, set<E>>, sorted: seq<E>, queue: seq<E>)
    requires Closed(adj) && Output(adj, sorted)
    requires Waiting(adj, queue, Elems(sorted), {}) && |queue| == 1
    ensures queue[0] in adj
    ensures adj.Keys - Elems(sorted + [queue[0]]) < adj.Keys - Elems(sorted)
    ensures adj[queue[0]] <= adj.Keys - Elems(sorted + [queue[0]])
  {
    var v, done := queue[0], Elems(sorted);
    OutputChoice(adj, sorted, queue);
    forall w | w in adj[v] ensures w in adj && w !in done + {v} {
      assert v in Preds(adj, w);
    }
    assert v in adj.Keys - done;
  }

  lemma OutputCounts<E>(adj: map<E, set<E>>, tracker: map<E, int>, sorted: seq<E>, queue: seq<E>)
    requires Output(adj, sorted) && Pending(adj, tracker, Elems(sorted), {})
    requires Waiting(adj, queue, Elems(sorted), {}) && |queue| == 1
    ensures queue[0] in adj
    ensures Pending(adj, tracker, Elems(sorted + [queue[0]]), adj[queue[0]])
  {
    var v, done := queue[0], Elems(sorted);
    OutputChoice(adj, sorted, queue);
    ReleaseStep(adj, done, v);
    forall w | w in adj
      ensures tracker[w] == |Preds(adj, w) - (done + {v})| + (if w in adj[v] then 1 else 0)
    {
      assert tracker[w] == |Preds(adj, w) - done| + (if w in {} then 1 else 0);
    }
  }

  lemma OutputQueue<E>(adj: map<E, set<E>>, sorted: seq<E>, queue: seq<E>)
    requires Output(adj, sorted)
    requires Waiting(adj, queue, Elems(sorted), {}) && |queue| == 1
    ensures queue[0] in adj
    ensures Waiting(adj, queue[1..], Elems(sorted + [queue[0]]), adj[queue[0]])
  {
    var v, done := queue[0], Elems(sorted);
    OutputChoice(adj, sorted, queue);
    ReleasedAreSuccessors(adj, done, v);
    assert Elems(queue[1..]) == {};
  }

  lemma OutputPrefix<E>(adj: map<E, set<E>>, sorted: seq<E>, queue: seq<E>)
    requires Output(adj, sorted)
    requires Waiting(adj, queue, Elems(sorted), {}) && |queue| == 1
    ensures Output(adj, sorted + [queue[0]])
  {
    OutputChoice(adj, sorted, queue);
    KahnRunStep(adj, sorted, queue[0]);
  }

  /** Carrying out the pending decrement of `w` keeps the counters exact and
      queues `w` exactly when its counter reaches zero. */
  lemma ReleaseOne<E>(adj: map<E, set<E>>, tracker: map<E, int>, sorted: seq<E>,
                      queue: seq<E>, todo: set<E>, w: E)
    requires Round(adj, tracker, sorted, queue, todo) && w in todo
    ensures w in tracker
    ensures tracker[w] - 1 == 0 ==> Round(adj, tracker[w := tracker[w] - 1], sorted, queue + [w], todo - {w})
    ensures tracker[w] - 1 != 0 ==> Round(adj, tracker[w := tracker[w] - 1], sorted, queue, todo - {w})
  {
    var done := Elems(sorted);
    ReleaseCounts(adj, tracker, done, todo, w);
    assert tracker[w] - 1 == |Preds(adj, w) - done|;
    WaitingIff(adj, done, w);
    ReleaseQueue(adj, done, todo, queue, w);
  }

  lemma ReleaseCounts<E>(adj: map<E, set<E>>, tracker: map<E, int>, done: set<E>, todo: set<E>, w: E)
    requires w in todo && w in adj
    requires Pending(adj, tracker, done, todo)
    ensures Pending(adj, tracker[w := tracker[w] - 1], done, todo - {w})
  {
    var t := tracker[w := tracker[w] - 1];
    forall x | x in adj
      ensures t[x] == |Preds(adj, x) - done| + (if x in todo - {w} then 1 else 0)
    {
      if x == w {
        assert t[x] == tracker[w] - 1;
      } else {
        assert t[x] == tracker[x];
      }
    }
  }

  lemma ReleaseQueue<E>(adj: map<E, set<E>>, done: set<E>, todo: set<E>, queue: seq<E>, w: E)
    requires w in todo
    requires Waiting(adj, queue, done, todo)
    ensures w in Candidates(adj, done) ==> Waiting(adj, queue + [w], done, todo - {w})
    ensures w !in Candidates(adj, done) ==> Waiting(adj, queue, done, todo - {w})
  {
    var waiting := Candidates(adj, done);
    assert w !in Elems(queue);
    if w in waiting {
      forall x ensures x in waiting - (todo - {w}) <==> x in (waiting - todo) + {w} {
      }
      AppendFresh(queue, w);
    } else {
      forall x ensures x in waiting - (todo - {w}) <==> x in waiting - todo {
      }
    }
  }

  /** A vertex not yet output waits exactly when none of its predecessors
      is pending. */
  lemma WaitingIff<E>(adj: map<E, set<E>>, done: set<E>, w: E)
    requires w in adj && w !in done
    ensures w in Candidates(adj, done) <==> |Preds(adj, w) - done| == 0
  {
    var pending := Preds(adj, w) - done;
    if |pending| == 0 {
      forall u | u in Preds(adj, w) ensures u in done {
        assert u !in pending;
      }
    } else {
      var u :| u in pending;
    }
  }

  function Count<E>(counters: map<E, nat>, v: E): nat
  {
    if v in counters then counters[v] else 0
  }

  /** The graph invariant: successors are vertices, each counter equals the
      number of distinct predecessors, and counters exist only for vertices
      that have one. */
  ghost predicate Consistent<E>(adj: map<E, set<E>>, inDegrees: map<E, nat>)
  {
    && Closed(adj)
    && inDegrees.Keys <= adj.Keys
    && (forall v :: v in inDegrees ==> inDegrees[v] > 0)
    && (forall v {:trigger Preds(adj, v)} :: v in adj ==> Count(inDegrees, v) == |Preds(adj, v)|)
  }

  /** Successors of `u`, none for a vertex that is absent. */
  function Succ<E>(adj: map<E, set<E>>, u: E): set<E>
  {
    if u in adj then adj[u] else {}
  }

  /** `adj` is `oldAdj` with the edge `from -> to` inserted and both
      endpoints present. */
  ghost predicate Inserted<E>(oldAdj: map<E, set<E>>, adj: map<E, set<E>>, from: E, to: E)
  {
    && adj.Keys == oldAdj.Keys + {from, to}
    && adj[from] == Succ(oldAdj, from) + {to}
    && forall u :: u in adj && u != from ==> adj[u] == Succ(oldAdj, u)
  }

  /** Inserting an edge adds exactly that edge. */
  lemma InsertedEdges<E>(oldAdj: map<E, set<E>>, adj: map<E, set<E>>, from: E, to: E)
    requires Inserted(oldAdj, adj, from, to)
    ensures forall u, v :: (u in adj && v in adj[u]) <==> (u in oldAdj && v in oldAdj[u]) || (u == from && v == to)
  {
    forall u, v ensures (u in adj && v in adj[u]) <==> (u in oldAdj && v in oldAdj[u]) || (u == from && v == to) {
      if u != from && u in adj {
        assert adj[u] == Succ(oldAdj, u);
      }
    }
  }

  /** Inserting a new edge keeps the graph invariant. */
  lemma AddEdgeKeepsConsistent<E>(oldAdj: map<E, set<E>>, oldDeg: map<E, nat>,
                                  adj: map<E, set<E>>, deg: map<E, nat>, from: E, to: E)
    requires Consistent(oldAdj, oldDeg)
    requires from !in Preds(oldAdj, to)
    requires Inserted(oldAdj, adj, from, to)
    requires deg == oldDeg[to := Count(oldDeg, to) + 1]
    ensures Consistent(adj, deg)
  {
    InsertedEdges(oldAdj, adj, from, to);
    AddEdgePreds(oldAdj, adj, from, to);
    assert Closed(adj);
    assert to !in oldAdj ==> Preds(oldAdj, to) == {};
    assert from !in oldAdj ==> Preds(oldAdj, from) == {};
    forall v | v in adj ensures Count(deg, v) == |Preds(adj, v)| {
      if v != to && v !in oldAdj {
        assert v == from && from !in oldDeg;
      }
    }
  }

  /** How inserting a new edge `from -> to` changes the predecessor sets. */
  lemma AddEdgePreds<E>(oldAdj: map<E, set<E>>, adj: map<E, set<E>>, from: E, to: E)
    requires from !in Preds(oldAdj, to)
    requires Inserted(oldAdj, adj, from, to)
    ensures Preds(adj, to) == Preds(oldAdj, to) + {from}
    ensures |Preds(adj, to)| == |Preds(oldAdj, to)| + 1
    ensures forall w :: w != to ==> Preds(adj, w) == Preds(oldAdj, w)
  {
    forall u | u in Preds(adj, to) ensures u in Preds(oldAdj, to) + {from} {
      if u != from {
        assert u in oldAdj;
      }
    }
    forall w | w != to ensures Preds(adj, w) == Preds(oldAdj, w) {
      forall u | u in Preds(adj, w) ensures u in Preds(oldAdj, w) {
        assert u in oldAdj;
      }
    }
  }

  /** Outputting the single waiting vertex `v` lowers by one the count of
      pending predecessors of exactly its successors. */
  lemma ReleaseStep<E>(adj: map<E, set<E>>, done: set<E>, v: E)
    requires v in Candidates(adj, done)
    ensures forall w :: w in adj ==> |Preds(adj, w) - done| == |Preds(adj, w) - (done + {v})| + (if w in adj[v] then 1 else 0)
  {
    forall w | w in adj
      ensures |Preds(adj, w) - done| == |Preds(adj, w) - (done + {v})| + (if w in adj[v] then 1 else 0)
    {
      PendingDrops(adj, done, v, w);
    }
  }

  /** Outputting the single waiting vertex releases nothing but its
      successors. */
  lemma ReleasedAreSuccessors<E>(adj: map<E, set<E>>, done: set<E>, v: E)
    requires Candidates(adj, done) == {v}
    ensures Candidates(adj, done + {v}) <= adj[v]
  {
    assert v in Candidates(adj, done);
    forall w | w in Candidates(adj, done + {v}) ensures w in adj[v] {
      assert w !in Candidates(adj, done);
      var u :| u in Preds(adj, w) && u !in done;
    }
  }

  lemma PendingDrops<E>(adj: map<E, set<E>>, done: set<E>, v: E, w: E)
    requires v in adj && v !in done
    ensures |Preds(adj, w) - done| == |Preds(adj, w) - (done + {v})| + (if w in adj[v] then 1 else 0)
  {
    var after := Preds(adj, w) - (done + {v});
    if w in adj[v] {
      assert Preds(adj, w) - done == after + {v};
    } else {
      assert Preds(adj, w) - done == after;
    }
  }
}
