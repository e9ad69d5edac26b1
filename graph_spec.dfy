/** The graph engine's state as a value, and the effect of each mutating operation on it.
    The class in module GraphEngine is proved to perform exactly these transitions. */
module GraphSpec {
  import opened Seqs
  import opened Matrix

  /** Which lookup failed when an operation reports "not found". */
  datatype Missing = Vertex | Source | Destination | Start | Edge

  /** The outcome an operation reports; every failure leaves the graph unchanged. */
  datatype Status = Ok | AlreadyExists | Empty | NotFound(what: Missing)

  /** The vertex values in list order, the destination values of each vertex's edge list
      (in list order), and the adjacency matrix indexed by list position. */
  datatype Snapshot = Snapshot(verts: seq<int>, edges: seq<seq<int>>, mat: seq<seq<int>>)

  /** The state after an operation together with what it reported. */
  datatype Step = Step(next: Snapshot, status: Status)

  /** Every edge leads to a vertex of the graph. */
  predicate EdgesClosed(verts: seq<int>, edges: seq<seq<int>>) {
    forall i, d {:trigger d in edges[i]} :: 0 <= i < |edges| && d in edges[i] ==> d in verts
  }

  /** Every matrix cell is 0 or 1, and a 1 at (i, j) is backed by an edge from vertex i to vertex j. */
  predicate CellsBacked(g: Snapshot)
    requires |g.edges| == |g.verts| && IsSquare(g.mat, |g.verts|)
  {
    forall i, j {:trigger g.mat[i][j]} :: 0 <= i < |g.verts| && 0 <= j < |g.verts| ==>
      g.mat[i][j] == 0 || (g.mat[i][j] == 1 && g.verts[j] in g.edges[i])
  }

  /** The invariant every operation keeps: one edge list per vertex, unique values, no edge
      to a missing vertex, a vertexCount x vertexCount matrix whose 1-cells are real edges. */
  predicate Wf(g: Snapshot) {
    && |g.edges| == |g.verts|
    && Distinct(g.verts)
    && EdgesClosed(g.verts, g.edges)
    && IsSquare(g.mat, |g.verts|)
    && CellsBacked(g)
  }

  /** The list and matrix forms agree in both directions: cell (i, j) is 1 exactly when
      vertex i's edge list holds vertex j. */
  predicate Synced(g: Snapshot)
    requires Wf(g)
  {
    forall i, j {:trigger g.mat[i][j]} :: 0 <= i < |g.verts| && 0 <= j < |g.verts| ==>
      (g.mat[i][j] == 1 <==> g.verts[j] in g.edges[i])
  }

  /** The edge list of every vertex other than `v` holds at most one edge to `v`; `v`'s own
      list, which deleteVertex discards, may hold several self-loops. */
  predicate AtMostOneEdgeTo(g: Snapshot, v: int) {
    forall a {:trigger AtMostOnce(g.edges[a], v)} :: 0 <= a < |g.edges| && a < |g.verts| && g.verts[a] != v ==>
      AtMostOnce(g.edges[a], v)
  }

  /** The empty graph. */
  function EmptyGraph(): (g: Snapshot)
    ensures Wf(g) && Synced(g) && |g.verts| == 0
  {
    Snapshot([], [], [])
  }

  /** The edge list of the vertex whose value is `v`. */
  function Targets(g: Snapshot, v: int): (ts: seq<int>)
    requires Wf(g) && v in g.verts
    ensures forall d {:trigger d in ts} :: d in ts ==> d in g.verts
  {
    g.edges[IndexOf(g.verts, v)]
  }

  /** Each edge list with its first edge to `v` unlinked: every list loses exactly one copy of
      `v` if it has one, and a list that had at most one edge to `v` has none left. */
  function DropEdgesTo(edges: seq<seq<int>>, v: int): (r: seq<seq<int>>)
    ensures |r| == |edges|
    ensures forall a :: 0 <= a < |r| ==> r[a] == RemoveFirst(edges[a], v)
    ensures forall a :: 0 <= a < |r| ==> multiset(r[a]) == multiset(edges[a]) - multiset{v}
    ensures forall a :: 0 <= a < |r| && AtMostOnce(edges[a], v) ==> v !in r[a]
  {
    var r := seq(|edges|, a requires 0 <= a < |edges| => RemoveFirst(edges[a], v));
    assert forall a :: 0 <= a < |r| ==>
             multiset(r[a]) == multiset(edges[a]) - multiset{v} && (AtMostOnce(edges[a], v) ==> v !in r[a]) by {
      forall a | 0 <= a < |r|
        ensures multiset(r[a]) == multiset(edges[a]) - multiset{v} && (AtMostOnce(edges[a], v) ==> v !in r[a])
      {
        RemoveFirstCounts(edges[a], v);
        RemoveFirstMembers(edges[a], v, v);
      }
    }
    r
  }

  // ---------------------------------------------------------------------------
  // insertVertex

  /** insertVertex: a value already present is refused; a new value is appended at position
      vertexCount with an empty edge list, and the matrix grows by a zero row and column. */
  function AddVertex(g: Snapshot, v: int): (r: Step)
    requires Wf(g)
    ensures Wf(r.next)
    ensures v in g.verts ==> r == Step(g, AlreadyExists)
    ensures v !in g.verts ==>
              && r.status == Ok
              && r.next.verts == g.verts + [v]
              && IndexOf(r.next.verts, v) == |g.verts|
              && r.next.edges == g.edges + [[]]
              && IsSquare(r.next.mat, |g.verts| + 1)
              && (forall i, j {:trigger r.next.mat[i][j]} :: 0 <= i <= |g.verts| && 0 <= j <= |g.verts| ==>
                    r.next.mat[i][j] == if i < |g.verts| && j < |g.verts| then g.mat[i][j] else 0)
    ensures Synced(g) ==> Synced(r.next)
  {
    if v in g.verts then Step(g, AlreadyExists)
    else
      var h := Snapshot(g.verts + [v], g.edges + [[]], Grow(g.mat));
      AddVertexKeepsInvariants(g, v, h);
      Step(h, Ok)
  }

  lemma AddVertexKeepsInvariants(g: Snapshot, v: int, h: Snapshot)
    requires Wf(g) && v !in g.verts
    requires h == Snapshot(g.verts + [v], g.edges + [[]], Grow(g.mat))
    ensures Wf(h) && IndexOf(h.verts, v) == |g.verts|
    ensures Synced(g) ==> Synced(h)
  {
    var n := |g.verts|;
    forall a, b | 0 <= a < b <= n ensures h.verts[a] != h.verts[b] {
      if b == n {
        assert h.verts[a] == g.verts[a] && h.verts[b] == v;
      } else {
        assert h.verts[a] == g.verts[a] && h.verts[b] == g.verts[b];
      }
    }
    forall i, d | 0 <= i < |h.edges| && d in h.edges[i] ensures d in h.verts {
      assert i < n && h.edges[i] == g.edges[i];
    }
    forall i, j | 0 <= i <= n && 0 <= j <= n
      ensures h.mat[i][j] == 0 || (h.mat[i][j] == 1 && h.verts[j] in h.edges[i])
      ensures Synced(g) ==> (h.mat[i][j] == 1 <==> h.verts[j] in h.edges[i])
    {
      GrowCell(g, v, h, i, j);
    }
    IndexOfDistinct(h.verts, n);
  }

  /** One cell of the grown matrix against the grown lists. */
  lemma GrowCell(g: Snapshot, v: int, h: Snapshot, i: nat, j: nat)
    requires Wf(g) && v !in g.verts
    requires h == Snapshot(g.verts + [v], g.edges + [[]], Grow(g.mat))
    requires i <= |g.verts| && j <= |g.verts|
    ensures h.mat[i][j] == 0 || (h.mat[i][j] == 1 && h.verts[j] in h.edges[i])
    ensures Synced(g) ==> (h.mat[i][j] == 1 <==> h.verts[j] in h.edges[i])
  {
    var n := |g.verts|;
    assert h.mat[i][j] == if i < n && j < n then g.mat[i][j] else 0;
    if i < n && j < n {
      assert h.verts[j] == g.verts[j] && h.edges[i] == g.edges[i];
      assert g.mat[i][j] == 0 || (g.mat[i][j] == 1 && g.verts[j] in g.edges[i]);
    } else if i < n {
      assert h.verts[j] == v && h.edges[i] == g.edges[i];
    } else {
      assert h.edges[i] == [];
    }
  }

  // ---------------------------------------------------------------------------
  // insertEdge

  /** insertEdge: if either endpoint is missing nothing changes (the source is checked first);
      otherwise the destination is appended to the source's edge list and the matching cell
      becomes 1, every other list and cell untouched. Duplicates are not filtered out. */
  function AddEdge(g: Snapshot, s: int, d: int): (r: Step)
    requires Wf(g)
    ensures Wf(r.next)
    ensures s !in g.verts ==> r == Step(g, NotFound(Source))
    ensures s in g.verts && d !in g.verts ==> r == Step(g, NotFound(Destination))
    ensures s in g.verts && d in g.verts ==>
              var i, j := IndexOf(g.verts, s), IndexOf(g.verts, d);
              && r.status == Ok
              && r.next.verts == g.verts
              && |r.next.edges| == |g.edges|
              && r.next.edges[i] == g.edges[i] + [d]
              && (forall a {:trigger r.next.edges[a]} :: 0 <= a < |g.edges| && a != i ==> r.next.edges[a] == g.edges[a])
              && r.next.mat[i][j] == 1
              && (forall a, b {:trigger r.next.mat[a][b]} :: 0 <= a < |g.verts| && 0 <= b < |g.verts| && (a != i || b != j) ==>
                    r.next.mat[a][b] == g.mat[a][b])
    ensures Synced(g) ==> Synced(r.next)
  {
    if s !in g.verts then Step(g, NotFound(Source))
    else if d !in g.verts then Step(g, NotFound(Destination))
    else
      var i, j := IndexOf(g.verts, s), IndexOf(g.verts, d);
      var h := Snapshot(g.verts, g.edges[i := g.edges[i] + [d]], g.mat[i := g.mat[i][j := 1]]);
      AddEdgeKeepsInvariants(g, i, j, h);
      Step(h, Ok)
  }

  lemma AddEdgeKeepsInvariants(g: Snapshot, i: nat, j: nat, h: Snapshot)
    requires Wf(g) && i < |g.verts| && j < |g.verts|
    requires h == Snapshot(g.verts, g.edges[i := g.edges[i] + [g.verts[j]]], g.mat[i := g.mat[i][j := 1]])
    ensures Wf(h)
    ensures Synced(g) ==> Synced(h)
  {
    var d := g.verts[j];
    forall a, e | 0 <= a < |h.edges| && e in h.edges[a] ensures e in h.verts {
      if a != i {
        assert h.edges[a] == g.edges[a];
      } else if e != d {
        assert e in g.edges[i];
      }
    }
    forall a, b | 0 <= a < |g.verts| && 0 <= b < |g.verts|
      ensures h.mat[a][b] == 0 || (h.mat[a][b] == 1 && h.verts[b] in h.edges[a])
      ensures Synced(g) ==> (h.mat[a][b] == 1 <==> h.verts[b] in h.edges[a])
    {
      assert g.mat[a][b] == 0 || (g.mat[a][b] == 1 && g.verts[b] in g.edges[a]);
      if a != i {
        assert h.edges[a] == g.edges[a] && h.mat[a][b] == g.mat[a][b];
      } else if b != j {
        assert h.mat[a][b] == g.mat[a][b];
        assert h.verts[b] != d;
        assert h.verts[b] in h.edges[a] <==> h.verts[b] in g.edges[a];
      } else {
        assert h.mat[a][b] == 1;
        assert h.edges[a] == g.edges[a] + [d];
      }
    }
  }

  /** insertEdge once the lookups have found the source at `i` and the destination at `j`. */
  lemma AddEdgeAt(g: Snapshot, i: nat, j: nat)
    requires Wf(g) && i < |g.verts| && j < |g.verts|
    ensures AddEdge(g, g.verts[i], g.verts[j])
            == Step(Snapshot(g.verts, g.edges[i := g.edges[i] + [g.verts[j]]], g.mat[i := g.mat[i][j := 1]]), Ok)
  {
    IndexOfDistinct(g.verts, i);
    IndexOfDistinct(g.verts, j);
  }

  // ---------------------------------------------------------------------------
  // deleteEdge

  /** deleteEdge: on an empty graph, a missing source, or no edge from the source to `d`,
      nothing changes; otherwise the first edge to `d` is unlinked from the source's list
      (the rest keep their order) and the matching cell becomes 0. */
  function RemoveEdge(g: Snapshot, s: int, d: int): (r: Step)
    requires Wf(g)
    ensures Wf(r.next)
    ensures r.next.verts == g.verts
    ensures |g.verts| == 0 ==> r == Step(g, Empty)
    ensures |g.verts| > 0 && s !in g.verts ==> r == Step(g, NotFound(Source))
    ensures s in g.verts && d !in Targets(g, s) ==> r == Step(g, NotFound(Edge))
    ensures s in g.verts ==>
              var i := IndexOf(g.verts, s);
              && |r.next.edges| == |g.edges|
              && r.next.edges[i] == RemoveFirst(g.edges[i], d)
              && (forall a {:trigger r.next.edges[a]} :: 0 <= a < |g.edges| && a != i ==> r.next.edges[a] == g.edges[a])
    ensures s in g.verts && d in Targets(g, s) ==>
              var i, j := IndexOf(g.verts, s), IndexOf(g.verts, d);
              && r.status == Ok
              && 0 <= j
              && r.next.mat[i][j] == 0
              && (forall a, b {:trigger r.next.mat[a][b]} :: 0 <= a < |g.verts| && 0 <= b < |g.verts| && (a != i || b != j) ==>
                    r.next.mat[a][b] == g.mat[a][b])
    ensures forall a, b {:trigger r.next.mat[a][b]} :: 0 <= a < |g.verts| && 0 <= b < |g.verts| && g.verts[b] != d ==>
              r.next.mat[a][b] == g.mat[a][b]
    ensures Synced(g) && (s in g.verts ==> AtMostOnce(Targets(g, s), d)) ==> Synced(r.next)
  {
    if |g.verts| == 0 then Step(g, Empty)
    else if s !in g.verts then Step(g, NotFound(Source))
    else
      var i := IndexOf(g.verts, s);
      if d !in g.edges[i] then Step(g, NotFound(Edge))
      else
        var j := IndexOf(g.verts, d);
        var h := Snapshot(g.verts, g.edges[i := RemoveFirst(g.edges[i], d)], g.mat[i := g.mat[i][j := 0]]);
        RemoveEdgeKeepsInvariants(g, i, j, h);
        Step(h, Ok)
  }

  lemma RemoveEdgeKeepsInvariants(g: Snapshot, i: nat, j: nat, h: Snapshot)
    requires Wf(g) && i < |g.verts| && j < |g.verts|
    requires h == Snapshot(g.verts, g.edges[i := RemoveFirst(g.edges[i], g.verts[j])], g.mat[i := g.mat[i][j := 0]])
    ensures Wf(h)
    ensures Synced(g) && AtMostOnce(g.edges[i], g.verts[j]) ==> Synced(h)
  {
    var d := g.verts[j];
    forall a, e | 0 <= a < |h.edges| && e in h.edges[a] ensures e in h.verts {
      if a != i {
        assert h.edges[a] == g.edges[a];
      } else {
        RemoveFirstMembers(g.edges[i], d, e);
      }
    }
    forall a | 0 <= a < |g.verts| ensures |h.mat[a]| == |g.verts| {
      assert |g.mat[a]| == |g.verts|;
    }
    forall a, b | 0 <= a < |h.verts| && 0 <= b < |h.verts|
      ensures h.mat[a][b] == 0 || (h.mat[a][b] == 1 && h.verts[b] in h.edges[a])
      ensures Synced(g) && AtMostOnce(g.edges[i], d) ==> (h.mat[a][b] == 1 <==> h.verts[b] in h.edges[a])
    {
      assert g.mat[a][b] == 0 || (g.mat[a][b] == 1 && g.verts[b] in g.edges[a]);
      if a != i {
        assert h.edges[a] == g.edges[a] && h.mat[a][b] == g.mat[a][b];
      } else if b != j {
        assert h.mat[a][b] == g.mat[a][b];
        assert h.verts[b] != d;
        RemoveFirstMembers(g.edges[i], d, h.verts[b]);
      } else {
        assert h.mat[a][b] == 0;
        RemoveFirstMembers(g.edges[i], d, d);
      }
    }
  }

  // ---------------------------------------------------------------------------
  // deleteVertex

  /** deleteVertex: on an empty graph or a missing value nothing changes. Otherwise every edge
      list first loses its first edge to `v`, then `v` is unlinked (the others keep their order
      and move down one position past it), and its row and column leave the matrix. */
  function RemoveVertex(g: Snapshot, v: int): (r: Step)
    requires Wf(g) && AtMostOneEdgeTo(g, v)
    ensures Wf(r.next)
    ensures |g.verts| == 0 ==> r == Step(g, Empty)
    ensures |g.verts| > 0 && v !in g.verts ==> r == Step(g, NotFound(Vertex))
    ensures v in g.verts ==>
              var k := IndexOf(g.verts, v);
              && r.status == Ok
              && |r.next.verts| == |g.verts| - 1
              && v !in r.next.verts
              && (forall a {:trigger r.next.verts[a]} :: 0 <= a < |r.next.verts| ==> r.next.verts[a] == g.verts[Skip(a, k)])
              && (forall a {:trigger r.next.edges[a]} :: 0 <= a < |r.next.verts| ==>
                    r.next.edges[a] == RemoveFirst(g.edges[Skip(a, k)], v) && v !in r.next.edges[a])
              && (forall a, b {:trigger r.next.mat[a][b]} :: 0 <= a < |r.next.verts| && 0 <= b < |r.next.verts| ==>
                    r.next.mat[a][b] == g.mat[Skip(a, k)][Skip(b, k)])
    ensures Synced(g) ==> Synced(r.next)
  {
    if |g.verts| == 0 then Step(g, Empty)
    else
      var k := IndexOf(g.verts, v);
      if k == -1 then Step(g, NotFound(Vertex))
      else
        var h := Snapshot(EraseAt(g.verts, k), EraseAt(DropEdgesTo(g.edges, v), k), EraseRowCol(g.mat, k));
        RemoveVertexKeepsInvariants(g, v, k, h);
        Step(h, Ok)
  }

  lemma RemoveVertexKeepsInvariants(g: Snapshot, v: int, k: nat, h: Snapshot)
    requires Wf(g) && AtMostOneEdgeTo(g, v) && k < |g.verts| && g.verts[k] == v
    requires h == Snapshot(EraseAt(g.verts, k), EraseAt(DropEdgesTo(g.edges, v), k), EraseRowCol(g.mat, k))
    ensures Wf(h) && v !in h.verts
    ensures |h.verts| == |g.verts| - 1
    ensures forall a {:trigger h.verts[a]} :: 0 <= a < |h.verts| ==> h.verts[a] == g.verts[Skip(a, k)]
    ensures forall a {:trigger h.edges[a]} :: 0 <= a < |h.verts| ==>
              h.edges[a] == RemoveFirst(g.edges[Skip(a, k)], v) && v !in h.edges[a]
    ensures forall a, b {:trigger h.mat[a][b]} :: 0 <= a < |h.verts| && 0 <= b < |h.verts| ==>
              h.mat[a][b] == g.mat[Skip(a, k)][Skip(b, k)]
    ensures Synced(g) ==> Synced(h)
  {
    var n := |g.verts|;
    EraseAtMembers(g.verts, k, v);
    forall a | 0 <= a < n - 1 ensures v !in h.edges[a] {
      assert g.verts[Skip(a, k)] != v;
      RemoveFirstMembers(g.edges[Skip(a, k)], v, v);
    }
    forall a, e | 0 <= a < |h.edges| && e in h.edges[a] ensures e in h.verts {
      RemoveFirstMembers(g.edges[Skip(a, k)], v, e);
      EraseAtMembers(g.verts, k, e);
    }
    forall a, b | 0 <= a < n - 1 && 0 <= b < n - 1
      ensures h.mat[a][b] == 0 || (h.mat[a][b] == 1 && h.verts[b] in h.edges[a])
      ensures Synced(g) ==> (h.mat[a][b] == 1 <==> h.verts[b] in h.edges[a])
    {
      var a', b' := Skip(a, k), Skip(b, k);
      assert h.mat[a][b] == g.mat[a'][b'];
      assert g.mat[a'][b'] == 0 || (g.mat[a'][b'] == 1 && g.verts[b'] in g.edges[a']);
      assert h.verts[b] == g.verts[b'] != v;
      RemoveFirstMembers(g.edges[a'], v, g.verts[b']);
    }
  }

  // ---------------------------------------------------------------------------
  // Relations between operations

  /** Deleting the vertex that was just inserted restores the graph exactly. */
  lemma {:induction false} RemoveVertexUndoesAddVertex(g: Snapshot, v: int)
    requires Wf(g) && v !in g.verts
    ensures AtMostOneEdgeTo(AddVertex(g, v).next, v)
    ensures RemoveVertex(AddVertex(g, v).next, v) == Step(g, Ok)
  {
    var h := AddVertex(g, v).next;
    var n := |g.verts|;
    assert h == Snapshot(g.verts + [v], g.edges + [[]], Grow(g.mat));
    forall a | 0 <= a < |h.edges| ensures AtMostOnce(h.edges[a], v) {
      assert v !in h.edges[a];
    }
    var dropped := DropEdgesTo(h.edges, v);
    forall a | 0 <= a < n ensures dropped[a] == g.edges[a] {
      assert h.edges[a] == g.edges[a] && v !in g.edges[a];
    }
    assert EraseAt(h.verts, n) == g.verts;
    assert EraseAt(dropped, n) == g.edges;
    EraseGrown(g.mat);
    assert RemoveVertex(h, v) == Step(Snapshot(EraseAt(h.verts, n), EraseAt(dropped, n), EraseRowCol(h.mat, n)), Ok);
  }

  /** A vertex whose own list holds two self-loops can be deleted: its list is discarded with it,
      so the duplicate is never followed. */
  lemma DeleteVertexWithSelfLoops()
    ensures Wf(Snapshot([1], [[1, 1]], [[1]])) && AtMostOneEdgeTo(Snapshot([1], [[1, 1]], [[1]]), 1)
    ensures RemoveVertex(Snapshot([1], [[1, 1]], [[1]]), 1) == Step(EmptyGraph(), Ok)
  {
    var g := Snapshot([1], [[1, 1]], [[1]]);
    assert CellsBacked(g) by {
      assert g.verts[0] in g.edges[0];
    }
    assert IndexOf(g.verts, 1) == 0;
    var r := RemoveVertex(g, 1).next;
    assert |r.verts| == 0 && |r.edges| == 0 && |r.mat| == 0;
  }

  /** Inserting an edge that is not there yet and deleting it again restores the graph exactly. */
  lemma {:induction false} RemoveEdgeUndoesAddEdge(g: Snapshot, s: int, d: int)
    requires Wf(g) && s in g.verts && d in g.verts && d !in Targets(g, s)
    ensures RemoveEdge(AddEdge(g, s, d).next, s, d) == Step(g, Ok)
  {
    var i, j := IndexOf(g.verts, s), IndexOf(g.verts, d);
    var h := AddEdge(g, s, d).next;
    RemoveFirstAppended(g.edges[i], d);
    var r := RemoveEdge(h, s, d).next;
    assert r.edges == g.edges;
    assert g.mat[i][j] == 0;
    forall a | 0 <= a < |g.verts| ensures r.mat[a] == g.mat[a] {
      if a == i {
        forall b | 0 <= b < |g.verts| ensures r.mat[a][b] == g.mat[a][b] { }
      }
    }
  }

  /** Inserting the same edge twice leaves the matrix as after one insertion but puts two
      copies in the edge list: idempotent in the matrix, not in the list. */
  lemma {:induction false} AddEdgeTwice(g: Snapshot, s: int, d: int)
    requires Wf(g) && s in g.verts && d in g.verts
    ensures AddEdge(AddEdge(g, s, d).next, s, d).next.mat == AddEdge(g, s, d).next.mat
    ensures Targets(AddEdge(AddEdge(g, s, d).next, s, d).next, s) == Targets(g, s) + [d, d]
  {
    var h1 := AddEdge(g, s, d).next;
    var h2 := AddEdge(h1, s, d).next;
    var i, j := IndexOf(g.verts, s), IndexOf(g.verts, d);
    forall a | 0 <= a < |g.verts| ensures h2.mat[a] == h1.mat[a] {
      forall b | 0 <= b < |g.verts| ensures h2.mat[a][b] == h1.mat[a][b] { }
    }
    assert h2.edges[i] == g.edges[i] + [d] + [d];
  }
}
