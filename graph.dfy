/** The Graph class: a vertex list in insertion order, one edge list per vertex, the
    visited flags used by DFS, and the adjacency matrix, all updated in place. Every
    mutating method is proved to perform the transition GraphSpec defines. */
module GraphEngine {
  import opened Seqs
  import opened Matrix
  import opened GraphSpec
  import opened Traversal

  /** A found vertex (by its position in the vertex list) or nothing: findVertex's pointer. */
  datatype Option<T> = None | Some(value: T)

  class Graph {
    var verts: seq<int>          // vertex values, in list order
    var edges: seq<seq<int>>     // destination values of each vertex's edge list
    var visited: seq<bool>       // each vertex's visited flag
    var mat: seq<seq<int>>       // adjMatrix
    var vertexCount: int

    /** The lists and the matrix as a value. */
    function State(): Snapshot
      reads this
    {
      Snapshot(verts, edges, mat)
    }

    /** The structural invariant; it also holds halfway through a traversal. */
    ghost predicate Consistent()
      reads this
    {
      vertexCount == |verts| && |visited| == |verts| && Wf(State())
    }

    /** The object invariant between operations: consistent, and no vertex is marked visited. */
    ghost predicate Valid()
      reads this
    {
      Consistent() && forall i :: 0 <= i < |visited| ==> !visited[i]
    }

    constructor ()
      ensures Valid() && State() == EmptyGraph() && vertexCount == 0
    {
      verts, edges, visited, mat, vertexCount := [], [], [], [], 0;
    }

    /** isEmpty: there is no vertex (the list head is null). */
    function IsEmpty(): (r: bool)
      reads this
      requires Valid()
      ensures r <==> vertexCount == 0
      ensures r <==> State() == EmptyGraph()
    {
      |verts| == 0
    }

    /** findVertex: the first vertex holding `value`, or nothing. */
    method FindVertex(value: int) returns (found: Option<nat>)
      ensures found.Some? <==> value in verts
      ensures found.Some? ==> found.value < |verts| && verts[found.value] == value
      ensures found.Some? ==> found.value as int == IndexOf(verts, value)
    {
      var i := 0;
      while i < |verts|
        invariant 0 <= i <= |verts|
        invariant value !in verts[..i]
      {
        if verts[i] == value {
          FirstOccurrence(verts, value, i);
          return Some(i);
        }
        i := i + 1;
      }
      assert verts[..i] == verts;
      return None;
    }

    /** findVertexIndex: the 0-based position of the vertex holding `value`, or -1. */
    method FindVertexIndex(value: int) returns (index: int)
      ensures index == -1 <==> value !in verts
      ensures 0 <= index ==> index < |verts| && verts[index] == value && value !in verts[..index]
      ensures index == IndexOf(verts, value)
    {
      index := 0;
      while index < |verts|
        invariant 0 <= index <= |verts|
        invariant value !in verts[..index]
      {
        if verts[index] == value {
          FirstOccurrence(verts, value, index);
          return;
        }
        index := index + 1;
      }
      assert verts[..index] == verts;
      index := -1;
    }

    /** insertVertex. */
    method InsertVertex(value: int) returns (status: Status)
      requires Valid()
      modifies this
      ensures Valid()
      ensures Step(State(), status) == AddVertex(old(State()), value)
    {
      ghost var g := State();
      var found := FindVertex(value);
      if found.Some? {
        return AlreadyExists;
      }
      var n := vertexCount;
      verts := verts + [value];
      edges := edges + [[]];
      visited := visited + [false];
      var grown := mat + [Zeros(n)];
      var r := 0;
      while r < |grown|
        invariant 0 <= r <= |grown| == n + 1
        invariant forall a :: 0 <= a < r ==> grown[a] == (g.mat + [Zeros(n)])[a] + [0]
        invariant forall a :: r <= a < |grown| ==> grown[a] == (g.mat + [Zeros(n)])[a]
      {
        grown := grown[r := grown[r] + [0]];
        r := r + 1;
      }
      mat := grown;
      vertexCount := vertexCount + 1;
      status := Ok;
      assert State() == AddVertex(g, value).next;
    }

    /** insertEdge. */
    method InsertEdge(source: int, destination: int) returns (status: Status)
      requires Valid()
      modifies this
      ensures Valid()
      ensures Step(State(), status) == AddEdge(old(State()), source, destination)
    {
      ghost var g := State();
      var sourceVertex := FindVertex(source);
      var destinationVertex := FindVertex(destination);
      if sourceVertex.None? {
        return NotFound(Source);
      }
      if destinationVertex.None? {
        return NotFound(Destination);
      }
      var s := sourceVertex.value;
      edges := edges[s := edges[s] + [destination]];
      var sourceIndex := FindVertexIndex(source);
      var destIndex := FindVertexIndex(destination);
      mat := mat[sourceIndex := mat[sourceIndex][destIndex := 1]];
      status := Ok;
      assert State() == AddEdge(g, source, destination).next;
    }

    /** deleteEdge. */
    method DeleteEdge(source: int, destination: int) returns (status: Status)
      requires Valid()
      modifies this
      ensures Step(State(), status) == RemoveEdge(old(State()), source, destination)
      ensures Valid()
    {
      ghost var g := State();
      if IsEmpty() {
        return Empty;
      }
      var sourceVertex := FindVertex(source);
      if sourceVertex.None? {
        return NotFound(Source);
      }
      var s := sourceVertex.value;
      var list := edges[s];
      var k := 0;
      while k < |list| && list[k] != destination
        invariant 0 <= k <= |list|
        invariant destination !in list[..k]
      {
        k := k + 1;
      }
      if k == |list| {
        assert list[..k] == list;
        return NotFound(Edge);
      }
      var sourceIndex := FindVertexIndex(source);
      var destIndex := FindVertexIndex(destination);
      RemoveEdgeFound(g, source, destination, k);
      edges := edges[s := list[..k] + list[k + 1..]];
      mat := mat[sourceIndex := mat[sourceIndex][destIndex := 0]];
      status := Ok;
    }

    /** deleteVertex: the source has undefined behaviour when some list holds two edges to
        `value`, so that case is excluded. */
    method DeleteVertex(value: int) returns (status: Status)
      requires Valid() && AtMostOneEdgeTo(State(), value)
      modifies this
      ensures Step(State(), status) == RemoveVertex(old(State()), value)
      ensures Valid()
    {
      ghost var g := State();
      if IsEmpty() {
        return Empty;
      }
      var index := FindVertexIndex(value);
      if index == -1 {
        return NotFound(Vertex);
      }
      // The second walk, which keeps the predecessor for unlinking, stops at the same place.
      var vs, current := verts, 0;
      while current < |vs| && vs[current] != value
        invariant 0 <= current <= |vs|
        invariant value !in vs[..current]
      {
        current := current + 1;
      }
      FirstOccurrence(vs, value, current);
      RemoveFoundVertex(value, current);
      status := Ok;
    }

    /** deleteVertex once the vertex was found at position `k`: the cascade of edge deletions,
        then the unlinking. */
    method RemoveFoundVertex(value: int, k: nat)
      requires Valid() && AtMostOneEdgeTo(State(), value) && k < |verts| && k == IndexOf(verts, value)
      modifies this
      ensures Step(State(), Ok) == RemoveVertex(old(State()), value)
      ensures Valid()
    {
      ghost var g := State();
      DeleteEdgesTo(value, k);
      ghost var h := State();
      RemoveVertexAfterCascade(g, h, value, k);
      UnlinkVertex(k);
      assert State() == Snapshot(EraseAt(h.verts, k), EraseAt(h.edges, k), EraseRowCol(h.mat, k));
    }

    /** The end of deleteVertex: unlink the vertex at position `k` from the list, then erase
        its row and column from the matrix. */
    method UnlinkVertex(k: nat)
      requires Valid() && k < |verts|
      modifies this
      ensures verts == EraseAt(old(verts), k) && edges == EraseAt(old(edges), k)
      ensures mat == EraseRowCol(old(mat), k) && vertexCount == old(vertexCount) - 1
      ensures |visited| == |verts| && forall i :: 0 <= i < |visited| ==> !visited[i]
    {
      verts := EraseAt(verts, k);
      edges := EraseAt(edges, k);
      visited := EraseAt(visited, k);
      UpdateAdjMatrixOnDeletion(k);
      vertexCount := vertexCount - 1;
    }

    /** The cascade of deleteVertex: every vertex, in list order and the deleted one included,
        loses its first edge to `value` through deleteEdge. */
    method DeleteEdgesTo(value: int, index: int)
      requires Valid() && 0 <= index < |verts| && verts[index] == value
      modifies this
      ensures Valid() && vertexCount == old(vertexCount)
      ensures Cascaded(old(State()), State(), value, index, |verts|)
      ensures forall a :: 0 <= a < |verts| ==> mat[a][index] == 0
    {
      ghost var g := State();
      var t := 0;
      while t < |verts|
        invariant Valid() && vertexCount == old(vertexCount)
        invariant 0 <= t <= |verts|
        invariant Cascaded(g, State(), value, index, t)
        invariant forall a :: 0 <= a < t ==> mat[a][index] == 0
      {
        ghost var h := State();
        assert value !in h.edges[t] ==> h.mat[t][index] == 0 by {
          assert CellsBacked(h);
          assert h.verts[index] == value;
        }
        CascadeStep(g, h, value, index, t);
        var _ := DeleteEdge(verts[t], value);
        t := t + 1;
      }
    }

    /** updateAdjMatrixOnDeletion: erase row `index`, then column `index` of every row. */
    method UpdateAdjMatrixOnDeletion(index: nat)
      requires IsSquare(mat, |mat|) && index < |mat|
      modifies this`mat
      ensures mat == EraseRowCol(old(mat), index)
    {
      mat := EraseAt(mat, index);
      var r := 0;
      while r < |mat|
        invariant 0 <= r <= |mat| == |old(mat)| - 1
        invariant forall a :: 0 <= a < r ==> mat[a] == EraseAt(old(mat)[Skip(a, index)], index)
        invariant forall a :: r <= a < |mat| ==> mat[a] == old(mat)[Skip(a, index)]
      {
        mat := mat[r := EraseAt(mat[r], index)];
        r := r + 1;
      }
    }

    /** AdjacentVertex: the destinations of the vertex's edge list, in list order. */
    method AdjacentVertex(value: int) returns (status: Status, adjacent: seq<int>)
      requires Valid()
      ensures status == if |verts| == 0 then Empty else if value !in verts then NotFound(Vertex) else Ok
      ensures status == Ok ==> adjacent == Targets(State(), value)
      ensures status != Ok ==> adjacent == []
      ensures forall x :: x in adjacent ==> x in verts
      ensures status == Ok && Synced(State()) ==>
                forall j :: 0 <= j < |verts| ==> (verts[j] in adjacent <==> mat[IndexOf(verts, value)][j] == 1)
    {
      if IsEmpty() {
        return Empty, [];
      }
      var vertex := FindVertex(value);
      if vertex.None? {
        return NotFound(Vertex), [];
      }
      var list := edges[vertex.value];
      adjacent := [];
      var k := 0;
      while k < |list|
        invariant 0 <= k <= |list|
        invariant adjacent == list[..k]
      {
        adjacent := adjacent + [list[k]];
        k := k + 1;
      }
      assert list[..k] == list;
      status := Ok;
    }

    /** DFS: iterative depth-first traversal with an explicit stack, then resetVisited. */
    method DFS(startValue: int) returns (status: Status, order: seq<int>)
      requires Valid()
      modifies this`visited
      ensures Valid() && State() == old(State()) && vertexCount == old(vertexCount)
      ensures status == if |verts| == 0 then Empty else if startValue !in verts then NotFound(Start) else Ok
      ensures status == Ok ==> order == DfsOrder(State(), startValue)
      ensures status != Ok ==> order == []
    {
      if IsEmpty() {
        return Empty, [];
      }
      var startVertex := FindVertex(startValue);
      if startVertex.None? {
        return NotFound(Start), [];
      }
      ghost var g := State();
      var stack := [startValue];
      ghost var seen: set<int> := {};
      order := [];
      while stack != []
        invariant |visited| == |verts|
        invariant forall i :: 0 <= i < |verts| ==> (visited[i] <==> verts[i] in seen)
        invariant forall x {:trigger x in stack} :: x in stack ==> x in verts
        invariant order + DfsLoop(g, stack, seen) == DfsLoop(g, [startValue], {})
        decreases Unseen(g, seen), |stack|
      {
        var current := stack[|stack| - 1];
        assert current in stack;
        ghost var before := stack;
        stack := stack[..|stack| - 1];
        var p := IndexOf(verts, current);
        if visited[p] {
          DfsLoopSkips(g, order, before, seen, DfsLoop(g, [startValue], {}));
        } else {
          DfsLoopVisits(g, order, before, seen, DfsLoop(g, [startValue], {}));
          MarkVisited(verts, visited, seen, p);
          order := order + [current];
          visited := visited[p := true];
          seen := seen + {current};
          stack := PushUnvisited(p, stack, seen);
        }
      }
      ResetVisited();
      status := Ok;
    }

    /** Because DFS leaves the graph as it found it and clears every flag, a second DFS from the
        same start emits the same order. */
    method DfsTwice(startValue: int) returns (first: seq<int>, second: seq<int>)
      requires Valid()
      modifies this`visited
      ensures Valid() && State() == old(State())
      ensures first == second
    {
      var _, order1 := DFS(startValue);
      var _, order2 := DFS(startValue);
      first, second := order1, order2;
    }

    /** The inner loop of DFS: walk the edge list of the vertex at position `p` and push every
        destination whose visited flag is clear; `seen` is the set of values whose flag is set. */
    method PushUnvisited(p: nat, stack: seq<int>, ghost seen: set<int>) returns (pushed: seq<int>)
      requires Consistent() && p < |verts|
      requires forall i :: 0 <= i < |verts| ==> (visited[i] <==> verts[i] in seen)
      ensures pushed == stack + Unvisited(edges[p], seen)
    {
      var dests := edges[p];
      pushed := stack;
      var k := 0;
      while k < |dests|
        invariant 0 <= k <= |dests|
        invariant pushed == stack + Unvisited(dests[..k], seen)
      {
        assert dests[k] in edges[p];
        var q := IndexOf(verts, dests[k]);
        UnvisitedSnoc(dests, k, seen);
        if !visited[q] {
          pushed := pushed + [dests[k]];
        }
        k := k + 1;
      }
      assert dests[..k] == dests;
    }

    /** resetVisited: clear every vertex's visited flag. */
    method ResetVisited()
      requires Consistent()
      modifies this`visited
      ensures Valid()
    {
      var i := 0;
      while i < |visited|
        invariant 0 <= i <= |visited| == |verts|
        invariant forall a :: 0 <= a < i ==> !visited[a]
      {
        visited := visited[i := false];
        i := i + 1;
      }
    }

    /** displayGraph, as the lines it prints: each vertex with its edge list, in list order.
        Every listed neighbour is itself listed as a vertex. */
    function DisplayGraph(): (lines: seq<(int, seq<int>)>)
      reads this
      requires Valid()
      ensures |lines| == vertexCount
      ensures forall k :: 0 <= k < |lines| ==> lines[k] == (verts[k], edges[k])
      ensures forall k, x :: 0 <= k < |lines| && x in lines[k].1 ==>
                exists h :: 0 <= h < |lines| && lines[h].0 == x
    {
      var vs, es := verts, edges;
      var lines := seq(|vs|, k requires 0 <= k < |vs| => (vs[k], es[k]));
      forall k, x | 0 <= k < |lines| && x in lines[k].1 ensures exists h :: 0 <= h < |lines| && lines[h].0 == x {
        assert x in verts;
        var h :| 0 <= h < |verts| && verts[h] == x;
        assert lines[h].0 == x;
      }
      lines
    }

    /** displayAdjMatrix, as the rows it prints: each vertex value with its matrix row,
        vertexCount cells of 0 or 1. */
    function DisplayAdjMatrix(): (rows: seq<(int, seq<int>)>)
      reads this
      requires Valid()
      ensures |rows| == vertexCount
      ensures forall k :: 0 <= k < |rows| ==> rows[k].0 == verts[k] && rows[k].1 == mat[k] && |rows[k].1| == vertexCount
      ensures forall k, b :: 0 <= k < |rows| && 0 <= b < |rows| ==> rows[k].1[b] == 0 || rows[k].1[b] == 1
    {
      var vs, m := verts, mat;
      assert forall k, b :: 0 <= k < |vs| && 0 <= b < |vs| ==> m[k][b] == 0 || m[k][b] == 1 by {
        assert CellsBacked(State());
      }
      seq(|vs|, k requires 0 <= k < |vs| => (vs[k], m[k]))
    }

    /** When the list and matrix forms agree, the two displays agree: row k of the matrix has a
        1 under vertex b exactly when vertex k's listed neighbours include b. */
    lemma DisplaysAgree(k: nat, b: nat)
      requires Valid() && Synced(State()) && k < vertexCount && b < vertexCount
      ensures DisplayAdjMatrix()[k].1[b] == 1 <==> DisplayAdjMatrix()[b].0 in DisplayGraph()[k].1
    {
    }
  }

  /** The effect of deleteEdge once the walk of the source's list stopped at position `k`. */
  lemma RemoveEdgeFound(g: Snapshot, s: int, d: int, k: nat)
    requires Wf(g) && s in g.verts
    requires var list := Targets(g, s); k < |list| && list[k] == d && d !in list[..k]
    ensures var i, j := IndexOf(g.verts, s), IndexOf(g.verts, d);
            var list := g.edges[i];
            0 <= j && RemoveEdge(g, s, d) == Step(Snapshot(g.verts, g.edges[i := list[..k] + list[k + 1..]],
                                                           g.mat[i := g.mat[i][j := 0]]), Ok)
  {
    var list := Targets(g, s);
    FirstOccurrence(list, d, k);
    RemoveFirstSplits(list, d);
  }

  /** After the cascade has reached vertex position `t`: the vertices are those of `g`, the first
      `t` edge lists have lost their first edge to `v`, and no cell outside column `k` changed. */
  ghost predicate Cascaded(g: Snapshot, h: Snapshot, v: int, k: int, t: nat)
  {
    && h.verts == g.verts && |h.edges| == |g.edges| == |g.verts| && t <= |g.verts|
    && IsSquare(h.mat, |g.verts|) && IsSquare(g.mat, |g.verts|)
    && (forall a :: 0 <= a < |g.verts| ==>
          h.edges[a] == if a < t then RemoveFirst(g.edges[a], v) else g.edges[a])
    && (forall a, b :: 0 <= a < |g.verts| && 0 <= b < |g.verts| && b != k ==> h.mat[a][b] == g.mat[a][b])
  }

  /** One cascade step: deleting the edge from vertex `t` to `v` extends the cascade to `t + 1`. */
  lemma CascadeStep(g: Snapshot, h: Snapshot, v: int, k: int, t: nat)
    requires Wf(g) && Wf(h) && 0 <= k < |g.verts| && g.verts[k] == v
    requires Cascaded(g, h, v, k, t) && t < |g.verts|
    ensures h.verts[t] in h.verts && Cascaded(g, RemoveEdge(h, h.verts[t], v).next, v, k, t + 1)
  {
    IndexOfDistinct(h.verts, t);
    var r := RemoveEdge(h, h.verts[t], v).next;
    CascadeExtends(g, h, r, v, k, t);
  }

  /** The cascade invariant carried over one list, from the facts deleteEdge guarantees. */
  lemma CascadeExtends(g: Snapshot, h: Snapshot, r: Snapshot, v: int, k: int, t: nat)
    requires Distinct(g.verts) && 0 <= k < |g.verts| && g.verts[k] == v
    requires Cascaded(g, h, v, k, t) && t < |g.verts|
    requires r.verts == h.verts && |r.edges| == |h.edges| && IsSquare(r.mat, |g.verts|)
    requires r.edges[t] == RemoveFirst(h.edges[t], v)
    requires forall a :: 0 <= a < |h.edges| && a != t ==> r.edges[a] == h.edges[a]
    requires forall a, b :: 0 <= a < |h.verts| && 0 <= b < |h.verts| && h.verts[b] != v ==> r.mat[a][b] == h.mat[a][b]
    ensures Cascaded(g, r, v, k, t + 1)
  {
    forall a, b | 0 <= a < |g.verts| && 0 <= b < |g.verts| && b != k ensures r.mat[a][b] == g.mat[a][b] {
      assert h.verts[b] != v;
    }
  }

  /** Once every list has lost its first edge to `v`, removing `v`'s position and its row and
      column from the matrix is deleteVertex. */
  lemma RemoveVertexAfterCascade(g: Snapshot, h: Snapshot, v: int, k: int)
    requires Wf(g) && AtMostOneEdgeTo(g, v) && 0 <= k && k == IndexOf(g.verts, v)
    requires Cascaded(g, h, v, k, |g.verts|)
    ensures RemoveVertex(g, v) == Step(Snapshot(EraseAt(h.verts, k), EraseAt(h.edges, k), EraseRowCol(h.mat, k)), Ok)
  {
    assert h.edges == DropEdgesTo(g.edges, v);
    EraseRowColIgnoresErased(h.mat, g.mat, k);
  }

  /** Setting the flag at position `p` adds exactly `verts[p]` to the visited set the flags stand for. */
  lemma MarkVisited(verts: seq<int>, visited: seq<bool>, seen: set<int>, p: nat)
    requires Distinct(verts) && |visited| == |verts| && p < |verts|
    requires forall i :: 0 <= i < |verts| ==> (visited[i] <==> verts[i] in seen)
    ensures forall i :: 0 <= i < |verts| ==> (visited[p := true][i] <==> verts[i] in seen + {verts[p]})
  {
  }
}
