/** Depth-first traversal with an explicit stack, as a function of the graph, and what it
    visits: each vertex at most once, and exactly the vertices reachable from the start. */
module Traversal {
  import opened Seqs
  import opened Matrix
  import opened GraphSpec

  /** The destinations of `dests` that are not in `seen`, in edge-list order: what the inner
      loop pushes onto the stack after the popped vertex was marked. */
  function Unvisited(dests: seq<int>, seen: set<int>): (r: seq<int>)
    ensures forall x {:trigger x in r} :: x in r <==> x in dests && x !in seen
  {
    if dests == [] then []
    else
      var last := dests[|dests| - 1];
      Unvisited(dests[..|dests| - 1], seen) + (if last in seen then [] else [last])
  }

  /** Scanning one more destination pushes it exactly when it is unvisited. */
  lemma UnvisitedSnoc(dests: seq<int>, k: nat, seen: set<int>)
    requires k < |dests|
    ensures Unvisited(dests[..k + 1], seen) == Unvisited(dests[..k], seen) + (if dests[k] in seen then [] else [dests[k]])
  {
    assert dests[..k + 1][..k] == dests[..k];
  }

  /** The vertices not visited yet. */
  function Unseen(g: Snapshot, seen: set<int>): set<int> {
    set x | x in g.verts && x !in seen
  }

  /** The rest of the traversal from a given stack (top at the end) and set of visited vertices:
      pop the top; if it is unvisited, emit it, mark it, and push its unvisited out-neighbours.
      It terminates on (number of unvisited vertices, stack length). */
  function DfsLoop(g: Snapshot, stack: seq<int>, seen: set<int>): (out: seq<int>)
    requires Wf(g)
    requires forall x :: x in stack ==> x in g.verts
    ensures forall x {:trigger x in out} :: x in out ==> x in g.verts && x !in seen
    ensures Distinct(out)
    decreases Unseen(g, seen), |stack|
  {
    if stack == [] then []
    else
      var top := stack[|stack| - 1];
      var rest := stack[..|stack| - 1];
      if top in seen then DfsLoop(g, rest, seen)
      else
        var seen' := seen + {top};
        assert top in Unseen(g, seen) && top !in Unseen(g, seen');
        var tail := DfsLoop(g, rest + Unvisited(Targets(g, top), seen'), seen');
        assert top !in tail;
        assert forall k :: 1 <= k < |[top] + tail| ==> ([top] + tail)[k] == tail[k - 1];
        [top] + tail
  }

  /** One step of the loop on a visited top of the stack: it is dropped, and the emitted
      prefix `done` together with the rest of the traversal is unchanged. */
  lemma DfsLoopSkips(g: Snapshot, done: seq<int>, stack: seq<int>, seen: set<int>, whole: seq<int>)
    requires Wf(g) && stack != [] && forall x :: x in stack ==> x in g.verts
    requires stack[|stack| - 1] in seen && done + DfsLoop(g, stack, seen) == whole
    ensures var rest := stack[..|stack| - 1];
            && (forall x :: x in rest ==> x in g.verts)
            && done + DfsLoop(g, rest, seen) == whole
  {
    var rest := stack[..|stack| - 1];
    assert forall x :: x in rest ==> x in stack;
  }

  /** One step of the loop on an unvisited top of the stack: it is emitted next, the set of
      unvisited vertices shrinks, and its successors not yet visited are pushed. */
  lemma DfsLoopVisits(g: Snapshot, done: seq<int>, stack: seq<int>, seen: set<int>, whole: seq<int>)
    requires Wf(g) && stack != [] && forall x :: x in stack ==> x in g.verts
    requires stack[|stack| - 1] !in seen && done + DfsLoop(g, stack, seen) == whole
    ensures var top := stack[|stack| - 1];
            var seen', next := seen + {top}, stack[..|stack| - 1] + Unvisited(Targets(g, top), seen + {top});
            && Unseen(g, seen') < Unseen(g, seen)
            && (forall x :: x in next ==> x in g.verts)
            && (done + [top]) + DfsLoop(g, next, seen') == whole
  {
    var top := stack[|stack| - 1];
    var rest := stack[..|stack| - 1];
    var seen' := seen + {top};
    assert top in Unseen(g, seen) && top !in Unseen(g, seen');
    assert forall x :: x in rest ==> x in stack;
    var next := rest + Unvisited(Targets(g, top), seen');
    assert DfsLoop(g, stack, seen) == [top] + DfsLoop(g, next, seen');
  }

  /** The order in which DFS(start) emits vertex values. */
  function DfsOrder(g: Snapshot, start: int): (out: seq<int>)
    requires Wf(g) && start in g.verts
    ensures |out| > 0 && out[0] == start
    ensures Distinct(out)
    ensures forall x :: x in out <==> Reachable(g, start, x)
  {
    var out := DfsLoop(g, [start], {});
    ReachableFromItself(g, start);
    LoopSound(g, [start], {}, start);
    LoopComplete(g, [start], {});
    forall t | Reachable(g, start, t) ensures t in out {
      ClosedHoldsReachable(g, out, start, t);
    }
    out
  }

  // ---------------------------------------------------------------------------
  // Reachability

  /** `p` is a non-empty walk along edges of `g`. */
  ghost predicate IsPath(g: Snapshot, p: seq<int>)
    requires Wf(g)
  {
    && |p| > 0
    && (forall k :: 0 <= k < |p| ==> p[k] in g.verts)
    && (forall k :: 0 <= k < |p| - 1 ==> p[k + 1] in Targets(g, p[k]))
  }

  /** Some walk leads from `s` to `t`. */
  ghost predicate Reachable(g: Snapshot, s: int, t: int)
    requires Wf(g)
  {
    exists p :: IsPath(g, p) && p[0] == s && p[|p| - 1] == t
  }

  lemma ReachableFromItself(g: Snapshot, s: int)
    requires Wf(g) && s in g.verts
    ensures Reachable(g, s, s)
  {
    assert IsPath(g, [s]);
  }

  /** A reachable vertex's out-neighbours are reachable. */
  lemma ReachableStep(g: Snapshot, s: int, u: int, w: int)
    requires Wf(g) && Reachable(g, s, u) && u in g.verts && w in Targets(g, u)
    ensures Reachable(g, s, w)
  {
    var p :| IsPath(g, p) && p[0] == s && p[|p| - 1] == u;
    var q := p + [w];
    assert forall k :: 0 <= k < |p| ==> q[k] == p[k];
    assert IsPath(g, q);
  }

  /** A set of vertices (given as a sequence) that holds `s` and is closed under edges holds
      every vertex reachable from `s`. */
  lemma ClosedHoldsReachable(g: Snapshot, out: seq<int>, s: int, t: int)
    requires Wf(g) && s in out && Reachable(g, s, t)
    requires forall u, w :: u in out && u in g.verts && w in Targets(g, u) ==> w in out
    ensures t in out
  {
    var p :| IsPath(g, p) && p[0] == s && p[|p| - 1] == t;
    PathStaysIn(g, out, p, |p| - 1);
  }

  lemma {:induction false} PathStaysIn(g: Snapshot, out: seq<int>, p: seq<int>, k: nat)
    requires Wf(g) && IsPath(g, p) && p[0] in out && k < |p|
    requires forall u, w :: u in out && u in g.verts && w in Targets(g, u) ==> w in out
    ensures p[k] in out
  {
    if k > 0 {
      PathStaysIn(g, out, p, k - 1);
      assert p[k] in Targets(g, p[k - 1]);
    }
  }

  // ---------------------------------------------------------------------------
  // What the loop emits

  /** Everything emitted is reachable from `s` when everything on the stack is. */
  lemma {:induction false} LoopSound(g: Snapshot, stack: seq<int>, seen: set<int>, s: int)
    requires Wf(g) && forall x :: x in stack ==> x in g.verts
    requires forall x :: x in stack ==> Reachable(g, s, x)
    ensures forall x :: x in DfsLoop(g, stack, seen) ==> Reachable(g, s, x)
    decreases Unseen(g, seen), |stack|
  {
    if stack != [] {
      var top := stack[|stack| - 1];
      var rest := stack[..|stack| - 1];
      assert forall x :: x in rest ==> x in stack;
      if top in seen {
        LoopSound(g, rest, seen, s);
      } else {
        var seen' := seen + {top};
        var pushed := Unvisited(Targets(g, top), seen');
        forall x | x in rest + pushed ensures Reachable(g, s, x) {
          if x !in rest {
            ReachableStep(g, s, top, x);
          }
        }
        assert top in Unseen(g, seen) && top !in Unseen(g, seen');
        LoopSound(g, rest + pushed, seen', s);
      }
    }
  }

  /** Every successor of a visited vertex is visited or pending on the stack. */
  ghost predicate Frontier(g: Snapshot, seen: set<int>, pending: seq<int>)
    requires Wf(g)
  {
    forall u, w :: u in seen && u in g.verts && w in Targets(g, u) ==> w in seen || w in pending
  }

  /** A traversal that starts with every successor of a visited vertex visited or pending ends
      with every successor of a visited or emitted vertex visited or emitted; and everything on
      the stack is visited or emitted. */
  lemma {:induction false} LoopComplete(g: Snapshot, stack: seq<int>, seen: set<int>)
    requires Wf(g) && forall x :: x in stack ==> x in g.verts
    requires Frontier(g, seen, stack)
    ensures var out := DfsLoop(g, stack, seen);
            && (forall x :: x in stack ==> x in seen || x in out)
            && (forall u, w :: (u in seen || u in out) && u in g.verts && w in Targets(g, u) ==>
                  w in seen || w in out)
    decreases Unseen(g, seen), |stack|
  {
    if stack != [] {
      var top := stack[|stack| - 1];
      var rest := stack[..|stack| - 1];
      assert forall x :: x in stack ==> x in rest || x == top;
      if top in seen {
        assert Frontier(g, seen, rest);
        LoopComplete(g, rest, seen);
      } else {
        var seen' := seen + {top};
        var pushed := Unvisited(Targets(g, top), seen');
        FrontierAfterVisit(g, stack, seen);
        assert top in Unseen(g, seen) && top !in Unseen(g, seen');
        LoopComplete(g, rest + pushed, seen');
        var tail := DfsLoop(g, rest + pushed, seen');
        assert DfsLoop(g, stack, seen) == [top] + tail;
        assert forall x :: x in [top] + tail <==> x == top || x in tail;
        assert forall x :: x in rest ==> x in rest + pushed;
      }
    }
  }

  /** Visiting the top of the stack and pushing its unvisited successors keeps the frontier. */
  lemma FrontierAfterVisit(g: Snapshot, stack: seq<int>, seen: set<int>)
    requires Wf(g) && stack != [] && forall x :: x in stack ==> x in g.verts
    requires Frontier(g, seen, stack)
    ensures var top := stack[|stack| - 1];
            var seen' := seen + {top};
            Frontier(g, seen', stack[..|stack| - 1] + Unvisited(Targets(g, top), seen'))
  {
    var top := stack[|stack| - 1];
    var rest := stack[..|stack| - 1];
    var seen' := seen + {top};
    var pending := rest + Unvisited(Targets(g, top), seen');
    forall u, w | u in seen' && u in g.verts && w in Targets(g, u) ensures w in seen' || w in pending {
      if u in seen {
        assert w in seen || w in stack;
        assert w in stack ==> w in rest || w == top;
      }
    }
  }

  // ---------------------------------------------------------------------------
  // A worked traversal

  /** Vertices 1, 2, 3 with edges 1 -> 2, 1 -> 3 and 2 -> 3, inserted in that order. */
  function Example(): Snapshot {
    Snapshot([1, 2, 3], [[2, 3], [3], []], [[0, 1, 1], [0, 0, 1], [0, 0, 0]])
  }

  // The example built step by step from the empty graph.
  function AfterInsert1(): Snapshot { Snapshot([1], [[]], [[0]]) }
  function AfterInsert2(): Snapshot { Snapshot([1, 2], [[], []], [[0, 0], [0, 0]]) }
  function AfterInsert3(): Snapshot { Snapshot([1, 2, 3], [[], [], []], [[0, 0, 0], [0, 0, 0], [0, 0, 0]]) }
  function AfterEdge12(): Snapshot { Snapshot([1, 2, 3], [[2], [], []], [[0, 1, 0], [0, 0, 0], [0, 0, 0]]) }
  function AfterEdge13(): Snapshot { Snapshot([1, 2, 3], [[2, 3], [], []], [[0, 1, 1], [0, 0, 0], [0, 0, 0]]) }

  /** The matrices of consecutive stages, as insertVertex grows them. */
  lemma ExampleGrown()
    ensures Grow(EmptyGraph().mat) == AfterInsert1().mat
    ensures Grow(AfterInsert1().mat) == AfterInsert2().mat
    ensures Grow(AfterInsert2().mat) == AfterInsert3().mat
  {
    assert Grow(EmptyGraph().mat)[0] == [0];
    var m1, m2 := Grow(AfterInsert1().mat), Grow(AfterInsert2().mat);
    assert m1[0] == [0, 0] && m1[1] == [0, 0];
    assert m2[0] == [0, 0, 0] && m2[1] == [0, 0, 0] && m2[2] == [0, 0, 0];
  }

  /** The lists and matrices of consecutive stages, as insertEdge updates them. */
  lemma ExampleConnected()
    ensures var g := AfterInsert3();
            g.edges[0 := g.edges[0] + [2]] == AfterEdge12().edges && g.mat[0 := g.mat[0][1 := 1]] == AfterEdge12().mat
    ensures var g := AfterEdge12();
            g.edges[0 := g.edges[0] + [3]] == AfterEdge13().edges && g.mat[0 := g.mat[0][2 := 1]] == AfterEdge13().mat
    ensures var g := AfterEdge13();
            g.edges[1 := g.edges[1] + [3]] == Example().edges && g.mat[1 := g.mat[1][2 := 1]] == Example().mat
  {
    var g3, g12, g13 := AfterInsert3(), AfterEdge12(), AfterEdge13();
    assert g3.edges[0] + [2] == [2] && g3.mat[0][1 := 1] == [0, 1, 0];
    assert g12.edges[0] + [3] == [2, 3] && g12.mat[0][2 := 1] == [0, 1, 1];
    assert g13.edges[1] + [3] == [3] && g13.mat[1][2 := 1] == [0, 0, 1];
  }

  /** insertVertex(1) on the empty graph. */
  lemma ExampleInsert1()
    ensures AddVertex(EmptyGraph(), 1) == Step(AfterInsert1(), Ok)
  {
    ExampleGrown();
  }

  /** Then insertVertex(2). */
  lemma ExampleInsert2()
    requires Wf(AfterInsert1())
    ensures AddVertex(AfterInsert1(), 2) == Step(AfterInsert2(), Ok)
  {
    ExampleGrown();
  }

  /** Then insertVertex(3). */
  lemma ExampleInsert3()
    requires Wf(AfterInsert2())
    ensures AddVertex(AfterInsert2(), 3) == Step(AfterInsert3(), Ok)
  {
    ExampleGrown();
  }

  /** Then insertEdge(1, 2). */
  lemma ExampleConnect12()
    requires Wf(AfterInsert3())
    ensures AddEdge(AfterInsert3(), 1, 2) == Step(AfterEdge12(), Ok)
  {
    AddEdgeAt(AfterInsert3(), 0, 1);
    ExampleConnected();
  }

  /** Then insertEdge(1, 3). */
  lemma ExampleConnect13()
    requires Wf(AfterEdge12())
    ensures AddEdge(AfterEdge12(), 1, 3) == Step(AfterEdge13(), Ok)
  {
    AddEdgeAt(AfterEdge12(), 0, 2);
    ExampleConnected();
  }

  /** Finally insertEdge(2, 3), which gives the example graph. */
  lemma ExampleConnect23()
    requires Wf(AfterEdge13())
    ensures AddEdge(AfterEdge13(), 2, 3) == Step(Example(), Ok)
  {
    AddEdgeAt(AfterEdge13(), 1, 2);
    ExampleConnected();
  }

  /** The example graph is what inserting vertices 1, 2, 3 and then the edges 1 -> 2, 1 -> 3,
      2 -> 3 into the empty graph produces, each insertion reporting success. */
  lemma ExampleBuilt()
    ensures var v1 := AddVertex(EmptyGraph(), 1);
            var v2 := AddVertex(v1.next, 2);
            var v3 := AddVertex(v2.next, 3);
            var e12 := AddEdge(v3.next, 1, 2);
            var e13 := AddEdge(e12.next, 1, 3);
            var e23 := AddEdge(e13.next, 2, 3);
            && v1.status == v2.status == v3.status == Ok
            && e12.status == e13.status == e23.status == Ok
            && e23.next == Example()
  {
    ExampleInsert1();
    ExampleInsert2();
    ExampleInsert3();
    ExampleConnect12();
    ExampleConnect13();
    ExampleConnect23();
  }

  /** The example is well formed; its edge lists are 1: 2 3, 2: 3 and 3: nothing. */
  lemma ExampleShape()
    ensures Wf(Example())
    ensures Targets(Example(), 1) == [2, 3] && Targets(Example(), 2) == [3] && Targets(Example(), 3) == []
  {
    var g := Example();
    assert Distinct(g.verts);
    assert EdgesClosed(g.verts, g.edges);
    assert CellsBacked(g) by {
      forall i, j | 0 <= i < 3 && 0 <= j < 3 ensures g.mat[i][j] == 0 || (g.mat[i][j] == 1 && g.verts[j] in g.edges[i]) {
        assert g.verts[j] == j + 1;
      }
    }
    assert IndexOf(g.verts, 1) == 0 && IndexOf(g.verts, 2) == 1 && IndexOf(g.verts, 3) == 2;
  }

  /** The example's matrix and edge lists agree. */
  lemma ExampleSynced()
    ensures Wf(Example()) && Synced(Example())
  {
    var g := Example();
    ExampleShape();
    forall i, j | 0 <= i < 3 && 0 <= j < 3 ensures g.mat[i][j] == 1 <==> g.verts[j] in g.edges[i] {
      assert g.verts[j] == j + 1;
    }
  }

  /** Popping 1 prints it and pushes 2 then 3. */
  lemma ExampleVisit1()
    ensures Wf(Example())
    ensures [1] + DfsLoop(Example(), [2, 3], {1}) == DfsLoop(Example(), [1], {})
  {
    var g := Example();
    ExampleShape();
    DfsLoopVisits(g, [], [1], {}, DfsLoop(g, [1], {}));
    assert {} + {1} == {1};
    assert Unvisited([2, 3], {1}) == [2, 3];
  }

  /** Popping 3 prints it and pushes nothing. */
  lemma ExampleVisit3()
    ensures Wf(Example())
    ensures [3] + DfsLoop(Example(), [2], {1, 3}) == DfsLoop(Example(), [2, 3], {1})
  {
    var g := Example();
    ExampleShape();
    DfsLoopVisits(g, [], [2, 3], {1}, DfsLoop(g, [2, 3], {1}));
    assert {1} + {3} == {1, 3};
    assert [2, 3][..1] == [2];
  }

  /** Popping 2 prints it; its successor 3 is already visited, so the stack empties. */
  lemma ExampleVisit2()
    ensures Wf(Example())
    ensures [2] == DfsLoop(Example(), [2], {1, 3})
  {
    var g := Example();
    ExampleShape();
    DfsLoopVisits(g, [], [2], {1, 3}, DfsLoop(g, [2], {1, 3}));
    assert {1, 3} + {2} == {1, 2, 3};
    assert Unvisited([3], {1, 2, 3}) == [];
  }

  /** DFS from 1 on the example prints 1 3 2: the stack pops the last pushed successor first. */
  lemma DfsExample()
    ensures Wf(Example()) && DfsOrder(Example(), 1) == [1, 3, 2]
  {
    ExampleShape();
    ExampleVisit1();
    ExampleVisit3();
    ExampleVisit2();
  }
}
