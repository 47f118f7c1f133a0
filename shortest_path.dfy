/** Constrained shortest paths through the campus map (PS11/shortest_path.py).

    The map is a directed graph whose edges carry a weight pair
    (total distance, distance spent outdoors). Two searches look for the
    path from `start` to `end` of least total distance whose total and
    outdoor distances stay within two bounds: an exhaustive enumeration of
    simple paths (`allPaths` + `bruteForceSearch`) and a depth-first search
    pruned against the best length found so far (`dfSearch` + `directedDFS`). */
module ShortestPath {
  import opened Wrappers

  type Node = string

  datatype Weight = Weight(total: int, outdoor: int) {
    function Plus(o: Weight): Weight {
      Weight(total + o.total, outdoor + o.outdoor)
    }
  }

  const Zero := Weight(0, 0)

  /** One entry of `graph.childrenOf(n)`: the child and the edge's weight pair. */
  datatype Edge = Edge(dest: Node, weight: Weight)

  /** The graph as its search sees it: `hasNode(n)` is `n in g` and
      `childrenOf(n)` is `g[n]`, an ordered list that may hold parallel edges. */
  type Graph = map<Node, seq<Edge>>

  type Path = seq<Node>

  /** `bruteForceSearch` and `directedDFS` raise ValueError when no path fits. */
  datatype SearchError = ValueError

  function Children(g: Graph, n: Node): seq<Edge> {
    if n in g then g[n] else []
  }

  function Elems(p: Path): set<Node> {
    set x | x in p
  }

  /** The map file holds non-negative integer distances. */
  ghost predicate NonNegative(g: Graph) {
    forall n, e :: n in g && e in g[n] ==> 0 <= e.weight.total && 0 <= e.weight.outdoor
  }

  // ---------------------------------------------------------------------
  // Path length

  /** Sum of the weights of every entry of `es` leading to `v`. */
  function EdgeSum(es: seq<Edge>, v: Node): Weight {
    if es == [] then Zero
    else
      var last := es[|es| - 1];
      EdgeSum(es[..|es| - 1], v).Plus(if last.dest == v then last.weight else Zero)
  }

  /** What `pathLength` adds for the consecutive pair (u, v). */
  function StepWeight(g: Graph, u: Node, v: Node): Weight {
    EdgeSum(Children(g, u), v)
  }

  /** The weight pair of a path: both components summed over consecutive pairs. */
  function PathLength(g: Graph, p: Path): Weight {
    if |p| < 2 then Zero
    else PathLength(g, p[..|p| - 1]).Plus(StepWeight(g, p[|p| - 2], p[|p| - 1]))
  }

  function Total(g: Graph, p: Path): int {
    PathLength(g, p).total
  }

  predicate WithinBounds(g: Graph, p: Path, maxTotal: int, maxOutdoors: int) {
    var w := PathLength(g, p);
    w.total <= maxTotal && w.outdoor <= maxOutdoors
  }

  /** `pathLength(graph, path)`: two nested loops over the pairs and the children. */
  method ComputePathLength(g: Graph, path: Path) returns (w: Weight)
    ensures w == PathLength(g, path)
  {
    var totLength, outLength := 0, 0;
    var n := if |path| > 0 then |path| - 1 else 0;
    for i := 0 to n
      invariant |path| == 0 ==> Weight(totLength, outLength) == Zero
      invariant |path| > 0 ==> Weight(totLength, outLength) == PathLength(g, path[..i + 1])
    {
      var cs := Children(g, path[i]);
      ghost var before := Weight(totLength, outLength);
      for j := 0 to |cs|
        invariant Weight(totLength, outLength) == before.Plus(EdgeSum(cs[..j], path[i + 1]))
      {
        assert cs[..j + 1][..j] == cs[..j];
        if cs[j].dest == path[i + 1] {
          totLength := totLength + cs[j].weight.total;
          outLength := outLength + cs[j].weight.outdoor;
        }
      }
      assert cs[..|cs|] == cs;
      assert path[..i + 2][..i + 1] == path[..i + 1];
    }
    assert |path| > 0 ==> path[..n + 1] == path;
    w := Weight(totLength, outLength);
  }

  /** Parallel edges: the entries of two halves of a child list add up. */
  lemma {:induction false} EdgeSumConcat(a: seq<Edge>, b: seq<Edge>, v: Node)
    ensures EdgeSum(a + b, v) == EdgeSum(a, v).Plus(EdgeSum(b, v))
    decreases |b|
  {
    if b == [] {
      assert a + b == a;
    } else {
      var b', last := b[..|b| - 1], b[|b| - 1];
      var ab := a + b;
      assert ab[..|ab| - 1] == a + b' && ab[|ab| - 1] == last;
      var x := if last.dest == v then last.weight else Zero;
      assert EdgeSum(ab, v) == EdgeSum(a + b', v).Plus(x);
      assert EdgeSum(b, v) == EdgeSum(b', v).Plus(x);
      EdgeSumConcat(a, b', v);
    }
  }

  /** Entries leading elsewhere contribute nothing. */
  lemma {:induction false} EdgeSumNoMatch(es: seq<Edge>, v: Node)
    requires forall e :: e in es ==> e.dest != v
    ensures EdgeSum(es, v) == Zero
    decreases |es|
  {
    if es != [] {
      assert es[|es| - 1] in es;
      EdgeSumNoMatch(es[..|es| - 1], v);
    }
  }

  lemma {:induction false} EdgeSumNonNegative(es: seq<Edge>, v: Node)
    requires forall e :: e in es ==> 0 <= e.weight.total && 0 <= e.weight.outdoor
    ensures 0 <= EdgeSum(es, v).total && 0 <= EdgeSum(es, v).outdoor
    decreases |es|
  {
    if es != [] {
      assert es[|es| - 1] in es;
      EdgeSumNonNegative(es[..|es| - 1], v);
    }
  }

  /** Extending a path by one node adds exactly the weights of the new pair. */
  lemma PathLengthAppend(g: Graph, p: Path, v: Node)
    requires |p| > 0
    ensures PathLength(g, p + [v]) == PathLength(g, p).Plus(StepWeight(g, p[|p| - 1], v))
  {
    assert (p + [v])[..|p|] == p;
  }

  /** With non-negative weights a prefix of a path is never longer, in either component. */
  lemma {:induction false} PrefixNoLonger(g: Graph, q: Path, k: nat)
    requires NonNegative(g)
    requires 1 <= k <= |q|
    ensures Total(g, q[..k]) <= Total(g, q)
    ensures PathLength(g, q[..k]).outdoor <= PathLength(g, q).outdoor
    decreases |q| - k
  {
    if k < |q| {
      var q' := q[..|q| - 1];
      assert q'[..k] == q[..k];
      PrefixNoLonger(g, q', k);
      EdgeSumNonNegative(Children(g, q[|q| - 2]), q[|q| - 1]);
    } else {
      assert q[..k] == q;
    }
  }

  // ---------------------------------------------------------------------
  // Paths

  ghost predicate LeadsTo(cs: seq<Edge>, v: Node) {
    exists e :: e in cs && e.dest == v
  }

  ghost predicate HasEdge(g: Graph, u: Node, v: Node) {
    LeadsTo(Children(g, u), v)
  }

  predicate IsSimple(p: Path) {
    forall i, j :: 0 <= i < j < |p| ==> p[i] != p[j]
  }

  ghost predicate IsWalk(g: Graph, p: Path) {
    forall i :: 0 <= i < |p| - 1 ==> HasEdge(g, p[i], p[i + 1])
  }

  /** `q` is a simple path along edges that begins with the partial path `p`
      and ends at `end`. */
  ghost predicate Completes(g: Graph, p: Path, end: Node, q: Path) {
    && |p| <= |q|
    && q[..|p|] == p
    && |q| > 0
    && q[|q| - 1] == end
    && IsSimple(q)
    && IsWalk(g, q)
  }

  /** A simple path from `start` to `end` within both bounds. */
  ghost predicate IsFeasiblePath(g: Graph, start: Node, end: Node, q: Path, maxTotal: int, maxOutdoors: int) {
    Completes(g, [start], end, q) && WithinBounds(g, q, maxTotal, maxOutdoors)
  }

  /** Every simple path extending `p` to `end` is within both bounds (for
      `p == [start]`, the situation of the test cases run with LARGE_DIST). */
  ghost predicate AllCompletionsWithin(g: Graph, p: Path, end: Node, maxTotal: int, maxOutdoors: int) {
    forall q :: Completes(g, p, end, q) ==> WithinBounds(g, q, maxTotal, maxOutdoors)
  }

  lemma FewerUnvisited(g: Graph, path: Path, start: Node)
    requires start in g && start !in path
    ensures |g.Keys - Elems(path + [start])| < |g.Keys - Elems(path)|
  {
    assert g.Keys - Elems(path + [start]) == (g.Keys - Elems(path)) - {start};
  }

  lemma CompletesNarrow(g: Graph, p: Path, c: Node, end: Node, q: Path)
    requires Completes(g, p + [c], end, q)
    ensures Completes(g, p, end, q)
  {
    assert q[..|p|] == q[..|p| + 1][..|p|];
  }

  lemma CompletesWiden(g: Graph, p: Path, end: Node, q: Path)
    requires Completes(g, p, end, q) && |q| > |p|
    ensures Completes(g, p + [q[|p|]], end, q)
    ensures |p| > 0 ==> HasEdge(g, p[|p| - 1], q[|p|])
  {
    assert q[..|p| + 1] == q[..|p|] + [q[|p|]];
  }

  /** A partial path already at `end` has no longer simple completion. */
  lemma CompletesAtEnd(g: Graph, p: Path, end: Node, q: Path)
    requires Completes(g, p, end, q) && |p| > 0 && p[|p| - 1] == end
    ensures q == p
  {
    if |q| > |p| {
      assert false;
    }
  }

  lemma ExtendWalk(g: Graph, p: Path, cs: seq<Edge>, c: Node)
    requires |p| > 0 && IsSimple(p) && IsWalk(g, p)
    requires forall e :: e in cs ==> e in Children(g, p[|p| - 1])
    requires c !in p && LeadsTo(cs, c)
    ensures IsSimple(p + [c]) && IsWalk(g, p + [c])
  {
    var p' := p + [c];
    forall i | 0 <= i < |p'| - 1 ensures HasEdge(g, p'[i], p'[i + 1]) {
      if i < |p| - 1 {
        assert p'[i] == p[i] && p'[i + 1] == p[i + 1];
      }
    }
  }

  // ---------------------------------------------------------------------
  // Exhaustive enumeration: allPaths

  /** `allPaths(graph, start, end, maxTotalDist, maxDistOutdoors, path)`: every
      simple extension of `path + [start]` that reaches `end` within both
      bounds, in depth-first, `childrenOf` order. The bounds are checked only
      at `end`; a path that reaches `end` out of bounds falls through to the
      children of `end`. */
  function AllPaths(g: Graph, start: Node, end: Node, maxTotal: int, maxOutdoors: int, path: Path): seq<Path>
    requires start !in path
    decreases |g.Keys - Elems(path)|, 1, 0
  {
    var p := path + [start];
    if start == end && WithinBounds(g, p, maxTotal, maxOutdoors) then [p]
    else if start !in g then []
    else AllPathsChildren(g, start, end, maxTotal, maxOutdoors, path, g[start])
  }

  /** The `for node in graph.childrenOf(start)` loop of `allPaths`. */
  function AllPathsChildren(g: Graph, start: Node, end: Node, maxTotal: int, maxOutdoors: int,
                            path: Path, cs: seq<Edge>): seq<Path>
    requires start in g && start !in path
    decreases |g.Keys - Elems(path)|, 0, |cs|
  {
    if cs == [] then []
    else
      var p := path + [start];
      assert g.Keys - Elems(p) == (g.Keys - Elems(path)) - {start};
      var here := if cs[0].dest in p then [] else AllPaths(g, cs[0].dest, end, maxTotal, maxOutdoors, p);
      here + AllPathsChildren(g, start, end, maxTotal, maxOutdoors, path, cs[1..])
  }

  /** Soundness of `allPaths`: every path it returns starts with the partial
      path, follows edges, repeats no node, ends at `end` and is within bounds. */
  lemma {:induction false} AllPathsSound(g: Graph, start: Node, end: Node, maxTotal: int, maxOutdoors: int, path: Path)
    requires start !in path && IsSimple(path + [start]) && IsWalk(g, path + [start])
    ensures forall r :: r in AllPaths(g, start, end, maxTotal, maxOutdoors, path) ==>
              Completes(g, path + [start], end, r) && WithinBounds(g, r, maxTotal, maxOutdoors)
    decreases |g.Keys - Elems(path)|, 1, 0
  {
    var p := path + [start];
    if start == end && WithinBounds(g, p, maxTotal, maxOutdoors) {
      assert p[..|p|] == p;
    } else if start in g {
      AllPathsChildrenSound(g, start, end, maxTotal, maxOutdoors, path, g[start]);
    }
  }

  lemma {:induction false} AllPathsChildrenSound(g: Graph, start: Node, end: Node, maxTotal: int, maxOutdoors: int,
                                                 path: Path, cs: seq<Edge>)
    requires start in g && start !in path && IsSimple(path + [start]) && IsWalk(g, path + [start])
    requires forall e :: e in cs ==> e in g[start]
    ensures forall r :: r in AllPathsChildren(g, start, end, maxTotal, maxOutdoors, path, cs) ==>
              Completes(g, path + [start], end, r) && WithinBounds(g, r, maxTotal, maxOutdoors)
    decreases |g.Keys - Elems(path)|, 0, |cs|
  {
    if cs != [] {
      var p := path + [start];
      var c := cs[0].dest;
      AllPathsChildrenSound(g, start, end, maxTotal, maxOutdoors, path, cs[1..]);
      if c !in p {
        FewerUnvisited(g, path, start);
        assert cs[0] in cs;
        ExtendWalk(g, p, cs, c);
        AllPathsSound(g, c, end, maxTotal, maxOutdoors, p);
        forall r | r in AllPaths(g, c, end, maxTotal, maxOutdoors, p)
          ensures Completes(g, p, end, r)
        {
          CompletesNarrow(g, p, c, end, r);
        }
      }
    }
  }

  /** Completeness of `allPaths`: every simple extension of the partial path
      that reaches `end` within both bounds is enumerated. */
  lemma {:induction false} AllPathsComplete(g: Graph, start: Node, end: Node, maxTotal: int, maxOutdoors: int,
                                            path: Path, q: Path)
    requires start !in path
    requires Completes(g, path + [start], end, q) && WithinBounds(g, q, maxTotal, maxOutdoors)
    ensures q in AllPaths(g, start, end, maxTotal, maxOutdoors, path)
    decreases |q| - |path|, 0, 0
  {
    var p := path + [start];
    if start == end {
      CompletesAtEnd(g, p, end, q);
    } else {
      assert q[|p| - 1] == start;
      CompletesWiden(g, p, end, q);
      AllPathsChildrenComplete(g, start, end, maxTotal, maxOutdoors, path, g[start], q);
    }
  }

  lemma {:induction false} AllPathsChildrenComplete(g: Graph, start: Node, end: Node, maxTotal: int, maxOutdoors: int,
                                                    path: Path, cs: seq<Edge>, q: Path)
    requires start in g && start !in path
    requires |q| > |path| + 1 && Completes(g, path + [start] + [q[|path| + 1]], end, q)
    requires WithinBounds(g, q, maxTotal, maxOutdoors)
    requires LeadsTo(cs, q[|path| + 1])
    ensures q in AllPathsChildren(g, start, end, maxTotal, maxOutdoors, path, cs)
    decreases |q| - |path| - 1, 1, |cs|
  {
    var p := path + [start];
    var c := q[|p|];
    var e :| e in cs && e.dest == c;
    if cs[0].dest == c {
      assert q[..|p| + 1][|p| - 1] == start;
      assert c !in p by {
        assert q[..|p|] == p;
        forall i | 0 <= i < |p| ensures p[i] != c { assert q[i] == p[i]; }
      }
      FewerUnvisited(g, path, start);
      AllPathsComplete(g, c, end, maxTotal, maxOutdoors, p, q);
    } else {
      assert e in cs[1..];
      AllPathsChildrenComplete(g, start, end, maxTotal, maxOutdoors, path, cs[1..], q);
    }
  }

  // ---------------------------------------------------------------------
  // Choosing the shortest path of a list

  /** Whether the selection loop considers a path: `bruteForceSearch` filters
      by the bounds again, `directedDFS` does not. */
  ghost predicate Eligible(g: Graph, p: Path, maxTotal: int, maxOutdoors: int, filtered: bool) {
    !filtered || WithinBounds(g, p, maxTotal, maxOutdoors)
  }

  /** `paths[i]` is eligible, no eligible path is shorter, and every eligible
      path before it is strictly longer (the loop replaces only on `<`). */
  ghost predicate FirstShortest(g: Graph, paths: seq<Path>, i: int, maxTotal: int, maxOutdoors: int, filtered: bool) {
    && 0 <= i < |paths|
    && Eligible(g, paths[i], maxTotal, maxOutdoors, filtered)
    && (forall j :: 0 <= j < |paths| && Eligible(g, paths[j], maxTotal, maxOutdoors, filtered) ==>
          Total(g, paths[i]) <= Total(g, paths[j]))
    && (forall j :: 0 <= j < i && Eligible(g, paths[j], maxTotal, maxOutdoors, filtered) ==>
          Total(g, paths[i]) < Total(g, paths[j]))
  }

  /** The "select shortest path under constraints" loop shared by
      `bruteForceSearch` (filtered) and `directedDFS` (unfiltered). */
  method SelectShortest(g: Graph, paths: seq<Path>, maxTotal: int, maxOutdoors: int, filtered: bool)
    returns (best: Option<Path>)
    ensures best.None? <==> forall j :: 0 <= j < |paths| ==> !Eligible(g, paths[j], maxTotal, maxOutdoors, filtered)
    ensures best.Some? ==> exists i :: FirstShortest(g, paths, i, maxTotal, maxOutdoors, filtered) && paths[i] == best.value
  {
    var shortPath: Option<Path> := None;
    var shortLength: Option<int> := None;
    ghost var bi := -1;
    for k := 0 to |paths|
      invariant shortPath.None? <==> shortLength.None?
      invariant shortPath.None? ==> forall j :: 0 <= j < k ==> !Eligible(g, paths[j], maxTotal, maxOutdoors, filtered)
      invariant shortPath.Some? ==>
        && 0 <= bi < k && paths[bi] == shortPath.value
        && shortLength.value == Total(g, paths[bi])
        && Eligible(g, paths[bi], maxTotal, maxOutdoors, filtered)
        && (forall j :: 0 <= j < k && Eligible(g, paths[j], maxTotal, maxOutdoors, filtered) ==>
              shortLength.value <= Total(g, paths[j]))
        && (forall j :: 0 <= j < bi && Eligible(g, paths[j], maxTotal, maxOutdoors, filtered) ==>
              shortLength.value < Total(g, paths[j]))
    {
      var w := ComputePathLength(g, paths[k]);
      var ok := !filtered || (w.total <= maxTotal && w.outdoor <= maxOutdoors);
      if shortLength.None? && ok {
        shortLength, shortPath := Some(w.total), Some(paths[k]);
        bi := k;
      } else if shortLength.Some? && w.total < shortLength.value && ok {
        shortLength, shortPath := Some(w.total), Some(paths[k]);
        bi := k;
      }
    }
    if shortPath.Some? {
      assert FirstShortest(g, paths, bi, maxTotal, maxOutdoors, filtered);
    }
    best := shortPath;
  }

  // ---------------------------------------------------------------------
  // bruteForceSearch

  /** `bruteForceSearch`: enumerate with `allPaths`, keep the first shortest.
      ValueError exactly when no simple path from `start` to `end` fits both
      bounds; otherwise a fitting path no longer than any other fitting path. */
  method BruteForceSearch(g: Graph, start: Node, end: Node, maxTotal: int, maxOutdoors: int)
    returns (r: Result<Path, SearchError>)
    ensures r.Err? <==> !exists q :: IsFeasiblePath(g, start, end, q, maxTotal, maxOutdoors)
    ensures r.Ok? ==> IsFeasiblePath(g, start, end, r.value, maxTotal, maxOutdoors)
    ensures r.Ok? ==> forall q :: IsFeasiblePath(g, start, end, q, maxTotal, maxOutdoors) ==>
                        Total(g, r.value) <= Total(g, q)
    ensures r.Ok? ==> exists i :: FirstShortest(g, AllPaths(g, start, end, maxTotal, maxOutdoors, []), i, maxTotal, maxOutdoors, true)
                                  && AllPaths(g, start, end, maxTotal, maxOutdoors, [])[i] == r.value
  {
    var paths := AllPaths(g, start, end, maxTotal, maxOutdoors, []);
    AllPathsAreFeasiblePaths(g, start, end, maxTotal, maxOutdoors);
    var best := SelectShortest(g, paths, maxTotal, maxOutdoors, true);
    if best.None? {
      r := Err(ValueError);
      assert forall q :: q in paths ==> !WithinBounds(g, q, maxTotal, maxOutdoors);
    } else {
      r := Ok(best.value);
      ghost var i :| FirstShortest(g, paths, i, maxTotal, maxOutdoors, true) && paths[i] == best.value;
      assert paths[i] in paths;
      forall q | IsFeasiblePath(g, start, end, q, maxTotal, maxOutdoors)
        ensures Total(g, r.value) <= Total(g, q)
      {
        ghost var j :| 0 <= j < |paths| && paths[j] == q;
      }
    }
  }

  /** The paths `allPaths` lists from the empty prefix are exactly the simple
      start-to-end paths within both bounds. */
  lemma AllPathsAreFeasiblePaths(g: Graph, start: Node, end: Node, maxTotal: int, maxOutdoors: int)
    ensures forall q :: q in AllPaths(g, start, end, maxTotal, maxOutdoors, []) <==>
                        IsFeasiblePath(g, start, end, q, maxTotal, maxOutdoors)
  {
    assert [] + [start] == [start];
    AllPathsSound(g, start, end, maxTotal, maxOutdoors, []);
    forall q | IsFeasiblePath(g, start, end, q, maxTotal, maxOutdoors)
      ensures q in AllPaths(g, start, end, maxTotal, maxOutdoors, [])
    {
      AllPathsComplete(g, start, end, maxTotal, maxOutdoors, [], q);
    }
  }

  /** A query from a building to itself yields the one-node path whenever
      both bounds are non-negative. */
  lemma OwnBuildingOnly(g: Graph, start: Node, maxTotal: int, maxOutdoors: int)
    requires 0 <= maxTotal && 0 <= maxOutdoors
    ensures AllPaths(g, start, start, maxTotal, maxOutdoors, []) == [[start]]
  {
    assert [] + [start] == [start];
  }

  // ---------------------------------------------------------------------
  // dfSearch: functional model

  /** When the first arrival at `end` writes the memo: `RecordAlways` is the
      code as written (it stores the length even of a path out of bounds),
      `RecordFeasibleOnly` the evidently intended rule. */
  datatype FirstArrival = RecordAlways | RecordFeasibleOnly

  /** The memo's 'shortest' entry after reaching `end` along a path of weight `w`. */
  function RecordArrival(policy: FirstArrival, memo: Option<int>, w: Weight, maxTotal: int, maxOutdoors: int): (m: Option<int>)
    ensures memo.Some? ==> m.Some? && m.value <= memo.value
    ensures m != memo ==> m == Some(w.total)
    ensures m != memo && (memo.Some? || policy == RecordFeasibleOnly) ==> w.total <= maxTotal && w.outdoor <= maxOutdoors
  {
    var feasible := w.total <= maxTotal && w.outdoor <= maxOutdoors;
    if memo.Some? then
      (if w.total < memo.value && feasible then Some(w.total) else memo)
    else if policy == RecordAlways || feasible then Some(w.total)
    else None
  }

  /** A child is skipped when the partial path is already no shorter than the
      memo, or already over either bound. */
  predicate Pruned(g: Graph, p: Path, memo: Option<int>, maxTotal: int, maxOutdoors: int) {
    var w := PathLength(g, p);
    (memo.Some? && w.total >= memo.value) || w.outdoor > maxOutdoors || w.total > maxTotal
  }

  /** `dfSearch(graph, start, end, ..., path, memo)`: the paths returned and the
      memo's 'shortest' entry afterwards. */
  function DfsRun(g: Graph, start: Node, end: Node, maxTotal: int, maxOutdoors: int,
                  path: Path, memo: Option<int>, policy: FirstArrival): (seq<Path>, Option<int>)
    requires start !in path
    decreases |g.Keys - Elems(path)|, 1, 0
  {
    var p := path + [start];
    var w := PathLength(g, p);
    var arrived := if start == end then RecordArrival(policy, memo, w, maxTotal, maxOutdoors) else memo;
    if start == end && w.total <= maxTotal && w.outdoor <= maxOutdoors then ([p], arrived)
    else if start !in g then ([], arrived)
    else DfsChildren(g, start, end, maxTotal, maxOutdoors, path, g[start], arrived, policy)
  }

  /** The `for node in graph.childrenOf(start)` loop of `dfSearch`, threading the memo. */
  function DfsChildren(g: Graph, start: Node, end: Node, maxTotal: int, maxOutdoors: int,
                       path: Path, cs: seq<Edge>, memo: Option<int>, policy: FirstArrival): (seq<Path>, Option<int>)
    requires start in g && start !in path
    decreases |g.Keys - Elems(path)|, 0, |cs|
  {
    if cs == [] then ([], memo)
    else
      var first := DfsChild(g, start, end, maxTotal, maxOutdoors, path, cs[0].dest, memo, policy);
      var rest := DfsChildren(g, start, end, maxTotal, maxOutdoors, path, cs[1..], first.1, policy);
      (first.0 + rest.0, rest.1)
  }

  /** One iteration of that loop: skip a child already on the path or a
      pruned partial path, otherwise search from the child. */
  function DfsChild(g: Graph, start: Node, end: Node, maxTotal: int, maxOutdoors: int,
                    path: Path, c: Node, memo: Option<int>, policy: FirstArrival): (seq<Path>, Option<int>)
    requires start in g && start !in path
    decreases |g.Keys - Elems(path)|, 0, 0
  {
    var p := path + [start];
    assert g.Keys - Elems(p) == (g.Keys - Elems(path)) - {start};
    if c in p || Pruned(g, p, memo, maxTotal, maxOutdoors) then ([], memo)
    else DfsRun(g, c, end, maxTotal, maxOutdoors, p, memo, policy)
  }

  /** The children loop's invariant carried over one turn: the paths found
      so far extended by the turn's paths, and the rest of the list. */
  lemma ChildrenAdvance(g: Graph, start: Node, end: Node, maxTotal: int, maxOutdoors: int,
                        path: Path, cs: seq<Edge>, i: nat, m0: Option<int>, m1: Option<int>,
                        paths: seq<Path>, found: seq<Path>, policy: FirstArrival)
    requires start in g && start !in path && i < |cs|
    requires (found, m1) == DfsChild(g, start, end, maxTotal, maxOutdoors, path, cs[i].dest, m0, policy)
    ensures var rest := DfsChildren(g, start, end, maxTotal, maxOutdoors, path, cs[i..], m0, policy);
            var rest' := DfsChildren(g, start, end, maxTotal, maxOutdoors, path, cs[i + 1..], m1, policy);
            (paths + rest.0, rest.1) == ((paths + found) + rest'.0, rest'.1)
  {
    DfsChildrenStep(g, start, end, maxTotal, maxOutdoors, path, cs, i, m0, policy);
    var rest' := DfsChildren(g, start, end, maxTotal, maxOutdoors, path, cs[i + 1..], m1, policy);
    assert paths + (found + rest'.0) == (paths + found) + rest'.0;
  }

  /** One turn of the children loop, from position `i` of the child list. */
  lemma DfsChildrenStep(g: Graph, start: Node, end: Node, maxTotal: int, maxOutdoors: int,
                        path: Path, cs: seq<Edge>, i: nat, memo: Option<int>, policy: FirstArrival)
    requires start in g && start !in path && i < |cs|
    ensures var first := DfsChild(g, start, end, maxTotal, maxOutdoors, path, cs[i].dest, memo, policy);
            var rest := DfsChildren(g, start, end, maxTotal, maxOutdoors, path, cs[i + 1..], first.1, policy);
            DfsChildren(g, start, end, maxTotal, maxOutdoors, path, cs[i..], memo, policy) == (first.0 + rest.0, rest.1)
  {
    assert cs[i..][0] == cs[i] && cs[i..][1..] == cs[i + 1..];
  }

  /** The paths `dfSearch` returns to its top-level caller (empty path, fresh memo). */
  function DfsPaths(g: Graph, start: Node, end: Node, maxTotal: int, maxOutdoors: int, policy: FirstArrival): seq<Path> {
    DfsRun(g, start, end, maxTotal, maxOutdoors, [], None, policy).0
  }

  ghost predicate NoWorse(m1: Option<int>, m0: Option<int>) {
    m0.Some? ==> m1.Some? && m1.value <= m0.value
  }

  ghost predicate Found(g: Graph, paths: seq<Path>, t: int) {
    exists r :: r in paths && Total(g, r) <= t
  }

  /** The memo changed only to the length of a path the search returned. */
  ghost predicate Witnessed(g: Graph, paths: seq<Path>, m1: Option<int>, m0: Option<int>) {
    m1 == m0 || (m1.Some? && Found(g, paths, m1.value))
  }

  /** A path of length `t` is matched: by a returned path, or by the memo on entry. */
  ghost predicate Covered(g: Graph, paths: seq<Path>, memo: Option<int>, t: int) {
    Found(g, paths, t) || (memo.Some? && memo.value <= t)
  }

  /** When the memo on entry can be trusted: the corrected policy, a memo that is
      already set, or a graph where every completion of `p` is within bounds. */
  ghost predicate MemoSafe(g: Graph, p: Path, end: Node, maxTotal: int, maxOutdoors: int,
                           memo: Option<int>, policy: FirstArrival) {
    policy == RecordFeasibleOnly || memo.Some? || AllCompletionsWithin(g, p, end, maxTotal, maxOutdoors)
  }

  /** The memo stays trustworthy, and the partial path stays simple, one step deeper. */
  lemma ChildSafe(g: Graph, p: Path, cs: seq<Edge>, c: Node, end: Node, maxTotal: int, maxOutdoors: int,
                  memo: Option<int>, policy: FirstArrival)
    requires |p| > 0 && IsSimple(p) && IsWalk(g, p) && c !in p && LeadsTo(cs, c)
    requires forall e :: e in cs ==> e in Children(g, p[|p| - 1])
    requires MemoSafe(g, p, end, maxTotal, maxOutdoors, memo, policy)
    ensures IsSimple(p + [c]) && IsWalk(g, p + [c])
    ensures MemoSafe(g, p + [c], end, maxTotal, maxOutdoors, memo, policy)
  {
    ExtendWalk(g, p, cs, c);
    if policy == RecordAlways && memo.None? {
      forall q | Completes(g, p + [c], end, q) ensures WithinBounds(g, q, maxTotal, maxOutdoors) {
        CompletesNarrow(g, p, c, end, q);
      }
    }
  }

  /** How coverage and witnesses combine over the two halves of the children loop. */
  lemma CoveredConcat(g: Graph, a: seq<Path>, b: seq<Path>, m0: Option<int>, m1: Option<int>, t: int)
    requires Covered(g, a, m0, t) || (Covered(g, b, m1, t) && Witnessed(g, a, m1, m0))
    ensures Covered(g, a + b, m0, t)
  {
    if Found(g, a, t) {
      var r :| r in a && Total(g, r) <= t;
      assert r in a + b;
    } else if Found(g, b, t) {
      var r :| r in b && Total(g, r) <= t;
      assert r in a + b;
    }
  }

  /** Soundness of `dfSearch`: it returns only simple paths that extend the
      partial path, reach `end` and are within both bounds. */
  lemma {:induction false} DfsSound(g: Graph, start: Node, end: Node, maxTotal: int, maxOutdoors: int,
                                    path: Path, memo: Option<int>, policy: FirstArrival)
    requires start !in path && IsSimple(path + [start]) && IsWalk(g, path + [start])
    ensures forall r :: r in DfsRun(g, start, end, maxTotal, maxOutdoors, path, memo, policy).0 ==>
              Completes(g, path + [start], end, r) && WithinBounds(g, r, maxTotal, maxOutdoors)
    decreases |g.Keys - Elems(path)|, 1, 0
  {
    var p := path + [start];
    var w := PathLength(g, p);
    var arrived := if start == end then RecordArrival(policy, memo, w, maxTotal, maxOutdoors) else memo;
    if start == end && w.total <= maxTotal && w.outdoor <= maxOutdoors {
      assert p[..|p|] == p;
    } else if start in g {
      DfsChildrenSound(g, start, end, maxTotal, maxOutdoors, path, g[start], arrived, policy);
    }
  }

  lemma {:induction false} DfsChildrenSound(g: Graph, start: Node, end: Node, maxTotal: int, maxOutdoors: int,
                                            path: Path, cs: seq<Edge>, memo: Option<int>, policy: FirstArrival)
    requires start in g && start !in path && IsSimple(path + [start]) && IsWalk(g, path + [start])
    requires forall e :: e in cs ==> e in g[start]
    ensures forall r :: r in DfsChildren(g, start, end, maxTotal, maxOutdoors, path, cs, memo, policy).0 ==>
              Completes(g, path + [start], end, r) && WithinBounds(g, r, maxTotal, maxOutdoors)
    decreases |g.Keys - Elems(path)|, 0, |cs|
  {
    if cs != [] {
      var p := path + [start];
      var c := cs[0].dest;
      FewerUnvisited(g, path, start);
      var first := if c in p || Pruned(g, p, memo, maxTotal, maxOutdoors) then ([], memo)
                   else DfsRun(g, c, end, maxTotal, maxOutdoors, p, memo, policy);
      DfsChildrenSound(g, start, end, maxTotal, maxOutdoors, path, cs[1..], first.1, policy);
      if !(c in p || Pruned(g, p, memo, maxTotal, maxOutdoors)) {
        assert cs[0] in cs;
        ExtendWalk(g, p, cs, c);
        DfsSound(g, c, end, maxTotal, maxOutdoors, p, memo, policy);
        forall r | r in first.0 ensures Completes(g, p, end, r) {
          CompletesNarrow(g, p, c, end, r);
        }
      }
    }
  }

  /** The memo never gets worse, and it changes only to the length of a path
      that the same call returns, provided the memo on entry is trustworthy. */
  lemma {:induction false} DfsMemo(g: Graph, start: Node, end: Node, maxTotal: int, maxOutdoors: int,
                                   path: Path, memo: Option<int>, policy: FirstArrival)
    requires start !in path
    ensures NoWorse(DfsRun(g, start, end, maxTotal, maxOutdoors, path, memo, policy).1, memo)
    ensures IsSimple(path + [start]) && IsWalk(g, path + [start]) &&
            MemoSafe(g, path + [start], end, maxTotal, maxOutdoors, memo, policy) ==>
              var res := DfsRun(g, start, end, maxTotal, maxOutdoors, path, memo, policy);
              Witnessed(g, res.0, res.1, memo)
    decreases |g.Keys - Elems(path)|, 1, 0
  {
    var p := path + [start];
    var w := PathLength(g, p);
    var arrived := if start == end then RecordArrival(policy, memo, w, maxTotal, maxOutdoors) else memo;
    var safe := IsSimple(p) && IsWalk(g, p) && MemoSafe(g, p, end, maxTotal, maxOutdoors, memo, policy);
    if start == end && w.total <= maxTotal && w.outdoor <= maxOutdoors {
      assert p in [p];
    } else {
      if safe && start == end && arrived != memo {
        assert p[..|p|] == p;
        assert Completes(g, p, end, p);
        assert false;
      }
      if start in g {
        DfsChildrenMemo(g, start, end, maxTotal, maxOutdoors, path, g[start], arrived, policy);
      }
    }
  }

  lemma {:induction false} DfsChildrenMemo(g: Graph, start: Node, end: Node, maxTotal: int, maxOutdoors: int,
                                           path: Path, cs: seq<Edge>, memo: Option<int>, policy: FirstArrival)
    requires start in g && start !in path
    requires forall e :: e in cs ==> e in g[start]
    ensures NoWorse(DfsChildren(g, start, end, maxTotal, maxOutdoors, path, cs, memo, policy).1, memo)
    ensures IsSimple(path + [start]) && IsWalk(g, path + [start]) &&
            MemoSafe(g, path + [start], end, maxTotal, maxOutdoors, memo, policy) ==>
              var res := DfsChildren(g, start, end, maxTotal, maxOutdoors, path, cs, memo, policy);
              Witnessed(g, res.0, res.1, memo)
    decreases |g.Keys - Elems(path)|, 0, |cs|
  {
    if cs != [] {
      var first := DfsChild(g, start, end, maxTotal, maxOutdoors, path, cs[0].dest, memo, policy);
      var rest := DfsChildren(g, start, end, maxTotal, maxOutdoors, path, cs[1..], first.1, policy);
      assert DfsChildren(g, start, end, maxTotal, maxOutdoors, path, cs, memo, policy) == (first.0 + rest.0, rest.1);
      DfsChildNoWorse(g, start, end, maxTotal, maxOutdoors, path, cs[0].dest, memo, policy);
      DfsChildrenMemo(g, start, end, maxTotal, maxOutdoors, path, cs[1..], first.1, policy);
      if IsSimple(path + [start]) && IsWalk(g, path + [start]) && MemoSafe(g, path + [start], end, maxTotal, maxOutdoors, memo, policy) {
        DfsChildWitnessed(g, start, end, maxTotal, maxOutdoors, path, cs, memo, policy);
        WitnessedConcat(g, first.0, rest.0, memo, first.1, rest.1);
      }
    }
  }

  /** One child never makes the memo worse. */
  lemma {:induction false} DfsChildNoWorse(g: Graph, start: Node, end: Node, maxTotal: int, maxOutdoors: int,
                                           path: Path, c: Node, memo: Option<int>, policy: FirstArrival)
    requires start in g && start !in path
    ensures NoWorse(DfsChild(g, start, end, maxTotal, maxOutdoors, path, c, memo, policy).1, memo)
    decreases |g.Keys - Elems(path)|, 0, 0
  {
    var p := path + [start];
    FewerUnvisited(g, path, start);
    if !(c in p || Pruned(g, p, memo, maxTotal, maxOutdoors)) {
      DfsMemo(g, c, end, maxTotal, maxOutdoors, p, memo, policy);
    }
  }

  /** Witnesses of two successive memo changes combine over the concatenated results. */
  lemma WitnessedConcat(g: Graph, a: seq<Path>, b: seq<Path>, m0: Option<int>, m1: Option<int>, m2: Option<int>)
    requires Witnessed(g, a, m1, m0) && Witnessed(g, b, m2, m1)
    ensures Witnessed(g, a + b, m2, m0)
  {
    if m2 != m0 {
      if m2 == m1 {
        var r :| r in a && Total(g, r) <= m1.value;
        assert r in a + b;
      } else {
        var r :| r in b && Total(g, r) <= m2.value;
        assert r in a + b;
      }
    }
  }

  /** Optimality of `dfSearch`: every fitting completion of the partial path is
      matched by a returned path no longer than it, or by the memo on entry. */
  lemma {:induction false} DfsOptimal(g: Graph, start: Node, end: Node, maxTotal: int, maxOutdoors: int,
                                      path: Path, memo: Option<int>, policy: FirstArrival, q: Path)
    requires NonNegative(g) && start !in path && IsSimple(path + [start]) && IsWalk(g, path + [start])
    requires MemoSafe(g, path + [start], end, maxTotal, maxOutdoors, memo, policy)
    requires Completes(g, path + [start], end, q) && WithinBounds(g, q, maxTotal, maxOutdoors)
    ensures Covered(g, DfsRun(g, start, end, maxTotal, maxOutdoors, path, memo, policy).0, memo, Total(g, q))
    decreases |g.Keys - Elems(path)|, 1, 0
  {
    var p := path + [start];
    if start == end {
      CompletesAtEnd(g, p, end, q);
      assert p in [p];
    } else {
      assert q[|p| - 1] == p[|p| - 1];
      CompletesWiden(g, p, end, q);
      DfsChildrenOptimal(g, start, end, maxTotal, maxOutdoors, path, g[start], memo, policy, q);
    }
  }

  lemma {:induction false} DfsChildrenOptimal(g: Graph, start: Node, end: Node, maxTotal: int, maxOutdoors: int,
                                              path: Path, cs: seq<Edge>, memo: Option<int>, policy: FirstArrival, q: Path)
    requires NonNegative(g) && start in g && start !in path && IsSimple(path + [start]) && IsWalk(g, path + [start])
    requires forall e :: e in cs ==> e in g[start]
    requires MemoSafe(g, path + [start], end, maxTotal, maxOutdoors, memo, policy)
    requires Completes(g, path + [start], end, q) && WithinBounds(g, q, maxTotal, maxOutdoors)
    requires |q| > |path| + 1 && LeadsTo(cs, q[|path| + 1])
    ensures Covered(g, DfsChildren(g, start, end, maxTotal, maxOutdoors, path, cs, memo, policy).0, memo, Total(g, q))
    decreases |g.Keys - Elems(path)|, 0, |cs|
  {
    var c := cs[0].dest;
    var first := DfsChild(g, start, end, maxTotal, maxOutdoors, path, c, memo, policy);
    var rest := DfsChildren(g, start, end, maxTotal, maxOutdoors, path, cs[1..], first.1, policy);
    assert DfsChildren(g, start, end, maxTotal, maxOutdoors, path, cs, memo, policy) == (first.0 + rest.0, rest.1);
    if c == q[|path| + 1] {
      DfsChildCovers(g, start, end, maxTotal, maxOutdoors, path, cs, memo, policy, q);
    } else {
      var e :| e in cs && e.dest == q[|path| + 1];
      assert e in cs[1..];
      DfsChildWitnessed(g, start, end, maxTotal, maxOutdoors, path, cs, memo, policy);
      DfsChildrenOptimal(g, start, end, maxTotal, maxOutdoors, path, cs[1..], first.1, policy, q);
    }
    CoveredConcat(g, first.0, rest.0, memo, first.1, Total(g, q));
  }

  /** The child that the completion `q` goes through: searching from it (or
      pruning it) covers `q`. */
  lemma {:induction false} DfsChildCovers(g: Graph, start: Node, end: Node, maxTotal: int, maxOutdoors: int,
                                          path: Path, cs: seq<Edge>, memo: Option<int>, policy: FirstArrival, q: Path)
    requires NonNegative(g) && start in g && start !in path && IsSimple(path + [start]) && IsWalk(g, path + [start])
    requires forall e :: e in cs ==> e in g[start]
    requires MemoSafe(g, path + [start], end, maxTotal, maxOutdoors, memo, policy)
    requires Completes(g, path + [start], end, q) && WithinBounds(g, q, maxTotal, maxOutdoors)
    requires |q| > |path| + 1 && cs != [] && cs[0].dest == q[|path| + 1]
    ensures Covered(g, DfsChild(g, start, end, maxTotal, maxOutdoors, path, cs[0].dest, memo, policy).0, memo, Total(g, q))
    decreases |g.Keys - Elems(path)|, 0, 0
  {
    var p := path + [start];
    var c := cs[0].dest;
    NextOnCompletion(g, p, end, q);
    if Pruned(g, p, memo, maxTotal, maxOutdoors) {
      PrunedCompletion(g, p, end, q, memo, maxTotal, maxOutdoors);
    } else {
      FewerUnvisited(g, path, start);
      assert cs[0] in cs;
      ChildSafe(g, p, cs, c, end, maxTotal, maxOutdoors, memo, policy);
      CompletesWiden(g, p, end, q);
      DfsOptimal(g, c, end, maxTotal, maxOutdoors, p, memo, policy, q);
    }
  }

  /** The node a completion visits after the partial path is not on it. */
  lemma NextOnCompletion(g: Graph, p: Path, end: Node, q: Path)
    requires Completes(g, p, end, q) && |q| > |p|
    ensures q[|p|] !in p
  {
    forall i | 0 <= i < |p| ensures p[i] != q[|p|] { assert q[i] == p[i]; }
  }

  /** A partial path pruned against the memo, while a completion of it fits
      both bounds, means the memo is no longer than that completion. */
  lemma PrunedCompletion(g: Graph, p: Path, end: Node, q: Path, memo: Option<int>, maxTotal: int, maxOutdoors: int)
    requires NonNegative(g) && p != [] && Completes(g, p, end, q) && WithinBounds(g, q, maxTotal, maxOutdoors)
    requires Pruned(g, p, memo, maxTotal, maxOutdoors)
    ensures memo.Some? && memo.value <= Total(g, q)
  {
    assert q[..|p|] == p;
    PrefixNoLonger(g, q, |p|);
  }

  /** Any other child: the memo it leaves behind is no worse, witnessed by a
      path it returned, and still trustworthy. */
  lemma {:induction false} DfsChildWitnessed(g: Graph, start: Node, end: Node, maxTotal: int, maxOutdoors: int,
                                             path: Path, cs: seq<Edge>, memo: Option<int>, policy: FirstArrival)
    requires start in g && start !in path && IsSimple(path + [start]) && IsWalk(g, path + [start])
    requires forall e :: e in cs ==> e in g[start]
    requires MemoSafe(g, path + [start], end, maxTotal, maxOutdoors, memo, policy)
    requires cs != []
    ensures var first := DfsChild(g, start, end, maxTotal, maxOutdoors, path, cs[0].dest, memo, policy);
            NoWorse(first.1, memo) && Witnessed(g, first.0, first.1, memo) &&
            MemoSafe(g, path + [start], end, maxTotal, maxOutdoors, first.1, policy)
    decreases |g.Keys - Elems(path)|, 0, 0
  {
    var p := path + [start];
    var c := cs[0].dest;
    FewerUnvisited(g, path, start);
    if !(c in p || Pruned(g, p, memo, maxTotal, maxOutdoors)) {
      assert cs[0] in cs;
      ChildSafe(g, p, cs, c, end, maxTotal, maxOutdoors, memo, policy);
      DfsMemo(g, c, end, maxTotal, maxOutdoors, p, memo, policy);
    }
  }

  /** What the search returns at top level: only fitting simple paths, and,
      whenever the memo can be trusted, one no longer than any fitting path. */
  lemma DfsFindsOptimum(g: Graph, start: Node, end: Node, maxTotal: int, maxOutdoors: int, policy: FirstArrival)
    requires NonNegative(g)
    requires policy == RecordFeasibleOnly || AllCompletionsWithin(g, [start], end, maxTotal, maxOutdoors)
    ensures forall r :: r in DfsPaths(g, start, end, maxTotal, maxOutdoors, policy) ==>
              IsFeasiblePath(g, start, end, r, maxTotal, maxOutdoors)
    ensures forall q :: IsFeasiblePath(g, start, end, q, maxTotal, maxOutdoors) ==>
              Found(g, DfsPaths(g, start, end, maxTotal, maxOutdoors, policy), Total(g, q))
  {
    assert [] + [start] == [start];
    DfsSound(g, start, end, maxTotal, maxOutdoors, [], None, policy);
    forall q | IsFeasiblePath(g, start, end, q, maxTotal, maxOutdoors)
      ensures Found(g, DfsPaths(g, start, end, maxTotal, maxOutdoors, policy), Total(g, q))
    {
      DfsOptimal(g, start, end, maxTotal, maxOutdoors, [], None, policy, q);
    }
  }

  /** Soundness at top level, for any policy and any weights. */
  lemma DfsPathsSound(g: Graph, start: Node, end: Node, maxTotal: int, maxOutdoors: int, policy: FirstArrival)
    ensures forall r :: r in DfsPaths(g, start, end, maxTotal, maxOutdoors, policy) ==>
              IsFeasiblePath(g, start, end, r, maxTotal, maxOutdoors)
  {
    assert [] + [start] == [start];
    DfsSound(g, start, end, maxTotal, maxOutdoors, [], None, policy);
  }

  /** The corrected first-arrival rule: with non-negative weights the search
      always returns a shortest fitting path, and fails only when none exists. */
  lemma FeasibleOnlyMemoFindsOptimum(g: Graph, start: Node, end: Node, maxTotal: int, maxOutdoors: int)
    requires NonNegative(g)
    ensures (DfsPaths(g, start, end, maxTotal, maxOutdoors, RecordFeasibleOnly) == []) <==>
            !exists q :: IsFeasiblePath(g, start, end, q, maxTotal, maxOutdoors)
    ensures forall q :: IsFeasiblePath(g, start, end, q, maxTotal, maxOutdoors) ==>
              Found(g, DfsPaths(g, start, end, maxTotal, maxOutdoors, RecordFeasibleOnly), Total(g, q))
  {
    var paths := DfsPaths(g, start, end, maxTotal, maxOutdoors, RecordFeasibleOnly);
    DfsFindsOptimum(g, start, end, maxTotal, maxOutdoors, RecordFeasibleOnly);
    if paths != [] {
      assert paths[0] in paths;
    }
  }

  /** The campus map of the counterexample, over any three distinct buildings:
      the direct edge s->e is listed first and lies almost entirely outdoors;
      the detour s->a->e is indoors. */
  function DetourMap(s: Node, a: Node, e: Node): Graph {
    map[s := [Edge(e, Weight(1, 100)), Edge(a, Weight(1, 0))],
        a := [Edge(e, Weight(1, 0))],
        e := []]
  }

  lemma EdgeSumOne(x: Edge, v: Node)
    ensures EdgeSum([x], v) == (if x.dest == v then x.weight else Zero)
  {
    var xs := [x];
    assert xs[..|xs| - 1] == [];
    var w := if x.dest == v then x.weight else Zero;
    calc {
      EdgeSum(xs, v);
      EdgeSum([], v).Plus(w);
      Zero.Plus(w);
      w;
    }
  }

  lemma EdgeSumPair(x: Edge, y: Edge, v: Node)
    ensures EdgeSum([x, y], v) == EdgeSum([x], v).Plus(if y.dest == v then y.weight else Zero)
  {
    var xy := [x, y];
    assert xy[..1] == [x] && xy[1] == y;
  }

  lemma DetourWeights(s: Node, a: Node, e: Node)
    requires s != a && a != e && s != e
    ensures PathLength(DetourMap(s, a, e), [s]) == Zero
    ensures PathLength(DetourMap(s, a, e), [s, e]) == Weight(1, 100)
    ensures PathLength(DetourMap(s, a, e), [s, a]) == Weight(1, 0)
    ensures PathLength(DetourMap(s, a, e), [s, a, e]) == Weight(2, 0)
  {
    var g := DetourMap(s, a, e);
    var e1, e2, e3 := Edge(e, Weight(1, 100)), Edge(a, Weight(1, 0)), Edge(e, Weight(1, 0));
    EdgeSumOne(e1, a);
    EdgeSumOne(e1, e);
    EdgeSumOne(e3, e);
    EdgeSumPair(e1, e2, a);
    EdgeSumPair(e1, e2, e);
    assert StepWeight(g, s, a) == Weight(1, 0);
    assert StepWeight(g, s, e) == Weight(1, 100);
    assert StepWeight(g, a, e) == Weight(1, 0);
    assert [s, e][..1] == [s] && [s, a][..1] == [s] && [s, a, e][..2] == [s, a];
  }

  /** As written: the search returns nothing on the detour map. */
  lemma DetourAsWritten(s: Node, a: Node, e: Node)
    requires s != a && a != e && s != e
    ensures DfsPaths(DetourMap(s, a, e), s, e, 10, 0, RecordAlways) == []
  {
    var g := DetourMap(s, a, e);
    DetourWeights(s, a, e);
    var cs := g[s];
    assert [] + [s] == [s] && [s] + [e] == [s, e] && [s] + [a] == [s, a];
    assert cs[1..] == [Edge(a, Weight(1, 0))] && cs[1..][1..] == [] && g[a][1..] == [];
    assert DfsRun(g, e, e, 10, 0, [s], None, RecordAlways) == ([], Some(1));
    assert DfsChild(g, a, e, 10, 0, [s], e, Some(1), RecordAlways) == ([], Some(1));
    assert g[a] == [Edge(e, Weight(1, 0))] && g[a][0].dest == e;
    assert DfsChildren(g, a, e, 10, 0, [s], g[a][1..], Some(1), RecordAlways) == ([], Some(1));
    assert g[a][0..] == g[a];
    DfsChildrenStep(g, a, e, 10, 0, [s], g[a], 0, Some(1), RecordAlways);
    assert g[a][0 + 1..] == [];
    var none: seq<Path> := [];
    assert none + none == none;
    assert DfsChildren(g, a, e, 10, 0, [s], g[a], Some(1), RecordAlways) == ([], Some(1));
    assert DfsRun(g, a, e, 10, 0, [s], Some(1), RecordAlways) == ([], Some(1));
    assert DfsChildren(g, s, e, 10, 0, [], cs[1..], Some(1), RecordAlways) == ([], Some(1));
    assert DfsChildren(g, s, e, 10, 0, [], cs, None, RecordAlways) == ([], Some(1));
  }

  /** Corrected: from `a`, reached over the indoor edge, the search finds
      the detour and records its length 2. */
  lemma DetourCorrectedFromA(s: Node, a: Node, e: Node)
    requires s != a && a != e && s != e
    ensures DfsRun(DetourMap(s, a, e), a, e, 10, 0, [s], None, RecordFeasibleOnly) == ([[s, a, e]], Some(2))
  {
    var g := DetourMap(s, a, e);
    DetourWeights(s, a, e);
    var q: Path := [s, a, e];
    assert [s] + [a] == [s, a] && [s, a] + [e] == q;
    assert g[a] == [Edge(e, Weight(1, 0))] && g[a][0].dest == e && g[a][1..] == [];
    assert DfsRun(g, e, e, 10, 0, [s, a], None, RecordFeasibleOnly) == ([q], Some(2));
    assert DfsChild(g, a, e, 10, 0, [s], e, None, RecordFeasibleOnly) == ([q], Some(2));
    assert DfsChildren(g, a, e, 10, 0, [s], g[a][1..], Some(2), RecordFeasibleOnly) == ([], Some(2));
    assert [q] + [] == [q];
    assert DfsChildren(g, a, e, 10, 0, [s], g[a], None, RecordFeasibleOnly) == ([q], Some(2));
  }

  /** Corrected: the search returns the indoor detour. */
  lemma DetourCorrected(s: Node, a: Node, e: Node)
    requires s != a && a != e && s != e
    ensures DfsPaths(DetourMap(s, a, e), s, e, 10, 0, RecordFeasibleOnly) == [[s, a, e]]
  {
    var g := DetourMap(s, a, e);
    DetourWeights(s, a, e);
    DetourCorrectedFromA(s, a, e);
    var q: Path := [s, a, e];
    var cs := g[s];
    assert [] + [s] == [s] && [s] + [e] == [s, e];
    assert cs[1..] == [Edge(a, Weight(1, 0))] && cs[1..][1..] == [];
    assert DfsRun(g, e, e, 10, 0, [s], None, RecordFeasibleOnly) == ([], None);
    assert cs[1..][0].dest == a && !Pruned(g, [s], None, 10, 0);
    assert DfsChild(g, s, e, 10, 0, [], a, None, RecordFeasibleOnly) == ([q], Some(2));
    assert DfsChildren(g, s, e, 10, 0, [], cs[1..][1..], Some(2), RecordFeasibleOnly) == ([], Some(2));
    assert [q] + [] == [q];
    assert DfsChildren(g, s, e, 10, 0, [], cs[1..], None, RecordFeasibleOnly) == ([q], Some(2));
    assert cs[0..] == cs;
    DfsChildrenStep(g, s, e, 10, 0, [], cs, 0, None, RecordFeasibleOnly);
    assert DfsChild(g, s, e, 10, 0, [], e, None, RecordFeasibleOnly) == ([], None);
    assert [] + [q] == [q];
    assert DfsChildren(g, s, e, 10, 0, [], cs, None, RecordFeasibleOnly) == ([q], Some(2));
  }

  /** As written, the first arrival at `e` (over the outdoor edge, out of bounds)
      stores 1 in the memo, and the indoor detour, already of length 1 at `a`,
      is pruned: the search returns nothing although [s, a, e] fits both bounds
      (total 10, outdoors 0). The corrected rule returns the detour. */
  lemma FirstArrivalCounterexample(s: Node, a: Node, e: Node)
    requires s != a && a != e && s != e
    ensures IsFeasiblePath(DetourMap(s, a, e), s, e, [s, a, e], 10, 0)
    ensures DfsPaths(DetourMap(s, a, e), s, e, 10, 0, RecordAlways) == []
    ensures DfsPaths(DetourMap(s, a, e), s, e, 10, 0, RecordFeasibleOnly) == [[s, a, e]]
  {
    var g := DetourMap(s, a, e);
    var q: Path := [s, a, e];
    DetourWeights(s, a, e);
    assert HasEdge(g, s, a) by { assert g[s][1] in g[s]; }
    assert HasEdge(g, a, e) by { assert g[a][0] in g[a]; }
    assert q[..1] == [s];
    DetourAsWritten(s, a, e);
    DetourCorrected(s, a, e);
  }

  // ---------------------------------------------------------------------
  // dfSearch and directedDFS as written

  /** The dictionary shared by the recursive calls of one search; only its
      'shortest' entry is ever used. */
  class Memo {
    var shortest: Option<int>

    constructor ()
      ensures shortest == None
    {
      shortest := None;
    }
  }

  /** `dfSearch`: returns the paths and updates the shared memo exactly as the
      functional model with the as-written first-arrival rule. */
  method DfSearch(g: Graph, start: Node, end: Node, maxTotal: int, maxOutdoors: int, path: Path, memo: Memo)
    returns (paths: seq<Path>)
    requires start !in path
    modifies memo
    ensures (paths, memo.shortest) == DfsRun(g, start, end, maxTotal, maxOutdoors, path, old(memo.shortest), RecordAlways)
    decreases |g.Keys - Elems(path)|, 2
  {
    var p := path + [start];
    if start == end {
      var w := ComputePathLength(g, p);
      if memo.shortest.Some? {
        if w.total < memo.shortest.value && w.total <= maxTotal && w.outdoor <= maxOutdoors {
          memo.shortest := Some(w.total);
        }
      } else {
        memo.shortest := Some(w.total);
      }
      if w.total <= maxTotal && w.outdoor <= maxOutdoors {
        return [p];
      }
    }
    if start !in g {
      return [];
    }
    paths := SearchChildren(g, start, end, maxTotal, maxOutdoors, path, memo);
  }

  /** The `for node in graph.childrenOf(start)` loop of `dfSearch`. */
  method SearchChildren(g: Graph, start: Node, end: Node, maxTotal: int, maxOutdoors: int, path: Path, memo: Memo)
    returns (paths: seq<Path>)
    requires start in g && start !in path
    modifies memo
    ensures (paths, memo.shortest) == DfsChildren(g, start, end, maxTotal, maxOutdoors, path, g[start], old(memo.shortest), RecordAlways)
    decreases |g.Keys - Elems(path)|, 1
  {
    var short: Option<int> := None;
    paths := [];
    var cs := g[start];
    ghost var all := DfsChildren(g, start, end, maxTotal, maxOutdoors, path, cs, memo.shortest, RecordAlways);
    assert cs[0..] == cs && paths + all.0 == all.0;
    for i := 0 to |cs|
      invariant short.Some? ==> memo.shortest.Some?
      invariant DfsChildren(g, start, end, maxTotal, maxOutdoors, path, cs, old(memo.shortest), RecordAlways) ==
        var rest := DfsChildren(g, start, end, maxTotal, maxOutdoors, path, cs[i..], memo.shortest, RecordAlways);
        (paths + rest.0, rest.1)
    {
      ghost var m := memo.shortest;
      var found;
      found, short := SearchChild(g, start, end, maxTotal, maxOutdoors, path, cs[i].dest, short, memo);
      ChildrenAdvance(g, start, end, maxTotal, maxOutdoors, path, cs, i, m, memo.shortest, paths, found, RecordAlways);
      paths := paths + found;
    }
    assert cs[|cs|..] == [];
    assert paths + [] == paths;
  }

  /** One turn of that loop: the local `short` is refreshed from the memo
      before the pruning test, and keeps its old value while the memo is unset. */
  method SearchChild(g: Graph, start: Node, end: Node, maxTotal: int, maxOutdoors: int, path: Path,
                     c: Node, short0: Option<int>, memo: Memo)
    returns (found: seq<Path>, short: Option<int>)
    requires start in g && start !in path
    requires short0.Some? ==> memo.shortest.Some?
    modifies memo
    ensures (found, memo.shortest) == DfsChild(g, start, end, maxTotal, maxOutdoors, path, c, old(memo.shortest), RecordAlways)
    ensures short.Some? ==> memo.shortest.Some?
    decreases |g.Keys - Elems(path)|, 0
  {
    var p := path + [start];
    short := short0;
    found := [];
    if c !in p {
      var w := ComputePathLength(g, p);
      if memo.shortest.Some? {
        short := memo.shortest;
      }
      if !((short.Some? && w.total >= short.value) || w.outdoor > maxOutdoors || w.total > maxTotal) {
        FewerUnvisited(g, path, start);
        ghost var m := memo.shortest;
        found := DfSearch(g, c, end, maxTotal, maxOutdoors, p, memo);
        DfsMemo(g, c, end, maxTotal, maxOutdoors, p, m, RecordAlways);
      }
    }
  }

  /** `directedDFS`: searches with a fresh memo and keeps the first shortest
      returned path, without checking the bounds again. It fails exactly when
      the search returns nothing; whatever it returns fits; when every simple
      path to `end` is within both bounds (as in the tests run with very large
      bounds) it agrees with the brute-force search. */
  method DirectedDfs(g: Graph, start: Node, end: Node, maxTotal: int, maxOutdoors: int)
    returns (r: Result<Path, SearchError>)
    ensures r.Err? <==> DfsPaths(g, start, end, maxTotal, maxOutdoors, RecordAlways) == []
    ensures r.Ok? ==> IsFeasiblePath(g, start, end, r.value, maxTotal, maxOutdoors)
    ensures r.Ok? ==> forall q :: q in DfsPaths(g, start, end, maxTotal, maxOutdoors, RecordAlways) ==>
                        Total(g, r.value) <= Total(g, q)
    ensures (!exists q :: IsFeasiblePath(g, start, end, q, maxTotal, maxOutdoors)) ==> r.Err?
    ensures NonNegative(g) && AllCompletionsWithin(g, [start], end, maxTotal, maxOutdoors) ==>
              && (r.Err? <==> !exists q :: IsFeasiblePath(g, start, end, q, maxTotal, maxOutdoors))
              && (r.Ok? ==> forall q :: IsFeasiblePath(g, start, end, q, maxTotal, maxOutdoors) ==>
                              Total(g, r.value) <= Total(g, q))
  {
    var memo := new Memo();
    var paths := DfSearch(g, start, end, maxTotal, maxOutdoors, [], memo);
    assert paths == DfsPaths(g, start, end, maxTotal, maxOutdoors, RecordAlways);
    DfsPathsSound(g, start, end, maxTotal, maxOutdoors, RecordAlways);
    var best := SelectShortest(g, paths, maxTotal, maxOutdoors, false);
    if best.None? {
      r := Err(ValueError);
      assert |paths| > 0 ==> Eligible(g, paths[0], maxTotal, maxOutdoors, false);
      assert paths == [];
    } else {
      r := Ok(best.value);
      ghost var i :| FirstShortest(g, paths, i, maxTotal, maxOutdoors, false) && paths[i] == best.value;
      assert paths[i] in paths;
      forall q | q in paths ensures Total(g, r.value) <= Total(g, q) {
        ghost var j :| 0 <= j < |paths| && paths[j] == q;
      }
    }
    if NonNegative(g) && AllCompletionsWithin(g, [start], end, maxTotal, maxOutdoors) {
      DfsFindsOptimum(g, start, end, maxTotal, maxOutdoors, RecordAlways);
    }
  }
}
