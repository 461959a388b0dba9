/** Breadth-first discovery of a group tree. The listing of subgroups is a finite graph that may
    contain cycles and diamonds; a group is its ID, and the selector's exclusion rule is an
    arbitrary predicate on it. */
module GroupTree {
  import opened Prelude

  /** The graph of subgroup listings: every listed child can itself be listed. */
  type Graph = map<int, seq<int>>

  ghost predicate Closed(g: Graph, roots: seq<int>) {
    && (forall r :: r in roots ==> r in g)
    && (forall p, c :: p in g && c in g[p] ==> c in g)
  }

  /** A group with the place the traversal gave it, as a queue item and as a discovered group. */
  datatype Located = Located(id: int, depth: nat, rootParentId: int)

  /** `recursive` from the selector, `maxDepth` of the traverser (not positive: no ceiling). */
  datatype Scope = Scope(recursive: bool, maxDepth: int) {
    predicate Expands(depth: nat) {
      recursive && (maxDepth <= 0 || depth < maxDepth)
    }

    predicate Covers(depth: nat) {
      depth == 0 || Expands(depth - 1)
    }
  }

  datatype Outcome =
    | Groups(groups: seq<Located>)
    | ListingFailed(id: int)
    | Cancelled

  // ---------------------------------------------------------------------------
  // Distance
  // ---------------------------------------------------------------------------

  /** The groups at most `n` subgroup steps below some root. */
  ghost function Reach(g: Graph, roots: seq<int>, n: nat): (r: set<int>)
    requires Closed(g, roots)
    ensures r <= g.Keys
  {
    if n == 0 then
      assert forall r :: r in roots ==> r in g.Keys;
      set r | r in roots
    else
      var near := Reach(g, roots, n - 1);
      near + set p, c | p in near && c in g[p] :: c
  }

  /** `id` is exactly `d` steps below its nearest root. */
  ghost predicate AtDistance(g: Graph, roots: seq<int>, id: int, d: nat)
    requires Closed(g, roots)
  {
    id in Reach(g, roots, d) && forall e: nat :: e < d ==> id !in Reach(g, roots, e)
  }

  /** `id` is a root or, in a recursive scope, at most `maxDepth` steps below its nearest root. */
  ghost predicate InScope(g: Graph, roots: seq<int>, scope: Scope, id: int)
    requires Closed(g, roots)
  {
    exists d: nat :: AtDistance(g, roots, id, d) && (d == 0 || (scope.recursive && (scope.maxDepth <= 0 || d <= scope.maxDepth)))
  }

  lemma CoversTheScope(g: Graph, roots: seq<int>, scope: Scope, id: int)
    requires Closed(g, roots)
    ensures InScope(g, roots, scope, id) <==> exists d: nat :: AtDistance(g, roots, id, d) && scope.Covers(d)
  {
    hide AtDistance;
    if d: nat :| AtDistance(g, roots, id, d) && (d == 0 || (scope.recursive && (scope.maxDepth <= 0 || d <= scope.maxDepth))) {
      assert scope.Covers(d);
    }
    if d: nat :| AtDistance(g, roots, id, d) && scope.Covers(d) {
      assert d == 0 || (scope.recursive && (scope.maxDepth <= 0 || d <= scope.maxDepth));
    }
  }

  /** A walk down the graph: every group is a subgroup of the one before it. */
  ghost predicate Walk(g: Graph, w: seq<int>) {
    && w != []
    && (forall x :: x in w ==> x in g)
    && forall i :: 0 <= i < |w| - 1 ==> w[i + 1] in g[w[i]]
  }

  lemma {:induction false} ReachGrows(g: Graph, roots: seq<int>, m: nat, n: nat)
    requires Closed(g, roots) && m <= n
    ensures Reach(g, roots, m) <= Reach(g, roots, n)
  {
    if m < n {
      ReachGrows(g, roots, m, n - 1);
    }
  }

  lemma ChildIsReached(g: Graph, roots: seq<int>, n: nat, p: int, c: int)
    requires Closed(g, roots) && p in Reach(g, roots, n) && c in g[p]
    ensures c in Reach(g, roots, n + 1)
  {
  }

  lemma {:induction false} WalkReaches(g: Graph, roots: seq<int>, w: seq<int>)
    requires Closed(g, roots) && Walk(g, w) && w[0] in roots
    ensures w[|w| - 1] in Reach(g, roots, |w| - 1)
  {
    if |w| > 1 {
      var up := w[..|w| - 1];
      var i := |w| - 2;
      WalkReaches(g, roots, up);
      assert up[|up| - 1] == w[i];
      assert w[i + 1] in g[w[i]];
      ChildIsReached(g, roots, i, w[i], w[i + 1]);
    }
  }

  lemma {:induction false} ReachHasWalk(g: Graph, roots: seq<int>, n: nat, id: int) returns (w: seq<int>)
    requires Closed(g, roots) && id in Reach(g, roots, n)
    ensures Walk(g, w) && w[0] in roots && w[|w| - 1] == id && |w| <= n + 1
  {
    if n == 0 {
      w := [id];
    } else if id in Reach(g, roots, n - 1) {
      w := ReachHasWalk(g, roots, n - 1, id);
    } else {
      var p :| p in Reach(g, roots, n - 1) && id in g[p];
      var up := ReachHasWalk(g, roots, n - 1, p);
      w := up + [id];
    }
  }

  /** The level sets are about walks: `id` is within `n` steps exactly when some walk of at most
      `n` steps from a root ends in it. */
  lemma {:induction false} ReachIsWalks(g: Graph, roots: seq<int>, n: nat, id: int)
    requires Closed(g, roots)
    ensures id in Reach(g, roots, n) <==>
            exists w: seq<int> :: Walk(g, w) && w[0] in roots && w[|w| - 1] == id && |w| <= n + 1
  {
    if id in Reach(g, roots, n) {
      var w := ReachHasWalk(g, roots, n, id);
    }
    if w: seq<int> :| Walk(g, w) && w[0] in roots && w[|w| - 1] == id && |w| <= n + 1 {
      WalkReaches(g, roots, w);
      ReachGrows(g, roots, |w| - 1, n);
    }
  }

  // ---------------------------------------------------------------------------
  // What the queue satisfies while it is worked off
  // ---------------------------------------------------------------------------

  ghost function Ids(q: seq<Located>): set<int> {
    set i | 0 <= i < |q| :: q[i].id
  }

  ghost predicate Distinct(q: seq<Located>) {
    forall i, j :: 0 <= i < j < |q| ==> q[i].id != q[j].id
  }

  ghost predicate Ascending(q: seq<Located>) {
    forall i, j :: 0 <= i < j < |q| ==> q[i].depth <= q[j].depth
  }

  ghost predicate Placed(g: Graph, roots: seq<int>, scope: Scope, q: seq<Located>)
    requires Closed(g, roots)
  {
    forall x :: x in q ==> AtDistance(g, roots, x.id, x.depth) && scope.Covers(x.depth)
  }

  /** Every group of the first `head` items that is expanded at all has its children in `q`. */
  ghost predicate Expanded(g: Graph, scope: Scope, q: seq<Located>, head: nat)
    requires head <= |q|
  {
    forall x, c :: x in q[..head] && scope.Expands(x.depth) && x.id in g && c in g[x.id] ==> c in Ids(q)
  }

  /** When all items less than `k` deep are expanded, everything within `k` steps is queued. */
  lemma {:induction false} LevelIsQueued(g: Graph, roots: seq<int>, scope: Scope, q: seq<Located>, head: nat, k: nat)
    requires Closed(g, roots) && head <= |q|
    requires (set r | r in roots) <= Ids(q)
    requires Placed(g, roots, scope, q)
    requires Expanded(g, scope, q, head)
    requires forall x :: x in q && x.depth < k ==> x in q[..head]
    requires scope.Covers(k)
    ensures Reach(g, roots, k) <= Ids(q)
  {
    if k > 0 {
      hide Ids, Placed, Expanded;
      LevelIsQueued(g, roots, scope, q, head, k - 1);
      forall id | id in Reach(g, roots, k) && id !in Reach(g, roots, k - 1)
        ensures id in Ids(q)
      {
        var p :| p in Reach(g, roots, k - 1) && id in g[p];
        NearIsExpanded(g, roots, scope, q, head, k, p, id);
      }
    }
  }

  /** A queued group less than k steps down is expanded, so its children are queued. */
  lemma NearIsExpanded(g: Graph, roots: seq<int>, scope: Scope, q: seq<Located>, head: nat, k: nat, p: int, id: int)
    requires Closed(g, roots) && head <= |q| && Placed(g, roots, scope, q) && Expanded(g, scope, q, head)
    requires forall x :: x in q && x.depth < k ==> x in q[..head]
    requires k > 0 && scope.Covers(k) && p in Reach(g, roots, k - 1) && p in Ids(q) && id in g[p]
    ensures id in Ids(q)
  {
    hide Reach;
    var i :| 0 <= i < |q| && q[i].id == p;
    assert q[i] in q;
    assert q[i].depth <= k - 1;
  }

  /** Once the queue is worked off it holds exactly the groups in scope. */
  lemma {:induction false} QueueIsScope(g: Graph, roots: seq<int>, scope: Scope, q: seq<Located>)
    requires Closed(g, roots)
    requires (set r | r in roots) <= Ids(q)
    requires Placed(g, roots, scope, q)
    requires Expanded(g, scope, q, |q|)
    ensures forall id :: id in Ids(q) <==> InScope(g, roots, scope, id)
  {
    assert q[..|q|] == q;
    forall id
      ensures id in Ids(q) <==> InScope(g, roots, scope, id)
    {
      CoversTheScope(g, roots, scope, id);
      if id in Ids(q) {
        var i :| 0 <= i < |q| && q[i].id == id;
        assert q[i] in q;
      }
      if d: nat :| AtDistance(g, roots, id, d) && scope.Covers(d) {
        LevelIsQueued(g, roots, scope, q, |q|, d);
      }
    }
  }

  /** A sound queue is no longer than the graph is large; this bounds the traversal. */
  lemma QueueFitsGraph(g: Graph, roots: seq<int>, scope: Scope, q: seq<Located>)
    requires Closed(g, roots) && Placed(g, roots, scope, q) && Distinct(q)
    ensures |q| <= |g|
  {
    forall i | 0 <= i < |q| ensures q[i].id in g.Keys {
      assert q[i] in q;
      assert q[i].id in Reach(g, roots, q[i].depth);
    }
    var ids := seq(|q|, i requires 0 <= i < |q| => q[i].id);
    assert NoDup(ids);
    NoDupCardinality(ids);
    assert Elements(ids) == Ids(q) by {
      forall i | 0 <= i < |q| ensures q[i].id in Elements(ids) { assert ids[i] in ids; }
    }
    SubsetCardinality(Ids(q), g.Keys);
  }

  // ---------------------------------------------------------------------------
  // The root a group is attributed to
  // ---------------------------------------------------------------------------

  /** The root a child inherits: its parent's, or the parent itself when that is 0. */
  function InheritedRoot(parent: Located): int {
    if parent.rootParentId == 0 then parent.id else parent.rootParentId
  }

  /** `up[i]` is the queue position item `i` was found from, or -1 for a root. */
  ghost predicate Forest(g: Graph, roots: seq<int>, q: seq<Located>, up: seq<int>) {
    && |up| == |q|
    && forall i :: 0 <= i < |q| ==> Linked(g, roots, q, up, i)
  }

  ghost predicate Linked(g: Graph, roots: seq<int>, q: seq<Located>, up: seq<int>, i: nat)
    requires i < |q| == |up|
  {
    if up[i] < 0 then q[i].depth == 0 && q[i].id in roots && q[i].rootParentId == q[i].id
    else
      && up[i] < i
      && q[up[i]].id in g && q[i].id in g[q[up[i]].id]
      && q[i].depth == q[up[i]].depth + 1
      && q[i].rootParentId == InheritedRoot(q[up[i]])
  }

  /** The fallback for a root ID of 0 is taken for a parent that is not itself a root. */
  ghost predicate LosesRoot(q: seq<Located>, up: seq<int>, i: nat)
    requires i < |q| == |up|
  {
    0 <= up[i] < |q| && q[up[i]].depth > 0 && q[up[i]].rootParentId == 0
  }

  lemma {:induction false} RootReaches(g: Graph, roots: seq<int>, q: seq<Located>, up: seq<int>, i: nat)
    requires Closed(g, roots) && Forest(g, roots, q, up) && i < |q|
    requires forall k :: 0 <= k < |q| ==> !LosesRoot(q, up, k)
    ensures q[i].rootParentId in roots
    ensures q[i].id in Reach(g, [q[i].rootParentId], q[i].depth)
  {
    assert Linked(g, roots, q, up, i);
    if up[i] >= 0 {
      var p := up[i];
      RootReaches(g, roots, q, up, p);
      assert !LosesRoot(q, up, i);
      if q[p].depth == 0 {
        assert q[p].id == q[p].rootParentId;
      }
    }
  }

  lemma {:induction false} NonZeroRoots(g: Graph, roots: seq<int>, q: seq<Located>, up: seq<int>, i: nat)
    requires Forest(g, roots, q, up) && 0 !in roots && i < |q|
    ensures q[i].rootParentId in roots && !LosesRoot(q, up, i)
  {
    assert Linked(g, roots, q, up, i);
    if up[i] >= 0 {
      NonZeroRoots(g, roots, q, up, up[i]);
    }
  }

  // ---------------------------------------------------------------------------
  // Exclusion
  // ---------------------------------------------------------------------------

  /** The items that are reported: those not excluded, in queue order. */
  ghost function Kept(q: seq<Located>, excluded: int -> bool): seq<Located> {
    if q == [] then []
    else
      var last := q[|q| - 1];
      Kept(q[..|q| - 1], excluded) + if excluded(last.id) then [] else [last]
  }

  lemma {:induction false} KeptMembers(q: seq<Located>, excluded: int -> bool)
    ensures forall x :: x in Kept(q, excluded) <==> x in q && !excluded(x.id)
  {
    if q != [] {
      KeptMembers(q[..|q| - 1], excluded);
      assert q == q[..|q| - 1] + [q[|q| - 1]];
    }
  }

  lemma {:induction false} KeptKeepsOrder(q: seq<Located>, excluded: int -> bool)
    requires Distinct(q) && Ascending(q)
    ensures Distinct(Kept(q, excluded)) && Ascending(Kept(q, excluded))
  {
    if q != [] {
      var init := q[..|q| - 1];
      KeptKeepsOrder(init, excluded);
      KeptMembers(init, excluded);
      var kept := Kept(init, excluded);
      forall i | 0 <= i < |kept|
        ensures kept[i].id != q[|q| - 1].id && kept[i].depth <= q[|q| - 1].depth
      {
        assert kept[i] in init;
      }
    }
  }

  // ---------------------------------------------------------------------------
  // The traversal
  // ---------------------------------------------------------------------------

  /** Phase 1: each distinct root is queued once, at depth 0 and as its own root. */
  method Seed(g: Graph, roots: seq<int>, scope: Scope) returns (queue: seq<Located>, visited: set<int>, ghost up: seq<int>)
    requires Closed(g, roots)
    ensures visited == Ids(queue) == set r | r in roots
    ensures Sound(g, roots, scope, queue, up) && DepthsUpTo(queue, 0) && |queue| <= |g|
  {
    hide Forest, Placed, Distinct, Ids;
    queue, visited, up := [], {}, [];
    NothingQueued(g, roots, scope);
    for n := 0 to |roots|
      invariant visited == Ids(queue) == set r | r in roots[..n]
      invariant Sound(g, roots, scope, queue, up) && DepthsUpTo(queue, 0)
    {
      assert roots[..n + 1] == roots[..n] + [roots[n]];
      if roots[n] !in visited {
        PushRoot(g, roots, scope, queue, up, roots[n]);
        visited := visited + {roots[n]};
        queue := queue + [Located(roots[n], 0, roots[n])];
        up := up + [-1];
      }
    }
    assert roots[..|roots|] == roots;
    QueueFitsGraph(g, roots, scope, queue);
  }

  lemma NothingQueued(g: Graph, roots: seq<int>, scope: Scope)
    requires Closed(g, roots)
    ensures Sound(g, roots, scope, [], []) && Ids([]) == {}
  {
  }

  lemma PushRoot(g: Graph, roots: seq<int>, scope: Scope, q: seq<Located>, up: seq<int>, root: int)
    requires Closed(g, roots) && Sound(g, roots, scope, q, up) && DepthsUpTo(q, 0)
    requires root in roots && root !in Ids(q)
    ensures var x := Located(root, 0, root);
            && Sound(g, roots, scope, q + [x], up + [-1]) && DepthsUpTo(q + [x], 0)
            && Ids(q + [x]) == Ids(q) + {root}
  {
    hide Placed, Ids;
    var x := Located(root, 0, root);
    AppendId(q, x);
    AppendAscends(q, x);
    assert AtDistance(g, roots, root, 0);
    AppendPlaced(g, roots, scope, q, x);
    forall i | 0 <= i < |q| + 1 ensures Linked(g, roots, q + [x], up + [-1], i) {
      if i < |q| {
        assert Linked(g, roots, q, up, i);
      }
    }
  }

  lemma AppendAscends(q: seq<Located>, x: Located)
    requires Ascending(q) && DepthsUpTo(q, x.depth)
    ensures Ascending(q + [x]) && DepthsUpTo(q + [x], x.depth)
  {
    assert forall i :: 0 <= i < |q| ==> q[i] in q;
  }

  lemma AppendPlaced(g: Graph, roots: seq<int>, scope: Scope, q: seq<Located>, x: Located)
    requires Closed(g, roots) && Placed(g, roots, scope, q)
    requires AtDistance(g, roots, x.id, x.depth) && scope.Covers(x.depth)
    ensures Placed(g, roots, scope, q + [x])
  {
    hide AtDistance;
  }

  lemma AppendId(q: seq<Located>, x: Located)
    ensures Ids(q + [x]) == Ids(q) + {x.id}
    ensures x.id !in Ids(q) && Distinct(q) ==> Distinct(q + [x])
  {
    assert forall i :: 0 <= i < |q| ==> (q + [x])[i] == q[i];
    assert (q + [x])[|q|] == x;
    forall i | 0 <= i < |q|
      ensures q[i].id in Ids(q) && q[i].id in Ids(q + [x])
    {
      assert (q + [x])[i] == q[i];
    }
  }

  /** What the queue satisfies at every moment of the run. */
  ghost predicate Sound(g: Graph, roots: seq<int>, scope: Scope, q: seq<Located>, up: seq<int>)
    requires Closed(g, roots)
  {
    Distinct(q) && Ascending(q) && Placed(g, roots, scope, q) && Forest(g, roots, q, up)
  }

  ghost predicate DepthsUpTo(q: seq<Located>, d: nat) {
    forall x :: x in q ==> x.depth <= d
  }

  /** Queueing one new child of the item at position `at` keeps the queue sound. */
  lemma PushKeepsSound(g: Graph, roots: seq<int>, scope: Scope, q: seq<Located>, up: seq<int>, at: nat, child: int)
    requires Closed(g, roots) && Sound(g, roots, scope, q, up) && at < |q|
    requires q[at].id in g && child in g[q[at].id] && child !in Ids(q)
    requires scope.Expands(q[at].depth) && DepthsUpTo(q, q[at].depth + 1)
    requires Reach(g, roots, q[at].depth) <= Ids(q)
    ensures var x := Located(child, q[at].depth + 1, InheritedRoot(q[at]));
            && Sound(g, roots, scope, q + [x], up + [at])
            && DepthsUpTo(q + [x], q[at].depth + 1)
  {
    hide Forest, Distinct, Ids;
    var x := Located(child, q[at].depth + 1, InheritedRoot(q[at]));
    assert q[at] in q;
    FreshChild(g, roots, q[at], child);
    AppendId(q, x);
    AppendAscends(q, x);
    AppendPlaced(g, roots, scope, q, x);
    AppendToForest(g, roots, q, up, x, at);
  }

  /** Phase 3: the children not seen before are queued one level below the item at `at`. */
  method Enqueue(g: Graph, roots: seq<int>, scope: Scope, at: nat,
                 queue: seq<Located>, visited: set<int>, ghost up: seq<int>)
    returns (queue': seq<Located>, visited': set<int>, ghost up': seq<int>)
    requires Closed(g, roots) && Sound(g, roots, scope, queue, up)
    requires at < |queue| && queue[at].id in g && scope.Expands(queue[at].depth)
    requires DepthsUpTo(queue, queue[at].depth + 1)
    requires visited == Ids(queue) && Reach(g, roots, queue[at].depth) <= visited
    ensures queue <= queue' && visited <= visited' == Ids(queue')
    ensures forall c :: c in g[queue[at].id] ==> c in visited'
    ensures Sound(g, roots, scope, queue', up') && DepthsUpTo(queue', queue[at].depth + 1)
  {
    hide Sound;
    queue', visited', up' := queue, visited, up;
    var parent := queue[at];
    var children := g[parent.id];
    for n := 0 to |children|
      invariant queue <= queue' && visited <= visited' == Ids(queue')
      invariant forall c :: c in children[..n] ==> c in visited'
      invariant Sound(g, roots, scope, queue', up') && DepthsUpTo(queue', parent.depth + 1)
    {
      assert children[..n + 1] == children[..n] + [children[n]];
      if children[n] !in visited' {
        var item := Located(children[n], parent.depth + 1, InheritedRoot(parent));
        assert queue'[at] == parent;
        PushKeepsSound(g, roots, scope, queue', up', at, children[n]);
        AppendId(queue', item);
        queue', visited', up' := queue' + [item], visited' + {children[n]}, up' + [at];
      }
    }
  }

  lemma AppendToForest(g: Graph, roots: seq<int>, q: seq<Located>, up: seq<int>, x: Located, at: nat)
    requires Forest(g, roots, q, up) && at < |q|
    requires q[at].id in g && x.id in g[q[at].id]
    requires x.depth == q[at].depth + 1 && x.rootParentId == InheritedRoot(q[at])
    ensures Forest(g, roots, q + [x], up + [at])
  {
    forall i | 0 <= i < |q| + 1 ensures Linked(g, roots, q + [x], up + [at], i) {
      if i < |q| {
        assert Linked(g, roots, q, up, i);
      }
    }
  }

  /** A child of a group at depth `d` that is not within `d` steps is at distance `d + 1`. */
  lemma FreshChild(g: Graph, roots: seq<int>, parent: Located, child: int)
    requires Closed(g, roots) && AtDistance(g, roots, parent.id, parent.depth)
    requires child in g[parent.id] && child !in Reach(g, roots, parent.depth)
    ensures AtDistance(g, roots, child, parent.depth + 1)
  {
    forall e: nat | e < parent.depth + 1 ensures child !in Reach(g, roots, e) {
      ReachGrows(g, roots, e, parent.depth);
    }
  }

  /** BFSGroupTraverser.Traverse. `failing` are the groups whose listing fails, `done(k)` says the
      context is done when the loop looks at it for the k-th time.

      It terminates on every finite graph. A result lists, without duplicates and in order of
      depth, exactly the groups in scope that are not excluded -- exclusion does not cut off what
      lies below -- each with its shortest distance, and attributed to a root at that distance unless
      a root numbered 0 has descendants below its children (AttributionExactly). */
  method Traverse(g: Graph, roots: seq<int>, scope: Scope, excluded: int -> bool, failing: set<int>, done: nat -> bool)
    returns (r: Outcome)
    requires Closed(g, roots)
    ensures r.Groups? ==>
              && Distinct(r.groups) && Ascending(r.groups)
              && (forall x :: x in r.groups ==> AtDistance(g, roots, x.id, x.depth))
              && (forall id :: id in Ids(r.groups) <==>
                    && !excluded(id)
                    && exists d: nat :: AtDistance(g, roots, id, d) &&
                         (d == 0 || (scope.recursive && (scope.maxDepth <= 0 || d <= scope.maxDepth))))
              && (0 !in roots || !scope.recursive || scope.maxDepth == 1 ==> forall x :: x in r.groups ==>
                    x.rootParentId in roots && x.rootParentId in g && x.id in Reach(g, [x.rootParentId], x.depth))
              && (exists q, up ::
                    IsRun(g, roots, scope, q, up) && r.groups == Kept(q, excluded) && forall k :: 0 <= k < |q| ==> !done(k))
              && (forall id, d: nat :: AtDistance(g, roots, id, d) && scope.recursive && (scope.maxDepth <= 0 || d < scope.maxDepth) ==>
                    id !in failing)
    ensures r.ListingFailed? ==>
              && r.id in failing
              && exists d: nat :: AtDistance(g, roots, r.id, d) && scope.recursive && (scope.maxDepth <= 0 || d < scope.maxDepth)
    ensures r.Cancelled? ==> exists k: nat :: done(k)
  {
    hide Expanded, Distinct, Ascending, Ids, Forest, Sound, Kept, NoneFailed, AtDistance, Reach, DepthsUpTo, IsRun;
    var queue, visited;
    ghost var up;
    queue, visited, up := Seed(g, roots, scope);
    NothingExpanded(g, scope, queue);
    NothingKept(scope, queue, excluded, failing);
    var matched := [];
    var head := 0;
    while head < |queue|
      invariant head <= |queue| <= |g|
      invariant visited == Ids(queue) && (set r | r in roots) <= visited
      invariant Sound(g, roots, scope, queue, up)
      invariant DepthsUpTo(queue, if head == 0 then 0 else queue[head - 1].depth + 1)
      invariant Expanded(g, scope, queue, head)
      invariant matched == Kept(queue[..head], excluded)
      invariant NoneFailed(scope, queue[..head], failing)
      invariant forall k :: 0 <= k < head ==> !done(k)
      decreases |g| - head
    {
      if done(head) {
        return Cancelled;
      }
      var curr := queue[head];
      KeepNext(scope, queue, head, excluded, failing);
      if !excluded(curr.id) {
        matched := matched + [curr];
      }
      if scope.Expands(curr.depth) && curr.id in failing {
        QueuedAtDepth(g, roots, scope, queue, up, head);
        return ListingFailed(curr.id);
      }
      ghost var q := queue;
      queue, visited, up := Visit(g, roots, scope, head, queue, visited, up);
      head := head + 1;
      assert queue[..head] == q[..head];
    }
    assert queue[..|queue|] == queue;
    Finish(g, roots, scope, queue, up, excluded, failing);
    return Groups(matched);
  }

  lemma QueuedAtDepth(g: Graph, roots: seq<int>, scope: Scope, q: seq<Located>, up: seq<int>, at: nat)
    requires Closed(g, roots) && Sound(g, roots, scope, q, up) && at < |q|
    ensures AtDistance(g, roots, q[at].id, q[at].depth)
  {
    assert q[at] in q;
  }

  lemma NothingKept(scope: Scope, q: seq<Located>, excluded: int -> bool, failing: set<int>)
    ensures Kept(q[..0], excluded) == [] && NoneFailed(scope, q[..0], failing)
  {
  }

  ghost predicate NoneFailed(scope: Scope, q: seq<Located>, failing: set<int>) {
    forall x :: x in q && scope.Expands(x.depth) ==> x.id !in failing
  }

  lemma KeepNext(scope: Scope, q: seq<Located>, head: nat, excluded: int -> bool, failing: set<int>)
    requires head < |q|
    ensures Kept(q[..head + 1], excluded) == Kept(q[..head], excluded) + if excluded(q[head].id) then [] else [q[head]]
    ensures NoneFailed(scope, q[..head], failing) && !(scope.Expands(q[head].depth) && q[head].id in failing)
        ==> NoneFailed(scope, q[..head + 1], failing)
  {
    assert q[..head + 1][..head] == q[..head];
    assert q[..head + 1] == q[..head] + [q[head]];
  }

  lemma NothingExpanded(g: Graph, scope: Scope, q: seq<Located>)
    ensures Expanded(g, scope, q, 0)
  {
  }

  /** One turn of the loop: the item at `head` is expanded if the scope allows. */
  method Visit(g: Graph, roots: seq<int>, scope: Scope, head: nat,
               queue: seq<Located>, visited: set<int>, ghost up: seq<int>)
    returns (queue': seq<Located>, visited': set<int>, ghost up': seq<int>)
    requires Closed(g, roots) && Sound(g, roots, scope, queue, up) && head < |queue| <= |g|
    requires visited == Ids(queue) && (set r | r in roots) <= visited
    requires DepthsUpTo(queue, if head == 0 then 0 else queue[head - 1].depth + 1)
    requires Expanded(g, scope, queue, head)
    ensures queue <= queue' && |queue'| <= |g|
    ensures visited <= visited' == Ids(queue')
    ensures Sound(g, roots, scope, queue', up')
    ensures DepthsUpTo(queue', queue[head].depth + 1)
    ensures Expanded(g, scope, queue', head + 1)
  {
    queue', visited', up' := queue, visited, up;
    assert queue[head] in queue;
    if scope.Expands(queue[head].depth) {
      NearerIsQueued(g, roots, scope, queue, head);
      queue', visited', up' := Enqueue(g, roots, scope, head, queue, visited, up);
    }
    QueueFitsGraph(g, roots, scope, queue');
    ExpandNext(g, scope, queue, queue', head);
  }

  lemma NearerIsQueued(g: Graph, roots: seq<int>, scope: Scope, q: seq<Located>, head: nat)
    requires Closed(g, roots) && head < |q|
    requires (set r | r in roots) <= Ids(q)
    requires Ascending(q) && Placed(g, roots, scope, q) && Expanded(g, scope, q, head)
    ensures Reach(g, roots, q[head].depth) <= Ids(q)
  {
    forall x | x in q && x.depth < q[head].depth ensures x in q[..head] {
      var i :| 0 <= i < |q| && q[i] == x;
      assert i < head;
    }
    assert q[head] in q;
    LevelIsQueued(g, roots, scope, q, head, q[head].depth);
  }

  lemma ExpandNext(g: Graph, scope: Scope, q: seq<Located>, q': seq<Located>, head: nat)
    requires head < |q| && q <= q' && Ids(q) <= Ids(q')
    requires Expanded(g, scope, q, head)
    requires scope.Expands(q[head].depth) && q[head].id in g ==> forall c :: c in g[q[head].id] ==> c in Ids(q')
    ensures Expanded(g, scope, q', head + 1)
  {
    assert q'[..head + 1] == q[..head] + [q[head]];
  }

  lemma SameDistance(g: Graph, roots: seq<int>, id: int, d: nat, e: nat)
    requires Closed(g, roots) && AtDistance(g, roots, id, d) && AtDistance(g, roots, id, e)
    ensures d == e
  {
    assert !(d < e) && !(e < d);
  }

  lemma Finish(g: Graph, roots: seq<int>, scope: Scope, q: seq<Located>, up: seq<int>, excluded: int -> bool, failing: set<int>)
    requires Closed(g, roots) && Sound(g, roots, scope, q, up)
    requires (set r | r in roots) <= Ids(q)
    requires Expanded(g, scope, q, |q|) && NoneFailed(scope, q, failing)
    ensures forall id, d: nat :: AtDistance(g, roots, id, d) && scope.recursive && (scope.maxDepth <= 0 || d < scope.maxDepth) ==> id !in failing
    ensures var k := Kept(q, excluded);
            && Distinct(k) && Ascending(k)
            && (forall x :: x in k ==> AtDistance(g, roots, x.id, x.depth))
            && (forall id :: id in Ids(k) <==> InScope(g, roots, scope, id) && !excluded(id))
            && (0 !in roots || !scope.recursive || scope.maxDepth == 1 ==> forall x :: x in k ==>
                  x.rootParentId in roots && x.rootParentId in g && x.id in Reach(g, [x.rootParentId], x.depth))
    ensures IsRun(g, roots, scope, q, up)
  {
    var k := Kept(q, excluded);
    KeptKeepsOrder(q, excluded);
    KeptMembers(q, excluded);
    QueueIsScope(g, roots, scope, q);
    forall id ensures id in Ids(k) <==> id in Ids(q) && !excluded(id) {
      if id in Ids(k) {
        var i :| 0 <= i < |k| && k[i].id == id;
        assert k[i] in k;
      }
      if id in Ids(q) && !excluded(id) {
        var i :| 0 <= i < |q| && q[i].id == id;
        assert q[i] in k;
      }
    }
    forall id, d: nat | AtDistance(g, roots, id, d) && scope.recursive && (scope.maxDepth <= 0 || d < scope.maxDepth)
      ensures id !in failing
    {
      assert InScope(g, roots, scope, id);
      var i :| 0 <= i < |q| && q[i].id == id;
      SameDistance(g, roots, id, d, q[i].depth);
    }
    if 0 !in roots || !scope.recursive || scope.maxDepth == 1 {
      forall i | 0 <= i < |q| ensures !LosesRoot(q, up, i) { KeepsRoot(g, roots, scope, q, up, i); }
      forall x | x in k
        ensures x.rootParentId in roots && x.id in Reach(g, [x.rootParentId], x.depth)
      {
        var i :| 0 <= i < |q| && q[i] == x;
        RootReaches(g, roots, q, up, i);
      }
    }
  }

  // ---------------------------------------------------------------------------
  // When a group is attributed to a root
  // ---------------------------------------------------------------------------

  /** The queue of a finished traversal, with the position each item was found from. */
  ghost predicate IsRun(g: Graph, roots: seq<int>, scope: Scope, q: seq<Located>, up: seq<int>)
    requires Closed(g, roots)
  {
    Sound(g, roots, scope, q, up) && (set r | r in roots) <= Ids(q) && Expanded(g, scope, q, |q|)
  }

  ghost predicate Attributed(roots: seq<int>, q: seq<Located>) {
    forall x :: x in q ==> x.rootParentId in roots
  }

  lemma KeepsRoot(g: Graph, roots: seq<int>, scope: Scope, q: seq<Located>, up: seq<int>, i: nat)
    requires Closed(g, roots) && Sound(g, roots, scope, q, up) && i < |q|
    requires 0 !in roots || !scope.recursive || scope.maxDepth == 1
    ensures !LosesRoot(q, up, i)
  {
    hide AtDistance, Reach, Distinct, Ascending;
    if 0 !in roots {
      NonZeroRoots(g, roots, q, up, i);
    } else {
      assert Linked(g, roots, q, up, i);
      assert q[i] in q;
    }
  }

  /** A graph of the roots in which 0 has a child `a`, and that a child `b`. */
  ghost function Chain(roots: seq<int>, a: int, b: int): Graph {
    var ids := (set r | r in roots) + {0, a, b};
    map id | id in ids :: if id == 0 then [a] else if id == a then [b] else []
  }

  /** Attribution is right in every run on every graph if and only if 0 is not among the roots or the
      traversal does not reach below their children: a root ID of 0 stands for none, so the group in
      between takes its place. */
  lemma AttributionExactly(roots: seq<int>, scope: Scope)
    ensures (forall g, q, up :: Closed(g, roots) && IsRun(g, roots, scope, q, up) ==> Attributed(roots, q)) <==>
            0 !in roots || !scope.recursive || scope.maxDepth == 1
  {
    hide Sound, Expanded, Forest;
    if 0 !in roots || !scope.recursive || scope.maxDepth == 1 {
      forall g, q, up | Closed(g, roots) && IsRun(g, roots, scope, q, up) ensures Attributed(roots, q) {
        RunIsAttributed(g, roots, scope, q, up);
      }
    } else {
      var a, b := Unused(roots);
      var q, up := ChainRun(roots, scope, a, b);
      assert IsRun(Chain(roots, a, b), roots, scope, q, up) && !Attributed(roots, q);
    }
  }

  lemma RunIsAttributed(g: Graph, roots: seq<int>, scope: Scope, q: seq<Located>, up: seq<int>)
    requires Closed(g, roots) && IsRun(g, roots, scope, q, up) && (0 !in roots || !scope.recursive || scope.maxDepth == 1)
    ensures Attributed(roots, q)
  {
    forall i | 0 <= i < |q| ensures !LosesRoot(q, up, i) { KeepsRoot(g, roots, scope, q, up, i); }
    forall x | x in q ensures x.rootParentId in roots {
      var i :| 0 <= i < |q| && q[i] == x;
      RootReaches(g, roots, q, up, i);
    }
  }

  /** Two positive IDs that are no roots. */
  lemma {:induction false} Unused(roots: seq<int>) returns (a: int, b: int)
    ensures a !in roots && b !in roots && 0 < a < b
    ensures forall r :: r in roots ==> r < a
  {
    if roots == [] {
      a, b := 1, 2;
    } else {
      a, b := Unused(roots[1..]);
      assert roots == [roots[0]] + roots[1..];
      if roots[0] >= a {
        a, b := roots[0] + 1, roots[0] + 2;
      }
    }
  }

  /** The queue of the roots alone. */
  lemma {:induction false} SeedQueue(g: Graph, roots: seq<int>, scope: Scope, n: nat) returns (q: seq<Located>, up: seq<int>)
    requires Closed(g, roots) && n <= |roots|
    ensures Sound(g, roots, scope, q, up) && DepthsUpTo(q, 0)
    ensures Ids(q) == set r | r in roots[..n]
    ensures forall x :: x in q ==> x == Located(x.id, 0, x.id)
  {
    hide Sound, Ids;
    if n == 0 {
      q, up := [], [];
      NothingQueued(g, roots, scope);
    } else {
      q, up := SeedQueue(g, roots, scope, n - 1);
      var root := roots[n - 1];
      assert roots[..n] == roots[..n - 1] + [root];
      if root !in Ids(q) {
        PushRoot(g, roots, scope, q, up, root);
        q, up := q + [Located(root, 0, root)], up + [-1];
      }
    }
  }

  lemma ChainRun(roots: seq<int>, scope: Scope, a: int, b: int) returns (q: seq<Located>, up: seq<int>)
    requires 0 in roots && scope.recursive && scope.maxDepth != 1 && a !in roots && b !in roots && 0 < a < b
    ensures Closed(Chain(roots, a, b), roots) && IsRun(Chain(roots, a, b), roots, scope, q, up)
    ensures Located(b, 2, a) in q
  {
    hide Sound, Expanded, Ids, Reach;
    var g := Chain(roots, a, b);
    var q1, up1, at := ChainChild(roots, scope, a, b);
    PushKeepsSound(g, roots, scope, q1, up1, at, b);
    q, up := q1 + [Located(b, 2, a)], up1 + [at];
    AppendId(q1, Located(b, 2, a));
    assert q[|q1|] == Located(b, 2, a);
    ChainExpanded(roots, scope, a, b, q);
  }

  lemma ChainChild(roots: seq<int>, scope: Scope, a: int, b: int) returns (q: seq<Located>, up: seq<int>, at: nat)
    requires 0 in roots && scope.recursive && scope.maxDepth != 1 && a !in roots && b !in roots && 0 < a < b
    ensures Closed(Chain(roots, a, b), roots) && Sound(Chain(roots, a, b), roots, scope, q, up) && DepthsUpTo(q, 2)
    ensures at < |q| && q[at] == Located(a, 1, 0)
    ensures Ids(q) == (set r | r in roots) + {a} && Reach(Chain(roots, a, b), roots, 1) <= Ids(q)
  {
    hide Sound, Expanded;
    var g := Chain(roots, a, b);
    var q0, up0 := SeedQueue(g, roots, scope, |roots|);
    assert roots[..|roots|] == roots;
    assert 0 in Ids(q0);
    var zero :| 0 <= zero < |q0| && q0[zero].id == 0;
    assert q0[zero] in q0;
    PushKeepsSound(g, roots, scope, q0, up0, zero, a);
    q, up, at := q0 + [Located(a, 1, 0)], up0 + [zero], |q0|;
    AppendId(q0, Located(a, 1, 0));
    ChainReach(roots, a, b);
  }

  lemma ChainReach(roots: seq<int>, a: int, b: int)
    requires 0 in roots && a !in roots && b !in roots && 0 < a < b
    ensures Closed(Chain(roots, a, b), roots)
    ensures Reach(Chain(roots, a, b), roots, 1) <= (set r | r in roots) + {a}
  {
    var g := Chain(roots, a, b);
    forall id | id in Reach(g, roots, 1) ensures id in (set r | r in roots) + {a} {
      if id !in Reach(g, roots, 0) {
        var p :| p in Reach(g, roots, 0) && id in g[p];
      }
    }
  }

  lemma ChainExpanded(roots: seq<int>, scope: Scope, a: int, b: int, q: seq<Located>)
    requires 0 < a < b && a in Ids(q) && b in Ids(q)
    ensures Expanded(Chain(roots, a, b), scope, q, |q|)
  {
  }

  /** In a run on the graph 0, 1, 2 the group 2 levels below root 0 is attributed to the one between. */
  lemma ChainForgets(q: seq<Located>, up: seq<int>, scope: Scope, i: nat)
    requires Closed(Chain([0], 1, 2), [0]) && IsRun(Chain([0], 1, 2), [0], scope, q, up)
    requires i < |q| && q[i].id == 2
    ensures q[i].rootParentId == 1
  {
    hide Reach, AtDistance, Distinct, Ascending, Placed, Expanded;
    var g := Chain([0], 1, 2);
    assert Linked(g, [0], q, up, i);
    var p := up[i];
    assert Linked(g, [0], q, up, p);
    assert Linked(g, [0], q, up, up[p]);
  }

  /** So a result of such a run has a group attributed to a group that is no root. */
  lemma ResultForgets(q: seq<Located>, up: seq<int>, excluded: int -> bool)
    requires Closed(Chain([0], 1, 2), [0]) && IsRun(Chain([0], 1, 2), [0], Scope(true, 100), q, up)
    requires !excluded(2)
    ensures exists x :: x in Kept(q, excluded) && x.id == 2 && x.rootParentId == 1
  {
    hide IsRun, Kept, Chain;
    GrandchildIsQueued(q, up);
    var i :| 0 <= i < |q| && q[i].id == 2;
    ChainForgets(q, up, Scope(true, 100), i);
    KeptMembers(q, excluded);
    assert q[i] in q;
  }

  lemma ChainOfThree()
    ensures Chain([0], 1, 2) == map[0 := [1], 1 := [2], 2 := []]
  {
  }

  /** The traversal itself, on a root numbered 0 with a child 1 and a grandchild 2. */
  method RootZeroIsForgotten() returns (r: Outcome)
    ensures r.Groups? && exists x :: x in r.groups && x.id == 2 && x.rootParentId == 1
  {
    hide IsRun, Kept, Chain, Attributed, InScope;
    var g: Graph := map[0 := [1], 1 := [2], 2 := []];
    ChainOfThree();
    var excluded := (id: int) => false;
    r := Traverse(g, [0], Scope(true, 100), excluded, {}, k => false);
    ghost var q: seq<Located>, up: seq<int> :| IsRun(g, [0], Scope(true, 100), q, up) && r.groups == Kept(q, excluded);
    ResultForgets(q, up, excluded);
  }

  lemma GrandchildIsQueued(q: seq<Located>, up: seq<int>)
    requires Closed(Chain([0], 1, 2), [0]) && IsRun(Chain([0], 1, 2), [0], Scope(true, 100), q, up)
    ensures 2 in Ids(q)
  {
    var g := Chain([0], 1, 2);
    assert 1 in Reach(g, [0], 1) by { ChildIsReached(g, [0], 0, 0, 1); }
    assert 2 in Reach(g, [0], 2) by { ChildIsReached(g, [0], 1, 1, 2); }
    assert q[..|q|] == q;
    LevelIsQueued(g, [0], Scope(true, 100), q, |q|, 2);
  }
}
