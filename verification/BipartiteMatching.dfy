/** The perfect-matching test behind shapeless recipes: the Hopcroft-Karp algorithm of src/craftdef.cpp. */
module BipartiteMatching {
  import opened Integers

  const SHAPELESS_GROUPS_MAX: nat := 30000
  const INF: u16 := 0xFFFF

  /** A graph with n vertices on each side is a list of adjacency lists: g[u] holds the right
      vertices that left vertex u may be paired with.  The dummy vertex has index n. */
  type Graph = seq<seq<nat>>

  ghost predicate ValidGraph(g: Graph) {
    && |g| <= SHAPELESS_GROUPS_MAX
    && forall u, k :: 0 <= u < |g| && 0 <= k < |g[u]| ==> g[u][k] < |g|
  }

  // ---------------------------------------------------------------------------
  // What the test is supposed to decide
  // ---------------------------------------------------------------------------

  ghost predicate PerfectMatching(g: Graph, p: seq<nat>) {
    && |p| == |g|
    && (forall u :: 0 <= u < |g| ==> p[u] in g[u])
    && (forall u, w :: 0 <= u < w < |g| ==> p[u] != p[w])
  }

  ghost predicate CanMatchAll(g: Graph) {
    exists p :: PerfectMatching(g, p)
  }

  ghost function Neighbours(g: Graph, s: set<nat>): set<nat> {
    set u, v | u in s && u < |g| && v in g[u] :: v
  }

  /** More left vertices than they have neighbours altogether. */
  ghost predicate HallViolator(g: Graph, s: set<nat>) {
    && (forall u <- s :: u < |g|)
    && |Neighbours(g, s)| < |s|
  }

  lemma InjectionBoundsCardinality<A, B>(m: map<A, B>, t: set<B>)
    requires forall a <- m :: m[a] in t
    requires forall a, b :: a in m && b in m && a != b ==> m[a] != m[b]
    ensures |m.Keys| <= |t|
  {
    if m.Keys != {} {
      var a :| a in m;
      var rest := map x | x in m && x != a :: m[x];
      assert rest.Keys == m.Keys - {a};
      InjectionBoundsCardinality(rest, t - {m[a]});
    }
  }

  lemma HallViolatorObstructs(g: Graph, s: set<nat>)
    requires HallViolator(g, s)
    ensures !CanMatchAll(g)
  {
    if p :| PerfectMatching(g, p) {
      var m := map u | u in s :: p[u];
      assert forall u <- m :: m[u] in Neighbours(g, s);
      InjectionBoundsCardinality(m, Neighbours(g, s));
      assert m.Keys == s;
    }
  }

  // ---------------------------------------------------------------------------
  // Pairings: pu[u] and pv[v] are partners, n stands for "unmatched"
  // ---------------------------------------------------------------------------

  ghost predicate Shaped(g: Graph, s: seq<int>) {
    |s| == |g| + 1 && forall x :: 0 <= x <= |g| ==> 0 <= s[x] <= |g|
  }

  /** Every left vertex is unmatched or mutually paired with a neighbour of it. */
  ghost predicate LeftPaired(g: Graph, pu: seq<int>, pv: seq<int>) {
    && Shaped(g, pu) && Shaped(g, pv)
    && forall u :: 0 <= u < |g| ==> pu[u] == |g| || (pu[u] in g[u] && pv[pu[u]] == u)
  }

  /** Every right vertex, except possibly hole, is unmatched or mutually paired. */
  ghost predicate RightPaired(g: Graph, pu: seq<int>, pv: seq<int>, hole: int) {
    && Shaped(g, pu) && Shaped(g, pv)
    && forall v :: 0 <= v < |g| && v != hole ==> pv[v] == |g| || pu[pv[v]] == v
  }

  /** The two arrays are mutually inverse, except that right vertex hole may still point
      at a left vertex that has found another partner.  There is no hole when hole == n. */
  ghost predicate Paired(g: Graph, pu: seq<int>, pv: seq<int>, hole: int) {
    && Shaped(g, pu) && Shaped(g, pv)
    && pu[|g|] == |g| && pv[|g|] == |g|
    && LeftPaired(g, pu, pv)
    && RightPaired(g, pu, pv, hole)
  }

  ghost function MatchedSet(g: Graph, pu: seq<int>): set<nat>
    requires |pu| == |g| + 1
  {
    set u: nat | u < |g| && pu[u] != |g|
  }

  lemma MatchedSetBound(g: Graph, pu: seq<int>)
    requires Shaped(g, pu)
    ensures |MatchedSet(g, pu)| <= |g|
    ensures |MatchedSet(g, pu)| == |g| <==> forall u :: 0 <= u < |g| ==> pu[u] != |g|
  {
    var all := Indices(|g|);
    var s := MatchedSet(g, pu);
    SubsetCard(s, all);
    if |s| == |g| {
      forall u | 0 <= u < |g| ensures pu[u] != |g| { assert u in all; }
    } else if forall u :: 0 <= u < |g| ==> pu[u] != |g| {
      assert all <= s;
      SubsetCard(all, s);
    }
  }

  lemma OneMoreMatched(g: Graph, pu: seq<int>, pu1: seq<int>, u: nat)
    requires ValidGraph(g) && Shaped(g, pu) && Shaped(g, pu1)
    requires u < |g| && pu[u] == |g| && pu1[u] != |g|
    requires forall x :: 0 <= x < |g| && x != u ==> (pu1[x] == |g| <==> pu[x] == |g|)
    ensures |MatchedSet(g, pu1)| == |MatchedSet(g, pu)| + 1 <= SHAPELESS_GROUPS_MAX
  {
    assert MatchedSet(g, pu1) == MatchedSet(g, pu) + {u};
    MatchedSetBound(g, pu1);
  }

  lemma SubsetCard<T>(a: set<T>, b: set<T>)
    requires a <= b
    ensures |a| <= |b|
    ensures |a| == |b| ==> a == b
  {
    assert |b| == |a| + |b - a| by { assert b == a + (b - a); }
    if |a| == |b| { assert b - a == {}; assert b == a + (b - a); }
  }

  ghost function Indices(n: nat): (r: set<nat>)
    ensures forall u :: u in r <==> 0 <= u < n
    ensures |r| == n
  {
    if n == 0 then {} else Indices(n - 1) + {n - 1}
  }

  // ---------------------------------------------------------------------------
  // Breadth-first layers
  // ---------------------------------------------------------------------------

  /** Some left vertex y one layer below x reaches x over a right vertex paired with x. */
  ghost predicate Reached(g: Graph, pv: seq<int>, d: seq<int>, x: int) {
    && |d| == |g| + 1 && 0 <= x <= |g|
    && exists y, k :: Edge(g, pv, y, k, x) && d[y] == d[x] - 1
  }

  ghost predicate Edge(g: Graph, pv: seq<int>, y: int, k: int, x: int) {
    0 <= y < |g| && 0 <= k < |g[y]| && g[y][k] < |pv| && pv[g[y][k]] == x
  }

  /** d is a breadth-first layering from the unmatched left vertices. */
  ghost predicate Layered(g: Graph, pu: seq<int>, pv: seq<int>, d: seq<int>) {
    && |pu| == |d| == |g| + 1
    && d[|g|] != 0
    && (forall x :: 0 <= x <= |g| ==> 0 <= d[x] <= INF)
    && (forall x :: 0 <= x < |g| ==> (d[x] == 0 <==> pu[x] == |g|))
    && (forall x :: 0 <= x <= |g| && 0 < d[x] < INF ==> Reached(g, pv, d, x))
  }

  /** The visited left vertices have no edge leading out of the visited part. */
  ghost predicate ClosedUnderEdges(g: Graph, pv: seq<int>, d: seq<int>) {
    && |d| == |g| + 1
    && forall y, k, x :: 0 <= x <= |g| && Edge(g, pv, y, k, x) && d[y] != INF ==> d[x] != INF
  }

  /** No edge from a vertex nearer than the dummy skips a layer: distances are shortest. */
  ghost predicate NoLayerSkipped(g: Graph, pv: seq<int>, d: seq<int>) {
    && |d| == |g| + 1
    && forall y, k, x :: 0 <= x <= |g| && Edge(g, pv, y, k, x) && d[y] < d[|g|] ==> d[x] <= d[y] + 1
  }

  /** An alternating walk: from an unmatched left vertex over right vertices to their partners. */
  ghost predicate Walk(g: Graph, pu: seq<int>, pv: seq<int>, walk: seq<int>) {
    && walk != [] && |pu| == |g| + 1
    && 0 <= walk[0] < |g| && pu[walk[0]] == |g|
    && forall i :: 0 <= i < |walk| - 1 ==> Step(g, pv, walk[i], walk[i + 1])
  }

  ghost predicate Step(g: Graph, pv: seq<int>, y: int, x: int) {
    0 <= x <= |g| && exists k :: Edge(g, pv, y, k, x)
  }

  /** The layers are shortest: no walk reaches a vertex sooner, unless the dummy is nearer still;
      in particular no walk reaches the dummy sooner. */
  lemma {:induction false} LayersAreShortest(g: Graph, pu: seq<int>, pv: seq<int>, d: seq<int>, walk: seq<int>)
    requires Layered(g, pu, pv, d) && NoLayerSkipped(g, pv, d) && Walk(g, pu, pv, walk)
    ensures var last := walk[|walk| - 1];
      0 <= last <= |g| && (d[last] < |walk| || d[|g|] < |walk|) && (last == |g| ==> d[|g|] < |walk|)
    decreases |walk|
  {
    var n := |walk| - 1;
    if n > 0 {
      var init := walk[..n];
      LayersAreShortest(g, pu, pv, d, init);
      assert Step(g, pv, walk[n - 1], walk[n]);
      var k :| Edge(g, pv, walk[n - 1], k, walk[n]);
    }
  }

  /** During a phase distances only ever change from their layer to infinity ("dead"). */
  ghost predicate Decayed(g: Graph, bd: seq<int>, d: seq<int>) {
    && |bd| == |d| == |g| + 1
    && d[|g|] == bd[|g|]
    && forall x :: 0 <= x < |g| ==> d[x] == bd[x] || d[x] == INF
  }

  /** Whatever a dead vertex could step to in the layering is dead too. */
  ghost predicate DeadClosed(g: Graph, pv: seq<int>, bd: seq<int>, d: seq<int>) {
    && |bd| == |d| == |g| + 1
    && forall y, k, x ::
      0 <= x <= |g| && Edge(g, pv, y, k, x) && d[y] == INF && bd[y] != INF && bd[x] == bd[y] + 1
      ==> d[x] == INF
  }

  /** If every unmatched vertex is dead then so is everything that was reached. */
  lemma {:induction false} AllReachedAreDead(g: Graph, pu: seq<int>, pv: seq<int>, bd: seq<int>, d: seq<int>, x: int)
    requires ValidGraph(g) && Shaped(g, pu) && Shaped(g, pv)
    requires Layered(g, pu, pv, bd) && Decayed(g, bd, d) && DeadClosed(g, pv, bd, d)
    requires forall u :: 0 <= u < |g| && pu[u] == |g| ==> d[u] == INF
    requires 0 <= x <= |g| && bd[x] != INF
    ensures d[x] == INF
    decreases bd[x]
  {
    if bd[x] == 0 {
    } else {
      assert Reached(g, pv, bd, x);
      var y, k :| Edge(g, pv, y, k, x) && bd[y] == bd[x] - 1;
      AllReachedAreDead(g, pu, pv, bd, d, y);
    }
  }

  /** As long as the dummy was reached, some unmatched vertex is not dead. */
  lemma SomeoneAlive(g: Graph, pu: seq<int>, pv: seq<int>, bd: seq<int>, d: seq<int>)
    requires ValidGraph(g) && Paired(g, pu, pv, |g|) && |bd| == |g| + 1 && bd[|g|] != INF
    requires Layered(g, pu, pv, bd) && Decayed(g, bd, d) && DeadClosed(g, pv, bd, d)
    ensures |pu| == |d| == |g| + 1
    ensures exists u :: 0 <= u < |g| && pu[u] == |g| && d[u] != INF
  {
    if forall u :: 0 <= u < |g| && pu[u] == |g| ==> d[u] == INF {
      AllReachedAreDead(g, pu, pv, bd, d, |g|);
      assert false;
    }
  }

  /** A neighbour of a visited vertex is paired with another visited vertex. */
  lemma PartnerIsVisited(g: Graph, pu: seq<int>, pv: seq<int>, d: seq<int>, u: nat, v: nat)
    requires ValidGraph(g) && Paired(g, pu, pv, |g|)
    requires |d| == |g| + 1 && d[|g|] == INF && ClosedUnderEdges(g, pv, d)
    requires u < |g| && d[u] != INF && v in g[u]
    ensures v < |g| && 0 <= pv[v] < |g| && d[pv[v]] != INF && pu[pv[v]] == v
  {
    var k :| 0 <= k < |g[u]| && g[u][k] == v;
    assert Edge(g, pv, u, k, pv[v]);
  }

  /** When the search cannot reach the dummy, the visited vertices violate Hall's condition
      as soon as one vertex is unmatched. */
  lemma VisitedViolatesHall(g: Graph, pu: seq<int>, pv: seq<int>, d: seq<int>)
    requires ValidGraph(g) && Paired(g, pu, pv, |g|) && Layered(g, pu, pv, d)
    requires d[|g|] == INF && ClosedUnderEdges(g, pv, d)
    requires exists u :: 0 <= u < |g| && pu[u] == |g|
    ensures exists s :: HallViolator(g, s)
  {
    var free: nat :| free < |g| && pu[free] == |g|;
    assert d[free] == 0;
    hide Layered;
    hide Paired;
    hide ClosedUnderEdges;
    hide ValidGraph;
    var s := set u: nat | u < |g| && d[u] != INF;
    forall v | v in Neighbours(g, s)
      ensures PairedInto(pu, pv, v, s - {free})
    {
      var u :| u in s && u < |g| && v in g[u];
      PartnerIsVisited(g, pu, pv, d, u, v);
    }
    hide Neighbours;
    assert free in s;
    PartnersBound(pu, pv, Neighbours(g, s), s - {free});
    assert HallViolator(g, s);
  }

  ghost predicate PairedInto(pu: seq<int>, pv: seq<int>, v: nat, t: set<nat>) {
    v < |pv| && 0 <= pv[v] < |pu| && pv[v] in t && pu[pv[v]] == v
  }

  lemma PartnersBound(pu: seq<int>, pv: seq<int>, s: set<nat>, t: set<nat>)
    requires forall v <- s :: PairedInto(pu, pv, v, t)
    ensures |s| <= |t|
  {
    forall v, w | v in s && w in s && v != w
      ensures pv[v] != pv[w]
    {
      assert PairedInto(pu, pv, v, t) && PairedInto(pu, pv, w, t);
    }
    var m := map v | v in s && PairedInto(pu, pv, v, t) :: pv[v] as nat;
    assert m.Keys == s;
    InjectionBoundsCardinality(m, t);
  }

  lemma AllPairedIsPerfect(g: Graph, pu: seq<int>, pv: seq<int>)
    requires ValidGraph(g) && Paired(g, pu, pv, |g|)
    requires forall u :: 0 <= u < |g| ==> pu[u] != |g|
    ensures CanMatchAll(g)
  {
    var p: seq<nat> := pu[..|g|];
    forall u, w | 0 <= u < w < |g|
      ensures p[u] != p[w]
    {
      assert pv[pu[u]] == u && pv[pu[w]] == w;
    }
    assert PerfectMatching(g, p);
  }

  /** The vertices with a finite distance are those already popped and those waiting in the
      queue, and no vertex waits twice or again. */
  ghost predicate QueueHolds(n: nat, d: seq<int>, queue: seq<int>, popped: set<int>) {
    && |d| == n + 1
    && (forall i :: 0 <= i < |queue| ==> 0 <= queue[i] <= n && queue[i] !in popped && d[queue[i]] != INF)
    && (forall i, j :: 0 <= i < j < |queue| ==> queue[i] != queue[j])
    && (forall x <- popped :: 0 <= x <= n && d[x] != INF)
    && (forall x :: 0 <= x <= n && d[x] != INF ==> x in popped || x in queue)
  }

  /** Distances never exceed the number of popped vertices, so 16 bits suffice. */
  ghost predicate DistancesBounded(n: nat, d: seq<int>, bound: nat) {
    |d| == n + 1 && forall x :: 0 <= x <= n && d[x] != INF ==> d[x] <= bound
  }

  /** No edge from a popped vertex that is nearer than the dummy skips a layer. */
  ghost predicate Scanned(g: Graph, pv: seq<int>, d: seq<int>, done: set<int>) {
    && |d| == |g| + 1
    && forall y, k, x :: y in done && 0 <= x <= |g| && Edge(g, pv, y, k, x) && d[y] < d[|g|] ==> d[x] <= d[y] + 1
  }

  /** The queue is in the order of the layers, and nothing visited is more than one layer beyond
      the layer being scanned. */
  ghost predicate InLayerOrder(n: nat, d: seq<int>, queue: seq<int>, layer: int) {
    && |d| == n + 1
    && (forall x :: 0 <= x <= n && d[x] != INF ==> d[x] <= layer + 1)
    && (forall i :: 0 <= i < |queue| ==> 0 <= queue[i] <= n && layer <= d[queue[i]])
    && (forall i, j :: 0 <= i < j < |queue| ==> d[queue[i]] <= d[queue[j]])
  }

  lemma LayerPush(n: nat, d: seq<int>, queue: seq<int>, layer: int, back: nat)
    requires InLayerOrder(n, d, queue, layer) && back <= n && d[back] == INF && back !in queue
    requires forall i :: 0 <= i < |queue| ==> d[queue[i]] != INF
    ensures InLayerOrder(n, d[back := layer + 1], queue + [back], layer)
  {
  }

  lemma LayerPop(n: nat, d: seq<int>, queue: seq<int>, layer: int)
    requires InLayerOrder(n, d, queue, layer) && queue != []
    ensures InLayerOrder(n, d, queue[1..], d[queue[0]])
  {
  }

  /** Everything the search knows about the distances and the queue. */
  ghost predicate Searching(g: Graph, pu: seq<int>, pv: seq<int>, d: seq<int>, queue: seq<int>, popped: set<int>,
                            layer: int) {
    && Paired(g, pu, pv, |g|) && Layered(g, pu, pv, d) && InLayerOrder(|g|, d, queue, layer)
    && QueueHolds(|g|, d, queue, popped)
    && |popped| <= |g| + 1
    && DistancesBounded(|g|, d, |popped|)
  }

  /** The search starts with the unmatched vertices queued and nothing else visited. */
  lemma SearchStarts(g: Graph, pu: seq<int>, pv: seq<int>, d: seq<int>, queue: seq<int>)
    requires Paired(g, pu, pv, |g|) && |pu| == |d| == |g| + 1
    requires forall x :: 0 <= x < |g| ==> d[x] == if pu[x] == |g| then 0 else INF
    requires d[|g|] == INF
    requires forall i :: 0 <= i < |queue| ==> 0 <= queue[i] < |g| && pu[queue[i]] == |g|
    requires forall x :: 0 <= x < |g| && pu[x] == |g| ==> x in queue
    requires forall i, j :: 0 <= i < j < |queue| ==> queue[i] != queue[j]
    ensures Searching(g, pu, pv, d, queue, {}, 0) && Scanned(g, pv, d, {})
  {
    hide Paired;
  }

  lemma SearchFacts(g: Graph, pu: seq<int>, pv: seq<int>, d: seq<int>, queue: seq<int>, popped: set<int>, layer: int)
    requires Searching(g, pu, pv, d, queue, popped, layer)
    ensures Shaped(g, pv) && |d| == |g| + 1 && |popped| <= |g| + 1 && DistancesBounded(|g|, d, |g| + 1)
    ensures forall x :: 0 <= x <= |g| && d[x] != INF ==> d[x] <= layer + 1
    ensures forall x :: 0 <= x <= |g| ==> d[x] <= INF
    ensures forall y <- popped :: 0 <= y <= |g| && d[y] != INF
    ensures queue != [] ==> 0 <= queue[0] <= |g| && d[queue[0]] != INF && queue[0] !in popped
    ensures queue != [] ==> d[queue[0]] <= |popped|
  {
  }

  lemma PoppedUnscanned(g: Graph, pv: seq<int>, d: seq<int>, done: set<int>, u: int)
    requires Scanned(g, pv, d, done) && 0 <= u <= |g|
    ensures d[u] >= d[|g|] ==> Scanned(g, pv, d, done + {u})
  {
  }

  /** An unvisited vertex met from u joins the layer after that of u, and the queue. */
  lemma VisitStep(g: Graph, pu: seq<int>, pv: seq<int>, d: seq<int>, queue: seq<int>, popped: set<int>, u: nat, k: nat)
    requires ValidGraph(g) && u < |g| && |d| == |g| + 1 && Searching(g, pu, pv, d, queue, popped, d[u])
    requires k < |g[u]| && u in popped && d[u] < |popped|
    requires d[pv[g[u][k]]] == INF
    ensures 0 <= d[u] < d[u] + 1 < INF
    ensures Searching(g, pu, pv, d[pv[g[u][k]] := d[u] + 1], queue + [pv[g[u][k]]], popped, d[u])
    ensures Kept(d, d[pv[g[u][k]] := d[u] + 1])
  {
    var back := pv[g[u][k]];
    PartnerIsMatched(g, pu, pv, g[u][k]);
    Discover(g, pu, pv, d, u, k, back);
    hide Layered;
    hide LeftPaired;
    hide RightPaired;
    PushBack(|g|, d, queue, popped, back, d[u] + 1);
    LayerPush(|g|, d, queue, d[u], back);
    hide InLayerOrder;
  }

  /** Finite distances stay as they are. */
  ghost predicate Kept(before: seq<int>, d: seq<int>) {
    |before| == |d| && forall x :: 0 <= x < |d| && before[x] != INF ==> d[x] == before[x]
  }

  /** The partners of the first i right vertices of adj have been visited. */
  ghost predicate PartnersVisited(pv: seq<int>, d: seq<int>, adj: seq<nat>, i: nat) {
    forall k :: 0 <= k < i <= |adj| && adj[k] < |pv| && 0 <= pv[adj[k]] < |d| ==> d[pv[adj[k]]] != INF
  }

  lemma PartnersStayVisited(pv: seq<int>, before: seq<int>, d: seq<int>, adj: seq<nat>, i: nat)
    requires PartnersVisited(pv, before, adj, i) && Kept(before, d)
    requires i < |adj| && adj[i] < |pv| && 0 <= pv[adj[i]] < |d| && d[pv[adj[i]]] != INF
    ensures PartnersVisited(pv, d, adj, i + 1)
  {
  }

  lemma NeighboursScanned(g: Graph, pv: seq<int>, before: seq<int>, d: seq<int>, done: set<int>, u: nat)
    requires ValidGraph(g) && Shaped(g, pv) && |d| == |g| + 1 && u < |g|
    requires Kept(before, d) && PartnersVisited(pv, d, g[u], |g[u]|) && d[|g|] <= INF
    requires forall x :: 0 <= x <= |g| && d[x] != INF ==> d[x] <= d[u] + 1
    requires DistancesBounded(|g|, d, |g| + 1) && forall y <- done :: 0 <= y <= |g| && before[y] != INF
    requires Scanned(g, pv, before, done)
    ensures Scanned(g, pv, d, done + {u})
  {
    forall y, k, x | y in done + {u} && 0 <= x <= |g| && Edge(g, pv, y, k, x) && d[y] < d[|g|]
      ensures d[x] <= d[y] + 1
    {
      if y != u { assert before[x] <= before[y] + 1 < INF; }
    }
  }

  /** At the end of the search. */
  lemma ScannedAll(g: Graph, pv: seq<int>, d: seq<int>, popped: set<int>)
    requires ValidGraph(g) && QueueHolds(|g|, d, [], popped) && Scanned(g, pv, d, popped)
    requires d[|g|] <= INF && DistancesBounded(|g|, d, |g| + 1)
    ensures NoLayerSkipped(g, pv, d)
    ensures d[|g|] == INF && (forall x :: 0 <= x <= |g| ==> d[x] <= INF) ==> ClosedUnderEdges(g, pv, d)
  {
  }

  lemma PartnerIsMatched(g: Graph, pu: seq<int>, pv: seq<int>, v: nat)
    requires Paired(g, pu, pv, |g|) && v < |g|
    ensures pv[v] < |g| ==> pu[pv[v]] != |g|
  {
  }

  lemma PoppedBound(n: nat, popped: set<int>)
    requires forall x <- popped :: 0 <= x <= n
    ensures |popped| <= n + 1
  {
    var m := map x: int | x in popped :: x as nat;
    assert m.Keys == popped;
    InjectionBoundsCardinality(m, Indices(n + 1));
  }

  lemma PopFront(n: nat, d: seq<int>, queue: seq<int>, popped: set<int>)
    requires QueueHolds(n, d, queue, popped) && queue != []
    ensures QueueHolds(n, d, queue[1..], popped + {queue[0]})
    ensures |popped + {queue[0]}| == |popped| + 1 <= n + 1
  {
    PoppedBound(n, popped + {queue[0]});
    forall x | 0 <= x <= n && d[x] != INF
      ensures x in popped + {queue[0]} || x in queue[1..]
    {
      if x !in popped && x != queue[0] {
        var i :| 0 <= i < |queue| && queue[i] == x;
        assert queue[1..][i - 1] == x;
      }
    }
  }

  lemma PushBack(n: nat, d: seq<int>, queue: seq<int>, popped: set<int>, back: nat, value: int)
    requires QueueHolds(n, d, queue, popped)
    requires back <= n && d[back] == INF && value != INF
    ensures QueueHolds(n, d[back := value], queue + [back], popped)
  {
    assert back !in popped;
    forall i | 0 <= i < |queue| ensures queue[i] != back {}
    forall x | 0 <= x <= n && d[back := value][x] != INF
      ensures x in popped || x in queue + [back]
    {
      if x == back {
        assert (queue + [back])[|queue|] == x;
      } else if x !in popped {
        var i :| 0 <= i < |queue| && queue[i] == x;
        assert (queue + [back])[i] == x;
      }
    }
  }

  /** An unvisited vertex met from u joins the layer after that of u. */
  lemma Discover(g: Graph, pu: seq<int>, pv: seq<int>, d: seq<int>, u: nat, k: nat, back: nat)
    requires ValidGraph(g) && Shaped(g, pu) && Shaped(g, pv) && Layered(g, pu, pv, d)
    requires u < |g| && k < |g[u]| && Edge(g, pv, u, k, back)
    requires back <= |g| && d[back] == INF && d[u] + 1 < INF
    requires back < |g| ==> pu[back] != |g|
    ensures Layered(g, pu, pv, d[back := d[u] + 1])
  {
    var e := d[back := d[u] + 1];
    forall x | 0 <= x <= |g| && 0 < e[x] < INF
      ensures Reached(g, pv, e, x)
    {
      if x == back {
        assert Edge(g, pv, u, k, x) && e[u] == e[x] - 1;
      } else {
        assert Reached(g, pv, d, x);
        var y, j :| Edge(g, pv, y, j, x) && d[y] == d[x] - 1;
        assert Edge(g, pv, y, j, x) && e[y] == e[x] - 1;
      }
    }
  }

  /** Only distances of at least the given layer have changed, and only to infinity. */
  ghost predicate OnlyDeaths(d0: seq<int>, d: seq<int>, layer: int) {
    |d0| == |d| && forall x :: 0 <= x < |d| && d[x] != d0[x] ==> d[x] == INF && d0[x] >= layer
  }

  lemma OnlyDeathsTrans(d0: seq<int>, d1: seq<int>, d2: seq<int>, layer: int)
    requires OnlyDeaths(d0, d1, layer) && OnlyDeaths(d1, d2, layer)
    ensures OnlyDeaths(d0, d2, layer) && OnlyDeaths(d0, d2, layer - 1)
  {
  }

  /** None of the first i right vertices of adj leads to a live vertex in the next layer. */
  ghost predicate NoneAlive(pv: seq<int>, d: seq<int>, adj: seq<nat>, i: nat, layer: int) {
    forall k :: 0 <= k < i <= |adj| && adj[k] < |pv| && 0 <= pv[adj[k]] < |d| ==> d[pv[adj[k]]] != layer + 1
  }

  lemma DeathsKeepNoneAlive(g: Graph, bd: seq<int>, pv: seq<int>, d1: seq<int>, d2: seq<int>, adj: seq<nat>, i: nat,
                            u: nat)
    requires |g| <= SHAPELESS_GROUPS_MAX && DistancesBounded(|g|, bd, |g| + 1)
    requires Decayed(g, bd, d1) && Decayed(g, bd, d2) && u < |g| && d1[u] == d2[u]
    requires NoneAlive(pv, d1, adj, i, d1[u])
    requires OnlyDeaths(d1, d2, d1[u] + 1)
    requires i < |adj| && adj[i] < |pv| && 0 <= pv[adj[i]] <= |g| && d2[pv[adj[i]]] != d2[u] + 1
    ensures NoneAlive(pv, d2, adj, i + 1, d2[u])
  {
  }

  /** What a successful search from u did to the pairs: u has a new partner, every other
      vertex is matched exactly if it was, vertices nearer than u keep their partners, and
      only right vertices whose partner lay beyond u were given away. */
  ghost predicate PathFlipped(g: Graph, pu: seq<int>, pv: seq<int>, d: seq<int>, pu1: seq<int>, pv1: seq<int>, u: nat) {
    && |d| == |g| + 1 && u <= |g|
    && Shaped(g, pu) && Shaped(g, pv) && Shaped(g, pu1) && Shaped(g, pv1)
    && (u == |g| ==> pu1 == pu && pv1 == pv)
    && (u < |g| ==> pu1[u] != |g| && pu1[u] != pu[u])
    && (forall x :: 0 <= x < |g| && x != u ==> (pu1[x] == |g| <==> pu[x] == |g|))
    && (forall x :: 0 <= x < |g| && d[x] < d[u] ==> pu1[x] == pu[x])
    && (forall v :: 0 <= v < |g| && pv[v] != |g| && d[pv[v]] <= d[u] ==> pv1[v] == pv[v])
  }

  /** At the start of a phase no vertex is dead. */
  lemma NothingDead(g: Graph, pv: seq<int>, d: seq<int>)
    requires |d| == |g| + 1
    ensures Decayed(g, d, d) && DeadClosed(g, pv, d, d)
  {
  }

  lemma StillDead(d0: seq<int>, d: seq<int>, layer: int)
    requires OnlyDeaths(d0, d, layer)
    ensures |d| == |d0| && forall x :: 0 <= x < |d| && d0[x] == INF ==> d[x] == INF
  {
  }

  /** A search from an unmatched vertex that succeeds matches one more vertex. */
  lemma FlipMatchesOneMore(g: Graph, pu: seq<int>, pv: seq<int>, d: seq<int>, pu1: seq<int>, pv1: seq<int>, u: nat)
    requires ValidGraph(g) && PathFlipped(g, pu, pv, d, pu1, pv1, u) && u < |g| && pu[u] == |g|
    ensures |pu| == |pu1| == |g| + 1
    ensures |MatchedSet(g, pu1)| == |MatchedSet(g, pu)| + 1 <= SHAPELESS_GROUPS_MAX
  {
    OneMoreMatched(g, pu, pu1, u);
  }

  /** At the start of a search; at the dummy that is also its end. */
  lemma NothingFlipped(g: Graph, pu: seq<int>, pv: seq<int>, bd: seq<int>, d: seq<int>, u: nat)
    requires Paired(g, pu, pv, |g|) && Decayed(g, bd, d) && u <= |g|
    ensures |pu| == |pv| == |d| == |g| + 1 && Shaped(g, pv)
    ensures OnlyDeaths(d, d, d[u]) && OnlyDeaths(d, d, d[u] + 1)
    ensures u < |g| ==> NoneAlive(pv, d, g[u], 0, d[u])
    ensures u == |g| ==> PathFlipped(g, pu, pv, d, pu, pv, u) && pu[u] == |g|
  {
  }

  /** The last step of a successful search at u: pu, pv were the pairs when the search
      started, pu1, pv1 are those after the partner of g[u][k] has been paired elsewhere. */
  lemma Flip(g: Graph, pu: seq<int>, pv: seq<int>, d: seq<int>, pu1: seq<int>, pv1: seq<int>, u: nat, k: nat)
    requires ValidGraph(g) && Paired(g, pu, pv, |g|)
    requires u < |g| && k < |g[u]| && |d| == |g| + 1
    requires var back := pv[g[u][k]];
      d[back] > d[u] && PathFlipped(g, pu, pv, d, pu1, pv1, back) && Paired(g, pu1, pv1, pu[back])
    ensures Paired(g, pu1[u := g[u][k]], pv1[g[u][k] := u], pu[u])
    ensures PathFlipped(g, pu, pv, d, pu1[u := g[u][k]], pv1[g[u][k] := u], u)
  {
  }

  lemma FlippedEarlier(g: Graph, pu: seq<int>, pv: seq<int>, d0: seq<int>, d1: seq<int>, pu1: seq<int>, pv1: seq<int>,
                       u: nat)
    requires u < |g| && |d0| == |g| + 1 && OnlyDeaths(d0, d1, d0[u] + 1)
    requires PathFlipped(g, pu, pv, d1, pu1, pv1, u)
    ensures PathFlipped(g, pu, pv, d0, pu1, pv1, u)
  {
  }

  /** Once nothing one layer further is alive, u may be declared dead. */
  lemma BecomesDead(g: Graph, pv: seq<int>, bd: seq<int>, d0: seq<int>, d: seq<int>, u: nat)
    requires ValidGraph(g) && Shaped(g, pv) && Decayed(g, bd, d) && u < |g|
    requires |d0| == |g| + 1 && OnlyDeaths(d0, d, d0[u] + 1)
    ensures OnlyDeaths(d0, d[u := INF], d0[u])
    requires NoneAlive(pv, d, g[u], |g[u]|, d[u])
    ensures Decayed(g, bd, d[u := INF])
    ensures DeadClosed(g, pv, bd, d) ==> DeadClosed(g, pv, bd, d[u := INF])
  {
  }

  // ---------------------------------------------------------------------------
  // The algorithm
  // ---------------------------------------------------------------------------

  class HopcroftKarp {
    const g: Graph
    const nil: u16
    const pairU: array<u16>
    const pairV: array<u16>
    const dist: array<u16>
    var numMatched: u16

    ghost predicate Separate()
    {
      && ValidGraph(g) && nil == |g|
      && pairU.Length == pairV.Length == dist.Length == |g| + 1
      && pairU != pairV && pairU != dist && pairV != dist
    }

    ghost predicate Valid()
      reads pairU, pairV
    {
      Separate() && Paired(g, pairU[..], pairV[..], |g|)
    }

    /** Everyone starts as matched to the dummy. */
    constructor (g: Graph)
      requires ValidGraph(g)
      ensures this.g == g && Valid() && fresh(pairU) && fresh(pairV) && fresh(dist)
      ensures numMatched == 0 && MatchedSet(g, pairU[..]) == {}
    {
      var size := |g|;
      this.g := g;
      nil := size;
      pairU := new u16[size + 1](_ => size);
      pairV := new u16[size + 1](_ => size);
      dist := new u16[size + 1](_ => 0);
      numMatched := 0;
    }

    /** Computes the layers by breadth-first search.  Returns whether the dummy was reached. */
    method DoBfs() returns (reached: bool)
      requires Valid()
      modifies dist
      ensures Valid()
      ensures Layered(g, pairU[..], pairV[..], dist[..]) && NoLayerSkipped(g, pairV[..], dist[..])
      ensures DistancesBounded(|g|, dist[..], |g| + 1)
      ensures reached <==> dist[nil] != INF
      ensures !reached ==> ClosedUnderEdges(g, pairV[..], dist[..])
    {
      hide Layered;
      hide Paired;
      hide InLayerOrder;
      hide QueueHolds;
      hide Scanned;
      hide NoLayerSkipped;
      hide ClosedUnderEdges;
      hide PartnersVisited;
      ghost var pu, pv := pairU[..], pairV[..];
      var queue := EnqueueUnmatched();
      ghost var popped: set<int> := {};
      ghost var layer := 0;
      while queue != []
        invariant Scanning(pu, pv, queue, popped, layer)
        invariant Scanned(g, pv, dist[..], popped)
        decreases |g| + 2 - |popped|
      {
        ghost var before, done := dist[..], popped;
        SearchFacts(g, pu, pv, before, queue, popped, layer);
        PopFront(|g|, before, queue, popped);
        LayerPop(|g|, before, queue, layer);
        var u := queue[0];
        queue := queue[1..];
        popped := popped + {u};
        layer := dist[u];
        PoppedUnscanned(g, pv, before, done, u);
        if dist[u] < dist[nil] {
          queue := ScanNeighbours(u, queue, popped);
          SearchFacts(g, pu, pv, dist[..], queue, popped, layer);
          NeighboursScanned(g, pv, before, dist[..], done, u);
        }
      }
      SearchFacts(g, pu, pv, dist[..], queue, popped, layer);
      ScannedAll(g, pv, dist[..], popped);
      reached := dist[nil] != INF;
    }

    /** All unmatched vertices are queued, the rest is infinitely far away. */
    method EnqueueUnmatched() returns (queue: seq<u16>)
      requires Valid()
      modifies dist
      ensures Scanning(old(pairU[..]), old(pairV[..]), queue, {}, 0) && Scanned(g, pairV[..], dist[..], {})
    {
      hide Searching;
      hide Scanned;
      hide Paired;
      ghost var pu, pv := pairU[..], pairV[..];
      queue := [];
      var u := 0;
      while u < nil
        invariant 0 <= u <= nil
        invariant Valid() && pairU[..] == pu && pairV[..] == pv
        invariant forall x :: 0 <= x < u ==> dist[x] == if pu[x] == |g| then 0 else INF
        invariant forall i :: 0 <= i < |queue| ==> queue[i] < u && pu[queue[i]] == |g|
        invariant forall x :: 0 <= x < u && pu[x] == |g| ==> x in queue
        invariant forall i, j :: 0 <= i < j < |queue| ==> queue[i] != queue[j]
      {
        if pairU[u] == nil {
          dist[u] := 0;
          queue := queue + [u];
        } else {
          dist[u] := INF;
        }
        u := u + 1;
      }
      dist[nil] := INF;
      SearchStarts(g, pu, pv, dist[..], queue);
    }

    ghost predicate Scanning(pu: seq<int>, pv: seq<int>, queue: seq<int>, popped: set<int>, layer: int)
      reads pairU, pairV, dist
    {
      Separate() && pairU[..] == pu && pairV[..] == pv && Searching(g, pu, pv, dist[..], queue, popped, layer)
    }

    /** The inner loop of the search: queues every unvisited vertex one step from u. */
    method ScanNeighbours(u: u16, waiting: seq<u16>, ghost popped: set<int>) returns (queue: seq<u16>)
      requires Separate() && u < nil && u in popped && dist[u] < |popped|
      requires Scanning(pairU[..], pairV[..], waiting, popped, dist[u])
      modifies dist
      ensures Scanning(old(pairU[..]), old(pairV[..]), queue, popped, old(dist[u])) && dist[u] == old(dist[u])
      ensures Kept(old(dist[..]), dist[..])
      ensures PartnersVisited(old(pairV[..]), dist[..], g[u], |g[u]|)
    {
      ghost var pu, pv, before := pairU[..], pairV[..], dist[..];
      queue := waiting;
      var i := 0;
      while i < |g[u]|
        invariant i <= |g[u]|
        invariant Scanning(pu, pv, queue, popped, before[u]) && dist[u] == before[u]
        invariant Kept(before, dist[..])
        invariant PartnersVisited(pv, dist[..], g[u], i)
      {
        hide Layered;
        hide QueueHolds;
        hide PartnersVisited;
        hide LeftPaired;
        hide RightPaired;
        ghost var d := dist[..];
        queue := Visit(u, i, queue, popped);
        PartnersStayVisited(pv, d, dist[..], g[u], i);
        i := i + 1;
      }
    }

    /** If the partner of the i-th neighbour of u is unvisited, go there. */
    method Visit(u: u16, i: nat, waiting: seq<u16>, ghost popped: set<int>) returns (queue: seq<u16>)
      requires Separate() && u < nil && u in popped && dist[u] < |popped| && i < |g[u]|
      requires Scanning(pairU[..], pairV[..], waiting, popped, dist[u])
      modifies dist
      ensures Scanning(old(pairU[..]), old(pairV[..]), queue, popped, old(dist[u])) && dist[u] == old(dist[u])
      ensures Kept(old(dist[..]), dist[..])
      ensures dist[pairV[g[u][i]]] != INF
    {
      ghost var before: seq<int> := dist[..];
      var back := pairV[g[u][i]];
      if dist[back] != INF {
        return waiting;
      }
      VisitStep(g, pairU[..], pairV[..], before, waiting, popped, u, i);
      hide *;
      queue := waiting + [back];
      dist[back] := dist[u] + 1;
      assert dist[..] == before[back := before[u] + 1];
    }

    /** Looks for an augmenting path from u to the dummy along increasing layers.  On success
        the pairs along the path are flipped; on failure only distances are lost. */
    method DoDfs(u: u16, ghost bd: seq<int>) returns (found: bool)
      requires Valid() && u <= nil && Decayed(g, bd, dist[..])
      requires DistancesBounded(|g|, bd, |g| + 1)
      modifies pairU, pairV, dist
      ensures Decayed(g, bd, dist[..]) && OnlyDeaths(old(dist[..]), dist[..], old(dist[u]))
      ensures found ==> PathFlipped(g, old(pairU[..]), old(pairV[..]), old(dist[..]), pairU[..], pairV[..], u)
      ensures Paired(g, pairU[..], pairV[..], if found then old(pairU[u]) else |g|)
      ensures !found ==> pairU[..] == old(pairU[..]) && pairV[..] == old(pairV[..]) && dist[u] == INF
      ensures !found && DeadClosed(g, pairV[..], bd, old(dist[..])) ==> DeadClosed(g, pairV[..], bd, dist[..])
      decreases INF as int + 1 - dist[u], 1
    {
      hide DeadClosed;
      hide Decayed;
      hide OnlyDeaths;
      hide Paired;
      hide PathFlipped;
      hide NoneAlive;
      ghost var pu, pv := pairU[..], pairV[..];
      ghost var d0: seq<int> := dist[..];
      NothingFlipped(g, pu, pv, bd, d0, u);
      if u == nil {
        return true;
      }
      var i := 0;
      while i < |g[u]|
        invariant i <= |g[u]|
        invariant Valid() && pairU[..] == pu && pairV[..] == pv
        invariant Decayed(g, bd, dist[..]) && OnlyDeaths(d0, dist[..], d0[u] + 1) && dist[u] == d0[u]
        invariant NoneAlive(pv, dist[..], g[u], i, dist[u])
        invariant DeadClosed(g, pv, bd, d0) ==> DeadClosed(g, pv, bd, dist[..])
      {
        ghost var d1: seq<int> := dist[..];
        found := TryNeighbour(u, i, bd);
        OnlyDeathsTrans(d0, d1, dist[..], d0[u] + 1);
        if found {
          FlippedEarlier(g, pu, pv, d0, d1, pairU[..], pairV[..], u);
          return true;
        }
        DeathsKeepNoneAlive(g, bd, pv, d1, dist[..], g[u], i, u);
        i := i + 1;
      }
      // dead: no path goes on from here in this phase
      BecomesDead(g, pv, bd, d0, dist[..], u);
      ghost var d1 := dist[..];
      dist[u] := INF;
      assert dist[..] == d1[u := INF];
      return false;
    }

    /** One step of the search: over the i-th neighbour of u to the partner of that neighbour. */
    method TryNeighbour(u: u16, i: nat, ghost bd: seq<int>) returns (found: bool)
      requires Valid() && u < nil && i < |g[u]| && Decayed(g, bd, dist[..])
      requires DistancesBounded(|g|, bd, |g| + 1)
      modifies pairU, pairV, dist
      ensures Decayed(g, bd, dist[..]) && OnlyDeaths(old(dist[..]), dist[..], old(dist[u]) as int + 1)
      ensures dist[u] == old(dist[u])
      ensures found ==> PathFlipped(g, old(pairU[..]), old(pairV[..]), old(dist[..]), pairU[..], pairV[..], u)
      ensures Paired(g, pairU[..], pairV[..], if found then old(pairU[u]) else |g|)
      ensures !found ==> pairU[..] == old(pairU[..]) && pairV[..] == old(pairV[..])
      ensures !found ==> dist[pairV[g[u][i]]] as int != dist[u] as int + 1
      ensures !found && DeadClosed(g, pairV[..], bd, old(dist[..])) ==> DeadClosed(g, pairV[..], bd, dist[..])
      decreases INF as int + 1 - dist[u], 0
    {
      var v: u16 := g[u][i];
      var back := pairV[v];
      // edges that stay in a layer, or go back, are not taken
      if dist[back] as int != dist[u] as int + 1 {
        return false;
      }
      ghost var pu, pv, d := pairU[..], pairV[..], dist[..];
      found := DoDfs(back, bd);
      // v was free, or its partner has found another one
      if found {
        Flip(g, pu, pv, d, pairU[..], pairV[..], u, i);
        hide LeftPaired;
        hide RightPaired;
        hide PathFlipped;
        ghost var pu1, pv1 := pairU[..], pairV[..];
        pairV[v] := u;
        pairU[u] := v;
        assert pairV[..] == pv1[v := u] && pairU[..] == pu1[u := v];
      }
    }

    /** Whether all left vertices can be matched at once: on success there is a perfect
        matching, on failure a set of left vertices with too few neighbours. */
    method CanMatchAllNodes() returns (all: bool)
      requires Valid() && numMatched == 0 && MatchedSet(g, pairU[..]) == {}
      modifies this, pairU, pairV, dist
      ensures all <==> CanMatchAll(g)
      ensures !all ==> exists s :: HallViolator(g, s)
    {
      var more := DoBfs();
      while more
        invariant Valid()
        invariant numMatched == |MatchedSet(g, pairU[..])|
        invariant Layered(g, pairU[..], pairV[..], dist[..])
        invariant DistancesBounded(|g|, dist[..], |g| + 1)
        invariant more <==> dist[nil] != INF
        invariant !more ==> ClosedUnderEdges(g, pairV[..], dist[..])
        decreases |g| - numMatched, more
      {
        Phase();
        MatchedSetBound(g, pairU[..]);
        more := DoBfs();
      }
      MatchedSetBound(g, pairU[..]);
      if numMatched == nil {
        AllPairedIsPerfect(g, pairU[..], pairV[..]);
      } else {
        VisitedViolatesHall(g, pairU[..], pairV[..], dist[..]);
        ghost var s :| HallViolator(g, s);
        HallViolatorObstructs(g, s);
      }
      return numMatched == nil;
    }

    /** One phase: a search from every unmatched vertex.  At least one of them succeeds. */
    method Phase()
      requires Valid() && numMatched == |MatchedSet(g, pairU[..])|
      requires Layered(g, pairU[..], pairV[..], dist[..]) && dist[nil] != INF
      requires DistancesBounded(|g|, dist[..], |g| + 1)
      modifies this, pairU, pairV, dist
      ensures Valid() && numMatched == |MatchedSet(g, pairU[..])|
      ensures numMatched > old(numMatched)
    {
      hide Layered;
      hide Decayed;
      hide DeadClosed;
      hide OnlyDeaths;
      hide MatchedSet;
      hide Paired;
      hide PathFlipped;
      hide DistancesBounded;
      ghost var pu, pv, bd := pairU[..], pairV[..], dist[..];
      NothingDead(g, pv, bd);
      var u := 0;
      while u < nil
        invariant 0 <= u <= nil
        invariant Valid() && numMatched == |MatchedSet(g, pairU[..])|
        invariant Decayed(g, bd, dist[..])
        invariant numMatched >= old(numMatched)
        invariant numMatched == old(numMatched) ==>
          && pairU[..] == pu && pairV[..] == pv && DeadClosed(g, pv, bd, dist[..])
          && forall x :: 0 <= x < u && pu[x] == |g| ==> dist[x] == INF
      {
        if pairU[u] == nil {
          ghost var pu0, pv0, d0 := pairU[..], pairV[..], dist[..];
          var found := DoDfs(u, bd);
          StillDead(d0, dist[..], d0[u]);
          if found {
            FlipMatchesOneMore(g, pu0, pv0, d0, pairU[..], pairV[..], u);
            numMatched := numMatched + 1;
          }
        }
        u := u + 1;
      }
      if numMatched == old(numMatched) {
        SomeoneAlive(g, pu, pv, bd, dist[..]);
      }
    }
  }

  /** The function the shapeless check calls. */
  method HopcroftKarpCanMatchAll(bipGraph: Graph) returns (all: bool)
    requires ValidGraph(bipGraph)
    ensures all <==> CanMatchAll(bipGraph)
    ensures !all <==> exists s :: HallViolator(bipGraph, s)
  {
    var state := new HopcroftKarp(bipGraph);
    all := state.CanMatchAllNodes();
    if s :| HallViolator(bipGraph, s) {
      HallViolatorObstructs(bipGraph, s);
    }
  }
}
