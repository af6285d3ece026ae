/** Worst-case stack analysis of a call graph: the three-colour search for cycles, the postorder it
    leaves, the relaxation of heaviest paths along the reversed postorder, and the recursive depth. */
module CallGraph {
  import opened Bits

  /** Each function with the functions it calls, in order, and the bytes of its own stack frame. */
  datatype Graph = Graph(children: map<string, seq<string>>, frameSize: map<string, nat>) {
    /** Every callee is itself a node. */
    ghost predicate Closed() {
      && children.Keys == frameSize.Keys
      && forall u, i | u in children && 0 <= i < |children[u]| :: children[u][i] in children
    }
  }

  // ---- paths ----

  ghost predicate Edge(g: Graph, u: string, v: string) {
    u in g.children && v in g.children[u]
  }

  /** A chain of calls: at least one node, each calling the next. */
  ghost predicate IsPath(g: Graph, p: seq<string>) {
    && p != []
    && (forall i | 0 <= i < |p| :: p[i] in g.children)
    && (forall i | 0 <= i < |p| - 1 :: Edge(g, p[i], p[i + 1]))
  }

  ghost predicate Cyclic(g: Graph) {
    exists p :: IsPath(g, p) && |p| >= 2 && p[0] == p[|p| - 1]
  }

  function Weight(g: Graph, p: seq<string>): nat
    requires forall v | v in p :: v in g.frameSize
  {
    if p == [] then 0 else g.frameSize[p[0]] + Weight(g, p[1..])
  }

  lemma {:induction false} WeightAppend(g: Graph, p: seq<string>, v: string)
    requires forall u | u in p :: u in g.frameSize
    requires v in g.frameSize
    ensures forall u | u in p + [v] :: u in g.frameSize
    ensures Weight(g, p + [v]) == Weight(g, p) + g.frameSize[v]
  {
    if p == [] {
      assert p + [v] == [v];
      assert Weight(g, [v]) == g.frameSize[v] + Weight(g, []);
    } else {
      assert (p + [v])[1..] == p[1..] + [v];
      WeightAppend(g, p[1..], v);
    }
  }

  lemma PathAppend(g: Graph, p: seq<string>, v: string)
    requires IsPath(g, p) && Edge(g, p[|p| - 1], v) && v in g.children
    ensures IsPath(g, p + [v])
  {
  }

  lemma PathPrepend(g: Graph, v: string, p: seq<string>)
    requires IsPath(g, p) && Edge(g, v, p[0])
    ensures IsPath(g, [v] + p)
  {
  }

  /** A path that calls back into itself is a cycle. */
  lemma CycleFromPath(g: Graph, p: seq<string>, v: string)
    requires IsPath(g, p) && v in p && Edge(g, p[|p| - 1], v)
    ensures Cyclic(g)
  {
    var i :| 0 <= i < |p| && p[i] == v;
    var q := p[i..] + [v];
    assert IsPath(g, q);
    assert q[0] == q[|q| - 1];
  }

  // ---- orders ----

  ghost predicate Distinct(s: seq<string>) {
    forall i, j | 0 <= i < j < |s| :: s[i] != s[j]
  }

  /** Every node comes after all the nodes it calls. */
  ghost predicate Postorder(g: Graph, s: seq<string>) {
    && Distinct(s)
    && forall i | 0 <= i < |s| :: s[i] in g.children && forall c | c in g.children[s[i]] :: c in s[..i]
  }

  /** Every node once, and every node before all the nodes it calls. */
  ghost predicate Topological(g: Graph, s: seq<string>) {
    && Distinct(s)
    && (forall v :: v in s <==> v in g.children)
    && forall i | 0 <= i < |s| :: forall c | c in g.children[s[i]] :: c in s[i + 1..]
  }

  function Reverse(s: seq<string>): (r: seq<string>)
    ensures |r| == |s| && forall i | 0 <= i < |s| :: r[i] == s[|s| - 1 - i]
  {
    if s == [] then [] else Reverse(s[1..]) + [s[0]]
  }

  /** A node whose callees are all in a postorder may be added to it. */
  lemma PostorderAppend(g: Graph, s: seq<string>, v: string)
    requires Postorder(g, s) && v !in s && v in g.children
    requires forall c | c in g.children[v] :: c in s
    ensures Postorder(g, s + [v])
  {
    var t := s + [v];
    forall i, c | 0 <= i < |t| && c in g.children[t[i]]
      ensures c in t[..i]
    {
      if i < |s| {
        assert c in s[..i];
        assert t[..i] == s[..i];
      } else {
        assert t[..i] == s;
      }
    }
  }

  /** A postorder of all nodes, reversed, is a topological order. */
  lemma ReversedPostorder(g: Graph, s: seq<string>)
    requires Postorder(g, s) && forall v | v in g.children :: v in s
    ensures Topological(g, Reverse(s))
  {
    var r := Reverse(s);
    forall v
      ensures v in r <==> v in g.children
    {
      if v in g.children {
        var i :| 0 <= i < |s| && s[i] == v;
        assert r[|s| - 1 - i] == v;
      }
    }
    forall i, c | 0 <= i < |r| && c in g.children[r[i]]
      ensures c in r[i + 1..]
    {
      var k := |s| - 1 - i;
      assert c in s[..k];
      var j :| 0 <= j < k && s[j] == c;
      assert r[|s| - 1 - j] == c;
      assert r[i + 1..][|s| - 1 - j - (i + 1)] == c;
    }
  }

  /** The nodes of an order, with their calls. */
  ghost function Part(g: Graph, s: seq<string>): Graph {
    Graph(map v | v in g.children && v in s :: g.children[v], map v | v in g.frameSize && v in s :: g.frameSize[v])
  }

  lemma PartFacts(g: Graph, s: seq<string>)
    requires g.Closed()
    ensures var h := Part(g, s);
            && h.children.Keys == h.frameSize.Keys <= g.children.Keys
            && forall v | v in h.children :: v in s && h.children[v] == g.children[v] && h.frameSize[v] == g.frameSize[v]
    ensures (forall v | v in g.children :: v in s) ==> Part(g, s) == g
  {
  }

  lemma PartOfPostorder(g: Graph, s: seq<string>)
    requires g.Closed() && Postorder(g, s)
    ensures Part(g, s).Closed() && Postorder(Part(g, s), s)
  {
    var h := Part(g, s);
    forall v, c | v in h.children && c in h.children[v]
      ensures c in h.children
    {
      var i :| 0 <= i < |s| && s[i] == v;
      assert c in s[..i];
    }
  }

  lemma ReverseNodes(s: seq<string>, v: string)
    ensures v in Reverse(s) <==> v in s
  {
    if v in s {
      var i :| 0 <= i < |s| && s[i] == v;
      assert Reverse(s)[|s| - 1 - i] == v;
    }
  }

  lemma PartReversed(g: Graph, s: seq<string>)
    ensures Part(g, Reverse(s)) == Part(g, s)
  {
    forall v
      ensures v in Reverse(s) <==> v in s
    {
      ReverseNodes(s, v);
    }
  }

  /** The part that a search has finished is closed under calls, and the reversed order is a
      topological order of it.  When the search has finished all nodes the part is the whole. */
  lemma FinishedPart(g: Graph, s: seq<string>)
    requires g.Closed() && Postorder(g, s)
    ensures var h := Part(g, Reverse(s));
            h.Closed() && Topological(h, Reverse(s)) && ((forall v | v in g.children :: v in s) ==> h == g)
  {
    hide Postorder, Topological, Reverse, Graph.Closed, Part;
    PartReversed(g, s);
    PartOfPostorder(g, s);
    PartFacts(g, s);
    ReversedPostorder(Part(g, s), s);
  }

  /** Along a path the positions in a postorder strictly descend. */
  lemma {:induction false} PathDescends(g: Graph, s: seq<string>, p: seq<string>, i: nat, j: nat)
    requires Postorder(g, s) && IsPath(g, p)
    requires i < |s| && s[i] == p[0] && j < |s| && s[j] == p[|p| - 1]
    ensures if |p| == 1 then j == i else j < i
    decreases |p|
  {
    if |p| > 1 {
      assert Edge(g, p[0], p[1]);
      assert p[1] in s[..i];
      var k :| 0 <= k < i && s[k] == p[1];
      assert IsPath(g, p[1..]) by {
        forall n | 0 <= n < |p[1..]| - 1
          ensures Edge(g, p[1..][n], p[1..][n + 1])
        {
          assert Edge(g, p[n + 1], p[n + 2]);
        }
      }
      PathDescends(g, s, p[1..], k, j);
    }
  }

  /** A graph with a postorder of all its nodes has no cycle. */
  lemma PostorderAcyclic(g: Graph, s: seq<string>)
    requires Postorder(g, s) && forall v | v in g.children :: v in s
    ensures !Cyclic(g)
  {
    forall p | IsPath(g, p) && |p| >= 2 && p[0] == p[|p| - 1]
      ensures false
    {
      var i :| 0 <= i < |s| && s[i] == p[0];
      PathDescends(g, s, p, i, i);
    }
  }

  // ---- heaviest paths ----

  /** p is a path to v of weight w. */
  ghost predicate EndsAt(g: Graph, p: seq<string>, v: string, w: nat)
    requires g.Closed()
  {
    IsPath(g, p) && p[|p| - 1] == v && Weight(g, p) == w
  }

  /** p is a path from v of weight w. */
  ghost predicate StartsAt(g: Graph, p: seq<string>, v: string, w: nat)
    requires g.Closed()
  {
    IsPath(g, p) && p[0] == v && Weight(g, p) == w
  }

  ghost predicate IsHeaviestTo(g: Graph, v: string, w: nat)
    requires g.Closed()
  {
    && (exists p :: EndsAt(g, p, v, w))
    && (forall p | IsPath(g, p) && p[|p| - 1] == v :: Weight(g, p) <= w)
  }

  ghost predicate IsHeaviestFrom(g: Graph, v: string, w: nat)
    requires g.Closed()
  {
    && (exists p :: StartsAt(g, p, v, w))
    && (forall p | IsPath(g, p) && p[0] == v :: Weight(g, p) <= w)
  }

  /** w is the weight of a heaviest path of the whole graph, or 0 when there is no node. */
  ghost predicate IsHeaviest(g: Graph, w: nat)
    requires g.Closed()
  {
    && (forall p | IsPath(g, p) :: Weight(g, p) <= w)
    && (w > 0 ==> exists p :: IsPath(g, p) && Weight(g, p) == w)
  }

  /** Every sum of frame sizes along a path fits the 32-bit counters. */
  ghost predicate Fits32(g: Graph)
    requires g.Closed()
  {
    forall p | IsPath(g, p) :: Weight(g, p) < WORD_RANGE
  }

  /** Every other function is called by some function. */
  ghost predicate OnlyRoot(g: Graph, root: string) {
    forall v | v in g.children && v != root :: exists u :: Edge(g, u, v)
  }

  /** The node that stands for every call through a pointer. */
  const INDIRECT_CALL := "__indirect_call"

  /** The graph after the placeholder's frame size has been written, in 32 bits. */
  function Reweighted(g: Graph, size: nat): (r: Graph)
    ensures g.Closed() && INDIRECT_CALL in g.children ==> r.Closed()
  {
    g.(frameSize := g.frameSize[INDIRECT_CALL := size % WORD_RANGE])
  }

  /** m is start, or the heaviest path from a handler where that is more; handlers that are no node
      do not matter. */
  ghost predicate IsDeepest(g: Graph, handlers: seq<string>, start: nat, m: nat)
    requires g.Closed()
  {
    && start <= m
    && (forall p | IsPath(g, p) && p[0] in handlers :: Weight(g, p) <= m)
    && (m > start ==> exists p :: IsPath(g, p) && p[0] in handlers && Weight(g, p) == m)
  }

  /** Every path from a node through the placeholder, with what the placeholder has gained, still
      weighs at most limit. */
  ghost predicate RoomForIndirect(g: Graph, from: string, size: nat, limit: nat)
    requires g.Closed() && INDIRECT_CALL in g.children
  {
    forall p | IsPath(g, p) && p[0] == from && INDIRECT_CALL in p ::
      Weight(g, p) - g.frameSize[INDIRECT_CALL] + size % WORD_RANGE <= limit
  }

  /** Frame sizes are 32-bit numbers. */
  ghost predicate Sizes32(g: Graph) {
    Values32(g.frameSize)
  }

  ghost predicate Values32(m: map<string, nat>) {
    forall v | v in m :: m[v] < WORD_RANGE
  }

  ghost predicate IsMaximum(m: map<string, nat>, w: nat) {
    && (forall v | v in m :: m[v] <= w)
    && (w > 0 ==> exists v | v in m :: m[v] == w)
  }

  /** The maximum of the heaviest paths to each node, and the maximum of the heaviest paths from
      each node, are both the heaviest path of the graph, so they agree. */
  lemma MaximaAgree(g: Graph, to: map<string, nat>, from: map<string, nat>, a: nat, b: nat)
    requires g.Closed() && to.Keys == g.children.Keys == from.Keys
    requires forall v | v in to :: IsHeaviestTo(g, v, to[v])
    requires forall v | v in from :: IsHeaviestFrom(g, v, from[v])
    requires IsMaximum(to, a) && IsMaximum(from, b)
    ensures a == b && IsHeaviest(g, a)
  {
    forall p | IsPath(g, p)
      ensures Weight(g, p) <= a && Weight(g, p) <= b
    {
      assert IsHeaviestTo(g, p[|p| - 1], to[p[|p| - 1]]);
      assert IsHeaviestFrom(g, p[0], from[p[0]]);
    }
    if a > 0 {
      var v :| v in to && to[v] == a;
      assert IsHeaviestTo(g, v, a);
      var p :| EndsAt(g, p, v, a);
    }
    if b > 0 {
      var v :| v in from && from[v] == b;
      assert IsHeaviestFrom(g, v, b);
      var p :| StartsAt(g, p, v, b);
    }
  }

  // ---- colours ----

  datatype Color = White | Gray | Black

  function Whites(col: map<string, Color>): set<string> {
    set v | v in col && col[v] == White
  }

  /** The black nodes are the ones in the order, which is a postorder. */
  ghost predicate Ordered(g: Graph, col: map<string, Color>, order: seq<string>) {
    && g.Closed() && col.Keys == g.children.Keys
    && Postorder(g, order)
    && forall v | v in col :: col[v] == Black <==> v in order
  }

  /** Every gray node is on the current call path, unless a cycle has been found already: a search
      that was cut short leaves its gray nodes behind. */
  ghost predicate GraysOn(g: Graph, col: map<string, Color>, path: seq<string>) {
    (forall v | v in col && col[v] == Gray :: v in path) || Cyclic(g)
  }

  /** Nodes that are not white keep their colour. */
  ghost predicate Kept(before: map<string, Color>, after: map<string, Color>) {
    before.Keys == after.Keys && forall u | u in before && before[u] != White :: after[u] == before[u]
  }

  ghost predicate NoNewGray(before: map<string, Color>, after: map<string, Color>) {
    before.Keys == after.Keys && forall u | u in before && before[u] == White :: after[u] != Gray
  }

  ghost predicate AllBlack(col: map<string, Color>, nodes: seq<string>) {
    forall i | 0 <= i < |nodes| :: nodes[i] in col && col[nodes[i]] == Black
  }

  lemma OrderedFacts(g: Graph, col: map<string, Color>, order: seq<string>)
    requires Ordered(g, col, order)
    ensures g.Closed() && Postorder(g, order)
  {
  }

  lemma SinglePath(g: Graph, v: string)
    requires v in g.children
    ensures IsPath(g, [] + [v])
  {
  }

  /** A white node becomes gray. */
  lemma Entered(g: Graph, col: map<string, Color>, order: seq<string>, path: seq<string>, v: string)
    requires Ordered(g, col, order) && v in col && col[v] == White && GraysOn(g, col, path)
    ensures v in g.children
    ensures var inside := col[v := Gray];
            Ordered(g, inside, order) && GraysOn(g, inside, path + [v]) && Kept(inside, inside) && NoNewGray(inside, inside)
  {
    if !Cyclic(g) {
      forall u | u in col[v := Gray] && col[v := Gray][u] == Gray
        ensures u in path + [v]
      {
        if u != v {
          assert u in path;
        }
      }
    }
  }

  lemma ChildFacts(g: Graph, col: map<string, Color>, order: seq<string>, v: string, i: nat)
    requires Ordered(g, col, order) && v in g.children && i < |g.children[v]|
    ensures g.children[v][i] in col && g.children[v][i] in g.children && Edge(g, v, g.children[v][i])
  {
  }

  lemma FewerWhites(before: map<string, Color>, inside: map<string, Color>, col: map<string, Color>, v: string)
    requires v in before && before[v] == White && inside == before[v := Gray] && Kept(inside, col)
    ensures Whites(col) < Whites(before)
  {
    assert col[v] == Gray;
    assert v in Whites(before) && v !in Whites(col);
  }

  lemma KeptTwice(a: map<string, Color>, b: map<string, Color>, c: map<string, Color>)
    requires Kept(a, b) && Kept(b, c)
    ensures Kept(a, c)
    ensures NoNewGray(a, b) && NoNewGray(b, c) ==> NoNewGray(a, c)
  {
  }

  lemma KeptFromOutside(before: map<string, Color>, inside: map<string, Color>, col: map<string, Color>, v: string)
    requires v in before && before[v] == White && inside == before[v := Gray] && Kept(inside, col)
    ensures Kept(before, col)
  {
  }

  /** A successful visit of a child leaves the caller's invariants. */
  lemma StillGood(g: Graph, inside: map<string, Color>, was: map<string, Color>, col: map<string, Color>,
                  order: seq<string>, here: seq<string>, done: seq<string>)
    requires GraysOn(g, was, here) && Kept(was, col) && NoNewGray(was, col) && AllBlack(was, done)
    ensures GraysOn(g, col, here) && AllBlack(col, done)
  {
    if !Cyclic(g) {
      forall u | u in col && col[u] == Gray
        ensures u in here
      {
        assert was[u] == Gray;
      }
    }
  }

  /** Running into a gray node is running into the current path: there is a cycle. */
  lemma GrayChild(g: Graph, col: map<string, Color>, here: seq<string>, child: string)
    requires IsPath(g, here) && GraysOn(g, col, here)
    requires child in col && col[child] == Gray && Edge(g, here[|here| - 1], child)
    ensures Cyclic(g)
  {
    if !Cyclic(g) {
      CycleFromPath(g, here, child);
    }
  }

  /** A node whose callees are all black becomes black and joins the order. */
  lemma Finished(g: Graph, before: map<string, Color>, inside: map<string, Color>, col: map<string, Color>,
                 order: seq<string>, v: string)
    requires v in before && before[v] == White && inside == before[v := Gray]
    requires Kept(inside, col) && NoNewGray(inside, col)
    requires Ordered(g, col, order) && v in g.children && AllBlack(col, g.children[v])
    ensures var after := col[v := Black];
            Ordered(g, after, order + [v]) && Kept(before, after) && NoNewGray(before, after)
  {
    assert col[v] == Gray;
    forall c | c in g.children[v]
      ensures c in order
    {
      var i :| 0 <= i < |g.children[v]| && g.children[v][i] == c;
    }
    PostorderAppend(g, order, v);
  }

  class StackCalculator {
    const g: Graph                    // as it was read
    var frameSize: map<string, nat>   // one of the sizes is written again later
    var col: map<string, Color>
    var dist: map<string, nat>
    var order: seq<string>

    constructor (g: Graph)
      requires g.Closed()
      ensures this.g == g && frameSize == dist == g.frameSize && order == []
      ensures col.Keys == g.children.Keys && forall v | v in col :: col[v] == White
    {
      this.g := g;
      frameSize := g.frameSize;
      col := map v | v in g.children :: White;
      dist := g.frameSize;
      order := [];
    }

    /** fdp_unorderd_map: depth-first search from a white node; true when it ran into a gray one. */
    method Visit(v: string, ghost path: seq<string>) returns (found: bool)
      requires Ordered(g, col, order) && v in col && col[v] == White
      requires IsPath(g, path + [v]) && GraysOn(g, col, path)
      modifies this`col, this`order
      ensures Ordered(g, col, order) && Kept(old(col), col)
      ensures found ==> Cyclic(g)
      ensures !found ==> v in col && col[v] == Black && NoNewGray(old(col), col)
      decreases Whites(col)
    {
      hide Ordered, IsPath, GraysOn, Cyclic, Edge, Kept, NoNewGray, Whites;
      ghost var before, here := col, path + [v];
      col := col[v := Gray];
      Entered(g, before, order, path, v);
      ghost var inside := col;
      var children := g.children[v];
      var i := 0;
      while i < |children|
        invariant 0 <= i <= |children|
        invariant Ordered(g, col, order) && GraysOn(g, col, here)
        invariant Kept(inside, col) && NoNewGray(inside, col)
        invariant AllBlack(col, children[..i])
      {
        var child := children[i];
        ghost var was := col;
        ChildFacts(g, col, order, v, i);
        assert children[..i + 1] == children[..i] + [child];
        if col[child] == White {
          FewerWhites(before, inside, col, v);
          PathAppend(g, here, child);
          var inner := Visit(child, here);
          KeptTwice(inside, was, col);
          if inner {
            KeptFromOutside(before, inside, col, v);
            return true;
          }
          StillGood(g, inside, was, col, order, here, children[..i]);
        } else if col[child] == Gray {
          GrayChild(g, col, here, child);
          KeptFromOutside(before, inside, col, v);
          return true;
        }
        i := i + 1;
      }
      assert children[..i] == children;
      Finished(g, before, inside, col, order, v);
      col := col[v := Black];
      order := order + [v];
      return false;
    }

    /** The loop over all nodes in main, in whatever order the map yields them: a cycle is reported
        iff there is one, and otherwise the order left behind is a postorder of all nodes. */
    method FindLoops(roots: seq<string>) returns (loopFound: bool)
      requires Ordered(g, col, order) && order == [] && forall v | v in col :: col[v] == White
      requires forall v :: v in roots <==> v in g.children
      modifies this`col, this`order
      ensures Ordered(g, col, order)
      ensures loopFound <==> Cyclic(g)
      ensures !loopFound ==> Postorder(g, order) && forall v | v in g.children :: v in order
    {
      hide IsPath, Cyclic, Postorder;
      loopFound := false;
      var i := 0;
      while i < |roots|
        invariant 0 <= i <= |roots|
        invariant Ordered(g, col, order)
        invariant loopFound ==> Cyclic(g)
        invariant !loopFound ==> forall v | v in col :: col[v] != Gray
        invariant !loopFound ==> AllBlack(col, roots[..i])
      {
        assert roots[i] in g.children;
        assert roots[..i + 1] == roots[..i] + [roots[i]];
        if col[roots[i]] == White {
          SinglePath(g, roots[i]);
          var found := Visit(roots[i], []);
          loopFound := loopFound || found;
        }
        i := i + 1;
      }
      if !loopFound {
        assert roots[..i] == roots;
        PostorderAcyclic(g, order);
      }
    }

    /** std::reverse on the order. */
    method ReverseOrder()
      requires g.Closed() && Postorder(g, order)
      modifies this`order
      ensures order == Reverse(old(order))
      ensures var h := Part(g, order);
              h.Closed() && Topological(h, order) && ((forall v | v in g.children :: v in old(order)) ==> h == g)
    {
      FinishedPart(g, order);
      order := Reverse(order);
    }

    /** The relaxation loop of main: along the order every node passes its distance on to the nodes it
        calls.  Afterwards dist is the heaviest path ending at each node, iff all path weights fit 32
        bits, and then the result is the heaviest path of all.  In a cyclic graph all this is said of
        the part that the search finished; the other nodes keep their own frame size. */
    method Relax() returns (biggest: nat)
      requires g.Closed() && Sizes32(g) && dist == frameSize == g.frameSize
      requires Part(g, order).Closed() && Topological(Part(g, order), order)
      modifies this`dist
      ensures dist.Keys == g.children.Keys && Outside(order, g.frameSize, dist)
      ensures var h := Part(g, order);
              && ((forall v | v in h.children :: IsHeaviestTo(h, v, dist[v])) <==> Fits32(h))
              && (Fits32(h) ==> IsHeaviest(h, biggest))
    {
      hide Witnessed, IsHeaviest, IsHeaviestTo, Fits32, Relaxed, Topological, Part, Outside, Earlier, Grown, Tracked, AllRelaxed,
           Graph.Closed;
      biggest := 0;
      ghost var h := Part(g, order);
      PartFacts(g, order);
      OutsideNone(order, dist);
      ghost var trail := map v | v in h.children :: [v];
      RelaxStart(g, h, order, trail);
      var i := 0;
      while i < |order|
        invariant 0 <= i <= |order|
        invariant dist.Keys == g.children.Keys && Values32(dist)
        invariant Outside(order, g.frameSize, dist)
        invariant Fits32(h) ==> Witnessed(h, dist, trail)
        invariant Tracked(order, i, dist, biggest)
        invariant Fits32(h) ==> AllRelaxed(h, dist, order, i)
      {
        var u := order[i];
        InOrder(h, order, i);
        var topologicalDist := dist[u];
        ghost var wasBiggest := biggest;
        biggest := if biggest >= topologicalDist then biggest else topologicalDist;
        ghost var before := dist;
        trail := RelaxChildren(i, h, trail);
        OutsideTwice(order, g.frameSize, before, dist);
        TrackedNext(order, i, before, dist, wasBiggest);
        if Fits32(h) {
          RelaxedNext(h, before, dist, order, i);
        }
        i := i + 1;
      }
      if Fits32(h) {
        RelaxedIsHeaviest(h, dist, trail, order);
        BiggestIsHeaviest(h, dist, order, biggest);
      } else {
        OverflowIsWrong(h, dist);
      }
    }

    /** The inner loop: one node relaxes the nodes it calls, which all come later in the order. */
    method RelaxChildren(i: nat, ghost h: Graph, ghost trail: map<string, seq<string>>)
      returns (ghost trail': map<string, seq<string>>)
      requires g.Closed() && h == Part(g, order) && h.Closed() && Topological(h, order)
      requires dist.Keys == g.children.Keys && Values32(dist) && frameSize == g.frameSize
      requires i < |order| && (Fits32(h) ==> Witnessed(h, dist, trail))
      modifies this`dist
      ensures dist.Keys == g.children.Keys && order[i] in dist && Values32(dist)
      ensures Outside(order, old(dist), dist)
      ensures Fits32(h) ==> Witnessed(h, dist, trail') && Relaxed(h, dist, order[i])
      ensures Earlier(order, i, old(dist), dist) && Grown(old(dist), dist)
    {
      hide Fits32, Topological, Witnessed, Part, Earlier, Grown, Outside;
      trail' := trail;
      PartFacts(g, order);
      InOrder(h, order, i);
      ghost var before := dist;
      EarlierKept(h, order, i, before, dist);
      OutsideNone(order, dist);
      var topologicalDist := dist[order[i]];
      var children := g.children[order[i]];
      var j := 0;
      while j < |children|
        invariant 0 <= j <= |children|
        invariant dist.Keys == g.children.Keys && Values32(dist)
        invariant Outside(order, before, dist)
        invariant Fits32(h) ==> Witnessed(h, dist, trail')
        invariant Earlier(order, i, before, dist) && Grown(before, dist)
        invariant Fits32(h) ==> forall k | 0 <= k < j :: dist[children[k]] >= topologicalDist + frameSize[children[k]]
      {
        var child := children[j];
        LaterInOrder(h, order, i, j);
        EarlierAt(order, i, before, dist);
        if Fits32(h) {
          StepFits(h, dist, trail', order[i], child);
          WitnessedKeys(h, dist, trail');
        }
        var candidate := (topologicalDist + frameSize[child]) % WORD_RANGE;
        if dist[child] < candidate {
          trail' := if order[i] in trail' then trail'[child := trail'[order[i]] + [child]] else trail';
          DistanceRaised(order, i, before, dist, child, candidate);
          dist := dist[child := candidate];
        }
        j := j + 1;
      }
      EarlierAt(order, i, before, dist);
    }

    /** The graph with the frame sizes as they are now. */
    ghost function Now(): Graph
      reads this
    {
      Graph(g.children, frameSize)
    }

    /** get_subtree_depth: the heaviest path starting at a node, by the sizes as they are now.  It
        returns because the graph has a topological order, along which every call moves on. */
    method GetSubtreeDepth(v: string, ghost position: nat) returns (depth: nat)
      requires Now().Closed() && Topological(Now(), order)
      requires position < |order| && order[position] == v
      ensures IsHeaviestFrom(Now(), v, depth)
      decreases |order| - position
    {
      hide StartsAt, IsHeaviestFrom, BoundedFrom;
      ghost var w := Now();
      var kernelDist := 0;
      assert v in order;
      var children := g.children[v];
      ghost var trail := [v];
      SinglePaths(w);
      var i := 0;
      while i < |children|
        invariant 0 <= i <= |children|
        invariant StartsAt(w, trail, v, frameSize[v] + kernelDist)
        invariant forall k | 0 <= k < i :: BoundedFrom(w, children[k], kernelDist)
      {
        ghost var next := PositionOfChild(w, order, position, i);
        var d := GetSubtreeDepth(children[i], next);
        if kernelDist < d {
          ghost var p := HeaviestWitness(w, children[i], d);
          PrependWeight(w, v, children[i], p, d);
          trail := [v] + p;
        }
        forall k | 0 <= k < i
          ensures BoundedFrom(w, children[k], if kernelDist >= d then kernelDist else d)
        {
          BoundedMore(w, children[k], kernelDist, if kernelDist >= d then kernelDist else d);
        }
        BoundedByDepth(w, children[i], d, if kernelDist >= d then kernelDist else d);
        kernelDist := if kernelDist >= d then kernelDist else d;
        i := i + 1;
      }
      DepthIsHeaviest(w, v, kernelDist, trail);
      return frameSize[v] + kernelDist;
    }

    /** One loop of get_interrupt_stack_size: handlers that are no node are passed over. */
    method DeepestHandler(handlers: seq<string>, start: nat) returns (stackSize: nat)
      requires Now().Closed() && Topological(Now(), order)
      ensures IsDeepest(Now(), handlers, start, stackSize)
    {
      hide IsHeaviestFrom, Topological;
      stackSize := start;
      for i := 0 to |handlers|
        invariant IsDeepest(Now(), handlers[..i], start, stackSize)
      {
        if handlers[i] in g.children {
          ghost var position := PositionOf(Now(), order, handlers[i]);
          var depth := GetSubtreeDepth(handlers[i], position);
          DeepestNext(Now(), handlers, i, start, stackSize, depth);
          stackSize := if stackSize >= depth then stackSize else depth;
        } else {
          DeepestSkips(Now(), handlers, i, start, stackSize);
        }
      }
      assert handlers[..|handlers|] == handlers;
    }

    /** get_interrupt_stack_size: the placeholder of the indirect calls gets the deepest independent
        handler as its frame size, in 32 bits, and then the deepest handler of all. */
    method GetInterruptStackSize(independent: seq<string>, dependent: seq<string>)
      returns (stackSize: nat, ghost first: nat)
      requires g.Closed() && frameSize == g.frameSize && INDIRECT_CALL in g.children && Topological(g, order)
      modifies this`frameSize
      ensures IsDeepest(g, independent, 0, first)
      ensures IsDeepest(Reweighted(g, first), dependent, first, stackSize)
      ensures Now() == Reweighted(g, stackSize)
    {
      hide IsDeepest;
      assert Now() == g;
      stackSize := DeepestHandler(independent, 0);
      first := stackSize;
      frameSize := frameSize[INDIRECT_CALL := stackSize % WORD_RANGE];
      assert Now() == Reweighted(g, first);
      SameOrder(g, first, order);
      stackSize := DeepestHandler(dependent, stackSize);
      frameSize := frameSize[INDIRECT_CALL := stackSize % WORD_RANGE];
      assert Now() == Reweighted(g, stackSize);
    }

    /** The first half of main, on any graph: the search, the reversed order, and the relaxation of
        the part that the search has finished, which is the whole graph when no loop was found. */
    method FindAndRelax(roots: seq<string>) returns (loopFound: bool, biggest: nat)
      requires Ordered(g, col, order) && order == [] && forall v | v in col :: col[v] == White
      requires forall v :: v in roots <==> v in g.children
      requires dist == frameSize == g.frameSize && Sizes32(g)
      modifies this`col, this`order, this`dist
      ensures loopFound <==> Cyclic(g)
      ensures dist.Keys == g.children.Keys && Outside(order, g.frameSize, dist)
      ensures var h := Part(g, order);
              && h.Closed() && Topological(h, order) && (!loopFound ==> h == g)
              && ((forall v | v in h.children :: IsHeaviestTo(h, v, dist[v])) <==> Fits32(h))
              && (Fits32(h) ==> IsHeaviest(h, biggest))
    {
      hide IsPath, Cyclic, Postorder, Topological, Fits32, IsHeaviest, IsHeaviestTo, Part, Ordered, Sizes32, Outside;
      OrderedFacts(g, col, order);
      loopFound := FindLoops(roots);
      OrderedFacts(g, col, order);
      ReverseOrder();
      biggest := Relax();
    }

    /** main on a graph without cycles.  Between the relaxation and the recursive depth the size of the
        placeholder is written, so the two speak of different sizes.  The depth of the kernel is still
        at most the biggest distance, iff no path from the kernel's entry through the placeholder is
        too heavy for that. */
    method Analyse(roots: seq<string>, independent: seq<string>, dependent: seq<string>, kernelMain: string)
      returns (loopFound: bool, biggest: nat, interruptStack: nat, kernelStack: nat, ghost first: nat)
      requires Ordered(g, col, order) && order == [] && forall v | v in col :: col[v] == White
      requires forall v :: v in roots <==> v in g.children
      requires dist == frameSize == g.frameSize && Sizes32(g) && !Cyclic(g)
      requires kernelMain in g.children && INDIRECT_CALL in g.children
      modifies this`col, this`order, this`dist, this`frameSize
      ensures !loopFound && Topological(g, order)
      ensures dist.Keys == g.children.Keys && ((forall v | v in g.children :: IsHeaviestTo(g, v, dist[v])) <==> Fits32(g))
      ensures Fits32(g) ==> IsHeaviest(g, biggest)
      ensures IsDeepest(g, independent, 0, first) && IsDeepest(Reweighted(g, first), dependent, first, interruptStack)
      ensures IsHeaviestFrom(Reweighted(g, interruptStack), kernelMain, kernelStack)
      ensures Fits32(g) ==> (kernelStack <= biggest <==> RoomForIndirect(g, kernelMain, interruptStack, biggest))
      ensures Fits32(g) && OnlyRoot(g, kernelMain) && g.frameSize[INDIRECT_CALL] <= interruptStack % WORD_RANGE
              ==> kernelStack >= biggest
    {
      hide IsPath, Cyclic, Postorder, Topological, Fits32, OnlyRoot, IsHeaviestFrom, IsHeaviest, IsHeaviestTo, IsDeepest,
           RoomForIndirect, Part, Reweighted, Ordered, Sizes32, Outside;
      OrderedFacts(g, col, order);
      loopFound, biggest := FindAndRelax(roots);
      interruptStack, first := GetInterruptStackSize(independent, dependent);
      SameOrder(g, interruptStack, order);
      ghost var position := PositionOf(Now(), order, kernelMain);
      kernelStack := GetSubtreeDepth(kernelMain, position);
      if Fits32(g) {
        DepthAgainstBiggest(g, order, kernelMain, interruptStack, kernelStack, biggest);
      }
    }
  }

  // ---- relaxation ----

  /** Each distance is the weight of a path that ends at its node, and at least the node's own frame. */
  ghost predicate Witnessed(g: Graph, dist: map<string, nat>, trail: map<string, seq<string>>)
    requires g.Closed()
  {
    && g.children.Keys <= dist.Keys && trail.Keys == g.children.Keys
    && forall v | v in g.children ::
         EndsAt(g, trail[v], v, dist[v]) && dist[v] >= g.frameSize[v]
  }

  ghost predicate Relaxed(g: Graph, dist: map<string, nat>, u: string)
    requires g.Closed() && g.children.Keys <= dist.Keys
  {
    u in g.children && forall c | c in g.children[u] :: dist[c] >= dist[u] + g.frameSize[c]
  }

  lemma SinglePaths(g: Graph)
    requires g.Closed()
    ensures forall v | v in g.children :: EndsAt(g, [v], v, g.frameSize[v]) && StartsAt(g, [v], v, g.frameSize[v])
    ensures Witnessed(g, g.frameSize, map v | v in g.children :: [v])
  {
    forall v | v in g.children
      ensures Weight(g, [v]) == g.frameSize[v]
    {
      assert [v][1..] == [];
    }
  }

  /** The distances before the relaxation are the nodes' own sizes. */
  lemma RelaxStart(g: Graph, h: Graph, order: seq<string>, trail: map<string, seq<string>>)
    requires g.Closed() && h == Part(g, order) && h.Closed() && Sizes32(g)
    requires trail == map v | v in h.children :: [v]
    ensures g.frameSize.Keys == g.children.Keys && Values32(g.frameSize)
    ensures Witnessed(h, g.frameSize, trail)
    ensures Tracked(order, 0, g.frameSize, 0) && AllRelaxed(h, g.frameSize, order, 0)
  {
    SinglePaths(h);
  }

  lemma CalleesLater(g: Graph, order: seq<string>, i: nat, c: string)
    requires Topological(g, order) && i < |order|
    requires order[i] in g.children ==> c in g.children[order[i]]
    ensures order[i] in g.children && c in order[i + 1..]
  {
    assert order[i] in order;
  }

  lemma LaterInOrder(g: Graph, order: seq<string>, i: nat, j: nat)
    requires g.Closed() && Topological(g, order) && i < |order|
    requires order[i] in g.children && j < |g.children[order[i]]|
    ensures g.children[order[i]][j] in g.children
    ensures g.children[order[i]][j] in order[i + 1..]
    ensures forall k | 0 <= k <= i :: order[k] != g.children[order[i]][j]
  {
    var c := g.children[order[i]][j];
    CalleesLater(g, order, i, c);
    var n :| 0 <= n < |order[i + 1..]| && order[i + 1..][n] == c;
    assert order[i + 1 + n] == c;
  }

  /** The nodes up to position i have kept their distances. */
  ghost predicate Earlier(order: seq<string>, i: nat, before: map<string, nat>, after: map<string, nat>)
    requires i < |order|
  {
    forall k | 0 <= k <= i :: order[k] in before && order[k] in after && after[order[k]] == before[order[k]]
  }

  /** The nodes that are not in the order have kept their distances. */
  ghost predicate Outside(order: seq<string>, before: map<string, nat>, after: map<string, nat>) {
    before.Keys == after.Keys && forall v | v in after && v !in order :: after[v] == before[v]
  }

  lemma OutsideNone(order: seq<string>, dist: map<string, nat>)
    ensures Outside(order, dist, dist)
  {
  }

  lemma OutsideTwice(order: seq<string>, a: map<string, nat>, b: map<string, nat>, c: map<string, nat>)
    requires Outside(order, a, b) && Outside(order, b, c)
    ensures Outside(order, a, c)
  {
  }

  ghost predicate Grown(before: map<string, nat>, after: map<string, nat>) {
    before.Keys == after.Keys && forall v | v in after :: before[v] <= after[v]
  }

  lemma EarlierAt(order: seq<string>, i: nat, before: map<string, nat>, after: map<string, nat>)
    requires i < |order| && Earlier(order, i, before, after)
    ensures order[i] in before && order[i] in after && after[order[i]] == before[order[i]]
  {
  }

  /** One distance of a later node is raised. */
  lemma DistanceRaised(order: seq<string>, i: nat, before: map<string, nat>, now: map<string, nat>, v: string, more: nat)
    requires i < |order| && Earlier(order, i, before, now) && Grown(before, now) && Outside(order, before, now)
    requires v in now && now[v] < more && v in order[i + 1..] && forall k | 0 <= k <= i :: order[k] != v
    ensures var after := now[v := more];
            Earlier(order, i, before, after) && Grown(before, after) && Outside(order, before, after)
            && forall u | u in now :: now[u] <= after[u]
  {
    var n :| 0 <= n < |order[i + 1..]| && order[i + 1..][n] == v;
    assert order[i + 1 + n] == v;
  }

  /** biggest is the largest distance of the first i nodes. */
  ghost predicate Tracked(order: seq<string>, i: nat, dist: map<string, nat>, biggest: nat)
    requires i <= |order|
  {
    && (forall k | 0 <= k < i :: order[k] in dist && dist[order[k]] <= biggest)
    && (biggest > 0 ==> exists k :: 0 <= k < i && dist[order[k]] == biggest)
  }

  lemma TrackedNext(order: seq<string>, i: nat, before: map<string, nat>, after: map<string, nat>, biggest: nat)
    requires i < |order| && order[i] in before && Tracked(order, i, before, biggest) && Earlier(order, i, before, after)
    ensures Tracked(order, i + 1, after, if biggest >= before[order[i]] then biggest else before[order[i]])
  {
    if biggest >= before[order[i]] && biggest > 0 {
      var k :| 0 <= k < i && before[order[k]] == biggest;
      assert after[order[k]] == biggest;
    } else {
      assert after[order[i]] == before[order[i]];
    }
  }

  ghost predicate AllRelaxed(g: Graph, dist: map<string, nat>, order: seq<string>, i: nat)
    requires g.Closed() && g.children.Keys <= dist.Keys && i <= |order|
  {
    forall k | 0 <= k < i :: Relaxed(g, dist, order[k])
  }

  /** One more node is relaxed, and the earlier ones stay so. */
  lemma RelaxedNext(g: Graph, before: map<string, nat>, after: map<string, nat>, order: seq<string>, i: nat)
    requires g.Closed() && g.children.Keys <= before.Keys && i < |order|
    requires Earlier(order, i, before, after) && Grown(before, after)
    requires AllRelaxed(g, before, order, i) && Relaxed(g, after, order[i])
    ensures AllRelaxed(g, after, order, i + 1)
  {
    forall k | 0 <= k < i
      ensures Relaxed(g, after, order[k])
    {
      RelaxedKept(g, before, after, order[k]);
    }
  }

  lemma WitnessedKeys(g: Graph, dist: map<string, nat>, trail: map<string, seq<string>>)
    requires g.Closed() && Witnessed(g, dist, trail)
    ensures g.children.Keys <= dist.Keys && trail.Keys == g.children.Keys
  {
  }

  lemma EarlierKept(g: Graph, order: seq<string>, i: nat, before: map<string, nat>, after: map<string, nat>)
    requires Topological(g, order) && i < |order| && before == after && g.children.Keys <= before.Keys
    ensures Earlier(order, i, before, after) && Grown(before, after)
  {
    forall k | 0 <= k <= i
      ensures order[k] in before
    {
      InOrder(g, order, k);
    }
  }

  lemma InOrder(g: Graph, order: seq<string>, i: nat)
    requires Topological(g, order) && i < |order|
    ensures order[i] in g.children
  {
    assert order[i] in order;
  }

  /** Distances that only grow, and not at u, leave u relaxed. */
  lemma RelaxedKept(g: Graph, before: map<string, nat>, after: map<string, nat>, u: string)
    requires g.Closed() && g.children.Keys <= before.Keys == after.Keys
    requires Relaxed(g, before, u) && after[u] == before[u]
    requires forall v | v in after :: before[v] <= after[v]
    ensures Relaxed(g, after, u)
  {
  }

  /** Passing a distance on to a child: the sum is the weight of a path, so it does not overflow. */
  lemma StepFits(g: Graph, dist: map<string, nat>, trail: map<string, seq<string>>, u: string, c: string)
    requires g.Closed() && Fits32(g) && Witnessed(g, dist, trail)
    requires u in g.children && c in g.children && Edge(g, u, c)
    ensures dist[u] + g.frameSize[c] < WORD_RANGE
    ensures dist[c] < dist[u] + g.frameSize[c]
            ==> Witnessed(g, dist[c := dist[u] + g.frameSize[c]], trail[c := trail[u] + [c]])
  {
    hide EndsAt, Fits32;
    ExtendTrail(g, trail[u], u, dist[u], c);
  }

  lemma ExtendTrail(g: Graph, p: seq<string>, u: string, w: nat, c: string)
    requires g.Closed() && Fits32(g) && EndsAt(g, p, u, w)
    requires c in g.children && Edge(g, u, c)
    ensures EndsAt(g, p + [c], c, w + g.frameSize[c]) && w + g.frameSize[c] < WORD_RANGE
  {
    PathAppend(g, p, c);
    WeightAppend(g, p, c);
  }

  lemma {:induction false} PathBound(g: Graph, dist: map<string, nat>, p: seq<string>)
    requires g.Closed() && g.children.Keys <= dist.Keys && IsPath(g, p)
    requires forall v | v in g.children :: dist[v] >= g.frameSize[v] && Relaxed(g, dist, v)
    ensures Weight(g, p) <= dist[p[|p| - 1]]
    decreases |p|
  {
    var q, v := p[..|p| - 1], p[|p| - 1];
    assert p == q + [v];
    if q == [] {
      assert Weight(g, [v]) == g.frameSize[v] + Weight(g, [v][1..]);
    } else {
      assert IsPath(g, q) by {
        forall i | 0 <= i < |q| - 1
          ensures Edge(g, q[i], q[i + 1])
        {
          assert Edge(g, p[i], p[i + 1]);
        }
      }
      PathBound(g, dist, q);
      WeightAppend(g, q, v);
      assert Edge(g, p[|p| - 2], p[|p| - 2 + 1]);
      assert Relaxed(g, dist, q[|q| - 1]);
    }
  }

  lemma RelaxedIsHeaviest(g: Graph, dist: map<string, nat>, trail: map<string, seq<string>>, order: seq<string>)
    requires g.Closed() && Witnessed(g, dist, trail) && Topological(g, order)
    requires AllRelaxed(g, dist, order, |order|)
    ensures forall v | v in g.children :: IsHeaviestTo(g, v, dist[v])
  {
    forall v | v in g.children
      ensures Relaxed(g, dist, v)
    {
      var k :| 0 <= k < |order| && order[k] == v;
    }
    forall v | v in g.children
      ensures IsHeaviestTo(g, v, dist[v])
    {
      forall p | IsPath(g, p) && p[|p| - 1] == v
        ensures Weight(g, p) <= dist[v]
      {
        PathBound(g, dist, p);
      }
      assert EndsAt(g, trail[v], v, dist[v]);
    }
  }

  /** 32-bit distances cannot be the heaviest paths when a path does not fit. */
  lemma OverflowIsWrong(g: Graph, dist: map<string, nat>)
    requires g.Closed() && g.children.Keys <= dist.Keys && Values32(dist) && !Fits32(g)
    ensures !(forall v | v in g.children :: IsHeaviestTo(g, v, dist[v]))
  {
    var p :| IsPath(g, p) && Weight(g, p) >= WORD_RANGE;
    var v := p[|p| - 1];
    assert v in g.children && !IsHeaviestTo(g, v, dist[v]);
  }

  lemma BiggestIsHeaviest(g: Graph, dist: map<string, nat>, order: seq<string>, biggest: nat)
    requires g.Closed() && g.children.Keys <= dist.Keys && Topological(g, order)
    requires forall v | v in g.children :: IsHeaviestTo(g, v, dist[v])
    requires Tracked(order, |order|, dist, biggest)
    ensures IsHeaviest(g, biggest)
  {
    forall p | IsPath(g, p)
      ensures Weight(g, p) <= biggest
    {
      var v := p[|p| - 1];
      assert IsHeaviestTo(g, v, dist[v]);
      var k :| 0 <= k < |order| && order[k] == v;
    }
    if biggest > 0 {
      var k :| 0 <= k < |order| && dist[order[k]] == biggest;
      assert IsHeaviestTo(g, order[k], biggest);
    }
  }

  // ---- depth ----

  ghost predicate BoundedFrom(g: Graph, v: string, w: nat)
    requires g.Closed()
  {
    forall p | IsPath(g, p) && p[0] == v :: Weight(g, p) <= w
  }

  lemma BoundedMore(g: Graph, v: string, w: nat, more: nat)
    requires g.Closed() && BoundedFrom(g, v, w) && w <= more
    ensures BoundedFrom(g, v, more)
  {
  }

  lemma BoundedByDepth(g: Graph, v: string, depth: nat, w: nat)
    requires g.Closed() && IsHeaviestFrom(g, v, depth) && depth <= w
    ensures BoundedFrom(g, v, w)
  {
  }

  lemma PositionOfChild(g: Graph, order: seq<string>, i: nat, j: nat) returns (n: nat)
    requires g.Closed() && Topological(g, order) && i < |order|
    requires order[i] in g.children && j < |g.children[order[i]]|
    ensures i < n < |order| && order[n] == g.children[order[i]][j]
  {
    var c := g.children[order[i]][j];
    CalleesLater(g, order, i, c);
    var k :| 0 <= k < |order[i + 1..]| && order[i + 1..][k] == c;
    n := i + 1 + k;
  }

  lemma HeaviestWitness(g: Graph, v: string, w: nat) returns (p: seq<string>)
    requires g.Closed() && IsHeaviestFrom(g, v, w)
    ensures StartsAt(g, p, v, w)
  {
    p :| StartsAt(g, p, v, w);
  }

  lemma PrependWeight(g: Graph, v: string, c: string, p: seq<string>, w: nat)
    requires g.Closed() && v in g.children && StartsAt(g, p, c, w) && Edge(g, v, c)
    ensures StartsAt(g, [v] + p, v, g.frameSize[v] + w)
  {
    PathPrepend(g, v, p);
    assert ([v] + p)[1..] == p;
  }

  lemma DepthIsHeaviest(g: Graph, v: string, w: nat, trail: seq<string>)
    requires g.Closed() && v in g.children
    requires StartsAt(g, trail, v, g.frameSize[v] + w)
    requires forall k | 0 <= k < |g.children[v]| :: BoundedFrom(g, g.children[v][k], w)
    ensures IsHeaviestFrom(g, v, g.frameSize[v] + w)
  {
    forall p | IsPath(g, p) && p[0] == v
      ensures Weight(g, p) <= g.frameSize[v] + w
    {
      if |p| > 1 {
        var q := p[1..];
        assert Edge(g, p[0], p[0 + 1]);
        assert IsPath(g, q) by {
          forall i | 0 <= i < |q| - 1
            ensures Edge(g, q[i], q[i + 1])
          {
            assert Edge(g, p[i + 1], p[i + 1 + 1]);
          }
        }
        var k :| 0 <= k < |g.children[v]| && g.children[v][k] == q[0];
        assert BoundedFrom(g, q[0], w);
      } else {
        assert p[1..] == [];
      }
    }
  }

  lemma PositionOf(g: Graph, order: seq<string>, v: string) returns (i: nat)
    requires Topological(g, order) && v in g.children
    ensures i < |order| && order[i] == v
  {
    assert v in order;
    i :| 0 <= i < |order| && order[i] == v;
  }

  /** When all other functions have callers, a path can be traced back to the only root. */
  lemma {:induction false} TraceBack(g: Graph, order: seq<string>, root: string, p: seq<string>, i: nat) returns (q: seq<string>)
    requires g.Closed() && Topological(g, order) && OnlyRoot(g, root) && IsPath(g, p)
    requires i < |order| && order[i] == p[0]
    ensures IsPath(g, q) && q[0] == root && Weight(g, q) >= Weight(g, p)
    decreases i
  {
    if p[0] == root {
      return p;
    }
    var u :| Edge(g, u, p[0]);
    var k := PositionOf(g, order, u);
    var n :| 0 <= n < |g.children[u]| && g.children[u][n] == p[0];
    LaterInOrder(g, order, k, n);
    PathPrepend(g, u, p);
    assert ([u] + p)[1..] == p;
    q := TraceBack(g, order, root, [u] + p, k);
  }

  // ---- the placeholder of the indirect calls ----

  lemma SameOrder(g: Graph, size: nat, order: seq<string>)
    requires g.Closed() && INDIRECT_CALL in g.children && Topological(g, order)
    ensures Reweighted(g, size).Closed() && Topological(Reweighted(g, size), order)
  {
  }

  lemma DeepestNext(g: Graph, handlers: seq<string>, i: nat, start: nat, m: nat, depth: nat)
    requires g.Closed() && i < |handlers| && IsDeepest(g, handlers[..i], start, m)
    requires IsHeaviestFrom(g, handlers[i], depth)
    ensures IsDeepest(g, handlers[..i + 1], start, if m >= depth then m else depth)
  {
    assert handlers[..i + 1] == handlers[..i] + [handlers[i]];
    if depth > m {
      var p :| StartsAt(g, p, handlers[i], depth);
    }
  }

  lemma DeepestSkips(g: Graph, handlers: seq<string>, i: nat, start: nat, m: nat)
    requires g.Closed() && i < |handlers| && IsDeepest(g, handlers[..i], start, m)
    requires handlers[i] !in g.children
    ensures IsDeepest(g, handlers[..i + 1], start, m)
  {
    assert handlers[..i + 1] == handlers[..i] + [handlers[i]];
  }

  /** A path moves forward along a topological order: it meets no node twice, and it is no longer
      than what is left of the order. */
  lemma {:induction false} AlongPath(g: Graph, order: seq<string>, p: seq<string>, i: nat)
    requires g.Closed() && Topological(g, order) && IsPath(g, p)
    requires i < |order| && order[i] == p[0]
    ensures Distinct(p) && |p| <= |order| - i
    ensures forall k | 0 < k < |p| :: p[k] in order[i + 1..]
    decreases |p|
  {
    if |p| > 1 {
      assert Edge(g, p[0], p[0 + 1]);
      var n :| 0 <= n < |g.children[p[0]]| && g.children[p[0]][n] == p[1];
      var j := PositionOfChild(g, order, i, n);
      TailPath(g, p);
      AlongPath(g, order, p[1..], j);
      forall k | 0 < k < |p|
        ensures p[k] in order[i + 1..] && p[k] != p[0]
      {
        if k == 1 {
          assert order[i + 1..][j - i - 1] == p[1];
        } else {
          assert p[1..][k - 1] in order[j + 1..];
          var m :| 0 <= m < |order[j + 1..]| && order[j + 1..][m] == p[k];
          assert order[i + 1..][j + 1 + m - i - 1] == p[k];
        }
        var m :| 0 <= m < |order[i + 1..]| && order[i + 1..][m] == p[k];
        assert order[i + 1 + m] == p[k];
      }
      forall k, l | 0 <= k < l < |p|
        ensures p[k] != p[l]
      {
        if k > 0 {
          assert p[1..][k - 1] != p[1..][l - 1];
        }
      }
    }
  }

  lemma TailPath(g: Graph, p: seq<string>)
    requires IsPath(g, p) && |p| > 1
    ensures IsPath(g, p[1..])
  {
    forall i | 0 <= i < |p[1..]| - 1
      ensures Edge(g, p[1..][i], p[1..][i + 1])
    {
      assert Edge(g, p[i + 1], p[i + 1 + 1]);
    }
  }

  /** Path weights of an acyclic graph fit the 64-bit numbers of the depth. */
  lemma DepthFits64(g: Graph, order: seq<string>, p: seq<string>)
    requires g.Closed() && Topological(g, order) && Sizes32(g) && IsPath(g, p) && |order| <= WORD_RANGE
    ensures Weight(g, p) < WORD_RANGE * WORD_RANGE
  {
    var i := PositionOf(g, order, p[0]);
    AlongPath(g, order, p, i);
    WeightBound(g, p);
    assert |p| * (WORD_RANGE - 1) <= WORD_RANGE * (WORD_RANGE - 1);
  }

  lemma {:induction false} WeightBound(g: Graph, p: seq<string>)
    requires Sizes32(g) && forall v | v in p :: v in g.frameSize
    ensures Weight(g, p) <= |p| * (WORD_RANGE - 1)
  {
    if p != [] {
      WeightBound(g, p[1..]);
      assert |p| * (WORD_RANGE - 1) == |p[1..]| * (WORD_RANGE - 1) + (WORD_RANGE - 1);
    }
  }

  /** Writing the placeholder's size moves the weight of a path that meets it once by as much. */
  lemma {:induction false} ReweightedPath(g: Graph, size: nat, p: seq<string>)
    requires INDIRECT_CALL in g.frameSize && Distinct(p) && forall v | v in p :: v in g.frameSize
    ensures Weight(Reweighted(g, size), p)
            == Weight(g, p) + if INDIRECT_CALL in p then size % WORD_RANGE - g.frameSize[INDIRECT_CALL] else 0
    decreases |p|
  {
    if p != [] {
      assert p == [p[0]] + p[1..];
      forall k, l | 0 <= k < l < |p[1..]|
        ensures p[1..][k] != p[1..][l]
      {
        assert p[k + 1] != p[l + 1];
      }
      ReweightedPath(g, size, p[1..]);
    }
  }

  lemma ReweightedWeight(g: Graph, order: seq<string>, size: nat, p: seq<string>)
    requires g.Closed() && INDIRECT_CALL in g.children && Topological(g, order) && IsPath(g, p)
    ensures Reweighted(g, size).Closed() && IsPath(Reweighted(g, size), p)
    ensures Weight(Reweighted(g, size), p)
            == Weight(g, p) + if INDIRECT_CALL in p then size % WORD_RANGE - g.frameSize[INDIRECT_CALL] else 0
  {
    var i := PositionOf(g, order, p[0]);
    AlongPath(g, order, p, i);
    ReweightedPath(g, size, p);
    var h := Reweighted(g, size);
    forall k | 0 <= k < |p| - 1
      ensures Edge(h, p[k], p[k + 1])
    {
      assert Edge(g, p[k], p[k + 1]);
    }
  }

  /** The depth by the new sizes against the heaviest path by the old ones. */
  lemma DepthAgainstBiggest(g: Graph, order: seq<string>, root: string, size: nat, depth: nat, biggest: nat)
    requires g.Closed() && INDIRECT_CALL in g.children && Topological(g, order) && root in g.children
    requires Reweighted(g, size).Closed() && IsHeaviestFrom(Reweighted(g, size), root, depth) && IsHeaviest(g, biggest)
    ensures depth <= biggest <==> RoomForIndirect(g, root, size, biggest)
    ensures OnlyRoot(g, root) && g.frameSize[INDIRECT_CALL] <= size % WORD_RANGE ==> depth >= biggest
  {
    hide Topological;
    var h := Reweighted(g, size);
    forall p | IsPath(g, p) && p[0] == root
      ensures Weight(g, p) <= biggest
      ensures Weight(g, p) + (if INDIRECT_CALL in p then size % WORD_RANGE - g.frameSize[INDIRECT_CALL] else 0) <= depth
    {
      ReweightedWeight(g, order, size, p);
    }
    var p :| StartsAt(h, p, root, depth);
    assert IsPath(g, p) by {
      forall k | 0 <= k < |p| - 1
        ensures Edge(g, p[k], p[k + 1])
      {
        assert Edge(h, p[k], p[k + 1]);
      }
    }
    ReweightedWeight(g, order, size, p);
    if OnlyRoot(g, root) && biggest > 0 {
      var heaviest :| IsPath(g, heaviest) && Weight(g, heaviest) == biggest;
      var i := PositionOf(g, order, heaviest[0]);
      var q := TraceBack(g, order, root, heaviest, i);
    }
  }

  /** The kernel, of 1 byte, calls through a pointer; a handler has 5. */
  function SmallGraph(placeholder: nat): (g: Graph)
    ensures g.Closed() && g.children.Keys == {"kernel_main", INDIRECT_CALL, "handler"}
  {
    Graph(map["kernel_main" := [INDIRECT_CALL], INDIRECT_CALL := [], "handler" := []],
          map["kernel_main" := 1, INDIRECT_CALL := placeholder, "handler" := 5])
  }

  /** Between the two computations the placeholder grows from nothing to the size of the handler: the
      relaxation finds 5 bytes at most, and the depth of the kernel is 6. */
  lemma IndirectCallsDisagree()
    ensures !Cyclic(SmallGraph(0)) && Fits32(SmallGraph(0)) && IsHeaviest(SmallGraph(0), 5)
    ensures IsDeepest(SmallGraph(0), ["handler"], 0, 5) && IsDeepest(SmallGraph(5), [], 5, 5)
    ensures Reweighted(SmallGraph(0), 5) == SmallGraph(5) && IsHeaviestFrom(SmallGraph(5), "kernel_main", 6)
  {
    hide *;
    SmallDepths(0);
    SmallDepths(5);
    SmallReweighted();
  }

  lemma SmallReweighted()
    ensures Reweighted(SmallGraph(0), 5) == SmallGraph(5)
  {
    var before, after := SmallGraph(0).frameSize, SmallGraph(5).frameSize;
    assert before[INDIRECT_CALL := 5] == after;
  }

  /** All its paths, and the heaviest ones. */
  lemma SmallDepths(placeholder: nat)
    ensures var g := SmallGraph(placeholder);
            && !Cyclic(g) && (placeholder <= 5 ==> Fits32(g))
            && IsHeaviest(g, if placeholder < 4 then 5 else placeholder + 1)
            && IsDeepest(g, ["handler"], 0, 5) && IsDeepest(g, [], 5, 5)
            && IsHeaviestFrom(g, "kernel_main", placeholder + 1)
  {
    var g := SmallGraph(placeholder);
    forall p | IsPath(g, p)
      ensures |p| <= 2 && (p[0] != "kernel_main" ==> |p| == 1)
      ensures Weight(g, p) <= if p[0] == "handler" then 5 else placeholder + 1
      ensures |p| == 2 ==> p[0] != p[1]
    {
      SmallPath(placeholder, p);
    }
    var main, handler := ["kernel_main", INDIRECT_CALL], ["handler"];
    assert Edge(g, "kernel_main", INDIRECT_CALL);
    assert IsPath(g, main) && IsPath(g, handler);
    assert main[1..] == [INDIRECT_CALL] && [INDIRECT_CALL][1..] == [] && handler[1..] == [];
    assert Weight(g, [INDIRECT_CALL]) == placeholder;
    assert StartsAt(g, main, "kernel_main", placeholder + 1);
    assert Weight(g, handler) == 5;
  }

  /** A path ends at a node that calls nothing. */
  lemma LeafPath(g: Graph, p: seq<string>)
    ensures p != [] && p[0] in g.children && g.children[p[0]] == [] && |p| > 1 ==> !IsPath(g, p)
  {
    if p != [] && p[0] in g.children && g.children[p[0]] == [] && |p| > 1 {
      assert !Edge(g, p[0], p[0 + 1]);
    }
  }

  lemma SmallPath(placeholder: nat, p: seq<string>)
    requires IsPath(SmallGraph(placeholder), p)
    ensures p in [["kernel_main"], [INDIRECT_CALL], ["handler"], ["kernel_main", INDIRECT_CALL]]
    ensures |p| <= 2 && (p[0] != "kernel_main" ==> |p| == 1)
    ensures Weight(SmallGraph(placeholder), p) <= if p[0] == "handler" then 5 else placeholder + 1
    ensures |p| == 2 ==> p[0] != p[1]
  {
    var g := SmallGraph(placeholder);
    if |p| > 1 {
      assert Edge(g, p[0], p[0 + 1]);
      TailPath(g, p);
      LeafPath(g, p[1..]);
      assert p == [p[0], p[1]] && p[1..][1..] == [];
      assert Weight(g, p[1..]) == placeholder;
    } else {
      assert p == [p[0]] && p[1..] == [];
    }
  }
}
