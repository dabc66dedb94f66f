/** The printed dependency graph: minimum depths, and every package expanded once. */
module ResultGraphs {
  import opened Terms
  import opened Universes

  type Node = PackageVersion
  type Edges = map<Node, seq<Node>>

  /** One printed line: the package and its indentation. */
  datatype Line = Line(depth: nat, node: Node)

  ghost predicate ClosedEdges(g: Edges) {
    forall n, m :: n in g && m in g[n] ==> m in g
  }

  /** A chain of `d` packages that starts at a direct dependency and ends at `n`. */
  ghost predicate HasWalk(g: Edges, direct: seq<Node>, n: Node, d: nat)
    decreases d
  {
    if d == 0 then false
    else if d == 1 then n in direct
    else exists m :: m in g && n in g[m] && HasWalk(g, direct, m, d - 1)
  }

  ghost predicate IsMinDepth(g: Edges, direct: seq<Node>, n: Node, d: nat) {
    HasWalk(g, direct, n, d) && forall e :: HasWalk(g, direct, n, e) ==> d <= e
  }

  ghost predicate Reached(g: Edges, direct: seq<Node>, n: Node) {
    exists d :: HasWalk(g, direct, n, d)
  }

  lemma WalkExtends(g: Edges, direct: seq<Node>, n: Node, m: Node, d: nat)
    requires n in g && m in g[n] && HasWalk(g, direct, n, d)
    ensures HasWalk(g, direct, m, d + 1)
  {
    assert d + 1 - 1 == d;
  }

  lemma OneMore<T>(s: seq<T>, i: nat)
    requires i < |s|
    ensures s[..i + 1] == s[..i] + [s[i]]
  {
  }

  type Depths = map<Node, nat>

  ghost predicate Sound(g: Edges, direct: seq<Node>, depth: Depths) {
    forall n :: n in depth ==> n in g && HasWalk(g, direct, n, depth[n])
  }

  /** Along each edge that leaves a finished package, the depth grows by at most one. */
  ghost predicate Relaxed(g: Edges, depth: Depths, n: Node)
    requires n in g && n in depth
  {
    forall m :: m in g[n] ==> m in depth && depth[m] <= depth[n] + 1
  }

  ghost predicate AllRelaxed(g: Edges, depth: Depths, open: set<Node>) {
    forall n :: n in depth && n in g && n !in open ==> Relaxed(g, depth, n)
  }

  /** Depths only fall, and only where they were above `d`. */
  ghost predicate Falls(before: Depths, after: Depths, d: nat) {
    && before.Keys <= after.Keys
    && forall n :: n in before ==> after[n] <= before[n] && (before[n] <= d ==> after[n] == before[n])
  }

  lemma {:induction false} RelaxedIsMinimal(g: Edges, direct: seq<Node>, depth: Depths, n: Node, d: nat)
    requires Sound(g, direct, depth) && AllRelaxed(g, depth, {}) && forall r :: r in direct ==> r in depth && depth[r] <= 1
    requires HasWalk(g, direct, n, d)
    ensures n in depth && depth[n] <= d
    decreases d
  {
    if d <= 1 {
    } else {
      var m :| m in g && n in g[m] && HasWalk(g, direct, m, d - 1);
      RelaxedIsMinimal(g, direct, depth, m, d - 1);
      assert Relaxed(g, depth, m);
    }
  }

  /** The table holds exactly the reachable packages, each with its minimum depth. */
  ghost predicate DepthTable(g: Edges, direct: seq<Node>, depth: Depths) {
    && (forall n :: n in depth <==> Reached(g, direct, n))
    && (forall n :: n in depth ==> n in g && IsMinDepth(g, direct, n, depth[n]))
  }

  lemma FinishedTable(g: Edges, direct: seq<Node>, depth: Depths)
    requires Sound(g, direct, depth) && AllRelaxed(g, depth, {}) && forall r :: r in direct ==> r in depth && depth[r] <= 1
    ensures DepthTable(g, direct, depth)
  {
    forall n, e | HasWalk(g, direct, n, e) ensures n in depth && depth[n] <= e {
      RelaxedIsMinimal(g, direct, depth, n, e);
    }
  }

  /** The state of the depth-first walk; the packages in `open` are above the current one. */
  ghost predicate WalkState(g: Edges, direct: seq<Node>, depth: Depths, open: set<Node>, d: nat) {
    && Sound(g, direct, depth) && AllRelaxed(g, depth, open)
    && open <= g.Keys && forall a :: a in open ==> a in depth && depth[a] < d
  }

  ghost predicate Within(depth: Depths, nodes: seq<Node>, d: nat) {
    forall m :: m in nodes ==> m in depth && depth[m] <= d
  }

  lemma StaysRelaxed(g: Edges, depth: Depths, n: Node, d: nat, x: Node)
    requires x in g && x in depth && x != n && Relaxed(g, depth, x) && (n in depth ==> d < depth[n])
    ensures Relaxed(g, depth[n := d], x)
  {
    assert depth[n := d][x] == depth[x];
  }

  lemma Entering(g: Edges, direct: seq<Node>, depth: Depths, open: set<Node>, n: Node, d: nat)
    requires WalkState(g, direct, depth, open, d) && n in g && HasWalk(g, direct, n, d) && (n in depth ==> d < depth[n])
    ensures n !in open && WalkState(g, direct, depth[n := d], open + {n}, d + 1) && Falls(depth, depth[n := d], d)
  {
    var after := depth[n := d];
    forall x | x in after && x in g && x !in open + {n} ensures Relaxed(g, after, x) {
      StaysRelaxed(g, depth, n, d, x);
    }
  }

  lemma Returning(before: Depths, middle: Depths, after: Depths, d: nat, nodes: seq<Node>, m: Node)
    requires Falls(before, middle, d) && Falls(middle, after, d + 1)
    requires Within(middle, nodes, d + 1) && m in after && after[m] <= d + 1
    ensures Falls(before, after, d) && Within(after, nodes + [m], d + 1)
  {
  }

  lemma Leaving(g: Edges, direct: seq<Node>, depth: Depths, open: set<Node>, n: Node, d: nat)
    requires WalkState(g, direct, depth, open + {n}, d + 1) && n in g && n in depth && depth[n] == d
    requires Within(depth, g[n], d + 1) && forall a :: a in open ==> a in depth && depth[a] < d
    ensures WalkState(g, direct, depth, open, d)
  {
    assert Relaxed(g, depth, n);
  }

  // ---------- The lines of a listing ----------

  /** One line at depth `d` for each of the packages. */
  function LinesAt(nodes: seq<Node>, d: nat): multiset<Line> {
    if nodes == [] then multiset{}
    else LinesAt(nodes[..|nodes| - 1], d) + multiset{Line(d, nodes[|nodes| - 1])}
  }

  function LinesBelow(g: Edges, depth: Depths, n: Node): multiset<Line> {
    if n in g && n in depth then LinesAt(g[n], depth[n] + 1) else multiset{}
  }

  /** For each of the packages, one line per dependency, one level deeper than the package. */
  function EdgeLines(g: Edges, depth: Depths, nodes: seq<Node>): multiset<Line> {
    if nodes == [] then multiset{}
    else EdgeLines(g, depth, nodes[..|nodes| - 1]) + LinesBelow(g, depth, nodes[|nodes| - 1])
  }

  function Outgoing(g: Edges, nodes: seq<Node>): nat {
    if nodes == [] then 0
    else Outgoing(g, nodes[..|nodes| - 1]) + if nodes[|nodes| - 1] in g then |g[nodes[|nodes| - 1]]| else 0
  }

  lemma {:induction false} EdgeLinesConcat(g: Edges, depth: Depths, a: seq<Node>, b: seq<Node>)
    ensures EdgeLines(g, depth, a + b) == EdgeLines(g, depth, a) + EdgeLines(g, depth, b)
    decreases |b|
  {
    if b == [] {
      assert a + b == a;
    } else {
      assert (a + b)[..|a + b| - 1] == a + b[..|b| - 1];
      EdgeLinesConcat(g, depth, a, b[..|b| - 1]);
    }
  }

  lemma {:induction false} LinesAtCount(nodes: seq<Node>, d: nat)
    ensures |LinesAt(nodes, d)| == |nodes|
    decreases |nodes|
  {
    if nodes == [] {
    } else {
      LinesAtCount(nodes[..|nodes| - 1], d);
    }
  }

  lemma {:induction false} EdgeLinesCount(g: Edges, depth: Depths, nodes: seq<Node>)
    requires forall n :: n in nodes ==> n in depth
    ensures |EdgeLines(g, depth, nodes)| == Outgoing(g, nodes)
    decreases |nodes|
  {
    if nodes == [] {
    } else {
      EdgeLinesCount(g, depth, nodes[..|nodes| - 1]);
      var n := nodes[|nodes| - 1];
      if n in g { LinesAtCount(g[n], depth[n] + 1); }
    }
  }

  predicate NoDuplicates(nodes: seq<Node>) {
    forall i, j :: 0 <= i < j < |nodes| ==> nodes[i] != nodes[j]
  }

  function ToSet(nodes: seq<Node>): set<Node> {
    set n | n in nodes
  }

  /** Release order: by package name, then by version. */
  predicate NodeLeq(a: Node, b: Node) {
    a.RootVersion? || (b.Release? && (a.name < b.name || (a.name == b.name && a.version <= b.version)))
  }

  predicate Ordered(nodes: seq<Node>) {
    forall i, j :: 0 <= i < j < |nodes| ==> NodeLeq(nodes[i], nodes[j])
  }

  /** The same order said outright: names ascend, and versions under the same name. */
  predicate NamesAscend(nodes: seq<Node>) {
    forall i, j :: 0 <= i < j < |nodes| && nodes[i].Release? && nodes[j].Release? ==>
                     nodes[i].name <= nodes[j].name && (nodes[i].name == nodes[j].name ==> nodes[i].version <= nodes[j].version)
  }

  function InsertNode(nodes: seq<Node>, x: Node): (r: seq<Node>)
    ensures |r| == |nodes| + 1 && forall y :: y in r <==> y == x || y in nodes
    ensures Ordered(nodes) ==> Ordered(r)
  {
    if nodes == [] then [x]
    else
      var front, last := nodes[..|nodes| - 1], nodes[|nodes| - 1];
      assert forall y :: y in nodes <==> y in front || y == last;
      if NodeLeq(last, x) then nodes + [x]
      else
        var r := InsertNode(front, x);
        assert forall i :: 0 <= i < |r| ==> r[i] in r;
        r + [last]
  }

  lemma {:induction false} InsertKeeps(nodes: seq<Node>, x: Node)
    ensures multiset(InsertNode(nodes, x)) == multiset(nodes) + multiset{x}
  {
    if nodes == [] {
    } else {
      var front, last := nodes[..|nodes| - 1], nodes[|nodes| - 1];
      assert nodes == front + [last];
      InsertKeeps(front, x);
    }
  }

  function SortNodes(nodes: seq<Node>): (r: seq<Node>)
    ensures multiset(r) == multiset(nodes) && NamesAscend(r)
    ensures |r| == |nodes| && Ordered(r) && forall y :: y in r <==> y in nodes
  {
    if nodes == [] then []
    else
      assert nodes == nodes[..|nodes| - 1] + [nodes[|nodes| - 1]];
      InsertKeeps(SortNodes(nodes[..|nodes| - 1]), nodes[|nodes| - 1]);
      assert forall y :: y in nodes <==> y in nodes[..|nodes| - 1] || y == nodes[|nodes| - 1];
      InsertNode(SortNodes(nodes[..|nodes| - 1]), nodes[|nodes| - 1])
  }

  // ---------- The state of printing ----------

  /** Packages already expanded have all their minimum-depth children expanded too, except those in `open`. */
  ghost predicate Printed(g: Edges, depth: Depths, seen: set<Node>, open: set<Node>) {
    && seen <= depth.Keys && open <= seen
    && forall n, m :: n in seen && n !in open && n in g && m in g[n] && m in depth && depth[m] == depth[n] + 1 ==> m in seen
  }

  ghost predicate ChildrenPrinted(depth: Depths, seen: set<Node>, nodes: seq<Node>, d: nat) {
    forall m :: m in nodes && m in depth && depth[m] == d ==> m in seen
  }

  lemma OneMoreChild(depth: Depths, before: set<Node>, after: set<Node>, nodes: seq<Node>, m: Node, d: nat)
    requires ChildrenPrinted(depth, before, nodes, d) && before <= after && m in depth && (depth[m] == d ==> m in after)
    ensures ChildrenPrinted(depth, after, nodes + [m], d)
  {
  }

  lemma Opening(g: Edges, depth: Depths, seen: set<Node>, open: set<Node>, n: Node)
    requires Printed(g, depth, seen, open) && n in depth
    ensures Printed(g, depth, seen + {n}, open + {n})
  {
  }

  lemma Closing(g: Edges, depth: Depths, seen: set<Node>, open: set<Node>, n: Node)
    requires Printed(g, depth, seen, open + {n}) && n in g && n in depth && ChildrenPrinted(depth, seen, g[n], depth[n] + 1)
    ensures Printed(g, depth, seen, open)
  {
  }

  lemma ChildDepth(g: Edges, direct: seq<Node>, depth: Depths, n: Node, m: Node)
    requires DepthTable(g, direct, depth) && n in depth && m in g[n]
    ensures m in depth && depth[m] <= depth[n] + 1
  {
    assert HasWalk(g, direct, n, depth[n]);
    assert HasWalk(g, direct, m, depth[n] + 1);
    assert Reached(g, direct, m);
  }

  /** Following minimum-depth edges from the direct dependencies leads to every package. */
  lemma {:induction false} EverythingPrinted(g: Edges, direct: seq<Node>, depth: Depths, seen: set<Node>, n: Node)
    requires DepthTable(g, direct, depth) && Printed(g, depth, seen, {}) && n in depth
    requires forall r :: r in direct ==> r in seen
    ensures n in seen
    decreases depth[n]
  {
    var d := depth[n];
    assert HasWalk(g, direct, n, d);
    if d <= 1 {
    } else {
      var m :| m in g && n in g[m] && HasWalk(g, direct, m, d - 1);
      assert Reached(g, direct, m);
      ChildDepth(g, direct, depth, m, n);
      EverythingPrinted(g, direct, depth, seen, m);
    }
  }

  /** A part of the listing consists of given lines and the lines below the packages it expands. */
  ghost predicate LinesOk(g: Edges, depth: Depths, ls: seq<Line>, given: multiset<Line>, expanded: seq<Node>) {
    multiset(ls) == given + EdgeLines(g, depth, expanded)
  }

  /** The first line for the package at depth `d` is followed by its first dependency, one level deeper. */
  ghost predicate ExpandsFirst(g: Edges, ls: seq<Line>, n: Node, d: nat) {
    exists i :: 0 <= i < |ls| && ls[i] == Line(d, n) && Line(d, n) !in ls[..i] && FollowedBy(g, ls, i, n, d)
  }

  ghost predicate FollowedBy(g: Edges, ls: seq<Line>, i: nat, n: Node, d: nat) {
    n in g && g[n] != [] ==> i + 1 < |ls| && ls[i + 1] == Line(d + 1, g[n][0])
  }

  /**
   * It expands packages that were not seen before, each once, where each first appears at its minimum depth;
   * whatever appears at its minimum depth has been seen afterwards.
   */
  ghost predicate ExpandedOk(g: Edges, depth: Depths, before: set<Node>, after: set<Node>, ls: seq<Line>,
                             expanded: seq<Node>) {
    && after == before + ToSet(expanded) && ToSet(expanded) !! before && NoDuplicates(expanded)
    && (forall e :: e in expanded ==> e in depth && ExpandsFirst(g, ls, e, depth[e]))
    && (forall l :: l in ls && l.node in depth && l.depth == depth[l.node] ==> l.node in after)
  }

  lemma ExpandsLater(g: Edges, a: seq<Line>, b: seq<Line>, n: Node, d: nat)
    requires ExpandsFirst(g, b, n, d) && Line(d, n) !in a
    ensures ExpandsFirst(g, a + b, n, d)
  {
    var i :| 0 <= i < |b| && b[i] == Line(d, n) && Line(d, n) !in b[..i] && FollowedBy(g, b, i, n, d);
    assert (a + b)[..|a| + i] == a + b[..i];
    assert (a + b)[|a| + i] == b[i] && FollowedBy(g, a + b, |a| + i, n, d);
  }

  lemma ExpandsEarlier(g: Edges, a: seq<Line>, b: seq<Line>, n: Node, d: nat)
    requires ExpandsFirst(g, a, n, d)
    ensures ExpandsFirst(g, a + b, n, d)
  {
    var i :| 0 <= i < |a| && a[i] == Line(d, n) && Line(d, n) !in a[..i] && FollowedBy(g, a, i, n, d);
    assert (a + b)[..i] == a[..i];
    assert (a + b)[i] == a[i] && FollowedBy(g, a + b, i, n, d);
  }

  lemma JoinExpanded(g: Edges, depth: Depths, s0: set<Node>, s1: set<Node>, s2: set<Node>, a: seq<Line>, b: seq<Line>,
                     x: seq<Node>, y: seq<Node>)
    requires ExpandedOk(g, depth, s0, s1, a, x) && ExpandedOk(g, depth, s1, s2, b, y)
    ensures ExpandedOk(g, depth, s0, s2, a + b, x + y)
  {
    assert ToSet(x + y) == ToSet(x) + ToSet(y);
    forall p, q | 0 <= p < q < |x + y| ensures (x + y)[p] != (x + y)[q] {
      if p < |x| <= q { assert x[p] in ToSet(x) && y[q - |x|] in ToSet(y); }
    }
    forall e | e in x + y ensures e in depth && ExpandsFirst(g, a + b, e, depth[e]) {
      if e in x {
        ExpandsEarlier(g, a, b, e, depth[e]);
      } else {
        assert e in ToSet(y);
        ExpandsLater(g, a, b, e, depth[e]);
      }
    }
  }

  /** The part for one more package of a list, after the parts for the earlier ones. */
  lemma JoinLines(g: Edges, depth: Depths, a: seq<Line>, b: seq<Line>, nodes: seq<Node>, i: nat, d: nat,
                  x: seq<Node>, y: seq<Node>)
    requires i < |nodes| && LinesOk(g, depth, a, LinesAt(nodes[..i], d), x)
    requires LinesOk(g, depth, b, multiset{Line(d, nodes[i])}, y)
    ensures LinesOk(g, depth, a + b, LinesAt(nodes[..i + 1], d), x + y)
  {
    EdgeLinesConcat(g, depth, x, y);
    assert nodes[..i + 1][..i] == nodes[..i];
  }

  /** A package that is expanded adds its own line above those of its dependencies. */
  lemma ExpandLines(g: Edges, depth: Depths, n: Node, below: seq<Line>, inner: seq<Node>)
    requires n in g && n in depth && LinesOk(g, depth, below, LinesBelow(g, depth, n), inner)
    ensures LinesOk(g, depth, [Line(depth[n], n)] + below, multiset{Line(depth[n], n)}, [n] + inner)
  {
    EdgeLinesConcat(g, depth, [n], inner);
    assert EdgeLines(g, depth, [n]) == LinesBelow(g, depth, n) by { assert [n][..0] == []; }
  }

  /** The lines of a list of packages at depth `d`: one block after the other, in the order of the list. */
  ghost predicate IsListing(g: Edges, ls: seq<Line>, nodes: seq<Node>, d: nat)
    decreases |ls|, 1
  {
    if nodes == [] then ls == []
    else exists k :: 0 < k <= |ls| && IsBlock(g, ls[..k], nodes[0], d) && IsListing(g, ls[k..], nodes[1..], d)
  }

  /** A package's own line, alone or followed by the listing of its dependencies one level deeper. */
  ghost predicate IsBlock(g: Edges, ls: seq<Line>, n: Node, d: nat)
    decreases |ls|, 0
  {
    && ls != [] && ls[0] == Line(d, n)
    && (|ls| == 1 || (n in g && IsListing(g, ls[1..], g[n], d + 1)))
  }

  lemma {:induction false} ListingSnoc(g: Edges, a: seq<Line>, nodes: seq<Node>, b: seq<Line>, n: Node, d: nat)
    requires IsListing(g, a, nodes, d) && IsBlock(g, b, n, d)
    ensures IsListing(g, a + b, nodes + [n], d)
    decreases |nodes|
  {
    var all, list := a + b, nodes + [n];
    if nodes == [] {
      assert all[..|b|] == b && all[|b|..] == [] && list[0] == n && list[1..] == [];
    } else {
      var k :| 0 < k <= |a| && IsBlock(g, a[..k], nodes[0], d) && IsListing(g, a[k..], nodes[1..], d);
      ListingSnoc(g, a[k..], nodes[1..], b, n, d);
      assert all[..k] == a[..k] && all[k..] == a[k..] + b && list[0] == nodes[0] && list[1..] == nodes[1..] + [n];
    }
  }

  lemma ListingGrows(g: Edges, a: seq<Line>, b: seq<Line>, nodes: seq<Node>, i: nat, d: nat)
    requires i < |nodes| && IsListing(g, a, nodes[..i], d) && IsBlock(g, b, nodes[i], d)
    ensures IsListing(g, a + b, nodes[..i + 1], d)
  {
    ListingSnoc(g, a, nodes[..i], b, nodes[i], d);
    assert nodes[..i + 1] == nodes[..i] + [nodes[i]];
  }

  lemma BlockOf(g: Edges, n: Node, d: nat, below: seq<Line>)
    requires n in g && IsListing(g, below, g[n], d + 1)
    ensures IsBlock(g, [Line(d, n)] + below, n, d)
  {
    assert ([Line(d, n)] + below)[1..] == below;
  }

  /** The part of the listing for one package. */
  ghost predicate BlockPart(g: Edges, depth: Depths, before: set<Node>, after: set<Node>, n: Node, d: nat,
                            ls: seq<Line>, expanded: seq<Node>) {
    && ExpandedOk(g, depth, before, after, ls, expanded)
    && LinesOk(g, depth, ls, multiset{Line(d, n)}, expanded) && IsBlock(g, ls, n, d)
  }

  /** The part of the listing for a list of packages. */
  ghost predicate ListPart(g: Edges, depth: Depths, before: set<Node>, after: set<Node>, nodes: seq<Node>, d: nat,
                           ls: seq<Line>, expanded: seq<Node>) {
    && ExpandedOk(g, depth, before, after, ls, expanded)
    && LinesOk(g, depth, ls, LinesAt(nodes, d), expanded) && IsListing(g, ls, nodes, d)
  }

  lemma EmptyPart(g: Edges, depth: Depths, seen: set<Node>, nodes: seq<Node>, d: nat)
    ensures ListPart(g, depth, seen, seen, nodes[..0], d, [], [])
  {
    assert ToSet([]) == {};
  }

  lemma GrowPart(g: Edges, depth: Depths, s0: set<Node>, s1: set<Node>, s2: set<Node>, nodes: seq<Node>, i: nat, d: nat,
                 a: seq<Line>, b: seq<Line>, x: seq<Node>, y: seq<Node>)
    requires i < |nodes| && ListPart(g, depth, s0, s1, nodes[..i], d, a, x)
    requires BlockPart(g, depth, s1, s2, nodes[i], d, b, y)
    ensures ListPart(g, depth, s0, s2, nodes[..i + 1], d, a + b, x + y)
  {
    JoinExpanded(g, depth, s0, s1, s2, a, b, x, y);
    JoinLines(g, depth, a, b, nodes, i, d, x, y);
    ListingGrows(g, a, b, nodes, i, d);
  }

  /** A package that is not expanded, because it has been or will be elsewhere, is one line. */
  lemma OwnLine(g: Edges, depth: Depths, seen: set<Node>, n: Node, d: nat)
    requires n in depth && (d > depth[n] || n in seen)
    ensures BlockPart(g, depth, seen, seen, n, d, [Line(d, n)], [])
  {
    assert ToSet([]) == {};
  }

  lemma ExpandedPart(g: Edges, depth: Depths, seen: set<Node>, after: set<Node>, n: Node, below: seq<Line>, inner: seq<Node>)
    requires n in g && n in depth && n !in seen
    requires ListPart(g, depth, seen + {n}, after, g[n], depth[n] + 1, below, inner)
    ensures BlockPart(g, depth, seen, after, n, depth[n], [Line(depth[n], n)] + below, [n] + inner)
  {
    ExpandBlock(g, depth, seen, after, n, below, inner);
    ExpandLines(g, depth, n, below, inner);
    BlockOf(g, n, depth[n], below);
  }

  lemma ListingStarts(g: Edges, ls: seq<Line>, nodes: seq<Node>, d: nat)
    requires IsListing(g, ls, nodes, d) && nodes != []
    ensures ls != [] && ls[0] == Line(d, nodes[0])
  {
    var k :| 0 < k <= |ls| && IsBlock(g, ls[..k], nodes[0], d) && IsListing(g, ls[k..], nodes[1..], d);
    assert ls[..k][0] == ls[0];
  }

  /** A package's own line, followed by the listing of its dependencies, is its first at its minimum depth. */
  lemma ExpandBlock(g: Edges, depth: Depths, seen: set<Node>, after: set<Node>, n: Node, below: seq<Line>, inner: seq<Node>)
    requires n in g && n in depth && n !in seen && IsListing(g, below, g[n], depth[n] + 1)
    requires ExpandedOk(g, depth, seen + {n}, after, below, inner)
    ensures ExpandedOk(g, depth, seen, after, [Line(depth[n], n)] + below, [n] + inner)
  {
    var own := [Line(depth[n], n)];
    assert ToSet([n] + inner) == {n} + ToSet(inner);
    assert forall e :: e in inner ==> e in ToSet(inner);
    if g[n] != [] { ListingStarts(g, below, g[n], depth[n] + 1); }
    assert (own + below)[0] == Line(depth[n], n) && (own + below)[..0] == [];
    assert FollowedBy(g, own + below, 0, n, depth[n]);
    assert ExpandsFirst(g, own + below, n, depth[n]);
    forall e | e in inner ensures e in depth && ExpandsFirst(g, own + below, e, depth[e]) {
      ExpandsLater(g, own, below, e, depth[e]);
    }
  }

  class ResultGraph {
    const direct: seq<Node>
    const graph: Edges
    var depth: Depths
    var seen: set<Node>
    var lines: seq<Line>

    /** Every package that is depended on is a key of the graph. */
    ghost predicate Valid() {
      ClosedEdges(graph) && forall n :: n in direct ==> n in graph
    }

    constructor (dependencyGraph: Edges, directDependencies: seq<Node>)
      requires ClosedEdges(dependencyGraph) && forall n :: n in directDependencies ==> n in dependencyGraph
      ensures Valid() && graph == dependencyGraph && direct == directDependencies
      ensures depth == map[] && seen == {} && lines == []
    {
      graph, direct := dependencyGraph, directDependencies;
      depth, seen, lines := map[], {}, [];
    }

    /** Depth-first walk that stops at packages already found at this depth or above. */
    method FindMinimumDepths(n: Node, d: nat, ghost open: set<Node>)
      requires Valid() && n in graph && HasWalk(graph, direct, n, d) && WalkState(graph, direct, depth, open, d)
      modifies this`depth
      ensures WalkState(graph, direct, depth, open, d)
      ensures n in depth && depth[n] <= d && Falls(old(depth), depth, d)
      decreases graph.Keys - open
    {
      if n in depth && depth[n] <= d { return; }
      Entering(graph, direct, depth, open, n, d);
      depth := depth[n := d];
      var deps := graph[n];
      for i := 0 to |deps|
        invariant WalkState(graph, direct, depth, open + {n}, d + 1)
        invariant Falls(old(depth)[n := d], depth, d) && Within(depth, deps[..i], d + 1)
      {
        var m := deps[i];
        assert m in graph[n] && m in graph;
        WalkExtends(graph, direct, n, m, d);
        OneMore(deps, i);
        ghost var before := depth;
        FindMinimumDepths(m, d + 1, open + {n});
        Returning(old(depth)[n := d], before, depth, d, deps[..i], m);
      }
      assert deps[..|deps|] == deps;
      Leaving(graph, direct, depth, open, n, d);
    }

    /** Fills the depth table from all direct dependencies. */
    method FindAllDepths()
      requires Valid() && depth == map[]
      modifies this`depth
      ensures DepthTable(graph, direct, depth)
    {
      for i := 0 to |direct|
        invariant WalkState(graph, direct, depth, {}, 1) && Within(depth, direct[..i], 1)
      {
        FindMinimumDepths(direct[i], 1, {});
        assert direct[..i + 1] == direct[..i] + [direct[i]];
      }
      assert direct[..|direct|] == direct;
      FinishedTable(graph, direct, depth);
    }

    /** A package's line, followed by its dependencies the first time it appears at its minimum depth. */
    method MakeLines(n: Node, d: nat, ghost open: set<Node>) returns (ls: seq<Line>, ghost expanded: seq<Node>)
      requires Valid() && DepthTable(graph, direct, depth) && n in depth && depth[n] <= d
      requires Printed(graph, depth, seen, open)
      modifies this`seen
      ensures Printed(graph, depth, seen, open) && (depth[n] == d ==> n in seen)
      ensures BlockPart(graph, depth, old(seen), seen, n, d, ls, expanded)
      decreases depth.Keys - seen, 0
    {
      var alreadySeen := d > depth[n] || n in seen;
      ls, expanded := [Line(d, n)], [];
      if alreadySeen {
        OwnLine(graph, depth, seen, n, d);
        return;
      }
      assert d == depth[n];
      Opening(graph, depth, seen, open, n);
      seen := seen + {n};
      var below;
      ghost var inner;
      below, inner := MakeLinesBelow(n, open);
      ExpandedPart(graph, depth, old(seen), seen, n, below, inner);
      Closing(graph, depth, seen, open, n);
      ls, expanded := ls + below, [n] + inner;
    }

    /** The lines of a package's dependencies, one level deeper. */
    method MakeLinesBelow(n: Node, ghost open: set<Node>) returns (below: seq<Line>, ghost inner: seq<Node>)
      requires Valid() && DepthTable(graph, direct, depth) && n in depth
      requires Printed(graph, depth, seen, open + {n})
      modifies this`seen
      ensures Printed(graph, depth, seen, open + {n}) && ChildrenPrinted(depth, seen, graph[n], depth[n] + 1)
      ensures ListPart(graph, depth, old(seen), seen, graph[n], depth[n] + 1, below, inner)
      decreases depth.Keys - seen, 1
    {
      var deps, d := graph[n], depth[n] + 1;
      below, inner := [], [];
      EmptyPart(graph, depth, seen, deps, d);
      for i := 0 to |deps|
        invariant Printed(graph, depth, seen, open + {n}) && ChildrenPrinted(depth, seen, deps[..i], d)
        invariant ListPart(graph, depth, old(seen), seen, deps[..i], d, below, inner)
      {
        ChildDepth(graph, direct, depth, n, deps[i]);
        OneMore(deps, i);
        ghost var before := seen;
        var more;
        ghost var others;
        more, others := MakeLines(deps[i], d, open + {n});
        GrowPart(graph, depth, old(seen), before, seen, deps, i, d, below, more, inner, others);
        OneMoreChild(depth, before, seen, deps[..i], deps[i], d);
        below, inner := below + more, inner + others;
      }
      assert deps[..|deps|] == deps;
    }

    /**
     * Every reachable package is expanded exactly once, at its minimum depth. So there is one line for
     * each direct dependency and one for each edge that leaves a reachable package.
     */
    method Run() returns (ghost expanded: seq<Node>)
      requires Valid() && depth == map[] && seen == {} && lines == []
      modifies this
      ensures DepthTable(graph, direct, depth)
      ensures NoDuplicates(expanded) && forall n :: n in expanded <==> Reached(graph, direct, n)
      ensures forall n :: n in expanded ==> n in depth && ExpandsFirst(graph, lines, n, depth[n])
      ensures LinesOk(graph, depth, lines, LinesAt(SortNodes(direct), 1), expanded)
      ensures IsListing(graph, lines, SortNodes(direct), 1)
      ensures |lines| == |direct| + Outgoing(graph, expanded)
    {
      FindAllDepths();
      expanded := PrintRoots(SortNodes(direct));
      forall n | n in depth ensures n in seen { EverythingPrinted(graph, direct, depth, seen, n); }
      EdgeLinesCount(graph, depth, expanded);
      LinesAtCount(SortNodes(direct), 1);
      assert |multiset(lines)| == |lines|;
    }

    method PrintRoots(roots: seq<Node>) returns (ghost expanded: seq<Node>)
      requires Valid() && DepthTable(graph, direct, depth) && seen == {} && lines == []
      requires forall r :: r in roots ==> r in direct
      modifies this`seen, this`lines
      ensures Printed(graph, depth, seen, {}) && forall r :: r in roots ==> r in seen
      ensures ListPart(graph, depth, {}, seen, roots, 1, lines, expanded)
    {
      expanded := [];
      EmptyPart(graph, depth, {}, roots, 1);
      for i := 0 to |roots|
        invariant Printed(graph, depth, seen, {}) && forall r :: r in roots[..i] ==> r in seen
        invariant ListPart(graph, depth, {}, seen, roots[..i], 1, lines, expanded)
      {
        var n := roots[i];
        assert HasWalk(graph, direct, n, 1);
        assert Reached(graph, direct, n);
        OneMore(roots, i);
        ghost var before := seen;
        var more;
        ghost var others;
        more, others := MakeLines(n, 1, {});
        GrowPart(graph, depth, {}, before, seen, roots, i, 1, lines, more, expanded, others);
        lines, expanded := lines + more, expanded + others;
      }
      assert roots[..|roots|] == roots;
    }
  }
}
