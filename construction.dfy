// The invariant the builder of src/dawg.ts:104-180 keeps between its steps,
// and one lemma per step (minimize one edge, hang one fresh node, mark the
// end of a word) showing that the step keeps it.
//
// The unchecked edges form a path from the root that spells the previous
// word. Nodes on that path ("path nodes": the root and the child of each
// unchecked edge) are still open; every other node is closed and carries a
// positive rank that is larger than the ranks of its children (a ghost
// witness that the closed part is acyclic).
module Construction {
  import opened Words
  import opened Arena
  import opened Keys
  import opened Counting

  /** An unchecked edge (src/dawg.ts:232-236). */
  datatype Edge = Edge(parent: nat, child: nat, ch: char)

  /** The root is the first node of the arena. */
  const Root: nat := 0

  /** The `i`-th node of the path: the root, then the child of edge `i - 1`. */
  function PathNode(edges: seq<Edge>, i: nat): nat
    requires i <= |edges|
  {
    if i == 0 then Root else edges[i - 1].child
  }

  /** `uncheckedEdges[uncheckedEdges.length - 1]?.child ?? this.root`. */
  function Tip(edges: seq<Edge>): nat
  {
    PathNode(edges, |edges|)
  }

  function LastLink(cs: seq<Link>): Link
    requires cs != []
  {
    cs[|cs| - 1]
  }

  ghost predicate NoLinkTo(nodes: seq<Node>, t: nat)
  {
    forall x, j :: 0 <= x < |nodes| && 0 <= j < |nodes[x].children| ==> nodes[x].children[j].1 != t
  }

  /** The only link into `t` is the one from `p` under `c`. */
  ghost predicate SoleParent(nodes: seq<Node>, t: nat, p: nat, c: char)
  {
    forall x, j :: 0 <= x < |nodes| && 0 <= j < |nodes[x].children| && nodes[x].children[j].1 == t ==>
      x == p && nodes[x].children[j].0 == c
  }

  /** The first `n` links of node `x` lead to closed nodes. */
  ghost predicate ClosedUpTo(nodes: seq<Node>, rank: seq<nat>, x: nat, n: int)
    requires x < |nodes|
  {
    forall j :: 0 <= j < n && j < |nodes[x].children| ==>
      nodes[x].children[j].1 < |rank| && rank[nodes[x].children[j].1] > 0
  }

  /** Edge `i` of the path: its parent's last link spells `pw[i]`, and nothing else leads to its child. */
  ghost predicate EdgeOk(nodes: seq<Node>, edges: seq<Edge>, pw: Word, rank: seq<nat>, i: nat)
    requires i < |edges| && |edges| <= |pw|
  {
    var e := edges[i];
    && e.ch == pw[i]
    && e.parent == PathNode(edges, i)
    && e.parent < |nodes|
    && e.child < |nodes| && e.child < |rank|
    && nodes[e.parent].children != []
    && LastLink(nodes[e.parent].children) == (pw[i], e.child)
    && SoleParent(nodes, e.child, e.parent, pw[i])
    && rank[e.child] == 0
    && ClosedUpTo(nodes, rank, e.parent, |nodes[e.parent].children| - 1)
  }

  ghost predicate Stack(nodes: seq<Node>, edges: seq<Edge>, pw: Word, rank: seq<nat>)
  {
    && |edges| == |pw|
    && (forall i :: 0 <= i < |edges| ==> EdgeOk(nodes, edges, pw, rank, i))
    && (forall i, k :: 0 <= i < k < |edges| ==> edges[i].child < edges[k].child)
  }

  /** Closed nodes have positive ranks, larger than those of their children. */
  ghost predicate RankOk(nodes: seq<Node>, rank: seq<nat>, frozen: nat)
  {
    && |rank| == |nodes| && |nodes| > 0
    && rank[Root] == 0
    && (forall x :: 0 <= x < |nodes| ==> rank[x] <= frozen)
    && (forall x, j :: 0 <= x < |nodes| && rank[x] > 0 && 0 <= j < |nodes[x].children| ==>
          nodes[x].children[j].1 < |rank| && 0 < rank[nodes[x].children[j].1] < rank[x])
  }

  /** Every registered node is closed and its key is its registry key. */
  ghost predicate RegistryOk(nodes: seq<Node>, rank: seq<nat>, reg: map<string, nat>)
  {
    forall k :: k in reg ==> reg[k] < |nodes| && reg[k] < |rank| && rank[reg[k]] > 0 && KeyString(nodes[reg[k]]) == k
  }

  /** The registry maps each key to a node of the arena whose key string it is. */
  ghost predicate Registers(nodes: seq<Node>, reg: map<string, nat>)
  {
    forall k :: k in reg ==> reg[k] < |nodes| && KeyString(nodes[reg[k]]) == k
  }

  /**
   * A registry that maps each key to a node with that key maps distinct
   * keys to distinct nodes: its size is the number of nodes it holds.
   */
  lemma {:induction false} RegistryInjective(nodes: seq<Node>, reg: map<string, nat>)
    requires Registers(nodes, reg)
    ensures |reg.Values| == |reg|
    decreases |reg|
  {
    if reg != map[] {
      var k :| k in reg;
      var rest := reg - {k};
      assert rest.Keys == reg.Keys - {k};
      RegistryInjective(nodes, rest);
      ValuesRemove(reg, k);
      forall j | j in rest ensures rest[j] != reg[k] {
        assert KeyString(nodes[rest[j]]) == j != k;
      }
      assert |rest.Values + {reg[k]}| == |rest.Values| + 1;
      assert |reg.Keys| == |rest.Keys| + 1;
    }
  }

  /** Removing key `k` from `m` removes at most the value `m[k]`. */
  lemma ValuesRemove<K, V>(m: map<K, V>, k: K)
    requires k in m
    ensures m.Values == (m - {k}).Values + {m[k]}
  {
    forall v | v in m.Values ensures v in (m - {k}).Values + {m[k]} {
      var j :| j in m && m[j] == v;
      if j != k {
        assert (m - {k})[j] == v;
      }
    }
    forall v | v in (m - {k}).Values ensures v in m.Values {
      var j :| j in m - {k} && (m - {k})[j] == v;
      assert m[j] == v;
    }
  }

  /**
   * The registry's keys depend only on links and finality, which `resolve`
   * leaves alone: a registry of `g` is one of `nodes`, with as many
   * distinct nodes as keys.
   */
  lemma {:induction false} RegistersSameShape(nodes: seq<Node>, g: seq<Node>, reg: map<string, nat>)
    requires Registers(g, reg) && SameShape(nodes, g)
    ensures Registers(nodes, reg) && |reg.Values| == |reg|
  {
    forall k | k in reg ensures reg[k] < |nodes| && KeyString(nodes[reg[k]]) == k {
      assert KeyOf(g[reg[k]]) == KeyOf(nodes[reg[k]]);
    }
    RegistryInjective(nodes, reg);
  }

  /** The invariant of the builder with unchecked edges `edges` spelling `pw`. */
  ghost predicate Inv(nodes: seq<Node>, edges: seq<Edge>, pw: Word, reg: map<string, nat>, rank: seq<nat>, frozen: nat)
  {
    && |nodes| > 0
    && Closed(nodes)
    && AllSorted(nodes)
    && NoLinkTo(nodes, Root)
    && RankOk(nodes, rank, frozen)
    && Stack(nodes, edges, pw, rank)
    && Tip(edges) < |nodes|
    && ClosedUpTo(nodes, rank, Tip(edges), |nodes[Tip(edges)].children|)
    && RegistryOk(nodes, rank, reg)
    && frozen + |edges| + 1 == |nodes|
    && |reg| <= frozen
  }

  /** The language of the root is `words`. */
  ghost predicate LanguageIs(nodes: seq<Node>, words: set<Word>)
  {
    forall w :: Accepts(nodes, Root, w) <==> w in words
  }

  /** The initial builder: a lone root. */
  lemma {:induction false} InitialInv()
    ensures Inv([FreshNode], [], [], map[], [0], 0)
    ensures LanguageIs([FreshNode], {})
  {
    forall w ensures !Accepts([FreshNode], Root, w) {
      if w != [] {
        assert ChildOf([FreshNode], Root, w[0]).None?;
      }
    }
  }

  lemma {:induction false} PathNodesIncreasing(nodes: seq<Node>, edges: seq<Edge>, pw: Word, rank: seq<nat>, i: nat, k: nat)
    requires NoLinkTo(nodes, Root) && Stack(nodes, edges, pw, rank)
    requires i < k <= |edges|
    ensures PathNode(edges, i) < PathNode(edges, k)
  {
    assert EdgeOk(nodes, edges, pw, rank, k - 1);
    var e := edges[k - 1];
    var cs := nodes[e.parent].children;
    assert cs[|cs| - 1].1 == e.child;
  }

  lemma {:induction false} PathNodeOpen(nodes: seq<Node>, edges: seq<Edge>, pw: Word, rank: seq<nat>, frozen: nat, i: nat)
    requires RankOk(nodes, rank, frozen) && Stack(nodes, edges, pw, rank)
    requires i <= |edges|
    ensures PathNode(edges, i) < |nodes| && rank[PathNode(edges, i)] == 0
  {
    if i > 0 {
      assert EdgeOk(nodes, edges, pw, rank, i - 1);
    }
  }

  /** The path spells `pw`: walking `pw[..i]` from the root reaches path node `i`. */
  lemma {:induction false} PathReach(nodes: seq<Node>, edges: seq<Edge>, pw: Word, rank: seq<nat>, i: nat)
    requires AllSorted(nodes) && Stack(nodes, edges, pw, rank)
    requires i <= |edges|
    ensures Reach(nodes, Root, pw[..i]) == Some(PathNode(edges, i))
  {
    if i > 0 {
      PathReach(nodes, edges, pw, rank, i - 1);
      assert pw[..i] == pw[..i - 1] + [pw[i - 1]];
      ReachSnoc(nodes, Root, pw[..i - 1], pw[i - 1]);
      assert EdgeOk(nodes, edges, pw, rank, i - 1);
      var e := edges[i - 1];
      LookupLast(nodes[e.parent].children);
    }
  }

  /** Nothing but `pw[..i]` leads from the root to path node `i`. */
  lemma {:induction false} PathUnique(nodes: seq<Node>, edges: seq<Edge>, pw: Word, rank: seq<nat>, i: nat, u: Word)
    requires NoLinkTo(nodes, Root) && Stack(nodes, edges, pw, rank)
    requires i <= |edges| && Reach(nodes, Root, u) == Some(PathNode(edges, i))
    ensures u == pw[..i]
    decreases |u|
  {
    if u == [] {
      if i > 0 {
        PathNodesIncreasing(nodes, edges, pw, rank, 0, i);
      }
    } else {
      var u', c := u[..|u| - 1], u[|u| - 1];
      assert u == u' + [c];
      ReachSnoc(nodes, Root, u', c);
      var y := Reach(nodes, Root, u').value;
      assert ChildOf(nodes, y, c) == Some(PathNode(edges, i));
      var cs := nodes[y].children;
      var j :| 0 <= j < |cs| && cs[j] == (c, PathNode(edges, i));
      assert i > 0;
      assert EdgeOk(nodes, edges, pw, rank, i - 1);
      assert y == edges[i - 1].parent && c == pw[i - 1];
      PathUnique(nodes, edges, pw, rank, i - 1, u');
      assert pw[..i] == pw[..i - 1] + [pw[i - 1]];
    }
  }

  /** The arena with the last link of node `p` pointed at `q`. */
  function RepointLast(nodes: seq<Node>, p: nat, q: nat): (r: seq<Node>)
    ensures |r| == |nodes|
  {
    if p < |nodes| && nodes[p].children != [] then
      var cs := nodes[p].children;
      nodes[p := nodes[p].(children := cs[..|cs| - 1] + [(cs[|cs| - 1].0, q)])]
    else nodes
  }

  lemma {:induction false} RedirectIsRepoint(nodes: seq<Node>, p: nat, ch: char, q: nat)
    requires p < |nodes| && SortedLinks(nodes[p].children) && nodes[p].children != []
    requires LastLink(nodes[p].children).0 == ch
    ensures Redirect(nodes, p, ch, q) == RepointLast(nodes, p, q)
  {
    SetLinkLast(nodes[p].children, q);
  }

  lemma {:induction false} RepointFacts(nodes: seq<Node>, p: nat, q: nat)
    requires p < |nodes| && nodes[p].children != []
    ensures var cs := nodes[p].children; var r := RepointLast(nodes, p, q);
      && |r[p].children| == |cs|
      && LastLink(r[p].children) == (LastLink(cs).0, q)
      && (forall j :: 0 <= j < |cs| - 1 ==> r[p].children[j] == cs[j])
      && (forall x :: 0 <= x < |nodes| && x != p ==> r[x] == nodes[x])
      && r[p].final == nodes[p].final && r[p].resolved == nodes[p].resolved
  {
  }

  lemma {:induction false} RepointArena(nodes: seq<Node>, p: nat, q: nat)
    requires p < |nodes| && nodes[p].children != []
    requires Closed(nodes) && AllSorted(nodes) && NoLinkTo(nodes, Root)
    requires q < |nodes| && q != Root
    ensures var r := RepointLast(nodes, p, q);
      Closed(r) && AllSorted(r) && NoLinkTo(r, Root)
  {
    RepointFacts(nodes, p, q);
    var r := RepointLast(nodes, p, q);
    var cs, cs' := nodes[p].children, r[p].children;
    assert forall j :: 0 <= j < |cs'| ==> cs'[j].0 == cs[j].0 && (cs'[j].1 == cs[j].1 || cs'[j].1 == q);
    assert SortedLinks(cs);
    assert AllSorted(r) by {
      forall x | 0 <= x < |r| ensures SortedLinks(r[x].children) {
        if x != p {
          assert r[x] == nodes[x];
        }
      }
    }
    assert Closed(r) by {
      forall x, j | 0 <= x < |r| && 0 <= j < |r[x].children| ensures r[x].children[j].1 < |r| {
        if x != p {
          assert r[x] == nodes[x];
        }
      }
    }
    assert NoLinkTo(r, Root) by {
      forall x, j | 0 <= x < |r| && 0 <= j < |r[x].children| ensures r[x].children[j].1 != Root {
        if x != p {
          assert r[x] == nodes[x];
        }
      }
    }
  }

  lemma {:induction false} RepointRanks(nodes: seq<Node>, rank: seq<nat>, frozen: nat, p: nat, c: nat, q: nat)
    requires RankOk(nodes, rank, frozen) && p < |nodes| && nodes[p].children != []
    requires c < |nodes| && c != p && c != Root && rank[p] == 0 && rank[c] == 0
    requires ClosedUpTo(nodes, rank, c, |nodes[c].children|)
    requires q < |nodes| && (q == c || rank[q] > 0)
    ensures RankOk(RepointLast(nodes, p, q), rank[c := frozen + 1], frozen + 1)
  {
    RepointFacts(nodes, p, q);
    var r := RepointLast(nodes, p, q);
    var rank' := rank[c := frozen + 1];
    forall x, j | 0 <= x < |r| && rank'[x] > 0 && 0 <= j < |r[x].children|
      ensures r[x].children[j].1 < |rank'| && 0 < rank'[r[x].children[j].1] < rank'[x]
    {
      assert x != p;
      assert r[x] == nodes[x];
      var y := nodes[x].children[j].1;
      if x == c {
        assert rank[y] > 0;
      } else {
        assert rank[x] > 0;
      }
    }
  }

  lemma {:induction false} RepointEdge(nodes: seq<Node>, edges: seq<Edge>, pw: Word, rank: seq<nat>, i: nat, p: nat, c: nat, q: nat, v: nat)
    requires i + 1 < |edges| <= |pw| && EdgeOk(nodes, edges, pw, rank, i)
    requires p < |nodes| && nodes[p].children != [] && LastLink(nodes[p].children).1 == c
    requires edges[i].parent != p && edges[i].child != c && q != edges[i].child && v > 0 && c < |rank|
    ensures var n := |edges|;
      EdgeOk(RepointLast(nodes, p, q), edges[..n - 1], pw[..n - 1], rank[c := v], i)
  {
    RepointFacts(nodes, p, q);
    var n := |edges|;
    var r := RepointLast(nodes, p, q);
    var e := edges[i];
    var cs := nodes[p].children;
    assert r[e.parent] == nodes[e.parent];
    assert PathNode(edges[..n - 1], i) == PathNode(edges, i);
    assert ClosedUpTo(r, rank[c := v], e.parent, |r[e.parent].children| - 1) by {
      forall j | 0 <= j < |r[e.parent].children| - 1
        ensures r[e.parent].children[j].1 < |rank[c := v]| && rank[c := v][r[e.parent].children[j].1] > 0
      {
        assert r[e.parent].children[j] == nodes[e.parent].children[j];
      }
    }
    assert SoleParent(r, e.child, e.parent, pw[i]) by {
      forall x, j | 0 <= x < |r| && 0 <= j < |r[x].children| && r[x].children[j].1 == e.child
        ensures x == e.parent && r[x].children[j].0 == pw[i]
      {
        if x != p {
          assert r[x] == nodes[x];
        }
      }
    }
  }

  lemma {:induction false} RepointTip(nodes: seq<Node>, rank: seq<nat>, p: nat, c: nat, q: nat, v: nat)
    requires p < |nodes| && nodes[p].children != [] && ClosedUpTo(nodes, rank, p, |nodes[p].children| - 1)
    requires c < |rank| && q < |rank| && (q == c || rank[q] > 0) && v > 0
    ensures var r := RepointLast(nodes, p, q); ClosedUpTo(r, rank[c := v], p, |r[p].children|)
  {
    RepointFacts(nodes, p, q);
  }

  lemma {:induction false} RepointRegistry(nodes: seq<Node>, rank: seq<nat>, reg: map<string, nat>, reg': map<string, nat>, p: nat, c: nat, q: nat, v: nat)
    requires RegistryOk(nodes, rank, reg) && |rank| == |nodes|
    requires p < |nodes| && nodes[p].children != [] && rank[p] == 0 && c < |nodes| && c != p && v > 0
    requires reg' == reg || reg' == reg[KeyString(nodes[c]) := c]
    ensures RegistryOk(RepointLast(nodes, p, q), rank[c := v], reg')
  {
    RepointFacts(nodes, p, q);
    var r := RepointLast(nodes, p, q);
    forall k | k in reg' ensures reg'[k] < |r| && reg'[k] < |rank[c := v]| && rank[c := v][reg'[k]] > 0 && KeyString(r[reg'[k]]) == k {
      if k in reg && reg'[k] == reg[k] {
        assert reg[k] != p;
      }
    }
  }

  /** What the invariant says about the deepest unchecked edge. */
  lemma {:induction false} DeepestEdge(nodes: seq<Node>, edges: seq<Edge>, pw: Word, reg: map<string, nat>, rank: seq<nat>,
                                       frozen: nat)
    requires Inv(nodes, edges, pw, reg, rank, frozen) && edges != []
    ensures var n := |edges|; var e := edges[n - 1];
      && e.parent < |nodes| && e.child < |nodes| && |rank| == |nodes|
      && e.child != Root && e.child != e.parent && rank[e.child] == 0 && rank[e.parent] == 0
      && SortedLinks(nodes[e.parent].children) && nodes[e.parent].children != []
      && LastLink(nodes[e.parent].children) == (e.ch, e.child)
      && e.ch == pw[n - 1]
      && Tip(edges) == e.child && Tip(edges[..n - 1]) == e.parent
      && ClosedUpTo(nodes, rank, e.parent, |nodes[e.parent].children| - 1)
      && ClosedUpTo(nodes, rank, e.child, |nodes[e.child].children|)
  {
    var n := |edges|;
    var e := edges[n - 1];
    assert EdgeOk(nodes, edges, pw, rank, n - 1);
    PathNodeOpen(nodes, edges, pw, rank, frozen, n - 1);
    if n > 1 {
      PathNodesIncreasing(nodes, edges, pw, rank, n - 1, n);
    }
    assert Tip(edges[..n - 1]) == PathNode(edges, n - 1);
  }

  /** The invariant after minimizing the deepest edge, with its parent's last link pointed at `q`. */
  lemma {:induction false} MinimizeInv(nodes: seq<Node>, edges: seq<Edge>, pw: Word, reg: map<string, nat>, rank: seq<nat>,
                                       frozen: nat, q: nat, reg': map<string, nat>)
    requires Inv(nodes, edges, pw, reg, rank, frozen) && edges != []
    requires var c := edges[|edges| - 1].child;
      q < |nodes| && q != Root && (q == c || rank[q] > 0)
    requires var c := edges[|edges| - 1].child;
      reg' == reg || reg' == reg[KeyString(nodes[c]) := c]
    ensures var n := |edges|; var e := edges[n - 1];
      Inv(RepointLast(nodes, e.parent, q), edges[..n - 1], pw[..n - 1], reg', rank[e.child := frozen + 1], frozen + 1)
  {
    MinimizeInvArena(nodes, edges, pw, reg, rank, frozen, q);
    MinimizeInvPath(nodes, edges, pw, reg, rank, frozen, q, reg');
  }

  /** The arena-wide half of `MinimizeInv`: links stay in the arena, sorted, off the root, and ranks decrease. */
  lemma {:induction false} MinimizeInvArena(nodes: seq<Node>, edges: seq<Edge>, pw: Word, reg: map<string, nat>, rank: seq<nat>,
                                            frozen: nat, q: nat)
    requires Inv(nodes, edges, pw, reg, rank, frozen) && edges != []
    requires var c := edges[|edges| - 1].child;
      q < |nodes| && q != Root && (q == c || rank[q] > 0)
    ensures var n := |edges|; var e := edges[n - 1]; var r := RepointLast(nodes, e.parent, q);
      && |r| > 0 && Closed(r) && AllSorted(r) && NoLinkTo(r, Root)
      && RankOk(r, rank[e.child := frozen + 1], frozen + 1)
  {
    var e := edges[|edges| - 1];
    DeepestEdge(nodes, edges, pw, reg, rank, frozen);
    RepointArena(nodes, e.parent, q);
    RepointRanks(nodes, rank, frozen, e.parent, e.child, q);
  }

  /** The path half of `MinimizeInv`: the shorter stack, the tip, the registry and the sizes. */
  lemma {:induction false} MinimizeInvPath(nodes: seq<Node>, edges: seq<Edge>, pw: Word, reg: map<string, nat>, rank: seq<nat>,
                                           frozen: nat, q: nat, reg': map<string, nat>)
    requires Inv(nodes, edges, pw, reg, rank, frozen) && edges != []
    requires var c := edges[|edges| - 1].child;
      q < |nodes| && q != Root && (q == c || rank[q] > 0)
    requires var c := edges[|edges| - 1].child;
      reg' == reg || reg' == reg[KeyString(nodes[c]) := c]
    ensures var n := |edges|; var e := edges[n - 1]; var r := RepointLast(nodes, e.parent, q);
      var edges', rank' := edges[..n - 1], rank[e.child := frozen + 1];
      && Stack(r, edges', pw[..n - 1], rank')
      && Tip(edges') < |r|
      && ClosedUpTo(r, rank', Tip(edges'), |r[Tip(edges')].children|)
      && RegistryOk(r, rank', reg')
      && frozen + 1 + |edges'| + 1 == |r|
      && |reg'| <= frozen + 1
  {
    var n := |edges|;
    var e := edges[n - 1];
    var c, p := e.child, e.parent;
    DeepestEdge(nodes, edges, pw, reg, rank, frozen);
    MinimizeKeepsStack(nodes, edges, pw, reg, rank, frozen, q);
    assert Tip(edges[..n - 1]) == p;
    RepointTip(nodes, rank, p, c, q, frozen + 1);
    RepointRegistry(nodes, rank, reg, reg', p, c, q, frozen + 1);
    assert |reg'| <= |reg| + 1;
  }

  /**
   * Minimizing the deepest unchecked edge: its child is closed (rank
   * `frozen + 1`), and the parent's last link is pointed at `q`, which is
   * the child itself (the child is registered) or the registered node with
   * the child's key. The language of every node stays the same.
   */
  lemma {:induction false} MinimizeStep(nodes: seq<Node>, edges: seq<Edge>, pw: Word, reg: map<string, nat>, rank: seq<nat>,
                                        frozen: nat, q: nat, reg': map<string, nat>)
    requires Inv(nodes, edges, pw, reg, rank, frozen) && edges != []
    requires var c := edges[|edges| - 1].child;
      var key := KeyString(nodes[c]);
      if key in reg then q == reg[key] && reg' == reg else q == c && reg' == reg[key := c]
    ensures var n := |edges|; var e := edges[n - 1];
      var nodes' := Redirect(nodes, e.parent, e.ch, q);
      && Inv(nodes', edges[..n - 1], pw[..n - 1], reg', rank[e.child := frozen + 1], frozen + 1)
      && nodes'[Tip(edges[..n - 1])].children != []
      && LastLink(nodes'[Tip(edges[..n - 1])].children).0 == pw[n - 1]
      && (forall x, w :: Accepts(nodes', x, w) == Accepts(nodes, x, w))
      && (q == e.child ==> nodes' == nodes)
  {
    var n := |edges|;
    var e := edges[n - 1];
    MinimizeTarget(nodes, edges, pw, reg, rank, frozen, q, reg');
    RedirectIsRepoint(nodes, e.parent, e.ch, q);
    RepointFacts(nodes, e.parent, q);
    MinimizeInv(nodes, edges, pw, reg, rank, frozen, q, reg');
    MinimizeKeepsLanguage(nodes, e.parent, e.ch, e.child, q);
    assert Tip(edges[..n - 1]) == e.parent;
  }

  /**
   * The node the parent's link ends up at is the child or a closed node,
   * never the root, and has the child's links and finality.
   */
  lemma {:induction false} MinimizeTarget(nodes: seq<Node>, edges: seq<Edge>, pw: Word, reg: map<string, nat>, rank: seq<nat>,
                                          frozen: nat, q: nat, reg': map<string, nat>)
    requires Inv(nodes, edges, pw, reg, rank, frozen) && edges != []
    requires var c := edges[|edges| - 1].child;
      var key := KeyString(nodes[c]);
      if key in reg then q == reg[key] && reg' == reg else q == c && reg' == reg[key := c]
    ensures var n := |edges|; var e := edges[n - 1];
      && e.parent < |nodes| && e.child < |nodes| && q < |nodes| && q != Root && (q == e.child || rank[q] > 0)
      && SortedLinks(nodes[e.parent].children) && nodes[e.parent].children != []
      && LastLink(nodes[e.parent].children) == (e.ch, e.child)
      && e.ch == pw[n - 1] && Tip(edges[..n - 1]) == e.parent
      && KeyOf(nodes[q]) == KeyOf(nodes[e.child])
      && (q == e.child ==> RepointLast(nodes, e.parent, q) == nodes)
  {
    var e := edges[|edges| - 1];
    var c, p := e.child, e.parent;
    DeepestEdge(nodes, edges, pw, reg, rank, frozen);
    if q == c {
      var cs := nodes[p].children;
      assert cs == cs[..|cs| - 1] + [LastLink(cs)];
      assert RepointLast(nodes, p, q) == nodes;
    }
    assert q < |nodes| && KeyString(nodes[q]) == KeyString(nodes[c]) && q != Root && (q == c || rank[q] > 0);
    KeyStringInjective(nodes[q], nodes[c]);
  }

  /** The sizes the invariant fixes. */
  lemma {:induction false} InvSizes(nodes: seq<Node>, edges: seq<Edge>, pw: Word, reg: map<string, nat>, rank: seq<nat>, frozen: nat)
    requires Inv(nodes, edges, pw, reg, rank, frozen)
    ensures |rank| == |nodes| && |edges| == |pw| && Tip(edges) < |nodes|
  {
    StackShape(nodes, edges, pw, reg, rank, frozen);
  }

  /**
   * What `minimize` does to the arena and the registry for the deepest edge
   * `e` of `edges`: if a registered node has the child's key, the parent's
   * link is pointed at it; otherwise the child is registered.
   */
  ghost predicate MinimizeTransition(nodes: seq<Node>, e: Edge, reg: map<string, nat>, nodes': seq<Node>, reg': map<string, nat>)
    requires e.child < |nodes|
  {
    var key := KeyString(nodes[e.child]);
    if key in reg then nodes' == Redirect(nodes, e.parent, e.ch, reg[key]) && reg' == reg
    else nodes' == nodes && reg' == reg[key := e.child]
  }

  /** `MinimizeStep`, stated about the arena and registry a transition leads to. */
  lemma {:induction false} MinimizeDone(nodes: seq<Node>, edges: seq<Edge>, pw: Word, reg: map<string, nat>, rank: seq<nat>,
                                        frozen: nat, nodes': seq<Node>, reg': map<string, nat>)
    requires Inv(nodes, edges, pw, reg, rank, frozen) && edges != [] && edges[|edges| - 1].child < |nodes|
    requires MinimizeTransition(nodes, edges[|edges| - 1], reg, nodes', reg')
    ensures Inv(nodes', edges[..|edges| - 1], pw[..|edges| - 1], reg', rank[edges[|edges| - 1].child := frozen + 1], frozen + 1)
    ensures nodes'[Tip(edges[..|edges| - 1])].children != []
    ensures LastLink(nodes'[Tip(edges[..|edges| - 1])].children).0 == pw[|edges| - 1]
    ensures forall x, w :: Accepts(nodes', x, w) == Accepts(nodes, x, w)
  {
    var e := edges[|edges| - 1];
    var key := KeyString(nodes[e.child]);
    var q := if key in reg then reg[key] else e.child;
    MinimizeStep(nodes, edges, pw, reg, rank, frozen, q, reg');
  }

  lemma {:induction false} MinimizeKeepsLanguage(nodes: seq<Node>, p: nat, ch: char, c: nat, q: nat)
    requires p < |nodes| && c < |nodes| && q < |nodes|
    requires SortedLinks(nodes[p].children) && nodes[p].children != [] && LastLink(nodes[p].children) == (ch, c)
    requires KeyOf(nodes[q]) == KeyOf(nodes[c])
    ensures forall x, w :: Accepts(Redirect(nodes, p, ch, q), x, w) == Accepts(nodes, x, w)
  {
    LookupLast(nodes[p].children);
    assert ChildOf(nodes, p, ch) == Some(c);
    forall x, w ensures Accepts(Redirect(nodes, p, ch, q), x, w) == Accepts(nodes, x, w) {
      RedirectKeepsLanguage(nodes, p, ch, c, q, x, w);
    }
  }

  lemma {:induction false} MinimizeKeepsStack(nodes: seq<Node>, edges: seq<Edge>, pw: Word, reg: map<string, nat>, rank: seq<nat>, frozen: nat,
                           q: nat)
    requires Inv(nodes, edges, pw, reg, rank, frozen) && edges != []
    requires var c := edges[|edges| - 1].child; q < |nodes| && q != Root && (q == c || rank[q] > 0)
    ensures var n := |edges|; var e := edges[n - 1];
      Stack(RepointLast(nodes, e.parent, q), edges[..n - 1], pw[..n - 1], rank[e.child := frozen + 1])
  {
    var n := |edges|;
    var e := edges[n - 1];
    var c, p := e.child, e.parent;
    assert EdgeOk(nodes, edges, pw, rank, n - 1);
    var nodes', edges', pw', rank' := RepointLast(nodes, p, q), edges[..n - 1], pw[..n - 1], rank[c := frozen + 1];
    forall i | 0 <= i < |edges'| ensures EdgeOk(nodes', edges', pw', rank', i) {
      assert EdgeOk(nodes, edges, pw, rank, i);
      PathNodesIncreasing(nodes, edges, pw, rank, i, n - 1);
      PathNodesIncreasing(nodes, edges, pw, rank, i + 1, n);
      PathNodeOpen(nodes, edges, pw, rank, frozen, i + 1);
      RepointEdge(nodes, edges, pw, rank, i, p, c, q, frozen + 1);
    }
  }

  /** Every link of `cs` has a symbol below `c`. */
  ghost predicate LinksBelow(cs: seq<Link>, c: char)
  {
    forall j :: 0 <= j < |cs| ==> cs[j].0 < c
  }

  lemma {:induction false} AddLeafFacts(nodes: seq<Node>, x: nat, c: char)
    requires x < |nodes| && LinksBelow(nodes[x].children, c)
    ensures var r := AddLeaf(nodes, x, c);
      && r[x].children == nodes[x].children + [(c, |nodes|)]
      && r[x].final == nodes[x].final
      && r[|nodes|] == FreshNode
      && (forall y :: 0 <= y < |nodes| && y != x ==> r[y] == nodes[y])
      && ChildOf(nodes, x, c).None?
  {
  }

  lemma {:induction false} AddArena(nodes: seq<Node>, x: nat, c: char)
    requires x < |nodes| && LinksBelow(nodes[x].children, c)
    requires Closed(nodes) && AllSorted(nodes) && NoLinkTo(nodes, Root)
    ensures var r := AddLeaf(nodes, x, c); Closed(r) && AllSorted(r) && NoLinkTo(r, Root)
  {
    AddSorted(nodes, x, c);
    AddClosed(nodes, x, c);
    AddNoLinkToRoot(nodes, x, c);
  }

  lemma {:induction false} AddSorted(nodes: seq<Node>, x: nat, c: char)
    requires x < |nodes| && LinksBelow(nodes[x].children, c) && AllSorted(nodes)
    ensures AllSorted(AddLeaf(nodes, x, c))
  {
    AddLeafFacts(nodes, x, c);
    var r := AddLeaf(nodes, x, c);
    assert SortedLinks(nodes[x].children);
    forall y | 0 <= y < |r| ensures SortedLinks(r[y].children) {
      if y < |nodes| && y != x {
        assert r[y] == nodes[y];
      }
    }
  }

  lemma {:induction false} AddClosed(nodes: seq<Node>, x: nat, c: char)
    requires x < |nodes| && LinksBelow(nodes[x].children, c) && Closed(nodes)
    ensures Closed(AddLeaf(nodes, x, c))
  {
    AddLeafFacts(nodes, x, c);
    var r := AddLeaf(nodes, x, c);
    forall y, j | 0 <= y < |r| && 0 <= j < |r[y].children| ensures r[y].children[j].1 < |r| {
      if y < |nodes| && y != x {
        assert r[y] == nodes[y];
      }
    }
  }

  lemma {:induction false} AddNoLinkToRoot(nodes: seq<Node>, x: nat, c: char)
    requires x < |nodes| && LinksBelow(nodes[x].children, c) && NoLinkTo(nodes, Root)
    ensures NoLinkTo(AddLeaf(nodes, x, c), Root)
  {
    AddLeafFacts(nodes, x, c);
    var r := AddLeaf(nodes, x, c);
    forall y, j | 0 <= y < |r| && 0 <= j < |r[y].children| ensures r[y].children[j].1 != Root {
      if y < |nodes| && y != x {
        assert r[y] == nodes[y];
      }
    }
  }

  lemma {:induction false} AddRanks(nodes: seq<Node>, rank: seq<nat>, frozen: nat, x: nat, c: char)
    requires RankOk(nodes, rank, frozen) && x < |nodes| && rank[x] == 0 && LinksBelow(nodes[x].children, c)
    ensures RankOk(AddLeaf(nodes, x, c), rank + [0], frozen)
  {
    AddLeafFacts(nodes, x, c);
    var r, rank' := AddLeaf(nodes, x, c), rank + [0];
    forall y, j | 0 <= y < |r| && rank'[y] > 0 && 0 <= j < |r[y].children|
      ensures r[y].children[j].1 < |rank'| && 0 < rank'[r[y].children[j].1] < rank'[y]
    {
      assert y < |nodes| && y != x && r[y] == nodes[y] && rank'[y] == rank[y];
      assert rank[y] > 0;
    }
    forall y | 0 <= y < |r| ensures rank'[y] <= frozen {
      if y < |nodes| {
        assert rank'[y] == rank[y];
      }
    }
  }

  lemma {:induction false} AddEdgeOld(nodes: seq<Node>, edges: seq<Edge>, pw: Word, rank: seq<nat>, i: nat, x: nat, c: char)
    requires i < |edges| <= |pw| && EdgeOk(nodes, edges, pw, rank, i) && Closed(nodes)
    requires x < |nodes| && LinksBelow(nodes[x].children, c) && edges[i].parent != x && |rank| == |nodes|
    ensures EdgeOk(AddLeaf(nodes, x, c), edges + [Edge(x, |nodes|, c)], pw + [c], rank + [0], i)
  {
    AddLeafFacts(nodes, x, c);
    var r, edges', pw', rank' := AddLeaf(nodes, x, c), edges + [Edge(x, |nodes|, c)], pw + [c], rank + [0];
    var e := edges[i];
    assert edges'[i] == e && pw'[i] == pw[i];
    assert r[e.parent] == nodes[e.parent];
    assert PathNode(edges', i) == PathNode(edges, i);
    assert ClosedUpTo(r, rank', e.parent, |r[e.parent].children| - 1) by {
      forall j | 0 <= j < |r[e.parent].children| - 1
        ensures r[e.parent].children[j].1 < |rank'| && rank'[r[e.parent].children[j].1] > 0
      {
        assert nodes[e.parent].children[j].1 < |nodes|;
      }
    }
    assert SoleParent(r, e.child, e.parent, pw[i]) by {
      forall y, j | 0 <= y < |r| && 0 <= j < |r[y].children| && r[y].children[j].1 == e.child
        ensures y == e.parent && r[y].children[j].0 == pw[i]
      {
        if y < |nodes| && y != x {
          assert r[y] == nodes[y];
        }
      }
    }
  }

  lemma {:induction false} AddEdgeNew(nodes: seq<Node>, edges: seq<Edge>, pw: Word, rank: seq<nat>, x: nat, c: char)
    requires |edges| == |pw| && x == Tip(edges) && x < |nodes| && |rank| == |nodes| && Closed(nodes)
    requires LinksBelow(nodes[x].children, c) && ClosedUpTo(nodes, rank, x, |nodes[x].children|)
    ensures EdgeOk(AddLeaf(nodes, x, c), edges + [Edge(x, |nodes|, c)], pw + [c], rank + [0], |edges|)
  {
    AddLeafFacts(nodes, x, c);
    var r, edges', pw', rank' := AddLeaf(nodes, x, c), edges + [Edge(x, |nodes|, c)], pw + [c], rank + [0];
    assert PathNode(edges', |edges|) == x by {
      if |edges| > 0 {
        assert edges'[|edges| - 1] == edges[|edges| - 1];
      }
    }
    assert SoleParent(r, |nodes|, x, c) by {
      forall y, j | 0 <= y < |r| && 0 <= j < |r[y].children| && r[y].children[j].1 == |nodes|
        ensures y == x && r[y].children[j].0 == c
      {
      }
    }
    assert ClosedUpTo(r, rank', x, |r[x].children| - 1) by {
      forall j | 0 <= j < |r[x].children| - 1
        ensures r[x].children[j].1 < |rank'| && rank'[r[x].children[j].1] > 0
      {
        assert r[x].children[j] == nodes[x].children[j];
      }
    }
  }

  lemma {:induction false} AddStack(nodes: seq<Node>, edges: seq<Edge>, pw: Word, reg: map<string, nat>, rank: seq<nat>, frozen: nat, c: char)
    requires Inv(nodes, edges, pw, reg, rank, frozen) && LinksBelow(nodes[Tip(edges)].children, c)
    ensures var x := Tip(edges);
      Stack(AddLeaf(nodes, x, c), edges + [Edge(x, |nodes|, c)], pw + [c], rank + [0])
  {
    var x := Tip(edges);
    var r, edges', pw', rank' := AddLeaf(nodes, x, c), edges + [Edge(x, |nodes|, c)], pw + [c], rank + [0];
    forall i | 0 <= i < |edges'| ensures EdgeOk(r, edges', pw', rank', i) {
      if i < |edges| {
        assert EdgeOk(nodes, edges, pw, rank, i);
        PathNodesIncreasing(nodes, edges, pw, rank, i, |edges|);
        AddEdgeOld(nodes, edges, pw, rank, i, x, c);
      } else {
        AddEdgeNew(nodes, edges, pw, rank, x, c);
      }
    }
    forall i, k | 0 <= i < k < |edges'| ensures edges'[i].child < edges'[k].child {
      if k == |edges| {
        assert EdgeOk(nodes, edges, pw, rank, i);
      }
    }
  }

  /**
   * Hanging a fresh node `|nodes|` under the tip with a symbol above all of
   * the tip's symbols: the path grows by one edge and no language changes.
   */
  lemma {:induction false} AddStep(nodes: seq<Node>, edges: seq<Edge>, pw: Word, reg: map<string, nat>, rank: seq<nat>, frozen: nat, c: char)
    requires Inv(nodes, edges, pw, reg, rank, frozen) && LinksBelow(nodes[Tip(edges)].children, c)
    ensures var x := Tip(edges); var nodes' := AddLeaf(nodes, x, c); var edges' := edges + [Edge(x, |nodes|, c)];
      && Inv(nodes', edges', pw + [c], reg, rank + [0], frozen)
      && Tip(edges') == |nodes| && nodes'[|nodes|] == FreshNode
      && (forall y, w :: Accepts(nodes', y, w) == Accepts(nodes, y, w))
  {
    var x := Tip(edges);
    PathNodeOpen(nodes, edges, pw, rank, frozen, |edges|);
    AddLeafFacts(nodes, x, c);
    var r, edges', pw', rank' := AddLeaf(nodes, x, c), edges + [Edge(x, |nodes|, c)], pw + [c], rank + [0];
    assert Closed(r) && AllSorted(r) && NoLinkTo(r, Root) by {
      AddArena(nodes, x, c);
    }
    assert RankOk(r, rank', frozen) by {
      AddRanks(nodes, rank, frozen, x, c);
    }
    assert Stack(r, edges', pw', rank') by {
      AddStack(nodes, edges, pw, reg, rank, frozen, c);
    }
    assert RegistryOk(r, rank', reg) by {
      forall k | k in reg ensures reg[k] < |r| && reg[k] < |rank'| && rank'[reg[k]] > 0 && KeyString(r[reg[k]]) == k {
        assert reg[k] != x && r[reg[k]] == nodes[reg[k]] && rank'[reg[k]] == rank[reg[k]];
      }
    }
    assert Tip(edges') == |nodes|;
    forall y, w ensures Accepts(r, y, w) == Accepts(nodes, y, w) {
      AddLeafKeepsLanguage(nodes, x, c, y, w);
    }
  }

  lemma {:induction false} FinalInv(nodes: seq<Node>, edges: seq<Edge>, pw: Word, reg: map<string, nat>, rank: seq<nat>, frozen: nat)
    requires Inv(nodes, edges, pw, reg, rank, frozen)
    ensures Inv(MarkFinal(nodes, Tip(edges)), edges, pw, reg, rank, frozen)
  {
    var z := Tip(edges);
    PathNodeOpen(nodes, edges, pw, rank, frozen, |edges|);
    var r := MarkFinal(nodes, z);
    assert forall y :: 0 <= y < |nodes| ==> r[y].children == nodes[y].children;
    assert Stack(r, edges, pw, rank) by {
      forall i | 0 <= i < |edges| ensures EdgeOk(r, edges, pw, rank, i) {
        assert EdgeOk(nodes, edges, pw, rank, i);
      }
    }
    assert RegistryOk(r, rank, reg) by {
      forall k | k in reg ensures reg[k] < |r| && reg[k] < |rank| && rank[reg[k]] > 0 && KeyString(r[reg[k]]) == k {
        assert reg[k] != z && r[reg[k]] == nodes[reg[k]];
      }
    }
  }

  /** Marking the tip final adds exactly the word the path spells. */
  lemma {:induction false} FinalStep(nodes: seq<Node>, edges: seq<Edge>, pw: Word, reg: map<string, nat>, rank: seq<nat>, frozen: nat,
                                     words: set<Word>)
    requires Inv(nodes, edges, pw, reg, rank, frozen) && LanguageIs(nodes, words)
    ensures Inv(MarkFinal(nodes, Tip(edges)), edges, pw, reg, rank, frozen)
    ensures LanguageIs(MarkFinal(nodes, Tip(edges)), words + {pw})
  {
    var z := Tip(edges);
    FinalInv(nodes, edges, pw, reg, rank, frozen);
    PathReach(nodes, edges, pw, rank, |edges|);
    assert pw[..|edges|] == pw;
    forall w ensures Accepts(MarkFinal(nodes, z), Root, w) <==> w in words + {pw} {
      MarkFinalLanguage(nodes, z, Root, w);
      if Reach(nodes, Root, w) == Some(z) {
        PathUnique(nodes, edges, pw, rank, |edges|, w);
      }
    }
  }

  /** The edges form a chain from the root whose symbols spell `pw`. */
  ghost predicate EdgesSpell(edges: seq<Edge>, pw: Word)
  {
    && |edges| == |pw|
    && (forall i :: 0 <= i < |edges| ==> edges[i].ch == pw[i])
    && (edges != [] ==> edges[0].parent == Root)
    && (forall i :: 0 < i < |edges| ==> edges[i].parent == edges[i - 1].child)
  }

  /**
   * What the invariant says about `uncheckedEdges` in the terms of
   * `hydrate`: one edge per symbol of the previous word, edge `i` carries
   * symbol `i`, the first edge leaves the root and each edge leaves the
   * child of the one before.
   */
  lemma {:induction false} StackShape(nodes: seq<Node>, edges: seq<Edge>, pw: Word, reg: map<string, nat>, rank: seq<nat>,
                                      frozen: nat)
    requires Inv(nodes, edges, pw, reg, rank, frozen)
    ensures EdgesSpell(edges, pw)
    ensures Reach(nodes, Root, pw) == Some(Tip(edges))
  {
    forall i | 0 <= i < |edges| ensures edges[i].ch == pw[i] && (i > 0 ==> edges[i].parent == edges[i - 1].child) {
      assert EdgeOk(nodes, edges, pw, rank, i);
    }
    if edges != [] {
      assert EdgeOk(nodes, edges, pw, rank, 0);
    }
    PathReach(nodes, edges, pw, rank, |edges|);
    assert pw[..|edges|] == pw;
  }

  /** The root is on the path, so it is never registered: `nodesCount` never counts it. */
  lemma {:induction false} RootUnregistered(nodes: seq<Node>, edges: seq<Edge>, pw: Word, reg: map<string, nat>, rank: seq<nat>,
                                            frozen: nat)
    requires Inv(nodes, edges, pw, reg, rank, frozen)
    ensures forall k :: k in reg ==> reg[k] != Root
  {
  }

  /**
   * Once every edge is minimized, giving the root the highest rank makes
   * the whole graph reachable from it ranked: the graph is acyclic.
   */
  lemma {:induction false} DrainedRanked(nodes: seq<Node>, reg: map<string, nat>, rank: seq<nat>, frozen: nat)
    requires Inv(nodes, [], [], reg, rank, frozen)
    ensures Ranked(nodes, rank[Root := frozen + 1])
  {
    var rank' := rank[Root := frozen + 1];
    forall x, j | 0 <= x < |nodes| && rank'[x] > 0 && 0 <= j < |nodes[x].children|
      ensures nodes[x].children[j].1 < |nodes| && 0 < rank'[nodes[x].children[j].1] < rank'[x]
    {
      var y := nodes[x].children[j].1;
      assert y != Root;
      if x == Root {
        assert rank[y] > 0 && rank[y] <= frozen;
      } else {
        assert rank[x] > 0;
      }
    }
  }

  /** In sorted links, a symbol above the last one is above them all. */
  lemma {:induction false} AboveLast(cs: seq<Link>, c: char)
    requires SortedLinks(cs) && cs != [] && LastLink(cs).0 < c
    ensures LinksBelow(cs, c)
  {
    forall j | 0 <= j < |cs| ensures cs[j].0 < c {
      if j < |cs| - 1 {
        assert cs[j].0 < cs[|cs| - 1].0;
      }
    }
  }

  /** No node has run `resolve` yet: `build` resolves only after the last word. */
  ghost predicate Unresolved(nodes: seq<Node>)
  {
    forall x :: 0 <= x < |nodes| ==> !nodes[x].resolved
  }

  // The invariant as the builder's methods carry it. `Sealed` states the
  // sizes outright and the rest (`Inv`, the root's language, no node
  // resolved) behind the trigger `Expose`, so a method that holds it does
  // not expand it into its own proof; the lemmas below expose it, take one
  // step and seal the result.

  ghost predicate Expose(k: int)
  {
    true
  }

  ghost predicate Sealed(nodes: seq<Node>, edges: seq<Edge>, pw: Word, reg: map<string, nat>, rank: seq<nat>, frozen: nat,
                         words: set<Word>)
  {
    && |rank| == |nodes| && |edges| == |pw| && Tip(edges) < |nodes|
    && forall k {:trigger Expose(k)} :: Expose(k) ==>
         Inv(nodes, edges, pw, reg, rank, frozen) && LanguageIs(nodes, words) && Unresolved(nodes)
  }

  lemma Unseal(nodes: seq<Node>, edges: seq<Edge>, pw: Word, reg: map<string, nat>, rank: seq<nat>, frozen: nat, words: set<Word>)
    requires Sealed(nodes, edges, pw, reg, rank, frozen, words)
    ensures Inv(nodes, edges, pw, reg, rank, frozen) && LanguageIs(nodes, words) && Unresolved(nodes)
  {
    assert Expose(0);
  }

  lemma Seal(nodes: seq<Node>, edges: seq<Edge>, pw: Word, reg: map<string, nat>, rank: seq<nat>, frozen: nat, words: set<Word>)
    requires Inv(nodes, edges, pw, reg, rank, frozen) && LanguageIs(nodes, words) && Unresolved(nodes)
    ensures Sealed(nodes, edges, pw, reg, rank, frozen, words)
  {
    InvSizes(nodes, edges, pw, reg, rank, frozen);
  }

  /** The builder after `constructor()`: a lone root, no words. */
  lemma {:induction false} InitialSealed()
    ensures Sealed([FreshNode], [], [], map[], [0], 0, {})
  {
    InitialInv();
    Seal([FreshNode], [], [], map[], [0], 0, {});
  }

  /** The deepest unchecked edge leads to a node of the arena. */
  lemma {:induction false} DeepestSealed(nodes: seq<Node>, edges: seq<Edge>, pw: Word, reg: map<string, nat>, rank: seq<nat>,
                                         frozen: nat, words: set<Word>)
    requires Sealed(nodes, edges, pw, reg, rank, frozen, words) && edges != []
    ensures edges[|edges| - 1].child < |nodes|
  {
    Unseal(nodes, edges, pw, reg, rank, frozen, words);
    DeepestEdge(nodes, edges, pw, reg, rank, frozen);
  }

  /**
   * `minimize(edge)` on the deepest edge keeps the invariant, freezing the
   * edge's child; the parent is the new tip, with the edge's symbol last,
   * and no node's language changes.
   */
  lemma {:induction false} MinimizeSealed(nodes: seq<Node>, edges: seq<Edge>, pw: Word, reg: map<string, nat>, rank: seq<nat>,
                                          frozen: nat, words: set<Word>, nodes': seq<Node>, edges': seq<Edge>, pw': Word,
                                          reg': map<string, nat>, rank': seq<nat>, frozen': nat)
    requires Sealed(nodes, edges, pw, reg, rank, frozen, words) && edges != [] && edges[|edges| - 1].child < |nodes|
    requires MinimizeTransition(nodes, edges[|edges| - 1], reg, nodes', reg')
    requires edges' == edges[..|edges| - 1] && pw' == pw[..|edges| - 1]
    requires rank' == rank[edges[|edges| - 1].child := frozen + 1] && frozen' == frozen + 1
    ensures Sealed(nodes', edges', pw', reg', rank', frozen', words)
    ensures nodes'[Tip(edges')].children != [] && LastLink(nodes'[Tip(edges')].children).0 == pw[|edges| - 1]
    ensures forall x, w :: Accepts(nodes', x, w) == Accepts(nodes, x, w)
  {
    var e := edges[|edges| - 1];
    Unseal(nodes, edges, pw, reg, rank, frozen, words);
    assert Inv(nodes', edges', pw', reg', rank', frozen')
      && nodes'[Tip(edges')].children != [] && LastLink(nodes'[Tip(edges')].children).0 == pw[|edges| - 1]
      && forall x, w :: Accepts(nodes', x, w) == Accepts(nodes, x, w)
    by {
      MinimizeDone(nodes, edges, pw, reg, rank, frozen, nodes', reg');
    }
    assert Unresolved(nodes') by {
      if nodes' != nodes {
        RedirectUnresolved(nodes, e.parent, e.ch, reg[KeyString(nodes[e.child])]);
      }
    }
    Seal(nodes', edges', pw', reg', rank', frozen', words);
  }

  lemma {:induction false} RedirectUnresolved(nodes: seq<Node>, p: nat, c: char, m: nat)
    requires Unresolved(nodes)
    ensures Unresolved(Redirect(nodes, p, c, m))
  {
    var r := Redirect(nodes, p, c, m);
    forall x | 0 <= x < |r| ensures !r[x].resolved {
      assert x == p || r[x] == nodes[x];
    }
  }

  /** A symbol above the last link of the tip is above all of its links. */
  lemma {:induction false} OpenTipBelow(nodes: seq<Node>, edges: seq<Edge>, pw: Word, reg: map<string, nat>, rank: seq<nat>,
                                        frozen: nat, words: set<Word>, c: char)
    requires Sealed(nodes, edges, pw, reg, rank, frozen, words)
    requires nodes[Tip(edges)].children != [] && LastLink(nodes[Tip(edges)].children).0 < c
    ensures LinksBelow(nodes[Tip(edges)].children, c)
  {
    Unseal(nodes, edges, pw, reg, rank, frozen, words);
    AboveLast(nodes[Tip(edges)].children, c);
  }

  /**
   * `node.setChild(word[i], child)` with a fresh `child` under a symbol
   * above the tip's links, and the new edge pushed: the path grows by one
   * edge and no language changes.
   */
  lemma {:induction false} AddSealed(nodes: seq<Node>, edges: seq<Edge>, pw: Word, reg: map<string, nat>, rank: seq<nat>,
                                     frozen: nat, words: set<Word>, c: char, nodes': seq<Node>, edges': seq<Edge>, pw': Word, rank': seq<nat>)
    requires Sealed(nodes, edges, pw, reg, rank, frozen, words) && LinksBelow(nodes[Tip(edges)].children, c)
    requires nodes' == AddLeaf(nodes, Tip(edges), c) && edges' == edges + [Edge(Tip(edges), |nodes|, c)]
    requires pw' == pw + [c] && rank' == rank + [0]
    ensures Sealed(nodes', edges', pw', reg, rank', frozen, words)
    ensures Tip(edges') == |nodes| && nodes'[|nodes|].children == []
  {
    Unseal(nodes, edges, pw, reg, rank, frozen, words);
    var x := Tip(edges);
    assert Inv(nodes', edges', pw', reg, rank', frozen) && Tip(edges') == |nodes|
      && nodes'[|nodes|] == FreshNode && LanguageIs(nodes', words)
    by {
      AddStep(nodes, edges, pw, reg, rank, frozen, c);
    }
    assert Unresolved(nodes') by {
      AddLeafFacts(nodes, x, c);
      forall y | 0 <= y < |nodes'| ensures !nodes'[y].resolved {
        assert y == x || y == |nodes| || nodes'[y] == nodes[y];
      }
    }
    Seal(nodes', edges', pw', reg, rank', frozen, words);
  }

  /** `node.final = true` at the tip: the word the path spells joins the language. */
  lemma {:induction false} FinalSealed(nodes: seq<Node>, edges: seq<Edge>, pw: Word, reg: map<string, nat>, rank: seq<nat>,
                                       frozen: nat, words: set<Word>, nodes': seq<Node>, pw': Word, words': set<Word>)
    requires Sealed(nodes, edges, pw, reg, rank, frozen, words)
    requires nodes' == MarkFinal(nodes, Tip(edges)) && pw' == pw && words' == words + {pw}
    ensures Sealed(nodes', edges, pw', reg, rank, frozen, words')
    ensures nodes'[Tip(edges)].children == nodes[Tip(edges)].children
  {
    Unseal(nodes, edges, pw, reg, rank, frozen, words);
    assert Inv(nodes', edges, pw, reg, rank, frozen) && LanguageIs(nodes', words') by {
      FinalStep(nodes, edges, pw, reg, rank, frozen, words);
    }
    assert Unresolved(nodes') by {
      forall y | 0 <= y < |nodes'| ensures !nodes'[y].resolved {
        assert y == Tip(edges) || nodes'[y] == nodes[y];
      }
    }
    Seal(nodes', edges, pw', reg, rank, frozen, words');
  }

  /**
   * With every edge minimized, giving the root the top rank makes the arena
   * ranked, so `resolve` can start from the root; the registry holds fewer
   * nodes than the arena.
   */
  lemma {:induction false} DrainedSealed(nodes: seq<Node>, edges: seq<Edge>, pw: Word, reg: map<string, nat>, rank: seq<nat>,
                                         frozen: nat, words: set<Word>)
    requires Sealed(nodes, edges, pw, reg, rank, frozen, words) && edges == [] && pw == []
    ensures Memo(nodes, nodes, rank[Root := frozen + 1]) && rank[Root := frozen + 1][Root] > 0
    ensures Closed(nodes) && AllSorted(nodes) && |reg| < |nodes| && LanguageIs(nodes, words)
    ensures Registers(nodes, reg) && Root !in reg.Values
    ensures SameShape(nodes, nodes) && Root < |nodes|
  {
    Unseal(nodes, edges, pw, reg, rank, frozen, words);
    DrainedRanked(nodes, reg, rank, frozen);
    RootUnregistered(nodes, edges, pw, reg, rank, frozen);
  }

  /**
   * Once the root holds its count on an arena of the same shape as `g`,
   * the count is the number of words and the language is unchanged.
   */
  lemma {:induction false} ResolvedCount(nodes: seq<Node>, g: seq<Node>, rank: seq<nat>, words: set<Word>)
    requires Ranked(g, rank) && AllSorted(g) && Closed(g) && |g| > 0 && rank[Root] > 0
    requires SameShape(nodes, g) && LanguageIs(g, words) && nodes[Root].wordsCount == Count(g, rank, Root)
    ensures nodes[Root].wordsCount == |words| && Closed(nodes)
    ensures forall w :: Accepts(nodes, Root, w) <==> w in words
  {
    CountCard(g, rank, Root);
    forall w ensures w in Lang(g, rank, Root) <==> w in words {
      LangAccepts(g, rank, Root, w);
    }
    assert Lang(g, rank, Root) == words;
    forall w ensures Accepts(nodes, Root, w) == Accepts(g, Root, w) {
      SameShapeAccepts(nodes, g, Root, w);
    }
    forall x, j | 0 <= x < |nodes| && 0 <= j < |nodes[x].children| ensures nodes[x].children[j].1 < |nodes| {
      assert KeyOf(nodes[x]) == KeyOf(g[x]);
    }
  }
}
