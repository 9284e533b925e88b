// The node store of the graph. Every `Node` of src/dawg.ts:182-230 lives
// at an index of one sequence, and the index is its id: this replaces the
// static `Node.nextId` counter, and a child reference is an index.
module Arena {
  import opened Words

  datatype Option<T> = None | Some(value: T)

  /** One entry of `Node.children`: a symbol and the id of the child. */
  type Link = (char, nat)

  /**
   * A node: its children in insertion order (a JavaScript `Map` iterates in
   * that order), whether a word ends here, and the two fields `resolve`
   * memoises.
   */
  datatype Node = Node(children: seq<Link>, final: bool, resolved: bool, wordsCount: nat)

  /** What `new Node()` holds. */
  const FreshNode := Node([], false, false, 0)

  /**
   * The minimization key of a node: its ordered links and its finality.
   * `createKey` writes the same information as the string
   * `_<symbol>:<id>...` with a trailing `!` for final nodes.
   */
  datatype Key = Key(links: seq<Link>, final: bool)

  function KeyOf(n: Node): Key
  {
    Key(n.children, n.final)
  }

  /** `children.get(ch)`. */
  function Lookup(cs: seq<Link>, c: char): (r: Option<nat>)
    ensures r.Some? ==> exists j :: 0 <= j < |cs| && cs[j] == (c, r.value)
    ensures r.None? ==> forall j :: 0 <= j < |cs| ==> cs[j].0 != c
  {
    if cs == [] then None
    else if cs[0].0 == c then Some(cs[0].1)
    else Lookup(cs[1..], c)
  }

  /** `children.set(ch, node)`: an existing key keeps its position. */
  function SetLink(cs: seq<Link>, c: char, y: nat): (r: seq<Link>)
    ensures Lookup(r, c) == Some(y)
    ensures forall d {:trigger Lookup(r, d)} :: d != c ==> Lookup(r, d) == Lookup(cs, d)
    ensures Lookup(cs, c).None? ==> r == cs + [(c, y)]
    ensures Lookup(cs, c).Some? ==> |r| == |cs|
    ensures Lookup(cs, c).Some? ==>
      forall j :: 0 <= j < |cs| ==> r[j].0 == cs[j].0 && (r[j] == cs[j] || r[j] == (c, y))
  {
    if cs == [] then [(c, y)]
    else if cs[0].0 == c then [(c, y)] + cs[1..]
    else
      assert forall d :: d != cs[0].0 ==> Lookup(cs, d) == Lookup(cs[1..], d);
      [cs[0]] + SetLink(cs[1..], c, y)
  }

  /** `node.getChild(ch)` on the node with id `x`. */
  function ChildOf(nodes: seq<Node>, x: nat, c: char): Option<nat>
  {
    if x < |nodes| then Lookup(nodes[x].children, c) else None
  }

  /** The node reached from `x` by following the symbols of `w`, if any. */
  function Reach(nodes: seq<Node>, x: nat, w: Word): Option<nat>
    decreases |w|
  {
    if w == [] then Some(x)
    else match ChildOf(nodes, x, w[0])
      case None => None
      case Some(y) => Reach(nodes, y, w[1..])
  }

  /** `w` is in the language of node `x`: the walk along `w` ends at a final node. */
  predicate Accepts(nodes: seq<Node>, x: nat, w: Word)
    decreases |w|
  {
    if w == [] then x < |nodes| && nodes[x].final
    else match ChildOf(nodes, x, w[0])
      case None => false
      case Some(y) => Accepts(nodes, y, w[1..])
  }

  /** Every link points into the arena. */
  ghost predicate Closed(nodes: seq<Node>)
  {
    forall x, j :: 0 <= x < |nodes| && 0 <= j < |nodes[x].children| ==> nodes[x].children[j].1 < |nodes|
  }

  /** Links of each node are in strictly increasing symbol order (so symbols are distinct). */
  ghost predicate SortedLinks(cs: seq<Link>)
  {
    forall i, j :: 0 <= i < j < |cs| ==> cs[i].0 < cs[j].0
  }

  /** Every node's links are sorted, as `Map` keys are distinct. */
  ghost predicate AllSorted(nodes: seq<Node>)
  {
    forall x :: 0 <= x < |nodes| ==> SortedLinks(nodes[x].children)
  }

  /** Two arenas that agree on every node's links and finality. */
  ghost predicate SameShape(a: seq<Node>, b: seq<Node>)
  {
    |a| == |b| && forall x :: 0 <= x < |a| ==> KeyOf(a[x]) == KeyOf(b[x])
  }

  lemma {:induction false} AcceptsIsReachFinal(nodes: seq<Node>, x: nat, w: Word)
    ensures Accepts(nodes, x, w) <==>
      (Reach(nodes, x, w).Some? && Reach(nodes, x, w).value < |nodes| && nodes[Reach(nodes, x, w).value].final)
    decreases |w|
  {
    if w != [] {
      match ChildOf(nodes, x, w[0])
      case None =>
      case Some(y) => AcceptsIsReachFinal(nodes, y, w[1..]);
    }
  }

  /** Walking `u + v` is walking `u`, then `v`. */
  lemma {:induction false} ReachAppend(nodes: seq<Node>, x: nat, u: Word, v: Word)
    ensures Reach(nodes, x, u + v) ==
      match Reach(nodes, x, u) case None => None case Some(y) => Reach(nodes, y, v)
    decreases |u|
  {
    if u == [] {
      assert u + v == v;
    } else {
      assert (u + v)[0] == u[0] && (u + v)[1..] == u[1..] + v;
      match ChildOf(nodes, x, u[0])
      case None =>
      case Some(y) => ReachAppend(nodes, y, u[1..], v);
    }
  }

  lemma {:induction false} ReachSnoc(nodes: seq<Node>, x: nat, u: Word, c: char)
    ensures Reach(nodes, x, u + [c]) ==
      match Reach(nodes, x, u) case None => None case Some(y) => ChildOf(nodes, y, c)
  {
    ReachAppend(nodes, x, u, [c]);
    match Reach(nodes, x, u)
    case None =>
    case Some(y) =>
      assert Reach(nodes, y, [c]) == ChildOf(nodes, y, c) by {
        assert [c][1..] == [];
      }
  }

  /** Nodes with equal keys have equal languages. */
  lemma {:induction false} SameKeySameLanguage(nodes: seq<Node>, a: nat, b: nat, w: Word)
    requires a < |nodes| && b < |nodes| && KeyOf(nodes[a]) == KeyOf(nodes[b])
    ensures Accepts(nodes, a, w) == Accepts(nodes, b, w)
  {
  }

  /** The language depends on links and finality only, not on the memo fields. */
  lemma {:induction false} SameShapeAccepts(a: seq<Node>, b: seq<Node>, x: nat, w: Word)
    requires SameShape(a, b)
    ensures Accepts(a, x, w) == Accepts(b, x, w)
    ensures Reach(a, x, w) == Reach(b, x, w)
    decreases |w|
  {
    if w != [] {
      if x < |a| {
        assert KeyOf(a[x]) == KeyOf(b[x]);
      }
      assert ChildOf(a, x, w[0]) == ChildOf(b, x, w[0]);
      match ChildOf(a, x, w[0])
      case None =>
      case Some(y) => SameShapeAccepts(a, b, y, w[1..]);
    }
  }

  /** `parent.setChild(ch, minimizedNode)`: the arena after a redirect. */
  function Redirect(nodes: seq<Node>, p: nat, c: char, m: nat): (r: seq<Node>)
    ensures |r| == |nodes|
  {
    if p < |nodes| then nodes[p := nodes[p].(children := SetLink(nodes[p].children, c, m))] else nodes
  }

  /**
   * Redirecting a link from `o` to `m`, a node with the same key, changes
   * the language of no node.
   */
  lemma {:induction false} RedirectKeepsLanguage(nodes: seq<Node>, p: nat, c: char, o: nat, m: nat, x: nat, w: Word)
    requires p < |nodes| && o < |nodes| && m < |nodes|
    requires ChildOf(nodes, p, c) == Some(o) && KeyOf(nodes[o]) == KeyOf(nodes[m])
    ensures Accepts(Redirect(nodes, p, c, m), x, w) == Accepts(nodes, x, w)
    decreases |w|
  {
    var r := Redirect(nodes, p, c, m);
    if w != [] {
      if x == p && w[0] == c {
        assert ChildOf(r, x, w[0]) == Some(m);
        RedirectKeepsLanguage(nodes, p, c, o, m, m, w[1..]);
        SameKeySameLanguage(nodes, o, m, w[1..]);
      } else {
        assert ChildOf(r, x, w[0]) == ChildOf(nodes, x, w[0]);
        match ChildOf(nodes, x, w[0])
        case None =>
        case Some(y) => RedirectKeepsLanguage(nodes, p, c, o, m, y, w[1..]);
      }
    }
  }

  /** `node.setChild(ch, child)` with `child = new Node()`: the arena grows by one. */
  function AddLeaf(nodes: seq<Node>, p: nat, c: char): (r: seq<Node>)
    requires p < |nodes|
    ensures |r| == |nodes| + 1
  {
    nodes[p := nodes[p].(children := SetLink(nodes[p].children, c, |nodes|))] + [FreshNode]
  }

  /** Hanging a fresh, non-final node under a symbol that was free changes no language. */
  lemma {:induction false} AddLeafKeepsLanguage(nodes: seq<Node>, p: nat, c: char, x: nat, w: Word)
    requires p < |nodes| && ChildOf(nodes, p, c).None?
    ensures Accepts(AddLeaf(nodes, p, c), x, w) == Accepts(nodes, x, w)
    decreases |w|
  {
    var r := AddLeaf(nodes, p, c);
    if w == [] {
    } else if x == p && w[0] == c {
      assert ChildOf(r, x, w[0]) == Some(|nodes|);
      var rest := w[1..];
      if rest != [] {
        assert ChildOf(r, |nodes|, rest[0]).None?;
      }
    } else {
      if x < |nodes| {
        assert r[x].children == nodes[x].children || x == p;
      } else if x == |nodes| {
        assert r[x].children == [];
      }
      assert ChildOf(r, x, w[0]) == ChildOf(nodes, x, w[0]);
      match ChildOf(nodes, x, w[0])
      case None =>
      case Some(y) => AddLeafKeepsLanguage(nodes, p, c, y, w[1..]);
    }
  }

  /** `node.final = true`. */
  function MarkFinal(nodes: seq<Node>, z: nat): (r: seq<Node>)
    ensures |r| == |nodes|
  {
    if z < |nodes| then nodes[z := nodes[z].(final := true)] else nodes
  }

  /** Marking `z` final adds exactly the words whose walk ends at `z`. */
  lemma {:induction false} MarkFinalLanguage(nodes: seq<Node>, z: nat, x: nat, w: Word)
    requires z < |nodes|
    ensures Reach(MarkFinal(nodes, z), x, w) == Reach(nodes, x, w)
    ensures Accepts(MarkFinal(nodes, z), x, w) == (Accepts(nodes, x, w) || Reach(nodes, x, w) == Some(z))
    decreases |w|
  {
    var r := MarkFinal(nodes, z);
    if w != [] {
      assert ChildOf(r, x, w[0]) == ChildOf(nodes, x, w[0]);
      match ChildOf(nodes, x, w[0])
      case None =>
      case Some(y) => MarkFinalLanguage(nodes, z, y, w[1..]);
    }
  }

  /** The tail of a sorted link list is sorted. */
  lemma {:induction false} SortedTail(cs: seq<Link>)
    requires SortedLinks(cs) && cs != []
    ensures SortedLinks(cs[1..])
  {
    var t := cs[1..];
    forall i, j | 0 <= i < j < |t| ensures t[i].0 < t[j].0 {
      assert t[i] == cs[i + 1] && t[j] == cs[j + 1];
    }
  }

  /** In a sorted link list the last symbol leads to the last target. */
  lemma {:induction false} LookupLast(cs: seq<Link>)
    requires SortedLinks(cs) && cs != []
    ensures Lookup(cs, cs[|cs| - 1].0) == Some(cs[|cs| - 1].1)
  {
    if |cs| > 1 {
      assert cs[0].0 < cs[|cs| - 1].0;
      var t := cs[1..];
      SortedTail(cs);
      LookupLast(t);
      assert t[|t| - 1] == cs[|cs| - 1];
    }
  }

  /** Setting the last symbol of a sorted link list replaces its target in place. */
  lemma {:induction false} SetLinkLast(cs: seq<Link>, y: nat)
    requires SortedLinks(cs) && cs != []
    ensures SetLink(cs, cs[|cs| - 1].0, y) == cs[..|cs| - 1] + [(cs[|cs| - 1].0, y)]
  {
    LookupLast(cs);
    var n, c := |cs|, cs[|cs| - 1].0;
    assert forall j :: 0 <= j < n - 1 ==> cs[j].0 < c;
    SetLinkLastBelow(cs, y);
  }

  lemma {:induction false} SetLinkLastBelow(cs: seq<Link>, y: nat)
    requires cs != [] && Lookup(cs, cs[|cs| - 1].0).Some?
    requires forall j :: 0 <= j < |cs| - 1 ==> cs[j].0 < cs[|cs| - 1].0
    ensures SetLink(cs, cs[|cs| - 1].0, y) == cs[..|cs| - 1] + [(cs[|cs| - 1].0, y)]
  {
    var c := cs[|cs| - 1].0;
    var r := SetLink(cs, c, y);
    assert exists k :: 0 <= k < |r| && r[k] == (c, y);
    LastReplaced(cs, r, (c, y));
  }

  /**
   * A list that keeps the symbols of `cs`, changes only links to `l`, and
   * holds `l` somewhere, when only the last symbol of `cs` is `l.0`.
   */
  lemma {:induction false} LastReplaced(cs: seq<Link>, r: seq<Link>, l: Link)
    requires |r| == |cs| > 0 && l.0 == cs[|cs| - 1].0
    requires forall j :: 0 <= j < |cs| - 1 ==> cs[j].0 < l.0
    requires forall j :: 0 <= j < |cs| ==> r[j].0 == cs[j].0 && (r[j] == cs[j] || r[j] == l)
    requires exists k :: 0 <= k < |r| && r[k] == l
    ensures r == cs[..|cs| - 1] + [l]
  {
    var n := |cs|;
    var k :| 0 <= k < |r| && r[k] == l;
    assert k == n - 1;
    var e := cs[..n - 1] + [l];
    forall j | 0 <= j < n ensures r[j] == e[j] {
      if j < n - 1 {
        assert cs[j].0 < l.0 && e[j] == cs[j];
      }
    }
  }
}
