// What `Node.resolve` computes (src/dawg.ts:216-228): the number of words
// in the language of a node, summed over its children in `Map` order. The
// recursion terminates because the graph is acyclic, which a ghost rank
// witnesses: every node with a positive rank has children of smaller,
// positive rank.
module Counting {
  import opened Words
  import opened Arena

  ghost predicate Ranked(g: seq<Node>, rank: seq<nat>)
  {
    && |rank| == |g|
    && forall x, j :: 0 <= x < |g| && rank[x] > 0 && 0 <= j < |g[x].children| ==>
         g[x].children[j].1 < |g| && 0 < rank[g[x].children[j].1] < rank[x]
  }

  /** The value `resolve` leaves in `wordsCount`: one for a final node, plus the children's counts. */
  ghost function Count(g: seq<Node>, rank: seq<nat>, x: nat): nat
    requires Ranked(g, rank) && x < |g| && rank[x] > 0
    decreases rank[x], 1, 0
  {
    (if g[x].final then 1 else 0) + SumCounts(g, rank, x, |g[x].children|)
  }

  /** The counts of the first `n` children of `x`. */
  ghost function SumCounts(g: seq<Node>, rank: seq<nat>, x: nat, n: nat): nat
    requires Ranked(g, rank) && x < |g| && rank[x] > 0 && n <= |g[x].children|
    decreases rank[x], 0, n
  {
    if n == 0 then 0 else SumCounts(g, rank, x, n - 1) + Count(g, rank, g[x].children[n - 1].1)
  }

  ghost function Prepend(c: char, s: set<Word>): set<Word>
  {
    set w | w in s :: [c] + w
  }

  /** The language of `x`, built the same way as `Count`. */
  ghost function Lang(g: seq<Node>, rank: seq<nat>, x: nat): set<Word>
    requires Ranked(g, rank) && x < |g| && rank[x] > 0
    decreases rank[x], 1, 0
  {
    (if g[x].final then {[]} else {}) + LangLinks(g, rank, x, |g[x].children|)
  }

  ghost function LangLinks(g: seq<Node>, rank: seq<nat>, x: nat, n: nat): set<Word>
    requires Ranked(g, rank) && x < |g| && rank[x] > 0 && n <= |g[x].children|
    decreases rank[x], 0, n
  {
    if n == 0 then {}
    else
      var l := g[x].children[n - 1];
      LangLinks(g, rank, x, n - 1) + Prepend(l.0, Lang(g, rank, l.1))
  }

  lemma {:induction false} PrependMember(c: char, s: set<Word>, w: Word)
    ensures w in Prepend(c, s) <==> w != [] && w[0] == c && w[1..] in s
  {
    if w != [] && w[0] == c && w[1..] in s {
      assert w == [c] + w[1..];
    }
    if w in Prepend(c, s) {
      var v :| v in s && w == [c] + v;
      assert w[1..] == v;
    }
  }

  lemma {:induction false} PrependCard(c: char, s: set<Word>)
    ensures |Prepend(c, s)| == |s|
    decreases |s|
  {
    if s != {} {
      var w :| w in s;
      var s' := s - {w};
      PrependCard(c, s');
      assert Prepend(c, s) == Prepend(c, s') + {[c] + w};
      assert ([c] + w)[1..] == w;
      PrependMember(c, s', [c] + w);
    }
  }

  /** Every word that leaves `x` by one of its first `n` links starts with that link's symbol. */
  lemma {:induction false} LangLinksStart(g: seq<Node>, rank: seq<nat>, x: nat, n: nat, w: Word)
    requires Ranked(g, rank) && x < |g| && rank[x] > 0 && n <= |g[x].children|
    requires w in LangLinks(g, rank, x, n)
    ensures w != [] && exists k :: 0 <= k < n && g[x].children[k].0 == w[0]
  {
    var l := g[x].children[n - 1];
    if w !in LangLinks(g, rank, x, n - 1) {
      PrependMember(l.0, Lang(g, rank, l.1), w);
      assert g[x].children[n - 1].0 == w[0];
    } else {
      LangLinksStart(g, rank, x, n - 1, w);
    }
  }

  lemma {:induction false} LookupSnoc(cs: seq<Link>, l: Link, c: char)
    ensures Lookup(cs + [l], c) ==
      if Lookup(cs, c).Some? then Lookup(cs, c) else if l.0 == c then Some(l.1) else None
  {
    if cs == [] {
      assert [l][1..] == [];
    } else {
      assert (cs + [l])[0] == cs[0] && (cs + [l])[1..] == cs[1..] + [l];
      LookupSnoc(cs[1..], l, c);
    }
  }

  lemma {:induction false} LangLinksMember(g: seq<Node>, rank: seq<nat>, x: nat, n: nat, w: Word)
    requires Ranked(g, rank) && x < |g| && rank[x] > 0 && n <= |g[x].children| && SortedLinks(g[x].children)
    ensures var cs := g[x].children;
      w in LangLinks(g, rank, x, n) <==>
        w != [] && Lookup(cs[..n], w[0]).Some? && w[1..] in Lang(g, rank, Lookup(cs[..n], w[0]).value)
  {
    var cs := g[x].children;
    if n > 0 {
      var l := cs[n - 1];
      LangLinksMember(g, rank, x, n - 1, w);
      PrependMember(l.0, Lang(g, rank, l.1), w);
      assert cs[..n] == cs[..n - 1] + [l];
      if w != [] {
        LookupSnoc(cs[..n - 1], l, w[0]);
        if l.0 == w[0] {
          var front := cs[..n - 1];
          forall j | 0 <= j < |front| ensures front[j].0 != w[0] {
            assert front[j] == cs[j];
          }
        }
      }
    }
  }

  /** `Lang` is the language `Accepts` defines. */
  lemma {:induction false} LangAccepts(g: seq<Node>, rank: seq<nat>, x: nat, w: Word)
    requires Ranked(g, rank) && AllSorted(g) && x < |g| && rank[x] > 0
    ensures w in Lang(g, rank, x) <==> Accepts(g, x, w)
    decreases |w|
  {
    var cs := g[x].children;
    LangLinksMember(g, rank, x, |cs|, w);
    assert cs[..|cs|] == cs;
    if w != [] {
      match Lookup(cs, w[0])
      case None =>
      case Some(y) =>
        var j :| 0 <= j < |cs| && cs[j] == (w[0], y);
        LangAccepts(g, rank, y, w[1..]);
    }
  }

  /** No word leaving by one of the first `n - 1` links also leaves by link `n - 1`, as symbols are sorted. */
  lemma {:induction false} LangLinksApart(g: seq<Node>, rank: seq<nat>, x: nat, n: nat)
    requires Ranked(g, rank) && AllSorted(g) && x < |g| && rank[x] > 0 && 0 < n <= |g[x].children|
    ensures LangLinks(g, rank, x, n - 1) !! Prepend(g[x].children[n - 1].0, Lang(g, rank, g[x].children[n - 1].1))
  {
    var cs := g[x].children;
    var l := cs[n - 1];
    forall w | w in LangLinks(g, rank, x, n - 1) ensures w !in Prepend(l.0, Lang(g, rank, l.1)) {
      LangLinksStart(g, rank, x, n - 1, w);
      var k :| 0 <= k < n - 1 && cs[k].0 == w[0];
      assert SortedLinks(cs);
      PrependMember(l.0, Lang(g, rank, l.1), w);
    }
  }

  lemma {:induction false} SumCountsCard(g: seq<Node>, rank: seq<nat>, x: nat, n: nat)
    requires Ranked(g, rank) && AllSorted(g) && x < |g| && rank[x] > 0 && n <= |g[x].children|
    ensures |LangLinks(g, rank, x, n)| == SumCounts(g, rank, x, n)
    decreases rank[x], 0, n
  {
    if n > 0 {
      var l := g[x].children[n - 1];
      var a, b := LangLinks(g, rank, x, n - 1), Prepend(l.0, Lang(g, rank, l.1));
      assert |a| == SumCounts(g, rank, x, n - 1) by {
        SumCountsCard(g, rank, x, n - 1);
      }
      assert |b| == Count(g, rank, l.1) by {
        CountCard(g, rank, l.1);
        PrependCard(l.0, Lang(g, rank, l.1));
      }
      LangLinksApart(g, rank, x, n);
      DisjointCard(LangLinks(g, rank, x, n), a, b, SumCounts(g, rank, x, n));
    }
  }

  lemma {:induction false} DisjointCard(u: set<Word>, a: set<Word>, b: set<Word>, k: int)
    requires u == a + b && a !! b && k == |a| + |b|
    ensures |u| == k
  {
    assert a * b == {};
  }

  /** The count `resolve` stores is the number of words in the node's language. */
  lemma {:induction false} CountCard(g: seq<Node>, rank: seq<nat>, x: nat)
    requires Ranked(g, rank) && AllSorted(g) && x < |g| && rank[x] > 0
    ensures |Lang(g, rank, x)| == Count(g, rank, x)
    decreases rank[x], 1, 0
  {
    var n := |g[x].children|;
    SumCountsCard(g, rank, x, n);
    if [] in LangLinks(g, rank, x, n) {
      LangLinksStart(g, rank, x, n, []);
    }
  }

  /**
   * The memo fields of `nodes` agree with `Count` on `g`, the arena with
   * the same links and finality: a node marked resolved holds its count.
   */
  ghost predicate Memo(nodes: seq<Node>, g: seq<Node>, rank: seq<nat>)
  {
    && Ranked(g, rank)
    && |nodes| == |g|
    && forall y :: 0 <= y < |nodes| && nodes[y].resolved ==> rank[y] > 0 && nodes[y].wordsCount == Count(g, rank, y)
  }
}
