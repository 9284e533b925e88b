// The builder of src/dawg.ts:104-180, with the node operations of
// src/dawg.ts:182-230 that it runs: the graph is the arena `nodes`, node 0
// is `root`, and a `Node` method on node `x` becomes a builder method that
// takes `x`. The ghost fields are proof state: the rank that witnesses
// acyclicity, how many nodes are closed, and the words inserted so far.
module Builder {
  import opened Words
  import opened Arena
  import opened Keys
  import opened Counting
  import opened Construction
  import opened Query

  /** The distinct words of `ws` that survive the blank filter of `build`. */
  ghost function Kept(ws: seq<Word>): set<Word>
  {
    set w | w in ws && !IsBlank(w)
  }

  /** The words `build` hydrates: sorted, none empty, and exactly the kept ones. */
  lemma {:induction false} SortedKept(buffer: seq<Word>)
    ensures Sorted(SortWords(NonBlank(buffer)))
    ensures forall k :: 0 <= k < |SortWords(NonBlank(buffer))| ==> SortWords(NonBlank(buffer))[k] != []
    ensures (set w | w in SortWords(NonBlank(buffer))) == Kept(buffer)
    ensures Kept(buffer) == {} ==> SortWords(NonBlank(buffer)) == []
  {
    var kept := NonBlank(buffer);
    var sorted := SortWords(kept);
    SortWordsSorted(kept);
    assert forall w :: w in sorted <==> w in kept by {
      forall w ensures w in sorted <==> w in kept {
        assert w in sorted <==> w in multiset(sorted);
        assert w in kept <==> w in multiset(kept);
      }
    }
    forall k | 0 <= k < |sorted| ensures sorted[k] != [] {
      assert sorted[k] in kept;
    }
    NoMembersEmpty(sorted);
  }

  /** A sequence with no members is empty. */
  lemma NoMembersEmpty(s: seq<Word>)
    ensures (set w | w in s) == {} ==> s == []
  {
    if s != [] {
      var members := set w | w in s;
      assert s[0] in members;
      assert members != {};
    }
  }

  /**
   * After `i - start` turns of the loop in `hydrate` that started from
   * arena `nodes0` and stack `edges0`: the old edges stay, and each new
   * edge leads to a fresh node appended to the arena; of the old nodes only
   * the old tip may have changed.
   */
  ghost predicate Hung(nodes0: seq<Node>, edges0: seq<Edge>, start: nat, i: nat, nodes: seq<Node>, edges: seq<Edge>)
  {
    && start <= i && |edges0| == start
    && |edges| == i && edges[..start] == edges0
    && |nodes| == |nodes0| + (i - start)
    && (forall j :: start <= j < i ==> edges[j].child == |nodes0| + (j - start))
    && (forall x :: 0 <= x < |nodes0| && x != Tip(edges0) ==> nodes[x] == nodes0[x])
  }

  /** The tip is the old tip, or a node appended since. */
  lemma HungTip(nodes0: seq<Node>, edges0: seq<Edge>, start: nat, i: nat, nodes: seq<Node>, edges: seq<Edge>)
    requires Hung(nodes0, edges0, start, i, nodes, edges)
    ensures Tip(edges) == Tip(edges0) || Tip(edges) >= |nodes0|
  {
    if i == start {
      assert edges == edges[..start];
    }
  }

  /** One more fresh child hung under the current tip keeps `Hung`. */
  lemma HungStep(nodes0: seq<Node>, edges0: seq<Edge>, start: nat, i: nat, nodes: seq<Node>, edges: seq<Edge>, c: char)
    requires Hung(nodes0, edges0, start, i, nodes, edges) && Tip(edges) < |nodes|
    ensures Hung(nodes0, edges0, start, i + 1, AddLeaf(nodes, Tip(edges), c), edges + [Edge(Tip(edges), |nodes|, c)])
  {
    HungTip(nodes0, edges0, start, i, nodes, edges);
    var edges' := edges + [Edge(Tip(edges), |nodes|, c)];
    assert edges'[..start] == edges[..start];
  }

  class DawgBuilder {
    var nodes: seq<Node>
    var prevWord: Word
    var uncheckedEdges: seq<Edge>
    var minimizedNodes: map<string, nat>
    var wordBuffer: seq<Word>
    ghost var rank: seq<nat>
    ghost var frozen: nat
    ghost var words: set<Word>

    /**
     * Between two words: the unchecked edges spell `prevWord` from the
     * root and end at a leaf, the registry holds closed nodes under their
     * key strings, and the root's language is the set of words hydrated.
     */
    ghost predicate Valid()
      reads this`nodes, this`prevWord, this`uncheckedEdges, this`minimizedNodes, this`rank, this`frozen, this`words
    {
      && Sealed(nodes, uncheckedEdges, prevWord, minimizedNodes, rank, frozen, words)
      && nodes[Tip(uncheckedEdges)].children == []
    }

    constructor ()
      ensures Valid() && words == {}
      ensures nodes == [FreshNode] && prevWord == [] && uncheckedEdges == [] && minimizedNodes == map[] && wordBuffer == []
    {
      nodes := [FreshNode];
      prevWord := [];
      uncheckedEdges := [];
      minimizedNodes := map[];
      wordBuffer := [];
      rank := [0];
      frozen := 0;
      words := {};
      InitialSealed();
    }

    /** `add(word)`: the word is only buffered. */
    method Add(word: Word)
      modifies this`wordBuffer
      ensures wordBuffer == old(wordBuffer) + [word]
    {
      wordBuffer := wordBuffer + [word];
    }

    /** `createKey()` of node `x`. */
    method CreateKey(x: nat) returns (v: string)
      requires x < |nodes|
      ensures v == KeyString(nodes[x])
    {
      var cs := nodes[x].children;
      v := "";
      for i := 0 to |cs|
        invariant v == LinksString(cs[..i])
      {
        LinksStringSnoc(cs[..i], cs[i]);
        assert cs[..i + 1] == cs[..i] + [cs[i]];
        v := v + "_" + [cs[i].0] + ":" + Numeral(cs[i].1);
      }
      assert cs[..|cs|] == cs;
      if nodes[x].final {
        v := v + "!";
      }
    }

    /** The first loop of `hydrate`: the length of the common prefix of `word` and `prevWord`. */
    method CommonPrefixLength(word: Word) returns (prefixLength: nat)
      ensures IsCommonPrefixLength(prevWord, word, prefixLength)
    {
      prefixLength := 0;
      for i := 0 to |word|
        invariant prefixLength == i <= |prevWord| && word[..i] == prevWord[..i]
      {
        // `prevWord[i]` is `undefined` past its end
        if i >= |prevWord| || word[i] != prevWord[i] {
          break;
        }
        assert word[..i + 1] == word[..i] + [word[i]] && prevWord[..i + 1] == prevWord[..i] + [prevWord[i]];
        prefixLength := prefixLength + 1;
      }
    }

    /**
     * `minimize(edge)` for the deepest edge of `stack`, the path the edge
     * belongs to: the parent's link is pointed at the registered node with
     * the child's key, or the child is registered under its key.
     */
    method Minimize(edge: Edge, ghost stack: seq<Edge>, ghost spw: Word)
      requires Sealed(nodes, stack, spw, minimizedNodes, rank, frozen, words) && stack != [] && edge == stack[|stack| - 1]
      requires edge.child < |nodes|
      modifies this`nodes, this`minimizedNodes, this`rank, this`frozen
      ensures MinimizeTransition(old(nodes), edge, old(minimizedNodes), nodes, minimizedNodes)
      ensures rank == old(rank)[edge.child := old(frozen) + 1] && frozen == old(frozen) + 1
      ensures Sealed(nodes, stack[..|stack| - 1], spw[..|stack| - 1], minimizedNodes, rank, frozen, words)
      ensures nodes[Tip(stack[..|stack| - 1])].children != []
      ensures LastLink(nodes[Tip(stack[..|stack| - 1])].children).0 == spw[|stack| - 1]
      ensures forall x, w :: Accepts(nodes, x, w) == Accepts(old(nodes), x, w)
    {
      var key := CreateKey(edge.child);
      if key in minimizedNodes {
        nodes := Redirect(nodes, edge.parent, edge.ch, minimizedNodes[key]);
      } else {
        minimizedNodes := minimizedNodes[key := edge.child];
      }
      rank := rank[edge.child := frozen + 1];
      frozen := frozen + 1;
      MinimizeSealed(old(nodes), stack, spw, old(minimizedNodes), old(rank), old(frozen), words,
                     nodes, stack[..|stack| - 1], spw[..|stack| - 1], minimizedNodes, rank, frozen);
    }

    /**
     * `for (const edge of this.uncheckedEdges.splice(n).reverse()) this.minimize(edge)`,
     * as in `hydrate` and `build`: the edges past the first `n` leave the
     * stack and are minimized deepest first.
     */
    method MinimizeFrom(n: nat)
      requires Sealed(nodes, uncheckedEdges, prevWord, minimizedNodes, rank, frozen, words) && n <= |uncheckedEdges|
      modifies this`nodes, this`minimizedNodes, this`rank, this`frozen, this`uncheckedEdges
      ensures uncheckedEdges == old(uncheckedEdges[..n])
      ensures Sealed(nodes, uncheckedEdges, prevWord[..n], minimizedNodes, rank, frozen, words)
      ensures frozen == old(frozen) + (old(|uncheckedEdges|) - n)
      ensures forall x, w :: Accepts(nodes, x, w) == Accepts(old(nodes), x, w)
      ensures n < old(|uncheckedEdges|) ==>
        nodes[Tip(uncheckedEdges)].children != [] && LastLink(nodes[Tip(uncheckedEdges)].children).0 == prevWord[n]
      ensures n == old(|uncheckedEdges|) ==> nodes == old(nodes) && minimizedNodes == old(minimizedNodes)
    {
      var popped := uncheckedEdges[n..];
      uncheckedEdges := uncheckedEdges[..n];
      var j := |popped|;
      // the path still to be minimized and the word it spells
      ghost var stack, spw := old(uncheckedEdges), prevWord;
      assert uncheckedEdges + popped[..j] == stack;
      while j > 0
        invariant 0 <= j <= |popped| && |prevWord| == n + |popped|
        invariant uncheckedEdges == old(uncheckedEdges[..n])
        invariant stack == uncheckedEdges + popped[..j] && spw == prevWord[..n + j]
        invariant Sealed(nodes, stack, spw, minimizedNodes, rank, frozen, words)
        invariant frozen == old(frozen) + (|popped| - j)
        invariant forall x, w :: Accepts(nodes, x, w) == Accepts(old(nodes), x, w)
        invariant j < |popped| ==>
          nodes[Tip(stack)].children != [] && LastLink(nodes[Tip(stack)].children).0 == prevWord[n + j]
        invariant j == |popped| ==> nodes == old(nodes) && minimizedNodes == old(minimizedNodes)
      {
        j := j - 1;
        assert stack[|stack| - 1] == popped[j];
        assert stack[..|stack| - 1] == uncheckedEdges + popped[..j];
        assert spw[..|stack| - 1] == prevWord[..n + j] && spw[|stack| - 1] == prevWord[n + j];
        DeepestSealed(nodes, stack, spw, minimizedNodes, rank, frozen, words);
        Minimize(popped[j], stack, spw);
        stack, spw := stack[..|stack| - 1], spw[..|stack| - 1];
      }
      assert uncheckedEdges + popped[..0] == uncheckedEdges;
    }

    /**
     * `hydrate(word)` for a word that sorts no earlier than the previous
     * one: the edges past the common prefix are minimized, fresh nodes
     * spell the rest of the word, and its last node becomes final.
     */
    method Hydrate(word: Word)
      requires Valid() && LexLe(prevWord, word)
      modifies this`nodes, this`minimizedNodes, this`rank, this`frozen, this`uncheckedEdges, this`prevWord, this`words
      ensures Valid()
      ensures word == [] ==> words == old(words) && prevWord == old(prevWord)
      ensures word == [] ==>
        nodes == old(nodes) && uncheckedEdges == old(uncheckedEdges) && minimizedNodes == old(minimizedNodes)
      ensures word != [] ==> words == old(words) + {word} && prevWord == word
      ensures word != [] ==> EdgesSpell(uncheckedEdges, word)
      ensures word != [] ==> forall n: nat :: IsCommonPrefixLength(old(prevWord), word, n) ==>
        uncheckedEdges[..n] == old(uncheckedEdges[..n])
    {
      if word == [] {
        return;
      }
      var prefixLength := CommonPrefixLength(word);
      SortedDivergence(prevWord, word, prefixLength);
      ghost var popping := prefixLength < |uncheckedEdges|;
      MinimizeFrom(prefixLength);
      assert prevWord[..prefixLength] == word[..prefixLength];
      if popping {
        OpenTipBelow(nodes, uncheckedEdges, word[..prefixLength], minimizedNodes, rank, frozen, words, word[prefixLength]);
      }
      Extend(word, prefixLength);
      Finish(word);
      Unseal(nodes, uncheckedEdges, prevWord, minimizedNodes, rank, frozen, words);
      StackShape(nodes, uncheckedEdges, prevWord, minimizedNodes, rank, frozen);
      forall n: nat | IsCommonPrefixLength(old(prevWord), word, n)
        ensures uncheckedEdges[..n] == old(uncheckedEdges[..n])
      {
        CommonPrefixLengthUnique(old(prevWord), word, n, prefixLength);
      }
    }

    /**
     * The loop of `hydrate(word)`, once the stack spells `word[..start]`:
     * from the tip (`uncheckedEdges[uncheckedEdges.length - 1]?.child ?? this.root`)
     * one fresh node per remaining symbol is hung and its edge pushed, so
     * the stack spells `word`.
     */
    method Extend(word: Word, start: nat)
      requires start <= |word| && Sealed(nodes, uncheckedEdges, word[..start], minimizedNodes, rank, frozen, words)
      requires start < |word| ==> LinksBelow(nodes[Tip(uncheckedEdges)].children, word[start])
      requires start == |word| ==> nodes[Tip(uncheckedEdges)].children == []
      modifies this`nodes, this`rank, this`uncheckedEdges
      ensures Sealed(nodes, uncheckedEdges, word, minimizedNodes, rank, frozen, words)
      ensures nodes[Tip(uncheckedEdges)].children == []
      ensures Hung(old(nodes), old(uncheckedEdges), start, |word|, nodes, uncheckedEdges)
    {
      var node := Tip(uncheckedEdges);
      ghost var nodes0, edges0 := nodes, uncheckedEdges;
      for i := start to |word|
        invariant Sealed(nodes, uncheckedEdges, word[..i], minimizedNodes, rank, frozen, words)
        invariant node == Tip(uncheckedEdges)
        invariant i < |word| ==> LinksBelow(nodes[node].children, word[i])
        invariant i == |word| ==> nodes[node].children == []
        invariant Hung(nodes0, edges0, start, i, nodes, uncheckedEdges)
      {
        HungStep(nodes0, edges0, start, i, nodes, uncheckedEdges, word[i]);
        node := Grow(word[..i], word[i]);
        TakeOneMore(word, i);
      }
      assert word[..|word|] == word;
    }

    /**
     * `node.final = true; this.prevWord = word` once the stack spells `word`:
     * the tip becomes final and the word joins the language.
     */
    method Finish(word: Word)
      requires Sealed(nodes, uncheckedEdges, word, minimizedNodes, rank, frozen, words)
      requires nodes[Tip(uncheckedEdges)].children == []
      modifies this`nodes, this`prevWord, this`words
      ensures nodes == MarkFinal(old(nodes), Tip(uncheckedEdges))
      ensures Valid() && words == old(words) + {word} && prevWord == word
    {
      ghost var nodes0 := nodes;
      nodes := MarkFinal(nodes, Tip(uncheckedEdges));
      prevWord := word;
      words := words + {word};
      FinalSealed(nodes0, uncheckedEdges, word, minimizedNodes, rank, frozen, old(words), nodes, prevWord, words);
    }

    /**
     * `const child = new Node(); node.setChild(ch, child)` at the tip, with the
     * new edge pushed on `uncheckedEdges`; the new child is the new tip.
     */
    method Grow(ghost pw: Word, c: char) returns (child: nat)
      requires Sealed(nodes, uncheckedEdges, pw, minimizedNodes, rank, frozen, words)
      requires LinksBelow(nodes[Tip(uncheckedEdges)].children, c)
      modifies this`nodes, this`rank, this`uncheckedEdges
      ensures child == old(|nodes|) && nodes == AddLeaf(old(nodes), old(Tip(uncheckedEdges)), c)
      ensures uncheckedEdges == old(uncheckedEdges) + [Edge(old(Tip(uncheckedEdges)), child, c)]
      ensures Sealed(nodes, uncheckedEdges, pw + [c], minimizedNodes, rank, frozen, words)
      ensures child == Tip(uncheckedEdges) && nodes[child].children == []
    {
      var node := Tip(uncheckedEdges);
      child := |nodes|;
      nodes := AddLeaf(nodes, node, c);
      uncheckedEdges := uncheckedEdges + [Edge(node, child, c)];
      rank := rank + [0];
      AddSealed(old(nodes), old(uncheckedEdges), pw, minimizedNodes, old(rank), frozen, words, c,
                nodes, uncheckedEdges, pw + [c], rank);
    }

    /**
     * `resolve()` on node `x`: afterwards `x` and every node below it hold
     * `Count`, computed on `g`, the arena's shape. A resolved node is left
     * as it is.
     */
    method Resolve(x: nat, ghost g: seq<Node>, ghost rk: seq<nat>)
      requires Memo(nodes, g, rk) && SameShape(nodes, g) && x < |nodes| && rk[x] > 0
      modifies this`nodes
      ensures Memo(nodes, g, rk) && SameShape(nodes, g)
      ensures nodes[x].resolved && nodes[x].wordsCount == Count(g, rk, x)
      ensures old(nodes[x].resolved) ==> nodes == old(nodes)
      decreases rk[x]
    {
      if nodes[x].resolved {
        return;
      }
      var cs := nodes[x].children;
      assert KeyOf(nodes[x]) == KeyOf(g[x]);
      var count := if nodes[x].final then 1 else 0;
      for j := 0 to |cs|
        invariant Memo(nodes, g, rk) && SameShape(nodes, g)
        invariant count == (if g[x].final then 1 else 0) + SumCounts(g, rk, x, j)
      {
        Resolve(cs[j].1, g, rk);
        count := count + nodes[cs[j].1].wordsCount;
      }
      assert KeyOf(nodes[x]) == KeyOf(g[x]);
      nodes := nodes[x := nodes[x].(wordsCount := count, resolved := true)];
      assert SameShape(nodes, g) by {
        forall y | 0 <= y < |nodes| ensures KeyOf(nodes[y]) == KeyOf(g[y]) {
          assert KeyOf(nodes[y]) == KeyOf(old(nodes)[y]) || y != x;
        }
      }
    }

    /**
     * `forEach(word => this.hydrate(word))` over the sorted words, none of
     * them empty: afterwards the root accepts them all besides those it
     * accepted before.
     */
    method HydrateAll(sorted: seq<Word>)
      requires Valid() && prevWord == [] && Sorted(sorted) && forall k :: 0 <= k < |sorted| ==> sorted[k] != []
      modifies this`nodes, this`minimizedNodes, this`rank, this`frozen, this`uncheckedEdges, this`prevWord, this`words
      ensures Valid() && words == old(words) + (set w | w in sorted)
      ensures sorted == [] ==> uncheckedEdges == old(uncheckedEdges) && minimizedNodes == old(minimizedNodes)
    {
      for k := 0 to |sorted|
        invariant Valid()
        invariant k == 0 ==> uncheckedEdges == old(uncheckedEdges) && minimizedNodes == old(minimizedNodes)
        invariant words == old(words) + (set w | w in sorted[..k])
        invariant prevWord == if k == 0 then [] else sorted[k - 1]
      {
        Hydrate(sorted[k]);
        assert sorted[..k + 1] == sorted[..k] + [sorted[k]];
      }
      assert sorted[..|sorted|] == sorted;
    }

    /**
     * `build()`: the buffered words that are not blank, sorted, are
     * hydrated in turn; the remaining edges are minimized, the root
     * resolves its count, and the graph is handed to a `Dawg` before the
     * builder is cleared. The graph accepts exactly the words added (and
     * any hydrated before), and `wordsCount` is how many distinct ones.
     * `nodesCount` is the size of `registered`, the registry as it was
     * before `clear`: distinct nodes of the graph, none of them the root,
     * each under its own key; with no word to insert it is the registry
     * the builder started with.
     */
    method Build() returns (dawg: Dawg, ghost registered: map<string, nat>)
      requires Valid() && prevWord == []
      modifies this
      ensures dawg.Valid() && dawg.nodes == nodes && dawg.root == Root
      ensures forall w :: Accepts(dawg.nodes, dawg.root, w) <==> w in old(words) || (w in old(wordBuffer) && !IsBlank(w))
      ensures dawg.wordsCount == |old(words) + Kept(old(wordBuffer))|
      ensures dawg.nodesCount == |registered| == |registered.Values| < |dawg.nodes|
      ensures Registers(dawg.nodes, registered) && Root !in registered.Values
      ensures Kept(old(wordBuffer)) == {} ==> registered == old(minimizedNodes)
      ensures prevWord == [] && uncheckedEdges == [] && minimizedNodes == map[] && wordBuffer == []
    {
      // `this.wordBuffer.splice(0).filter(word => word.trim() !== '').sort()`
      var buffer := wordBuffer;
      wordBuffer := [];
      var sorted := SortWords(NonBlank(buffer));
      SortedKept(buffer);
      HydrateAll(sorted);
      dawg, registered := Freeze();
    }

    /**
     * The second half of `build()`: minimize every unchecked edge, resolve the
     * counts from the root, wrap the graph in a `Dawg` and clear. The
     * `nodesCount` handed over is the size of `registered`, the registry
     * before `clear`.
     */
    method Freeze() returns (dawg: Dawg, ghost registered: map<string, nat>)
      requires Valid()
      modifies this`nodes, this`minimizedNodes, this`rank, this`frozen, this`uncheckedEdges, this`prevWord, this`wordBuffer
      ensures dawg.Valid() && dawg.nodes == nodes && dawg.root == Root
      ensures forall w :: Accepts(dawg.nodes, dawg.root, w) <==> w in words
      ensures dawg.wordsCount == |words|
      ensures dawg.nodesCount == |registered| == |registered.Values| < |dawg.nodes|
      ensures Registers(dawg.nodes, registered) && Root !in registered.Values
      ensures old(uncheckedEdges) == [] ==> registered == old(minimizedNodes)
      ensures prevWord == [] && uncheckedEdges == [] && minimizedNodes == map[] && wordBuffer == []
    {
      // `for (const edge of this.uncheckedEdges.splice(0).reverse()) this.minimize(edge)`
      MinimizeFrom(0);
      assert prevWord[..0] == [];
      ResolveRoot();
      registered := minimizedNodes;
      dawg := new Dawg(nodes, |minimizedNodes|);
      Clear();
    }

    /**
     * `this.root.resolve()` once every edge is minimized: the root's count
     * is the number of words in the graph. Only the memo fields change, so
     * the language and the registry's keys stay.
     */
    method ResolveRoot()
      requires Sealed(nodes, uncheckedEdges, [], minimizedNodes, rank, frozen, words) && uncheckedEdges == []
      modifies this`nodes
      ensures SameShape(nodes, old(nodes))
      ensures 0 < |nodes| && Closed(nodes) && nodes[Root].wordsCount == |words|
      ensures forall w :: Accepts(nodes, Root, w) <==> w in words
      ensures Registers(nodes, minimizedNodes) && Root !in minimizedNodes.Values
      ensures |minimizedNodes.Values| == |minimizedNodes| < |nodes|
    {
      DrainedSealed(nodes, uncheckedEdges, [], minimizedNodes, rank, frozen, words);
      ghost var g := nodes;
      ghost var rk := rank[Root := frozen + 1];
      Resolve(Root, g, rk);
      ResolvedCount(nodes, g, rk, words);
      RegistersSameShape(nodes, g, minimizedNodes);
    }

    /** `clear()`: the root and its graph stay. */
    method Clear()
      modifies this`prevWord, this`uncheckedEdges, this`minimizedNodes, this`wordBuffer
      ensures prevWord == [] && uncheckedEdges == [] && minimizedNodes == map[] && wordBuffer == []
    {
      prevWord := [];
      uncheckedEdges := [];
      minimizedNodes := map[];
      wordBuffer := [];
    }
  }

  /**
   * `createDawg(words)`: every word is added to a fresh builder, which then
   * builds. `registered` is the builder's registry before `clear`.
   */
  method CreateDawg(ws: seq<Word>) returns (dawg: Dawg, ghost registered: map<string, nat>)
    ensures dawg.Valid() && dawg.root == Root
    ensures forall w :: Accepts(dawg.nodes, dawg.root, w) <==> w in ws && !IsBlank(w)
    ensures dawg.wordsCount == |Kept(ws)|
    ensures dawg.nodesCount == |registered| == |registered.Values| < |dawg.nodes|
    ensures Registers(dawg.nodes, registered) && Root !in registered.Values
    ensures Kept(ws) == {} ==> dawg.nodesCount == 0
  {
    var builder := new DawgBuilder();
    for i := 0 to |ws|
      invariant builder.Valid() && builder.words == {} && builder.prevWord == [] && builder.wordBuffer == ws[..i]
      invariant builder.minimizedNodes == map[]
    {
      builder.Add(ws[i]);
      assert ws[..i + 1] == ws[..i] + [ws[i]];
    }
    assert ws[..|ws|] == ws;
    dawg, registered := builder.Build();
  }
}
