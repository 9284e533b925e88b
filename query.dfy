// The finished graph and its queries (src/dawg.ts:25-102). Every query is
// the `traverse` loop of src/dawg.ts:71-100 with its callback written
// inline: the loop keeps `node`, `strAcc`, `index` and the symbol `ch` the
// callback hands to `next`, and stops when no symbol is handed on or the
// child is missing. Each method is proved against a ghost function on the
// graph's language, and lemmas say what those functions contain.
module Query {
  import opened Words
  import opened Arena

  /** `u` is a prefix of `s`. */
  ghost predicate IsPrefix(u: Word, s: Word)
  {
    |u| <= |s| && s[..|u|] == u
  }

  /** Walking off the graph along `u` leaves it for every extension of `u`. */
  lemma {:induction false} ReachNoneExtends(nodes: seq<Node>, x: nat, u: Word, v: Word)
    requires Reach(nodes, x, u).None?
    ensures Reach(nodes, x, u + v).None? && !Accepts(nodes, x, u + v)
  {
    ReachAppend(nodes, x, u, v);
    AcceptsIsReachFinal(nodes, x, u + v);
  }

  /** The accepted prefixes `input[..k]` of `input` with `k < n`, shortest first. */
  ghost function PrefixesBelow(nodes: seq<Node>, x: nat, input: Word, n: nat): seq<Word>
    requires n <= |input| + 1
  {
    if n == 0 then []
    else PrefixesBelow(nodes, x, input, n - 1) + (if Accepts(nodes, x, input[..n - 1]) then [input[..n - 1]] else [])
  }

  /** What `getPrefixes(input)` returns. */
  ghost function AcceptedPrefixes(nodes: seq<Node>, x: nat, input: Word): seq<Word>
  {
    PrefixesBelow(nodes, x, input, |input| + 1)
  }

  /** Past a prefix that falls off the graph nothing more is collected. */
  lemma {:induction false} PrefixesBelowStall(nodes: seq<Node>, x: nat, input: Word, m: nat, n: nat)
    requires m <= n <= |input| + 1 && m <= |input| && Reach(nodes, x, input[..m]).None?
    ensures PrefixesBelow(nodes, x, input, n) == PrefixesBelow(nodes, x, input, m)
    decreases n
  {
    if n > m {
      PrefixesBelowStall(nodes, x, input, m, n - 1);
      assert input[..n - 1] == input[..m] + input[m..n - 1];
      ReachNoneExtends(nodes, x, input[..m], input[m..n - 1]);
    }
  }

  /** The collected prefixes are exactly the accepted words `input[..k]` with `k < n`. */
  lemma {:induction false} PrefixesBelowMember(nodes: seq<Node>, x: nat, input: Word, n: nat, w: Word)
    requires n <= |input| + 1
    ensures w in PrefixesBelow(nodes, x, input, n) <==> |w| < n && IsPrefix(w, input) && Accepts(nodes, x, w)
    decreases n
  {
    if n > 0 {
      PrefixesBelowMember(nodes, x, input, n - 1, w);
    }
  }

  /** Each word of `r` is a prefix of `input` shorter than `n`, and the lengths strictly increase. */
  ghost predicate ShortestFirst(r: seq<Word>, input: Word, n: nat)
  {
    && (forall i :: 0 <= i < |r| ==> |r[i]| < n && |r[i]| <= |input| && r[i] == input[..|r[i]|])
    && (forall i, j :: 0 <= i < j < |r| ==> |r[i]| < |r[j]|)
  }

  lemma {:induction false} PrefixesBelowIncreasing(nodes: seq<Node>, x: nat, input: Word, n: nat)
    requires n <= |input| + 1
    ensures ShortestFirst(PrefixesBelow(nodes, x, input, n), input, n)
    decreases n
  {
    if n > 0 {
      var r', r := PrefixesBelow(nodes, x, input, n - 1), PrefixesBelow(nodes, x, input, n);
      PrefixesBelowIncreasing(nodes, x, input, n - 1);
      assert ShortestFirst(r', input, n - 1);
      var last := input[..n - 1];
      assert |last| == n - 1 && input[..|last|] == last;
      assert r == r' + (if Accepts(nodes, x, last) then [last] else []);
      forall i | 0 <= i < |r| ensures |r[i]| < n && |r[i]| <= |input| && r[i] == input[..|r[i]|] {
        if i < |r'| {
          assert r[i] == r'[i];
        } else {
          assert r[i] == last;
        }
      }
      forall i, j | 0 <= i < j < |r| ensures |r[i]| < |r[j]| {
        assert r[i] == r'[i];
        if j < |r'| {
          assert r[j] == r'[j];
        } else {
          assert r[j] == last;
        }
      }
    }
  }

  /** `getPrefixes` returns the accepted prefixes of `input`, each `input[..k]`, shortest first. */
  lemma {:induction false} AcceptedPrefixesCorrect(nodes: seq<Node>, x: nat, input: Word)
    ensures var r := AcceptedPrefixes(nodes, x, input);
      forall w :: w in r <==> IsPrefix(w, input) && Accepts(nodes, x, w)
    ensures var r := AcceptedPrefixes(nodes, x, input);
      forall i :: 0 <= i < |r| ==> |r[i]| <= |input| && r[i] == input[..|r[i]|]
    ensures var r := AcceptedPrefixes(nodes, x, input);
      forall i, j :: 0 <= i < j < |r| ==> |r[i]| < |r[j]|
  {
    var r := AcceptedPrefixes(nodes, x, input);
    forall w ensures w in r <==> IsPrefix(w, input) && Accepts(nodes, x, w) {
      PrefixesBelowMember(nodes, x, input, |input| + 1, w);
    }
    PrefixesBelowIncreasing(nodes, x, input, |input| + 1);
    assert r == PrefixesBelow(nodes, x, input, |input| + 1);
  }

  /** The last element of a list of words, if any. */
  function LastOf(r: seq<Word>): Option<Word>
  {
    if r == [] then None else Some(r[|r| - 1])
  }

  /** One more step of the walk: the last collected prefix is the new one if it is accepted. */
  lemma {:induction false} PrefixesBelowLast(nodes: seq<Node>, x: nat, input: Word, n: nat)
    requires n <= |input|
    ensures LastOf(PrefixesBelow(nodes, x, input, n + 1)) ==
      if Accepts(nodes, x, input[..n]) then Some(input[..n]) else LastOf(PrefixesBelow(nodes, x, input, n))
  {
    var r := PrefixesBelow(nodes, x, input, n);
    if Accepts(nodes, x, input[..n]) {
      assert PrefixesBelow(nodes, x, input, n + 1) == r + [input[..n]];
    } else {
      assert PrefixesBelow(nodes, x, input, n + 1) == r;
    }
  }

  /** The last accepted prefix is the longest one. */
  lemma {:induction false} LastIsLongest(nodes: seq<Node>, x: nat, input: Word)
    requires AcceptedPrefixes(nodes, x, input) != []
    ensures var r := AcceptedPrefixes(nodes, x, input); var p := r[|r| - 1];
      && IsPrefix(p, input) && Accepts(nodes, x, p)
      && forall u :: IsPrefix(u, input) && Accepts(nodes, x, u) ==> |u| <= |p|
  {
    var r := AcceptedPrefixes(nodes, x, input);
    AcceptedPrefixesCorrect(nodes, x, input);
    forall u | IsPrefix(u, input) && Accepts(nodes, x, u) ensures |u| <= |r[|r| - 1]| {
      var i :| 0 <= i < |r| && r[i] == u;
      if i < |r| - 1 {
        assert |r[i]| < |r[|r| - 1]|;
      }
    }
  }

  /** The last accepted prefix, if any, is the longest; if there is none, no prefix is accepted. */
  lemma {:induction false} LongestPrefixCorrect(nodes: seq<Node>, x: nat, input: Word)
    ensures var p := LastOf(AcceptedPrefixes(nodes, x, input));
      p.None? ==> forall u :: IsPrefix(u, input) ==> !Accepts(nodes, x, u)
    ensures var p := LastOf(AcceptedPrefixes(nodes, x, input));
      p.Some? ==> IsPrefix(p.value, input) && Accepts(nodes, x, p.value)
    ensures var p := LastOf(AcceptedPrefixes(nodes, x, input));
      p.Some? ==> forall u :: IsPrefix(u, input) && Accepts(nodes, x, u) ==> |u| <= |p.value|
  {
    AcceptedPrefixesCorrect(nodes, x, input);
    if AcceptedPrefixes(nodes, x, input) != [] {
      LastIsLongest(nodes, x, input);
    }
  }

  /** What `getSubstrings(input)` collects over the first `n` offsets. */
  ghost function SubstringsBelow(nodes: seq<Node>, x: nat, input: Word, n: nat): seq<Word>
    requires n <= |input|
  {
    if n == 0 then [] else SubstringsBelow(nodes, x, input, n - 1) + AcceptedPrefixes(nodes, x, input[n - 1..])
  }

  /** The words `getSubstrings` reports are the accepted words that occur in `input` at an offset below `n`. */
  lemma {:induction false} SubstringsBelowMember(nodes: seq<Node>, x: nat, input: Word, n: nat, w: Word)
    requires n <= |input|
    ensures w in SubstringsBelow(nodes, x, input, n) <==>
      Accepts(nodes, x, w) && exists i :: 0 <= i < n && IsPrefix(w, input[i..])
    decreases n
  {
    if n > 0 {
      SubstringsBelowMember(nodes, x, input, n - 1, w);
      AcceptedPrefixesCorrect(nodes, x, input[n - 1..]);
      if Accepts(nodes, x, w) && (exists i :: 0 <= i < n && IsPrefix(w, input[i..])) {
        var i :| 0 <= i < n && IsPrefix(w, input[i..]);
        if i < n - 1 {
          assert exists i' :: 0 <= i' < n - 1 && IsPrefix(w, input[i'..]);
        }
      }
    }
  }

  /** The graph a build hands out: an arena of nodes and its root. */
  class Dawg {
    const nodes: seq<Node>
    const root: nat
    const wordsCount: nat
    const nodesCount: nat

    ghost predicate Valid()
    {
      root < |nodes| && Closed(nodes)
    }

    /**
     * `new Dawg(builder)`: the builder's root (here its arena, rooted at
     * node 0), the root's memoised count and the size of the registry.
     */
    constructor (arena: seq<Node>, registrySize: nat)
      requires 0 < |arena| && Closed(arena)
      ensures Valid()
      ensures nodes == arena && root == 0 && wordsCount == arena[0].wordsCount && nodesCount == registrySize
    {
      nodes := arena;
      root := 0;
      wordsCount := arena[0].wordsCount;
      nodesCount := registrySize;
    }

    /** `node.getChild(ch)` inside `traverse`: the step keeps `node` inside the arena. */
    lemma {:induction false} StepInArena(y: nat, c: char)
      requires Valid() && y < |nodes|
      ensures ChildOf(nodes, y, c).Some? ==> ChildOf(nodes, y, c).value < |nodes|
    {
      if ChildOf(nodes, y, c).Some? {
        var cs := nodes[y].children;
        var j :| 0 <= j < |cs| && cs[j] == (c, ChildOf(nodes, y, c).value);
      }
    }

    /** `has(input)`: the walk along `input` ends at a final node. */
    method Has(input: Word) returns (has: bool)
      requires Valid()
      ensures has <==> Accepts(nodes, root, input)
    {
      has := false;
      var node: Option<nat> := Some(root);
      var strAcc: Word := [];
      var index := 0;
      while node.Some?
        invariant index == |strAcc| <= |input| && strAcc == input[..index]
        invariant node == Reach(nodes, root, strAcc)
        invariant node.Some? ==> node.value < |nodes|
        invariant !has
        decreases |input| - index
      {
        var ch: Option<char>;
        if strAcc == input && nodes[node.value].final {
          has := true;
          ch := None;
        } else {
          // `next(input[index])`, which hands on nothing past the end
          ch := if index < |input| then Some(input[index]) else None;
        }
        if ch.None? {
          AcceptsIsReachFinal(nodes, root, input);
          break;
        }
        StepInArena(node.value, ch.value);
        ReachSnoc(nodes, root, strAcc, ch.value);
        assert input[..index + 1] == strAcc + [ch.value];
        node := ChildOf(nodes, node.value, ch.value);
        strAcc := strAcc + [ch.value];
        index := index + 1;
      }
      if !has {
        if node.None? {
          assert input == strAcc + input[index..];
          ReachNoneExtends(nodes, root, strAcc, input[index..]);
        }
      }
    }

    /** `getPrefixes(input)`: the final nodes met on the walk along `input`, in order. */
    method GetPrefixes(input: Word) returns (prefixes: seq<Word>)
      requires Valid()
      ensures prefixes == AcceptedPrefixes(nodes, root, input)
    {
      prefixes := [];
      var node: Option<nat> := Some(root);
      var strAcc: Word := [];
      var index := 0;
      while node.Some?
        invariant index == |strAcc| <= |input| && strAcc == input[..index]
        invariant node == Reach(nodes, root, strAcc)
        invariant node.Some? ==> node.value < |nodes|
        invariant prefixes == PrefixesBelow(nodes, root, input, index)
        decreases |input| - index
      {
        AcceptsIsReachFinal(nodes, root, strAcc);
        if nodes[node.value].final {
          prefixes := prefixes + [strAcc];
        }
        var ch := if index < |input| then Some(input[index]) else None;
        if ch.None? {
          break;
        }
        StepInArena(node.value, ch.value);
        ReachSnoc(nodes, root, strAcc, ch.value);
        assert input[..index + 1] == strAcc + [ch.value];
        node := ChildOf(nodes, node.value, ch.value);
        strAcc := strAcc + [ch.value];
        index := index + 1;
      }
      if node.None? {
        PrefixesBelowStall(nodes, root, input, index, |input| + 1);
      }
    }

    /** `getLongestPrefix(input)`: the last final node met on the walk, or none. */
    method GetLongestPrefix(input: Word) returns (prefix: Option<Word>)
      requires Valid()
      ensures prefix == LastOf(AcceptedPrefixes(nodes, root, input))
      ensures prefix.Some? ==> IsPrefix(prefix.value, input) && Accepts(nodes, root, prefix.value)
      ensures prefix.Some? ==> forall u :: IsPrefix(u, input) && Accepts(nodes, root, u) ==> |u| <= |prefix.value|
      ensures prefix.None? ==> forall u :: IsPrefix(u, input) ==> !Accepts(nodes, root, u)
    {
      prefix := None;
      var node: Option<nat> := Some(root);
      var strAcc: Word := [];
      var index := 0;
      while node.Some?
        invariant index == |strAcc| <= |input| && strAcc == input[..index]
        invariant node == Reach(nodes, root, strAcc)
        invariant node.Some? ==> node.value < |nodes|
        invariant prefix == LastOf(PrefixesBelow(nodes, root, input, index))
        decreases |input| - index
      {
        AcceptsIsReachFinal(nodes, root, strAcc);
        PrefixesBelowLast(nodes, root, input, index);
        if nodes[node.value].final {
          prefix := Some(strAcc);
        }
        var ch := if index < |input| then Some(input[index]) else None;
        if ch.None? {
          break;
        }
        StepInArena(node.value, ch.value);
        ReachSnoc(nodes, root, strAcc, ch.value);
        assert input[..index + 1] == strAcc + [ch.value];
        node := ChildOf(nodes, node.value, ch.value);
        strAcc := strAcc + [ch.value];
        index := index + 1;
      }
      if node.None? {
        PrefixesBelowStall(nodes, root, input, index, |input| + 1);
      }
      LongestPrefixCorrect(nodes, root, input);
    }

    /** `getSubstrings(input)`: the prefixes found from every offset, offset by offset. */
    method GetSubstrings(input: Word) returns (substrings: seq<Word>)
      requires Valid()
      ensures substrings == SubstringsBelow(nodes, root, input, |input|)
      ensures forall w :: w in substrings <==> Accepts(nodes, root, w) && exists i :: 0 <= i < |input| && IsPrefix(w, input[i..])
    {
      substrings := [];
      for i := 0 to |input|
        invariant substrings == SubstringsBelow(nodes, root, input, i)
      {
        var found := GetPrefixes(input[i..]);
        substrings := substrings + found;
      }
      forall w {
        SubstringsBelowMember(nodes, root, input, |input|, w);
      }
    }
  }
}
