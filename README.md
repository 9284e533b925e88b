# dawgjs core, modelled in Dafny

This project models the directed acyclic word graph (DAWG) of `src/dawg.ts`.
It covers the incremental builder (`DawgBuilder` with the `Node` operations
it runs) and the read-only query engine (`Dawg`).

The builder buffers words and drops the blank ones. It sorts the rest and
inserts them one by one (`hydrate`). Before it extends a word, it closes the
unchecked edges beyond the common prefix with the previous word, deepest
first (`minimize`). A closed child is either replaced by a registered node
with the same key string (`createKey`) or registered itself. Finally the
root's `wordsCount` is computed by the memoised `resolve`. The graph then
answers `has`, `getPrefixes`, `getLongestPrefix` and `getSubstrings` with one
traversal loop.

Modules:

- `Words` (words.dfy): words as `seq<char>`, the symbol-by-symbol order that
  the default `sort()` uses, the blank test of `trim() !== ''`, and a sorting
  function.
- `Arena` (arena.dfy): nodes live in a sequence and a node's id is its
  index, which replaces the static `Node.nextId` counter. Children are an
  insertion-ordered list of `(symbol, id)` links, as a JavaScript `Map`
  iterates. This module also defines the language of a node (`Accepts`) and
  the three arena edits the builder makes: hang a fresh leaf, redirect a
  link, mark a node final.
- `Keys` (keys.dfy): the `createKey` string and a decoder that reads it
  back. Together they show that equal key strings mean equal links and
  equal finality.
- `Counting` (counting.dfy): the value `resolve` computes, and the proof
  that it is the size of the node's language.
- `Construction` (construction.dfy): the invariant the builder keeps
  between steps, and one lemma per step. The unchecked edges spell the
  previous word from the root. Closed nodes carry a ghost rank that
  decreases along links, which shows acyclicity. Registered nodes have
  their registry key as key string. The root's language is the set of
  words inserted so far.
- `Builder` (builder.dfy): the class `DawgBuilder` with the fields of the
  source (`nodes` stands for the graph hanging off `root`) and
  `createDawg`.
- `Query` (query.dfy): the class `Dawg` and its queries. Each query is proved
  against a ghost function on the graph's language.

`clear` (src/dawg.ts:137-142) empties `prevWord`, the stack, the registry
and the buffer, but it keeps `root` and the root's `resolved` flag. A
second build starts with an empty `prevWord`, so `prefixLength` is 0 and
every word hangs fresh nodes under that same root (src/dawg.ts:147-165).
`setChild` is `Map.set` (src/dawg.ts:201-203): a root link whose symbol
repeats is replaced, which drops the old words below it, also from graphs
built earlier, since they share the root (src/dawg.ts:32). The second
build also reports a stale `wordsCount`, because `resolve` returns at once
on a resolved root. The model covers one build per builder.

## Model

| member | source | states |
|---|---|---|
| Words.NonBlank | src/dawg.ts:120 | the kept words are exactly the buffered words that are not blank after trimming, and there are no more of them than buffered words |
| Words.SortWordsSorted | src/dawg.ts:121 | the sorted buffer is ordered symbol by symbol, with a proper prefix first |
| Words.SortWords | src/dawg.ts:121 | the sorted buffer is a permutation of the kept words |
| Words.LexLeTotal | src/dawg.ts:121 | any two words are comparable in the order `sort()` uses |
| Words.LexLeTransitive | src/dawg.ts:121 | that order is transitive |
| Words.LexLeAntisymmetric | src/dawg.ts:121 | words that sort both ways are equal |
| Words.SortedUnique | src/dawg.ts:121 | two sorted lists holding the same words the same number of times are equal, so the sorted buffer does not depend on the sorting algorithm |
| Words.InsertSorted | src/dawg.ts:121 | inserting a word into a sorted list keeps it sorted |
| Words.SortedDivergence | src/dawg.ts:147-165 | for a word sorted after the previous one, the first symbol where they differ is larger in the new word, and a new word that ends inside the common prefix equals the previous word; so the new suffix always goes above every link of the tip |
| Builder.SortedKept | src/dawg.ts:117-122 | the words `build` hydrates are sorted and non-empty, and as a set they are the non-blank buffered words |
| Arena.Lookup | src/dawg.ts:197-199 | `getChild` finds the link with that symbol, or reports that no link has it |
| Arena.SetLink | src/dawg.ts:201-203 | after `setChild` the symbol leads to the new node and every other symbol is unchanged; a new symbol goes last and an existing one keeps its place |
| Arena.AcceptsIsReachFinal | src/dawg.ts:37-43 | a word is in a node's language exactly when the walk along it reaches a final node |
| Arena.ReachAppend | src/dawg.ts:89-97 | walking `u + v` is walking `u`, then `v` |
| Arena.SameShapeAccepts | src/dawg.ts:216-228 | the language depends only on links and finality, so the memo fields written by `resolve` change no answer |
| Arena.RedirectKeepsLanguage | src/dawg.ts:177 | pointing a link at a node with the same key leaves the language of every node unchanged |
| Arena.AddLeafKeepsLanguage | src/dawg.ts:160-165 | hanging a fresh non-final node under an unused symbol changes no language |
| Arena.MarkFinalLanguage | src/dawg.ts:167 | `node.final = true` adds exactly the words whose walk ends at that node |
| Arena.SetLinkLast | src/dawg.ts:177 | redirecting the last symbol of a sorted link list replaces only its target, in place |
| Keys.ValueOfNumeral | src/dawg.ts:208 | the decimal id written into a key reads back as the id |
| Keys.LinksStringSnoc | src/dawg.ts:206-210 | each loop turn of `createKey` appends that link's `_<symbol>:<id>` |
| Keys.DecodeEncode | src/dawg.ts:205-214 | the key string decodes back to the node's ordered links and finality |
| Keys.KeyStringInjective | src/dawg.ts:175-177 | two nodes with the same key string agree on finality and on their ordered list of symbol to child id |
| Counting.CountCard | src/dawg.ts:216-228 | the count `resolve` stores at a node is the number of words in its language |
| Counting.LangAccepts | src/dawg.ts:216-228 | the language that the count sums over is the language the walk defines |
| Counting.PrependCard | src/dawg.ts:219-225 | putting one symbol in front of every word of a child's language keeps its size |
| Construction.InitialSealed | src/dawg.ts:104-110 | a fresh builder (a lone root, nothing registered, no edges) satisfies the invariant with an empty language |
| Construction.PathReach | src/dawg.ts:157-158 | walking the first `i` symbols of the previous word from the root reaches the node under edge `i` |
| Construction.PathUnique | src/dawg.ts:157-158 | no other word reaches that node: path nodes are not shared |
| Construction.StackShape | src/dawg.ts:147-168 | between words the stack has one edge per symbol of `prevWord`, edge `i` carries symbol `i`, edge 0 leaves the root, each edge leaves the child of the one before, and the walk along `prevWord` ends at the tip |
| Construction.MinimizeStep | src/dawg.ts:173-178 | minimizing the deepest edge either redirects the parent's link to the registered node with the child's key or registers the child; the invariant holds after it, with the parent as the new tip, and no language changes |
| Construction.MinimizeSealed | src/dawg.ts:173-178 | the same step as the builder's methods carry the invariant: registry keys stay the key strings of their nodes and the root's language is kept |
| Construction.AddSealed | src/dawg.ts:160-165 | a fresh child hung at the tip under a symbol above its links, with the new edge pushed, extends the path by one symbol and keeps the language |
| Construction.FinalSealed | src/dawg.ts:167-168 | marking the tip final adds the word the path spells to the root's language |
| Construction.RootUnregistered | src/dawg.ts:34 | the root is never in the registry, so `nodesCount` never counts it |
| Construction.RegistryInjective | src/dawg.ts:34 | a registry whose keys are the key strings of their nodes holds as many distinct nodes as keys, so its size counts nodes |
| Construction.RegistersSameShape | src/dawg.ts:124-128 | `resolve` writes only the memo fields, so the registry still maps each key to a node with that key string, and its size still counts distinct nodes |
| Construction.DrainedSealed | src/dawg.ts:124-128 | once every edge is minimized the graph is acyclic (ranked from the root), the registry holds fewer nodes than the arena, each under its own key string, and never the root |
| Construction.ResolvedCount | src/dawg.ts:128 | once the root holds its resolved count, that count is the number of words accepted |
| Builder.DawgBuilder.constructor | src/dawg.ts:104-110 | a new builder holds one root, an empty stack, an empty registry, an empty buffer and an empty `prevWord` |
| Builder.DawgBuilder.Add | src/dawg.ts:112-115 | `add` only appends the word to the buffer |
| Builder.DawgBuilder.CreateKey | src/dawg.ts:205-214 | the loop builds the key string of the node: its links in order, then `!` if it is final |
| Builder.DawgBuilder.CommonPrefixLength | src/dawg.ts:147-151 | `prefixLength` is the length of the longest common prefix of the word and `prevWord` |
| Builder.DawgBuilder.Minimize | src/dawg.ts:173-178 | exactly one of: the parent's link is redirected to the node registered under the child's key, or the child is registered; the registry grows by at most one and no language changes |
| Builder.DawgBuilder.MinimizeFrom | src/dawg.ts:153-155 | the edges past `prefixLength` are spliced off and minimized deepest first; the stack keeps the first `prefixLength` edges and the languages are unchanged |
| Builder.DawgBuilder.Hydrate | src/dawg.ts:144-171 | an empty word changes nothing; otherwise the word joins the root's language, becomes `prevWord`, and the stack has one edge per symbol of it, chained from the root; the edges inside the common prefix with the previous word are the old ones, reused |
| Builder.DawgBuilder.Extend | src/dawg.ts:157-165 | the first `start` edges stay; each remaining symbol gets one fresh node, appended to the arena in order and hung under the previous tip with its edge pushed; of the old nodes only the tip changes; the stack then spells the whole word and the new tip has no children |
| Builder.DawgBuilder.Finish | src/dawg.ts:167-168 | exactly the tip is marked final, the word joins the root's language and becomes `prevWord` |
| Builder.DawgBuilder.Grow | src/dawg.ts:161-164 | one fresh child is linked under the symbol and its edge is pushed; the child is the new tip |
| Builder.DawgBuilder.Resolve | src/dawg.ts:216-228 | afterwards the node is resolved and holds the count of its language's words; an already-resolved node is left as it is |
| Builder.DawgBuilder.HydrateAll | src/dawg.ts:122 | hydrating the sorted words in order adds exactly those words to the root's language |
| Builder.DawgBuilder.Build | src/dawg.ts:117-135 | the graph accepts exactly the non-blank added words (with any words the builder already held), and `wordsCount` is the number of distinct ones. `nodesCount` is the size of the registry taken before `clear`: that many distinct nodes of the graph, each under its own key string, none of them the root. With no word to insert it is the registry the builder started with. Afterwards the buffer, stack, registry and `prevWord` are empty |
| Builder.DawgBuilder.Freeze | src/dawg.ts:124-134 | draining the stack, resolving the root and wrapping the arena keeps the language and gives `wordsCount` as its size. `nodesCount` is the number of distinct non-root nodes in the registry before `clear`, and that registry is unchanged when the stack was already empty. The transient fields are cleared |
| Builder.DawgBuilder.ResolveRoot | src/dawg.ts:128 | once every edge is minimized, `resolve` on the root leaves links and finality alone and stores the number of accepted words; the registry still maps each key to a node with that key string, with as many distinct nodes as keys, never the root |
| Builder.DawgBuilder.Clear | src/dawg.ts:137-142 | `prevWord`, the stack, the registry and the buffer are emptied; the root stays |
| Builder.CreateDawg | src/dawg.ts:1-5 | the graph of a word list accepts exactly its words that are not blank after trimming, so `has("")` is false, and `wordsCount` counts them without duplicates. `nodesCount` is the number of distinct registered nodes, none of them the root, and it is 0 when no word is kept |
| Query.Dawg.constructor | src/dawg.ts:31-35 | the graph takes the builder's root, the root's count and the registry's size |
| Query.Dawg.Has | src/dawg.ts:37-43 | `has(input)` is true exactly when the input is in the root's language |
| Query.Dawg.GetPrefixes | src/dawg.ts:45-52 | the traversal collects the accepted prefixes of the input, shortest first |
| Query.AcceptedPrefixesCorrect | src/dawg.ts:45-52 | those are exactly the accepted words that are prefixes of the input, each equal to `input[..k]`, in strictly increasing length |
| Query.PrefixesBelowStall | src/dawg.ts:91-93 | once the walk falls off the graph no later prefix is accepted, so stopping there loses nothing |
| Query.Dawg.GetLongestPrefix | src/dawg.ts:54-61 | the result is the last collected prefix, which is the longest accepted prefix, or nothing when no prefix is accepted |
| Query.LongestPrefixCorrect | src/dawg.ts:54-61 | the last accepted prefix is accepted, is a prefix, and is at least as long as every accepted prefix; an empty list means no prefix is accepted |
| Query.Dawg.GetSubstrings | src/dawg.ts:63-69 | the result is the concatenation of `getPrefixes(input[i..])` for increasing `i`, and holds exactly the accepted words that occur in the input at some offset |
| Query.SubstringsBelowMember | src/dawg.ts:63-69 | a word is collected over the first `n` offsets exactly when it is accepted and starts at one of them |

## Left out

- `Node.nextId` (src/dawg.ts:190-195): ids are arena indices. Uniqueness across builders is not modelled.
- Builder.DawgBuilder.Build: it requires a builder that has not built before. A second build is not modelled. It would hang fresh nodes under the same root, replace any root link whose symbol repeats (dropping the old words below it, also from earlier graphs, which share the root), and report a stale `wordsCount`.
- Query.Dawg.constructor: the model's `Dawg` holds a copy of the arena, while the source's `Dawg` shares the builder's `root` object (src/dawg.ts:32). The model therefore does not capture that a later build on the same builder changes an earlier graph.
- Builder.DawgBuilder.Build, Builder.DawgBuilder.Freeze and Builder.CreateDawg: `nodesCount` is proved to be the number of distinct registered nodes, never the root, and 0 when no word is kept. That these are exactly the non-root nodes reachable from the root is not proved. Neither is the minimality of the graph, so the concrete count of 6 for the four-word list does not follow.
- The engine's `sort()` algorithm: `SortWords` is an insertion sort. Only its result matters, a sorted permutation of the kept words.
- Code units: a Dafny `char` is a Unicode scalar value, so lone surrogate code units cannot appear in a word. A supplementary character is one symbol in the model but two code units in the source, so it takes two steps of `word[i]` and `input[index]` there. For such input the word lengths, the trie's shape, the `getSubstrings` offsets (which in the source include the low-surrogate position) and the sort order (by scalar value here, by code units in JavaScript) all differ from the source.
- `String.prototype.trim`: the blank test follows the whitespace list of sections 12.2 and 12.3 of ECMA-262, with the Unicode "Zs" category listed by hand. It is not checked against a Unicode table.
- The callback shape of `traverse` (src/dawg.ts:71-100): each query has its own copy of the loop, with the callback inlined.
- Concurrency, I/O and the TypeScript interfaces `WordGraph`/`WordGraphBuilder` (src/dawg.ts:7-23) have no logic to model.
