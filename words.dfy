// Words as the builder handles them: sequences of symbols, one `char` for
// each position `word[i]` indexes, the symbol-by-symbol order used by the
// default `Array.prototype.sort`, and the blank test `word.trim() !== ''`
// that `build` filters with (src/dawg.ts:117-122). A Dafny `char` is a
// Unicode scalar value, not a UTF-16 code unit: the two agree on the Basic
// Multilingual Plane outside the surrogate range.
module Words {

  type Word = seq<char>

  /** Lexicographic order on symbols, compared by value: a proper prefix sorts first. */
  predicate LexLe(a: Word, b: Word)
    decreases |a|
  {
    a == [] || (b != [] && (a[0] < b[0] || (a[0] == b[0] && LexLe(a[1..], b[1..]))))
  }

  lemma {:induction false} LexLeTotal(a: Word, b: Word)
    ensures LexLe(a, b) || LexLe(b, a)
    decreases |a|
  {
    if a != [] && b != [] && a[0] == b[0] {
      LexLeTotal(a[1..], b[1..]);
    }
  }

  lemma {:induction false} LexLeTransitive(a: Word, b: Word, c: Word)
    requires LexLe(a, b) && LexLe(b, c)
    ensures LexLe(a, c)
    decreases |a|
  {
    if a != [] && b != [] && c != [] && a[0] == b[0] && b[0] == c[0] {
      LexLeTransitive(a[1..], b[1..], c[1..]);
    }
  }

  lemma {:induction false} LexLeAntisymmetric(a: Word, b: Word)
    requires LexLe(a, b) && LexLe(b, a)
    ensures a == b
    decreases |a|
  {
    if a != [] && b != [] {
      LexLeAntisymmetric(a[1..], b[1..]);
      assert a == [a[0]] + a[1..] && b == [b[0]] + b[1..];
    }
  }

  /** Taking one more symbol of `w` appends it. */
  lemma TakeOneMore(w: Word, i: nat)
    requires i < |w|
    ensures w[..i + 1] == w[..i] + [w[i]]
  {
  }

  /** Length of the longest common prefix of `a` and `b`. */
  ghost predicate IsCommonPrefixLength(a: Word, b: Word, n: nat)
  {
    n <= |a| && n <= |b| && a[..n] == b[..n] && (n < |a| && n < |b| ==> a[n] != b[n])
  }

  /** Two words have one common prefix length. */
  lemma CommonPrefixLengthUnique(a: Word, b: Word, n: nat, m: nat)
    requires IsCommonPrefixLength(a, b, n) && IsCommonPrefixLength(a, b, m)
    ensures n == m
  {
  }

  /**
   * When `prev` sorts no later than `w` and they first differ at `n`, the
   * symbol of `w` there is the larger one; and `w` ends at `n` only if the
   * two words are equal.
   */
  lemma {:induction false} SortedDivergence(prev: Word, w: Word, n: nat)
    requires LexLe(prev, w) && IsCommonPrefixLength(prev, w, n)
    ensures n < |prev| && n < |w| ==> prev[n] < w[n]
    ensures n == |w| ==> prev == w
    decreases n
  {
    if n > 0 {
      assert prev[0] == prev[..n][0] == w[..n][0] == w[0];
      assert prev[1..][..n - 1] == prev[..n][1..];
      assert w[1..][..n - 1] == w[..n][1..];
      SortedDivergence(prev[1..], w[1..], n - 1);
      if n == |w| {
        assert prev == [prev[0]] + prev[1..];
        assert w == [w[0]] + w[1..];
      }
    }
  }

  /**
   * The characters `String.prototype.trim` strips: the WhiteSpace and
   * LineTerminator code points of ECMAScript (section 12.2 and 12.3 of
   * ECMA-262), with the Unicode "Zs" category spelled out.
   */
  predicate IsWhitespace(c: char)
  {
    ('\U{0009}' <= c <= '\U{000D}') || c == '\U{0020}' || c == '\U{00A0}' ||
    c == '\U{1680}' || ('\U{2000}' <= c <= '\U{200A}') ||
    c == '\U{2028}' || c == '\U{2029}' || c == '\U{202F}' || c == '\U{205F}' ||
    c == '\U{3000}' || c == '\U{FEFF}'
  }

  /** `word.trim() === ''`: the word holds nothing but whitespace. */
  predicate IsBlank(w: Word)
  {
    forall i :: 0 <= i < |w| ==> IsWhitespace(w[i])
  }

  /** The words of `ws` that survive `filter(word => word.trim() !== '')`, in order. */
  function NonBlank(ws: seq<Word>): (r: seq<Word>)
    ensures forall w :: w in r <==> w in ws && !IsBlank(w)
    ensures |r| <= |ws|
  {
    if ws == [] then []
    else if IsBlank(ws[0]) then NonBlank(ws[1..])
    else [ws[0]] + NonBlank(ws[1..])
  }

  ghost predicate Sorted(ws: seq<Word>)
  {
    forall i, j :: 0 <= i < j < |ws| ==> LexLe(ws[i], ws[j])
  }

  /** Inserts `w` into the sorted `ws` before the first element it sorts before. */
  function Insert(w: Word, ws: seq<Word>): (r: seq<Word>)
    ensures multiset(r) == multiset(ws) + multiset{w}
  {
    if ws == [] then [w]
    else if LexLe(w, ws[0]) then [w] + ws
    else
      assert ws == [ws[0]] + ws[1..];
      [ws[0]] + Insert(w, ws[1..])
  }

  lemma {:induction false} InsertSorted(w: Word, ws: seq<Word>)
    requires Sorted(ws)
    ensures Sorted(Insert(w, ws))
  {
    if ws != [] && !LexLe(w, ws[0]) {
      LexLeTotal(w, ws[0]);
      SortedRest(ws);
      InsertSorted(w, ws[1..]);
      var t := Insert(w, ws[1..]);
      InsertAbove(w, ws, t);
      SortedCons(ws[0], t);
    } else if ws != [] {
      forall j | 0 <= j < |ws| ensures LexLe(w, ws[j]) {
        if j > 0 { LexLeTransitive(w, ws[0], ws[j]); }
      }
      SortedCons(w, ws);
    }
  }

  lemma {:induction false} SortedRest(ws: seq<Word>)
    requires Sorted(ws) && ws != []
    ensures Sorted(ws[1..])
  {
    forall i, j | 0 <= i < j < |ws[1..]| ensures LexLe(ws[1..][i], ws[1..][j]) {
      assert ws[1..][i] == ws[i + 1] && ws[1..][j] == ws[j + 1];
    }
  }

  /** Every word of `t`, the tail of `ws` with `w` inserted, sorts after the head of `ws`. */
  lemma {:induction false} InsertAbove(w: Word, ws: seq<Word>, t: seq<Word>)
    requires Sorted(ws) && ws != [] && LexLe(ws[0], w) && t == Insert(w, ws[1..])
    ensures forall k :: 0 <= k < |t| ==> LexLe(ws[0], t[k])
  {
    forall k | 0 <= k < |t| ensures LexLe(ws[0], t[k]) {
      assert t[k] in multiset(t);
      if t[k] != w {
        assert t[k] in multiset(ws[1..]);
        var m :| 0 <= m < |ws[1..]| && ws[1..][m] == t[k];
        assert ws[m + 1] == t[k];
      }
    }
  }

  /** A word that sorts before every word of a sorted list can go in front of it. */
  lemma {:induction false} SortedCons(h: Word, t: seq<Word>)
    requires Sorted(t) && forall k :: 0 <= k < |t| ==> LexLe(h, t[k])
    ensures Sorted([h] + t)
  {
    var r := [h] + t;
    forall i, j | 0 <= i < j < |r| ensures LexLe(r[i], r[j]) {
      assert r[j] == t[j - 1];
      if i > 0 { assert r[i] == t[i - 1]; }
    }
  }

  /** Two sorted lists with the same elements are equal: the order leaves no ties between distinct words. */
  lemma {:induction false} SortedUnique(a: seq<Word>, b: seq<Word>)
    requires Sorted(a) && Sorted(b) && multiset(a) == multiset(b)
    ensures a == b
    decreases |a|
  {
    if a != [] {
      assert |b| == |multiset(b)| == |multiset(a)| == |a|;
      assert a[0] in multiset(b) && b[0] in multiset(a);
      var i :| 0 <= i < |b| && b[i] == a[0];
      var j :| 0 <= j < |a| && a[j] == b[0];
      assert LexLe(b[0], a[0]) by {
        if i > 0 { assert LexLe(b[0], b[i]); } else { LexLeReflexive(a[0]); }
      }
      assert LexLe(a[0], b[0]) by {
        if j > 0 { assert LexLe(a[0], a[j]); } else { LexLeReflexive(b[0]); }
      }
      LexLeAntisymmetric(a[0], b[0]);
      MultisetTail(a);
      MultisetTail(b);
      SortedRest(a);
      SortedRest(b);
      SortedUnique(a[1..], b[1..]);
    }
  }

  /** Dropping the head of a sequence drops one occurrence of it. */
  lemma MultisetTail(a: seq<Word>)
    requires a != []
    ensures multiset(a[1..]) == multiset(a) - multiset{a[0]}
  {
    assert a == [a[0]] + a[1..];
  }

  lemma {:induction false} LexLeReflexive(a: Word)
    ensures LexLe(a, a)
    decreases |a|
  {
    if a != [] {
      LexLeReflexive(a[1..]);
    }
  }

  /**
   * A sorting of `ws`. The engine's own algorithm is not modelled: only the
   * result matters, and there is one sorted permutation of a list of words
   * (SortWordsSorted with SortedUnique), so any sorting algorithm yields it.
   */
  function SortWords(ws: seq<Word>): (r: seq<Word>)
    ensures multiset(r) == multiset(ws)
  {
    if ws == [] then []
    else
      assert ws == [ws[0]] + ws[1..];
      Insert(ws[0], SortWords(ws[1..]))
  }

  lemma {:induction false} SortWordsSorted(ws: seq<Word>)
    ensures Sorted(SortWords(ws))
  {
    if ws != [] {
      SortWordsSorted(ws[1..]);
      InsertSorted(ws[0], SortWords(ws[1..]));
    }
  }
}
