// The string `Node.createKey` builds (src/dawg.ts:205-214): one
// `_<symbol>:<id>` per link in `children` order, then `!` when the node is
// final. The registry `minimizedNodes` is keyed by these strings, so two
// nodes are merged exactly when their strings are equal; `DecodeEncode`
// shows the string determines the links and finality, so that happens
// exactly when the nodes have the same `Key`.
module Keys {
  import opened Arena

  function DigitChar(d: nat): (r: char)
    requires d < 10
    ensures '0' <= r <= '9'
  {
    ['0', '1', '2', '3', '4', '5', '6', '7', '8', '9'][d]
  }

  predicate IsDigit(c: char)
  {
    '0' <= c <= '9'
  }

  function DigitValue(c: char): nat
    requires IsDigit(c)
  {
    c as int - '0' as int
  }

  /** The decimal numeral of `n`, as a template literal writes an integer. */
  function Numeral(n: nat): (r: string)
    ensures r != [] && forall i :: 0 <= i < |r| ==> IsDigit(r[i])
  {
    if n < 10 then [DigitChar(n)] else Numeral(n / 10) + [DigitChar(n % 10)]
  }

  /** The value of a string of decimal digits. */
  function ValueOf(s: string): nat
    requires forall i :: 0 <= i < |s| ==> IsDigit(s[i])
  {
    if s == [] then 0 else ValueOf(s[..|s| - 1]) * 10 + DigitValue(s[|s| - 1])
  }

  lemma {:induction false} ValueOfNumeral(n: nat)
    ensures ValueOf(Numeral(n)) == n
  {
    var r := Numeral(n);
    if n >= 10 {
      ValueOfNumeral(n / 10);
      assert r[..|r| - 1] == Numeral(n / 10);
    }
    assert DigitValue(DigitChar(n % 10)) == n % 10;
  }

  /** The length of the run of digits that starts `s`. */
  function DigitRun(s: string): (r: nat)
    ensures r <= |s|
    ensures forall i :: 0 <= i < r ==> IsDigit(s[i])
    ensures r < |s| ==> !IsDigit(s[r])
  {
    if s != [] && IsDigit(s[0]) then 1 + DigitRun(s[1..]) else 0
  }

  lemma {:induction false} DigitRunNumeral(n: nat, t: string)
    requires t == [] || !IsDigit(t[0])
    ensures DigitRun(Numeral(n) + t) == |Numeral(n)|
  {
    var s := Numeral(n) + t;
    var d := DigitRun(s);
    forall i | 0 <= i < |Numeral(n)| ensures IsDigit(s[i]) {
      assert s[i] == Numeral(n)[i];
    }
    if t != [] {
      assert s[|Numeral(n)|] == t[0];
    }
  }

  /** `_${ch}:${child.id}`, where the id of a node is its place in the arena. */
  function LinkString(l: Link): string
  {
    ['_', l.0, ':'] + Numeral(l.1)
  }

  function LinksString(cs: seq<Link>): string
  {
    if cs == [] then [] else LinkString(cs[0]) + LinksString(cs[1..])
  }

  /** `createKey()` of a node with key `k`. */
  function Encode(k: Key): string
  {
    LinksString(k.links) + (if k.final then "!" else "")
  }

  function KeyString(n: Node): string
  {
    Encode(KeyOf(n))
  }

  /** The string for `cs + [l]` extends the string for `cs`: what the loop in `createKey` builds. */
  lemma {:induction false} LinksStringSnoc(cs: seq<Link>, l: Link)
    ensures LinksString(cs + [l]) == LinksString(cs) + LinkString(l)
  {
    if cs == [] {
      assert [l][1..] == [];
    } else {
      assert (cs + [l])[0] == cs[0] && (cs + [l])[1..] == cs[1..] + [l];
      LinksStringSnoc(cs[1..], l);
    }
  }

  /** Reads back the links and finality from a key string. */
  function Decode(s: string): (r: Option<Key>)
    decreases |s|
  {
    if s == [] then Some(Key([], false))
    else if s == "!" then Some(Key([], true))
    else if |s| >= 4 && s[0] == '_' && s[2] == ':' && DigitRun(s[3..]) > 0 then
      var d := DigitRun(s[3..]);
      var id := ValueOf(s[3..][..d]);
      match Decode(s[3 + d..])
      case None => None
      case Some(k) => Some(Key([(s[1], id)] + k.links, k.final))
    else None
  }

  /** Decoding one link in front of a string that is empty or does not start with a digit. */
  lemma {:induction false} DecodeLink(l: Link, t: string)
    requires t == [] || !IsDigit(t[0])
    ensures Decode(LinkString(l) + t) ==
      match Decode(t) case None => None case Some(k) => Some(Key([l] + k.links, k.final))
  {
    var s := LinkString(l) + t;
    var m := Numeral(l.1);
    assert s == ['_', l.0, ':'] + (m + t);
    assert s[3..] == m + t;
    DigitRunNumeral(l.1, t);
    assert s[3..][..|m|] == m;
    ValueOfNumeral(l.1);
    assert s[3 + |m|..] == t;
  }

  lemma {:induction false} DecodeEncode(k: Key)
    ensures Decode(Encode(k)) == Some(k)
    decreases |k.links|
  {
    if k.links != [] {
      var k' := Key(k.links[1..], k.final);
      EncodeCons(k);
      DecodeLink(k.links[0], Encode(k'));
      DecodeEncode(k');
      assert k.links == [k.links[0]] + k'.links;
    }
  }

  /** The key string of a node with links is its first link's string, then the rest, which starts with no digit. */
  lemma {:induction false} EncodeCons(k: Key)
    requires k.links != []
    ensures var t := Encode(Key(k.links[1..], k.final));
      Encode(k) == LinkString(k.links[0]) + t && (t == [] || !IsDigit(t[0]))
  {
    var k' := Key(k.links[1..], k.final);
    var t := Encode(k');
    assert LinksString(k.links) == LinkString(k.links[0]) + LinksString(k'.links);
    if t != [] {
      if k'.links != [] {
        assert t[0] == LinkString(k'.links[0])[0] == '_';
      } else {
        assert t == "!";
      }
    }
  }

  /** Nodes with the same key string have the same links and finality. */
  lemma {:induction false} KeyStringInjective(a: Node, b: Node)
    requires KeyString(a) == KeyString(b)
    ensures KeyOf(a) == KeyOf(b)
  {
    DecodeEncode(KeyOf(a));
    DecodeEncode(KeyOf(b));
  }
}
