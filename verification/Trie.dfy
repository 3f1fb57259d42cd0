/** A set of words, with a key for each, as a tree of nodes that lead on by one letter. */
module Trie {
  import opened Bytes

  const RANGE := 0x100

  /** A letter is a `char`, which is its own index; a negative one is far outside of the children. */
  const LETTERS := 0x80

  type Word = seq<byte>

  predicate Ascii(w: Word) {
    forall c :: c in w ==> c < LETTERS
  }

  /** Some word goes on from here. */
  ghost predicate LeadsOn<K>(entries: map<Word, K>, w: Word) {
    w == [] || exists v :: v in entries && w <= v
  }

  /** No letter of `str` that a walk gets to is outside of the children. */
  ghost predicate Walkable<K>(entries: map<Word, K>, str: Word) {
    forall i :: 0 <= i < |str| && LeadsOn(entries, str[..i]) ==> str[i] < LETTERS
  }

  /** The same for a walk that ends at the first stored word. */
  ghost predicate WalkableToWord<K>(entries: map<Word, K>, str: Word) {
    forall i :: 0 <= i < |str| && LeadsOn(entries, str[..i]) && (forall j :: 0 <= j <= i ==> str[..j] !in entries)
      ==> str[i] < LETTERS
  }

  // ---------- the tree as a value ----------

  /** What one node holds. */
  datatype Cell<K(0)> = Cell(node: TrieNode<K>, children: seq<TrieNode?<K>>, childCount: nat, marked: bool, key: K)

  /** Every node under the letters that lead to it. */
  type State<K(0)> = map<Word, Cell<K>>

  ghost function Present<K(0)>(cs: seq<TrieNode?<K>>): nat {
    if cs == [] then 0
    else Present(cs[..|cs| - 1]) + if cs[|cs| - 1] == null then 0 else 1
  }

  ghost function Parent(w: Word): Word
    requires w != []
  {
    w[..|w| - 1]
  }

  ghost function Last(w: Word): byte
    requires w != []
  {
    w[|w| - 1]
  }

  /** Each node counts its children. */
  ghost predicate Counted<K(0)>(s: State<K>) {
    forall w :: w in s ==> |s[w].children| == RANGE && s[w].childCount == Present(s[w].children)
  }

  ghost predicate LinkedDown<K(0)>(s: State<K>)
    requires Counted(s)
  {
    forall w, c: byte :: w in s && s[w].children[c] != null ==>
      w + [c] in s && s[w + [c]].node == s[w].children[c]
  }

  ghost predicate LinkedUp<K(0)>(s: State<K>)
    requires Counted(s)
  {
    forall w :: w in s && w != [] ==> Parent(w) in s && s[Parent(w)].children[Last(w)] == s[w].node
  }

  ghost predicate Separate<K(0)>(s: State<K>) {
    forall v, w :: v in s && w in s && s[v].node == s[w].node ==> v == w
  }

  /** Every node but the root, and but the one under `open`, is marked or leads on. */
  ghost predicate NoDeadEnds<K(0)>(s: State<K>, open: Word) {
    forall w :: w in s && w != [] && w != open ==> s[w].marked || s[w].childCount > 0
  }

  ghost predicate Good<K(0)>(s: State<K>, open: Word) {
    && [] in s && !s[[]].marked
    && Counted(s) && LinkedDown(s) && LinkedUp(s) && Separate(s) && NoDeadEnds(s, open)
  }

  /** The stored words and their keys. */
  ghost function EntriesOf<K(0)>(s: State<K>): map<Word, K> {
    map w | w in s && s[w].marked :: s[w].key
  }

  // ---------- counting children ----------

  lemma {:induction false} PresentUpdate<K(0)>(cs: seq<TrieNode?<K>>, c: nat, child: TrieNode?<K>)
    requires c < |cs|
    ensures Present(cs[c := child]) + (if cs[c] == null then 0 else 1) == Present(cs) + if child == null then 0 else 1
    decreases |cs|
  {
    var last := |cs| - 1;
    if c < last {
      PresentUpdate(cs[..last], c, child);
      assert cs[c := child][..last] == cs[..last][c := child];
    } else {
      assert cs[c := child][..last] == cs[..last];
    }
  }

  lemma {:induction false} PresentZero<K(0)>(cs: seq<TrieNode?<K>>)
    ensures Present(cs) == 0 <==> forall c :: 0 <= c < |cs| ==> cs[c] == null
  {
    if cs != [] {
      var last := |cs| - 1;
      PresentZero(cs[..last]);
      assert forall c :: 0 <= c < last ==> cs[..last][c] == cs[c];
    }
  }

  /** The only child of a node that has no more than one. */
  lemma OnlyChild<K(0)>(cs: seq<TrieNode?<K>>, c: nat)
    requires c < |cs| && cs[c] != null && Present(cs) <= 1
    ensures forall d :: 0 <= d < |cs| && cs[d] != null ==> d == c
  {
    PresentUpdate(cs, c, null);
    PresentZero(cs[c := null]);
    assert forall d :: 0 <= d < |cs| && d != c ==> cs[c := null][d] == cs[d];
  }

  // ---------- walking ----------

  lemma ChildIsLinked<K(0)>(s: State<K>, open: Word, w: Word, c: byte)
    requires Good(s, open) && w in s
    ensures s[w].children[c] != null <==> w + [c] in s
    ensures w + [c] in s ==> s[w + [c]].node == s[w].children[c]
  {
    var next := w + [c];
    assert next != [] && Parent(next) == w && Last(next) == c;
  }

  lemma OthersElsewhere<K(0)>(s: State<K>, w: Word)
    requires Separate(s) && w in s
    ensures forall v :: v in s && v != w ==> s[v].node != s[w].node
  {
  }

  lemma {:induction false} PrefixesAreIn<K(0)>(s: State<K>, open: Word, w: Word, k: nat)
    requires Good(s, open) && w in s && k <= |w|
    ensures w[..k] in s
    decreases |w|
  {
    if k < |w| {
      PrefixesAreIn(s, open, Parent(w), k);
      assert Parent(w)[..k] == w[..k];
    } else {
      assert w[..k] == w;
    }
  }

  // ---------- adding ----------

  /** The child that was already there becomes the open node. */
  lemma Descends<K(0)>(s: State<K>, w: Word, c: byte)
    requires Good(s, w) && w in s && s[w].children[c] != null
    ensures Good(s, w + [c])
  {
    PresentZero(s[w].children);
  }

  ghost function WithChild<K(0)>(s: State<K>, w: Word, c: byte, child: Cell<K>): State<K>
    requires w in s && c < |s[w].children|
  {
    s[w := s[w].(children := s[w].children[c := child.node], childCount := s[w].childCount + 1)][w + [c] := child]
  }

  lemma Creates<K(0)>(s: State<K>, w: Word, c: byte, child: Cell<K>)
    requires Good(s, w) && w in s && s[w].children[c] == null
    requires forall v :: v in s ==> s[v].node != child.node
    requires |child.children| == RANGE && (forall d :: 0 <= d < RANGE ==> child.children[d] == null)
    requires child.childCount == 0 && !child.marked
    ensures Good(WithChild(s, w, c, child), w + [c])
  {
    hide LinkedDown, LinkedUp, Present;
    ChildIsLinked(s, w, w, c);
    PresentUpdate(s[w].children, c, child.node);
    PresentZero(child.children);
    assert Counted(WithChild(s, w, c, child));
    CreatesDown(s, w, c, child);
    CreatesUp(s, w, c, child);
  }

  lemma CreatesDown<K(0)>(s: State<K>, w: Word, c: byte, child: Cell<K>)
    requires Counted(s) && LinkedDown(s) && w in s && w + [c] !in s
    requires Counted(WithChild(s, w, c, child))
    requires |child.children| == RANGE && forall d :: 0 <= d < RANGE ==> child.children[d] == null
    ensures LinkedDown(WithChild(s, w, c, child))
  {
    hide Present;
    var s' := WithChild(s, w, c, child);
    forall v, d: byte | v in s' && s'[v].children[d] != null
      ensures v + [d] in s' && s'[v + [d]].node == s'[v].children[d]
    {
      SameExtension(w, c, v, d);
      if v != w || d != c {
        assert v in s && s[v].children[d] == s'[v].children[d];
      }
    }
  }

  lemma CreatesUp<K(0)>(s: State<K>, w: Word, c: byte, child: Cell<K>)
    requires Counted(s) && LinkedUp(s) && w in s && w + [c] !in s
    requires Counted(WithChild(s, w, c, child))
    ensures LinkedUp(WithChild(s, w, c, child))
  {
    hide Present;
    var s' := WithChild(s, w, c, child);
    forall v | v in s' && v != []
      ensures Parent(v) in s' && s'[Parent(v)].children[Last(v)] == s'[v].node
    {
      SameExtension(w, c, Parent(v), Last(v));
      assert v == Parent(v) + [Last(v)];
    }
  }

  lemma SameExtension(w: Word, c: byte, v: Word, d: byte)
    ensures w + [c] == v + [d] <==> w == v && c == d
  {
    assert (w + [c])[..|w|] == w && (v + [d])[..|v|] == v;
    if w + [c] == v + [d] {
      assert |w| == |v|;
      assert (w + [c])[|w|] == c && (v + [d])[|v|] == d;
    }
  }

  lemma Marks<K(0)>(s: State<K>, w: Word)
    requires Good(s, w) && w in s && w != []
    ensures Good(s[w := s[w].(marked := true)], [])
    ensures EntriesOf(s[w := s[w].(marked := true)]) == EntriesOf(s)[w := s[w].key]
  {
    hide Counted, LinkedDown, LinkedUp, Separate, Present;
    SameLinks(s, s[w := s[w].(marked := true)]);
  }

  /** Marks and keys do not matter to the links. */
  lemma SameLinks<K(0)>(s: State<K>, s': State<K>)
    requires s.Keys == s'.Keys && Counted(s) && LinkedDown(s) && LinkedUp(s) && Separate(s)
    requires forall w :: w in s ==>
      s'[w].node == s[w].node && s'[w].children == s[w].children && s'[w].childCount == s[w].childCount
    ensures Counted(s') && LinkedDown(s') && LinkedUp(s') && Separate(s')
  {
    hide Present;
  }

  // ---------- removing ----------

  /** The state without the nodes below (and at) `top`. */
  ghost function Pruned<K(0)>(s: State<K>, top: Word): State<K>
    requires top != [] && Parent(top) in s && Last(top) < |s[Parent(top)].children| && s[Parent(top)].childCount > 0
  {
    var p := Parent(top);
    var cut := s[p := s[p].(children := s[p].children[Last(top) := null], childCount := s[p].childCount - 1)];
    map w | w in s && !(top <= w) :: cut[w]
  }

  lemma SameParent(v: Word, w: Word)
    requires v != [] && w != []
    ensures v == w <==> Parent(v) == Parent(w) && Last(v) == Last(w)
  {
    assert v == Parent(v) + [Last(v)] && w == Parent(w) + [Last(w)];
  }

  lemma ParentStays(top: Word, w: Word)
    requires top != [] && w != []
    ensures top <= w <==> w == top || top <= Parent(w)
  {
    if top <= Parent(w) {
      assert w[..|top|] == Parent(w)[..|top|];
    }
    if top <= w && |w| > |top| {
      assert Parent(w)[..|top|] == w[..|top|];
    }
  }

  /** Pruning under the root, a marked node or one with another child leaves no dead end. */
  lemma Prunes<K(0)>(s: State<K>, top: Word)
    requires Good(s, []) && top in s && top != []
    requires Parent(top) == [] || s[Parent(top)].marked || s[Parent(top)].childCount > 1
    ensures s[Parent(top)].childCount > 0 && Good(Pruned(s, top), [])
  {
    hide LinkedDown, LinkedUp, Present;
    ParentIsLinked(s, top);
    PresentUpdate(s[Parent(top)].children, Last(top), null);
    assert Counted(Pruned(s, top));
    PrunesDown(s, top);
    PrunesUp(s, top);
  }

  lemma ParentIsLinked<K(0)>(s: State<K>, top: Word)
    requires Counted(s) && LinkedUp(s) && top in s && top != []
    ensures Parent(top) in s && s[Parent(top)].children[Last(top)] == s[top].node
    ensures s[Parent(top)].childCount > 0
  {
    PresentZero(s[Parent(top)].children);
  }

  lemma PrunesDown<K(0)>(s: State<K>, top: Word)
    requires Counted(s) && LinkedDown(s) && top != [] && Parent(top) in s && s[Parent(top)].childCount > 0
    requires Counted(Pruned(s, top))
    ensures LinkedDown(Pruned(s, top))
  {
    hide Present;
    var s' := Pruned(s, top);
    forall v, d: byte | v in s' && s'[v].children[d] != null
      ensures v + [d] in s' && s'[v + [d]].node == s'[v].children[d]
    {
      var next := v + [d];
      assert Parent(next) == v && Last(next) == d;
      ParentStays(top, next);
      assert s[v].children[d] == s'[v].children[d];
    }
  }

  lemma PrunesUp<K(0)>(s: State<K>, top: Word)
    requires Counted(s) && LinkedUp(s) && top != [] && Parent(top) in s && s[Parent(top)].childCount > 0
    requires Counted(Pruned(s, top))
    ensures LinkedUp(Pruned(s, top))
  {
    hide Present, Parent, Last;
    var s' := Pruned(s, top);
    forall v | v in s' && v != []
      ensures Parent(v) in s' && s'[Parent(v)].children[Last(v)] == s'[v].node
    {
      ParentStays(top, v);
      SameParent(top, v);
    }
  }

  /**
    Where `w` is the end of a chain of unmarked only children that starts at `top`, the words that
    start with `top` are those that start with `w`.
   */
  ghost predicate Chain<K(0)>(s: State<K>, from: nat, w: Word) {
    forall j :: from < j < |w| ==> w[..j] in s && !s[w[..j]].marked && s[w[..j]].childCount <= 1
  }

  /** A node with no more than one child does not fork. */
  lemma ForkFree<K(0)>(s: State<K>, w: Word, c: byte, d: byte)
    requires Good(s, []) && w in s && s[w].childCount <= 1 && w + [c] in s && w + [d] in s
    ensures c == d
  {
    ChildIsLinked(s, [], w, c);
    ChildIsLinked(s, [], w, d);
    OnlyChild(s[w].children, c);
  }

  lemma {:induction false} ChainHolds<K(0)>(s: State<K>, from: nat, w: Word, v: Word, k: nat)
    requires Good(s, []) && w in s && from < k <= |w| && Chain(s, from, w)
    requires v in EntriesOf(s) && w[..from + 1] <= v
    ensures w[..k] <= v
  {
    hide Good;
    if k > from + 1 {
      var j := k - 1;
      ChainHolds(s, from, w, v, j);
      assert w[..j] in s && !s[w[..j]].marked;
      assert v != w[..j];
      PrefixesAreIn(s, [], v, j + 1);
      PrefixesAreIn(s, [], w, j + 1);
      assert v[..j + 1] == w[..j] + [v[j]] && w[..j + 1] == w[..j] + [w[j]];
      ForkFree(s, w[..j], w[j], v[j]);
    }
  }

  lemma ChainWords<K(0)>(s: State<K>, from: nat, w: Word)
    requires Good(s, []) && w in s && from < |w| && Chain(s, from, w)
    ensures forall v :: v in EntriesOf(s) ==> (w[..from + 1] <= v <==> w <= v)
  {
    hide Good, EntriesOf, Chain;
    forall v | v in EntriesOf(s)
      ensures w[..from + 1] <= v <==> w <= v
    {
      if w[..from + 1] <= v {
        ChainHolds(s, from, w, v, |w|);
        assert w[..|w|] == w;
      }
      if w <= v {
        assert v[..from + 1] == w[..from + 1];
      }
    }
  }

  // ---------- every node leads to a word ----------

  lemma {:induction false} LeadsToWord<K(0)>(s: State<K>, rest: set<Word>, w: Word) returns (v: Word)
    requires Good(s, []) && w in s && w != []
    requires forall x :: x in s && |w| <= |x| ==> x in rest
    ensures v in EntriesOf(s) && w <= v
    decreases |rest|
  {
    hide LinkedUp, Separate;
    if s[w].marked {
      v := w;
    } else {
      PresentZero(s[w].children);
      var c :| 0 <= c < RANGE && s[w].children[c] != null;
      assert w in rest;
      v := LeadsToWord(s, rest - {w}, w + [c]);
      assert v[..|w|] == w;
    }
  }

  /** A non-empty string leads to a node exactly when some stored word begins with it. */
  lemma NodesArePrefixes<K(0)>(s: State<K>, w: Word)
    requires Good(s, []) && w != []
    ensures w in s <==> exists v :: v in EntriesOf(s) && w <= v
  {
    if w in s {
      var v := LeadsToWord(s, s.Keys, w);
    }
    forall v | v in EntriesOf(s) && w <= v
      ensures w in s
    {
      PrefixesAreIn(s, [], v, |w|);
      assert v[..|w|] == w;
    }
  }

  lemma EntriesAfterKey<K(0)>(s: State<K>, w: Word, k: K)
    requires w in s
    ensures EntriesOf(s[w := s[w].(key := k)]) == if w in EntriesOf(s) then EntriesOf(s)[w := k] else EntriesOf(s)
  {
  }

  lemma EntriesAfterChild<K(0)>(s: State<K>, w: Word, c: byte, child: Cell<K>)
    requires w in s && c < |s[w].children| && w + [c] !in s && !child.marked
    ensures EntriesOf(WithChild(s, w, c, child)) == EntriesOf(s)
  {
  }

  lemma EntriesAfterPrune<K(0)>(s: State<K>, from: nat, w: Word)
    requires Good(s, []) && w in s && from < |w| && Chain(s, from, w)
    requires Parent(w[..from + 1]) in s && s[Parent(w[..from + 1])].childCount > 0
    requires |s[Parent(w[..from + 1])].children| == RANGE
    ensures EntriesOf(Pruned(s, w[..from + 1])) == Without(EntriesOf(s), w)
  {
    hide Good, Pruned, EntriesOf, Chain;
    ChainWords(s, from, w);
    PrunedEntries(s, w[..from + 1]);
  }

  lemma PrunedEntries<K(0)>(s: State<K>, top: Word)
    requires top != [] && Parent(top) in s && Last(top) < |s[Parent(top)].children| && s[Parent(top)].childCount > 0
    ensures EntriesOf(Pruned(s, top)) == Without(EntriesOf(s), top)
  {
    hide Parent;
  }

  /** What is left of some entries when every word that begins with `w` goes. */
  ghost function Without<K>(entries: map<Word, K>, w: Word): map<Word, K> {
    map v | v in entries && !(w <= v) :: entries[v]
  }

  /** Only the word itself goes exactly when no stored word goes on from it. */
  lemma WithoutExactly<K>(entries: map<Word, K>, w: Word)
    requires w in entries
    ensures Without(entries, w) == entries - {w} <==> forall v :: v in entries && w <= v ==> v == w
  {
    if Without(entries, w) == entries - {w} {
      forall v | v in entries && w <= v
        ensures v == w
      {
        assert v !in Without(entries, w);
      }
    }
  }

  lemma LoneRoot<K(0)>(s: State<K>)
    requires s.Keys == {[]} && !s[[]].marked && s[[]].childCount == 0
    requires |s[[]].children| == RANGE && forall c :: 0 <= c < RANGE ==> s[[]].children[c] == null
    ensures Good(s, []) && EntriesOf(s) == map[]
  {
    hide Present;
    PresentZero(s[[]].children);
  }

  // ---------- the nodes ----------

  class TrieNode<K(0)> {
    var marked: bool
    var children: seq<TrieNode?<K>>
    var childCount: nat
    var key: K
    /** At the root, every node of the trie. */
    ghost var tree: map<Word, TrieNode<K>>

    constructor ()
      ensures !marked && childCount == 0 && tree == map[[] := this]
      ensures |children| == RANGE && forall c :: 0 <= c < RANGE ==> children[c] == null
      ensures Valid() && Entries() == map[] && Nodes() == {this}
    {
      marked, children, childCount, key := false, seq(RANGE, _ => null), 0, *;
      new;
      tree := map[[] := this];
      LoneRoot(State());
    }

    ghost function Holds(): Cell<K>
      reads this
    {
      Cell(this, children, childCount, marked, key)
    }

    ghost function State(): State<K>
      reads this, tree.Values
    {
      map w | w in tree :: tree[w].Holds()
    }

    ghost function Nodes(): set<object>
      reads this
    {
      {this} + set n | n in tree.Values :: n
    }

    ghost predicate Rooted()
      reads this
    {
      [] in tree && tree[[]] == this
    }

    ghost predicate Valid()
      reads this, tree.Values
    {
      Rooted() && Good(State(), [])
    }

    ghost function Entries(): map<Word, K>
      reads this, tree.Values
    {
      EntriesOf(State())
    }

    function GetChild(val: byte): TrieNode?<K>
      requires |children| == RANGE && val < LETTERS
      reads this
    {
      children[val]
    }

    method CreateChild(val: byte) returns (child: TrieNode<K>)
      requires |children| == RANGE && val < LETTERS
      modifies this`children, this`childCount
      ensures old(children[val]) != null ==>
                child == old(children[val]) && children == old(children) && childCount == old(childCount)
      ensures old(children[val]) == null ==>
                && fresh(child) && !child.marked && child.childCount == 0 && |child.children| == RANGE
                && (forall c :: 0 <= c < RANGE ==> child.children[c] == null)
                && children == old(children)[val := child] && childCount == old(childCount) + 1
    {
      if children[val] != null {
        return children[val];
      }
      child := new TrieNode();
      children := children[val := child];
      childCount := childCount + 1;
    }

    /** What hangs from the child goes with it. */
    method RemoveChild(val: byte)
      requires |children| == RANGE && val < LETTERS && (children[val] != null ==> childCount > 0)
      modifies this`children, this`childCount
      ensures children == old(children)[val := null]
      ensures childCount == if old(children[val]) == null then old(childCount) else old(childCount) - 1
    {
      if children[val] == null {
        return;
      }
      children := children[val := null];
      childCount := childCount - 1;
    }

    /** The nodes are where some stored word goes on, and the root. */
    lemma NodesLeadOn(w: Word)
      requires Valid()
      ensures w in tree <==> LeadsOn(Entries(), w)
    {
      hide Counted, LinkedDown, LinkedUp, Separate, NoDeadEnds, EntriesOf;
      if w == [] {
        assert w in tree;
      } else {
        NodesArePrefixes(State(), w);
        assert Entries() == EntriesOf(State());
      }
    }

    method Search(str: Word) returns (r: TrieNode?<K>)
      requires Valid() && Walkable(Entries(), str)
      ensures r == if str in tree then tree[str] else null
    {
      hide LinkedDown, LinkedUp, Separate, NoDeadEnds, LeadsOn, EntriesOf;
      var currNode: TrieNode<K> := this;
      for i := 0 to |str|
        invariant str[..i] in tree && tree[str[..i]] == currNode
      {
        NodesLeadOn(str[..i]);
        Leads(str, i);
        var child := currNode.GetChild(str[i]);
        if child == null {
          return null;
        }
        currNode := child;
      }
      assert str[..|str|] == str;
      return currNode;
    }

    /** What the child pointer says at one step of a walk along `str`. */
    lemma Leads(str: Word, i: nat)
      requires Valid() && i < |str| && str[..i] in tree
      ensures |tree[str[..i]].children| == RANGE
      ensures tree[str[..i]].children[str[i]] == if str[..i + 1] in tree then tree[str[..i + 1]] else null
      ensures str[..i + 1] !in tree ==> str !in tree
    {
      ChildIsLinked(State(), [], str[..i], str[i]);
      assert str[..i + 1] == str[..i] + [str[i]];
      if str in tree {
        PrefixesAreIn(State(), [], str, i + 1);
      }
    }

    /** The node under the empty word is the root, which no word marks: it is not added. */
    method AddWord(str: Word) returns (r: TrieNode?<K>)
      requires Valid() && Ascii(str)
      modifies this, tree.Values
      ensures Valid() && fresh(tree.Values - old(tree.Values))
      ensures str == [] ==> r == null && Entries() == old(Entries())
      ensures str != [] ==> r != null && str in tree && r == tree[str] && Entries() == old(Entries())[str := r.key]
      ensures str in old(Entries()) ==> Entries() == old(Entries())
    {
      if str == [] {
        return null;
      }
      var node := Walk(str);
      ghost var s := State();
      node.marked := true;
      MarkedAt(s, str);
      StoredKey(s, str);
      return node;
    }

    static lemma StoredKey(s: State<K>, w: Word)
      requires w in s
      ensures w in EntriesOf(s) ==> EntriesOf(s)[w := s[w].key] == EntriesOf(s)
    {
    }

    /** The node under `str`, made along the way where nodes are missing; it is still to be marked. */
    method Walk(str: Word) returns (currNode: TrieNode<K>)
      requires Valid() && Ascii(str)
      modifies this, tree.Values
      ensures Rooted() && Good(State(), str) && str in tree && tree[str] == currNode
      ensures Entries() == old(Entries()) && fresh(tree.Values - old(tree.Values))
    {
      hide Good, EntriesOf, Holds;
      currNode := this;
      assert str[..0] == [];
      for i := 0 to |str|
        invariant Rooted() && Good(State(), str[..i])
        invariant str[..i] in tree && tree[str[..i]] == currNode
        invariant Entries() == old(Entries()) && fresh(tree.Values - old(tree.Values))
      {
        assert str[..i + 1] == str[..i] + [str[i]] && str[i] in str;
        currNode := Advance(currNode, str[..i], str[i]);
      }
      assert str[..|str|] == str;
    }

    /** Only the mark of the node under `w` is new. */
    lemma MarkedAt(s: State<K>, w: Word)
      requires Rooted() && Good(s, w) && w in s && w != [] && s.Keys == tree.Keys
      requires forall v :: v in tree && tree[v] != tree[w] ==> tree[v].Holds() == s[v]
      requires forall v :: v in tree ==> tree[v] == s[v].node
      requires tree[w].Holds() == s[w].(marked := true)
      ensures Valid() && Entries() == EntriesOf(s)[w := s[w].key]
    {
      hide Counted, LinkedDown, LinkedUp, NoDeadEnds, EntriesOf;
      assert State() == s[w := s[w].(marked := true)];
      Marks(s, w);
    }

    /** One letter further, along a child that is made if it is missing. */
    method Advance(currNode: TrieNode<K>, ghost w: Word, val: byte) returns (child: TrieNode<K>)
      requires Rooted() && Good(State(), w) && w in tree && tree[w] == currNode && val < LETTERS
      modifies this`tree, currNode`children, currNode`childCount
      ensures Rooted() && Good(State(), w + [val]) && w + [val] in tree && tree[w + [val]] == child
      ensures Entries() == old(Entries()) && fresh(tree.Values - old(tree.Values))
    {
      hide LinkedDown, LinkedUp, NoDeadEnds, Separate, Present, EntriesOf;
      ghost var s := State();
      ChildIsLinked(s, w, w, val);
      OthersElsewhere(s, w);
      var next := currNode.GetChild(val);
      if next != null {
        Descends(s, w, val);
        return next;
      }
      child := currNode.CreateChild(val);
      tree := tree[w + [val] := child];
      ChildAt(s, w, val, child);
    }

    /** Only the node under `w` has changed, by a new child. */
    lemma ChildAt(s: State<K>, w: Word, val: byte, child: TrieNode<K>)
      requires Rooted() && Good(s, w) && w in s && s[w].children[val] == null && w + [val] !in s
      requires tree.Keys == s.Keys + {w + [val]} && tree[w + [val]] == child
      requires forall v :: v in s && v != w ==> tree[v].Holds() == s[v]
      requires forall v :: v in s ==> s[v].node != child
      requires tree[w].Holds() == s[w].(children := s[w].children[val := child], childCount := s[w].childCount + 1)
      requires !child.marked && child.childCount == 0 && |child.children| == RANGE
      requires forall c :: 0 <= c < RANGE ==> child.children[c] == null
      ensures Good(State(), w + [val]) && Entries() == EntriesOf(s)
    {
      hide LinkedDown, LinkedUp, NoDeadEnds, Separate, Present, EntriesOf;
      assert State() == WithChild(s, w, val, child.Holds());
      Creates(s, w, val, child.Holds());
      EntriesAfterChild(s, w, val, child.Holds());
    }

    /** The key of a node is set from outside of the trie. */
    method SetKey(ghost w: Word, node: TrieNode<K>, k: K)
      requires Valid() && w in tree && tree[w] == node
      modifies node`key
      ensures Valid() && tree == old(tree)
      ensures Entries() == if w in old(Entries()) then old(Entries())[w := k] else old(Entries())
    {
      hide Counted, LinkedDown, LinkedUp, NoDeadEnds, Separate, EntriesOf;
      ghost var s := State();
      OthersElsewhere(s, w);
      node.key := k;
      KeySetAt(s, w);
    }

    lemma KeySetAt(s: State<K>, w: Word)
      requires Rooted() && Good(s, []) && w in s && s.Keys == tree.Keys
      requires forall v :: v in tree && v != w ==> tree[v].Holds() == s[v]
      requires tree[w].Holds() == s[w].(key := tree[w].key)
      ensures Valid()
      ensures Entries() == if w in EntriesOf(s) then EntriesOf(s)[w := tree[w].key] else EntriesOf(s)
    {
      hide Counted, LinkedDown, LinkedUp, Separate, EntriesOf;
      assert State() == s[w := s[w].(key := tree[w].key)];
      SameLinks(s, State());
      EntriesAfterKey(s, w, tree[w].key);
    }

    /** `add_word(str)->key = k`; there is no node to use for the empty string. */
    method Put(str: Word, k: K)
      requires Valid() && str != [] && Ascii(str)
      modifies this, tree.Values
      ensures Valid() && fresh(Nodes() - old(Nodes()))
      ensures Entries() == old(Entries())[str := k]
    {
      hide Good, EntriesOf;
      var node := AddWord(str);
      SetKey(str, node, k);
    }

    method RemoveWord(str: Word)
      requires Valid() && Walkable(Entries(), str)
      modifies this, tree.Values
      ensures Valid() && tree.Values <= old(tree.Values)
      ensures Entries() == if str in old(Entries()) then Without(old(Entries()), str) else old(Entries())
    {
      hide Good, Separate, EntriesOf, Pruned, Parent, Last, OnlyChildren, Without;
      RootIsNoWord();
      if str == [] {
        return;
      }
      var stored, lowestAnsPar, lowestAnsVal, from := LowestAncestor(str);
      if stored {
        Cuts(str, from);
        CutOff(lowestAnsPar, lowestAnsVal, str[..from + 1]);
      }
    }

    lemma RootIsNoWord()
      requires Valid()
      ensures [] !in Entries()
    {
    }

    /**
      If `str` is stored, the lowest node on the way to it that is there for other words as well (or
      the root), and the letter that leads on from it.
     */
    method LowestAncestor(str: Word)
      returns (stored: bool, lowestAnsPar: TrieNode<K>, lowestAnsVal: byte, ghost from: nat)
      requires Valid() && str != [] && Walkable(Entries(), str)
      ensures stored <==> str in Entries()
      ensures stored ==>
        && str in tree && from < |str| && lowestAnsVal == str[from] < LETTERS
        && str[..from] in tree && lowestAnsPar == tree[str[..from]]
        && (from == 0 || lowestAnsPar.marked || lowestAnsPar.childCount > 1) && OnlyChildren(str, from, |str|)
    {
      hide Good, Counted, LinkedDown, LinkedUp, Separate, NoDeadEnds, Present, LeadsOn;
      NodesLeadOn(str[..0]);
      assert str[..0] == [];
      lowestAnsPar := this;
      lowestAnsVal := str[0];
      from := 0;
      var currNode: TrieNode<K> := this;
      for i := 0 to |str|
        invariant str[..i] in tree && tree[str[..i]] == currNode
        invariant from < |str| && (from == 0 || from < i) && str[..from] in tree
        invariant lowestAnsPar == tree[str[..from]] && lowestAnsVal == str[from] < LETTERS
        invariant from == 0 || lowestAnsPar.marked || lowestAnsPar.childCount > 1
        invariant OnlyChildren(str, from, i)
      {
        NodesLeadOn(str[..i]);
        Leads(str, i);
        var child := currNode.GetChild(str[i]);
        if child == null {
          return false, this, lowestAnsVal, from;
        }
        if currNode.marked || currNode.childCount > 1 {
          lowestAnsPar := currNode;
          lowestAnsVal := str[i];
          from := i;
        }
        currNode := child;
      }
      assert str[..|str|] == str;
      stored := currNode.marked;
    }

    /** The nodes strictly between are unmarked and have one child. */
    ghost predicate OnlyChildren(str: Word, from: nat, to: nat)
      requires to <= |str|
      reads this, tree.Values
    {
      forall j :: from < j < to ==> str[..j] in tree && !tree[str[..j]].marked && tree[str[..j]].childCount <= 1
    }

    /** The child goes, and every node below it. */
    method CutOff(par: TrieNode<K>, val: byte, ghost top: Word)
      requires Rooted() && top != [] && Parent(top) in tree && par == tree[Parent(top)] && val == Last(top)
      requires Separate(State()) && |par.children| == RANGE && val < LETTERS
      requires par.children[val] != null && par.childCount > 0
      modifies this`tree, par`children, par`childCount
      ensures Rooted() && tree == map w | w in old(tree) && !(top <= w) :: old(tree)[w]
      ensures State() == Pruned(old(State()), top)
    {
      hide Parent, Last, Separate, Present;
      ghost var s := State();
      OthersElsewhere(s, Parent(top));
      par.RemoveChild(val);
      tree := map w | w in tree && !(top <= w) :: tree[w];
    }

    lemma Cuts(str: Word, from: nat)
      requires Valid() && str in tree && from < |str|
      requires OnlyChildren(str, from, |str|)
      requires str[..from] in tree
      requires from == 0 || tree[str[..from]].marked || tree[str[..from]].childCount > 1
      ensures var top := str[..from + 1]; var par := tree[str[..from]];
        && Parent(top) == str[..from] && Last(top) == str[from]
        && |par.children| == RANGE && par.children[str[from]] != null && par.childCount > 0
        && Separate(State()) && State()[Parent(top)].childCount > 0 && |State()[Parent(top)].children| == RANGE
        && Good(Pruned(State(), top), [])
        && EntriesOf(Pruned(State(), top)) == Without(Entries(), str)
    {
      hide LinkedDown, NoDeadEnds, Present, EntriesOf, Pruned;
      var top := str[..from + 1];
      assert Parent(top) == str[..from] && Last(top) == str[from];
      PrefixesAreIn(State(), [], str, from + 1);
      ParentIsLinked(State(), top);
      Prunes(State(), top);
      ChainFrom(str, from);
      EntriesAfterPrune(State(), from, str);
    }

    lemma ChainFrom(str: Word, from: nat)
      requires OnlyChildren(str, from, |str|)
      ensures Chain(State(), from, str)
    {
    }

    method ContainsWord(str: Word) returns (r: bool)
      requires Valid() && Walkable(Entries(), str)
      ensures r <==> str in Entries()
    {
      var node := Search(str);
      return node != null && node.marked;
    }

    /** The empty string leads to the root, whatever is stored. */
    method IsPrefix(str: Word) returns (r: bool)
      requires Valid() && Walkable(Entries(), str)
      ensures r <==> str == [] || exists w :: w in Entries() && str <= w
    {
      hide Good, EntriesOf;
      var node := Search(str);
      NodesLeadOn(str);
      return node != null;
    }

    method ContainsPrefix(str: Word) returns (r: bool)
      requires Valid() && WalkableToWord(Entries(), str)
      ensures r <==> exists w :: w in Entries() && w <= str
    {
      hide Counted, LinkedDown, LinkedUp, Separate, NoDeadEnds, Present, LeadsOn;
      var currNode: TrieNode<K> := this;
      for i := 0 to |str|
        invariant str[..i] in tree && tree[str[..i]] == currNode
        invariant forall j :: 0 <= j <= i ==> str[..j] !in Entries()
      {
        NodesLeadOn(str[..i]);
        Leads(str, i);
        var child := currNode.GetChild(str[i]);
        if child == null {
          NoWordBegins(str, i);
          return false;
        }
        currNode := child;
        if currNode.marked {
          assert str[..i + 1] in Entries() && str[..i + 1] <= str;
          return true;
        }
      }
      assert forall w :: w <= str ==> w == str[..|w|];
      return false;
    }

    lemma NoWordBegins(str: Word, i: nat)
      requires Valid() && i < |str| && str[..i + 1] !in tree
      requires forall j :: 0 <= j <= i ==> str[..j] !in Entries()
      ensures forall w :: w <= str ==> w !in Entries()
    {
      hide Counted, LinkedDown, LinkedUp, Separate, NoDeadEnds;
      forall w | w <= str
        ensures w !in Entries()
      {
        assert w == str[..|w|];
        if |w| > i && w in tree {
          assert w[..i + 1] == str[..i + 1];
          PrefixesAreIn(State(), [], w, i + 1);
        }
      }
    }
  }
}
