/** Small tries on which the erase and rbegin paths of trie.h go wrong as
    written, each set beside the corrected operation on the same input. */
module TrieFindings {
  import opened Wrappers
  import opened TrieNode
  import opened TrieKeys
  import opened TriePaths
  import opened TrieIterator
  import opened KeyOrder
  import opened Trie
  import opened TrieTraversal

  function Leaf(c: char, v: int): Node<int> {
    Node(c, Some(v), [])
  }

  /** The trie holding "a" -> 1, "ab" -> 2 and "b" -> 3. */
  function Sample(): Trie<int> {
    Trie(Node(RootKey, None, [Node('a', Some(1), [Leaf('b', 2)]), Leaf('b', 3)]))
  }

  /** The trie holding only "a" -> 1. */
  function Single(): Trie<int> {
    Trie(Node(RootKey, None, [Leaf('a', 1)]))
  }

  /** A leaf lists one key, the empty path. */
  lemma LeafShape(c: char, v: int)
    requires IsKeyChar(c)
    ensures Ordered(Leaf(c, v)) && NoDangling(Leaf(c, v)) && Live(Leaf(c, v))
    ensures KeysOf(Leaf(c, v)) == [[]]
    ensures PrefixAll(c, KeysOf(Leaf(c, v))) == [[c]]
  {
    assert KeysRange(Leaf(c, v), 0, 0) == [];
    var r := PrefixAll(c, [[]]);
    assert r[0] == [c] + [] == [c];
  }

  /** The node for "a" in `Sample`: it holds 1 and has the leaf "b" below. */
  lemma BranchShape()
    ensures var a := Node('a', Some(1), [Leaf('b', 2)]);
      && Ordered(a) && NoDangling(a) && Live(a)
      && PrefixAll('a', KeysOf(a)) == ["a", "ab"]
  {
    var a := Node('a', Some(1), [Leaf('b', 2)]);
    LeafShape('b', 2);
    assert KeysRange(a, 1, 1) == [];
    assert KeysOf(a) == [[], "b"];
    var pa := PrefixAll('a', KeysOf(a));
    assert pa[0] == ['a'] + [] == "a";
    assert pa[1] == ['a'] + "b" == "ab";
    assert pa == ["a", "ab"];
  }

  /** `Sample` is well-formed and stores "a", "ab" and "b". */
  lemma SampleShape()
    ensures WellFormed(Sample()) && Keys(Sample()) == ["a", "ab", "b"]
  {
    var root := Sample().root;
    BranchShape();
    LeafShape('b', 3);
    assert KeysRange(root, 2, 2) == [];
    assert KeysRange(root, 1, 2) == ["b"];
    assert KeysRange(root, 0, 2) == ["a", "ab", "b"];
    assert AllSorted(root) by {
      OrderedAllSorted(root);
    }
  }

  /** `Single` is well-formed and stores only "a". */
  lemma SingleShape()
    ensures WellFormed(Single()) && Keys(Single()) == ["a"]
  {
    var root := Single().root;
    LeafShape('a', 1);
    assert KeysRange(root, 1, 1) == [];
    assert KeysRange(root, 0, 1) == ["a"];
    assert AllSorted(root) by {
      OrderedAllSorted(root);
    }
  }

  /** The hypothesis of the lemmas below: a well-formed trie storing
      exactly "a", "ab" and "b". `Sample` is one (see `SampleShape`); the
      lemmas hold for every such trie, whatever its values. */
  ghost predicate StoresSample<V>(t: Trie<V>) {
    WellFormed(t) && Keys(t) == ["a", "ab", "b"]
  }

  /** erase("a") as written also loses "ab", stored below "a". */
  lemma EraseKeyLosesExtension<V>(t: Trie<V>)
    requires StoresSample(t)
    ensures ValueAt(t.root, "ab").Some?
    ensures var r := EraseKeyAsWritten(t, "a");
      r.Success? && ValueAt(r.value.0.root, "ab").None?
  {
    assert "a" in Keys(t) && "ab" in Keys(t) && "b" in Keys(t);
    KeysMembership(t.root, "a");
    KeysMembership(t.root, "ab");
    KeysMembership(t.root, "b");
    assert !("a" <= "b");
    EraseKeyAsWrittenFails(t, "a");
  }

  /** The corrected erase("a") on the same trie takes out "a" alone. */
  lemma EraseKeyKeepsExtension<V>(t: Trie<V>)
    requires StoresSample(t)
    ensures Keys(EraseKey(t, "a").0) == ["ab", "b"]
  {
    var ks := Keys(t);
    EraseKeyKeys(t, 0);
    assert ks[0] == "a" && ks[..0] + ks[1..] == ["ab", "b"];
  }

  /** erase("a") as written on a trie holding only "a" climbs past the root
      and calls through its null parent; the corrected erase empties the
      trie and reports one key erased. */
  lemma EraseOnlyKeyCrashes<V>(t: Trie<V>)
    requires WellFormed(t) && Keys(t) == ["a"]
    ensures EraseKeyAsWritten(t, "a") == Failure(NullDereference)
    ensures var r := EraseKey(t, "a");
      r.1 == 1 && Keys(r.0) == []
  {
    assert "a" in Keys(t);
    KeysMembership(t.root, "a");
    forall q | ValueAt(t.root, q).Some?
      ensures "a" <= q
    {
      KeysMembership(t.root, q);
    }
    EraseKeyAsWrittenFails(t, "a");
    EraseKeyKeys(t, 0);
  }

  /** erase("") as written: `find("")` reaches the root, so `erase_at` runs
      on it and calls `erase_child` through the root's null parent, on every
      trie. The corrected erase reports no key erased and changes nothing. */
  lemma EraseEmptyKeyCrashes<V>(t: Trie<V>)
    requires AllSorted(t.root)
    ensures Count(t, []) == 1
    ensures EraseKeyAsWritten(t, []) == Failure(NullDereference)
    ensures EraseKey(t, []) == (t, 0)
  {
    CountMeaning(t, []);
  }

  /** erase(pos) as written at "a" returns the position of "ab", a node it
      has just unlinked. */
  lemma EraseIterDangles<V>(t: Trie<V>)
    requires StoresSample(t)
    ensures ValidIter(t.root, Iter(At("a"), None))
    ensures var r := EraseIterAsWritten(t, Iter(At("a"), None));
      r.Success? && r.value.1 == Iter(At("ab"), None) && Lookup(r.value.0.root, "ab").None?
  {
    NextKey(t, 0);
    EraseKeyLosesExtension(t);
  }

  /** The corrected erase(pos) at "a" returns "ab", still stored. */
  lemma EraseIterKeepsNext<V>(t: Trie<V>)
    requires StoresSample(t)
    ensures ValidIter(t.root, Iter(At("a"), None))
    ensures var r := EraseIter(t, Iter(At("a"), None));
      r.1 == Iter(At("ab"), None) && ValidIter(r.0.root, r.1)
  {
    EraseIterNext(t, 0);
  }

  /** rbegin() as written on an empty trie is the root, not rend(): a
      reverse loop from it reads the root's value, which it does not
      have. */
  lemma RBeginOnEmpty()
    ensures RBeginAsWritten(New<int>()) == RootIter()
    ensures Lookup(New<int>().root, []).Some? && Lookup(New<int>().root, []).value.value.None?
    ensures RBegin(New<int>()) == EndIter()
  {
  }
}
