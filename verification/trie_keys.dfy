/** The keys a trie holds, listed in the order its iterator visits them:
    a node's own key (the empty path) before the keys of its children, and
    the children in ascending key order. That is lexicographic order. */
module TrieKeys {
  import opened Wrappers
  import opened TrieNode
  import opened KeyOrder

  /** Paths from `n` to the value-bearing nodes of its subtree, in pre-order. */
  function KeysOf<V>(n: Node<V>): seq<seq<char>>
    decreases n, 1
  {
    (if n.value.Some? then [[]] else []) + KeysRange(n, 0, |n.children|)
  }

  /** The keys below the children `lo .. hi - 1` of `n`, each with its
      child's key in front. */
  function KeysRange<V>(n: Node<V>, lo: nat, hi: nat): seq<seq<char>>
    requires lo <= hi <= |n.children|
    decreases n, 0, hi - lo
  {
    if lo == hi then []
    else PrefixAll(n.children[lo].key, KeysOf(n.children[lo])) + KeysRange(n, lo + 1, hi)
  }

  lemma {:induction false} KeysRangeSplitLast<V>(n: Node<V>, lo: nat, hi: nat)
    requires lo < hi <= |n.children|
    ensures KeysRange(n, lo, hi) ==
      KeysRange(n, lo, hi - 1) + PrefixAll(n.children[hi - 1].key, KeysOf(n.children[hi - 1]))
    decreases hi - lo
  {
    if lo + 1 < hi {
      KeysRangeSplitLast(n, lo + 1, hi);
    }
  }

  // ###### order ######

  /** Every key listed by `KeysRange(n, lo, hi)` starts with a child key at
      least that of child `lo`. */
  lemma {:induction false} KeysRangeSorted<V>(n: Node<V>, lo: nat, hi: nat)
    requires Ordered(n) && lo <= hi <= |n.children|
    ensures StrictlySorted(KeysRange(n, lo, hi))
    ensures forall x :: x in KeysRange(n, lo, hi) ==>
      |x| > 0 && lo < hi && n.children[lo].key <= x[0]
    decreases n, 0, hi - lo
  {
    if lo < hi {
      var ch := n.children[lo];
      assert ch in n.children;
      var a := PrefixAll(ch.key, KeysOf(ch));
      var b := KeysRange(n, lo + 1, hi);
      KeysSorted(ch);
      SortedPrefixAll(ch.key, KeysOf(ch));
      KeysRangeSorted(n, lo + 1, hi);
      forall x | x in a
        ensures |x| > 0 && x[0] == ch.key
      {
        var i :| 0 <= i < |a| && a[i] == x;
      }
      forall x | x in b
        ensures |x| > 0 && ch.key < x[0]
      {
        SortedAt(n.children, lo, lo + 1);
      }
      SortedConcat(a, b);
    }
  }

  /** The iteration order is strictly ascending: lexicographic and without
      repetitions. */
  lemma {:induction false} KeysSorted<V>(n: Node<V>)
    requires Ordered(n)
    ensures StrictlySorted(KeysOf(n))
    decreases n, 1
  {
    KeysRangeSorted(n, 0, |n.children|);
    var own: seq<seq<char>> := if n.value.Some? then [[]] else [];
    SortedConcat(own, KeysRange(n, 0, |n.children|));
  }

  // ###### membership ######

  /** A path is listed by `KeysRange(n, lo, hi)` exactly when it goes through
      one of the children `lo .. hi - 1` to a listed key of that child. */
  lemma {:induction false} KeysRangeMembership<V>(n: Node<V>, lo: nat, hi: nat, p: seq<char>)
    requires lo <= hi <= |n.children|
    ensures p in KeysRange(n, lo, hi) <==>
      |p| > 0 && exists i :: lo <= i < hi && n.children[i].key == p[0] && p[1..] in KeysOf(n.children[i])
    decreases hi - lo
  {
    if lo < hi {
      var ch := n.children[lo];
      var a := PrefixAll(ch.key, KeysOf(ch));
      KeysRangeMembership(n, lo + 1, hi, p);
      if p in a {
        var j :| 0 <= j < |a| && a[j] == p;
        assert p[1..] == KeysOf(ch)[j];
      }
      if |p| > 0 && ch.key == p[0] && p[1..] in KeysOf(ch) {
        var j :| 0 <= j < |KeysOf(ch)| && KeysOf(ch)[j] == p[1..];
        assert a[j] == p;
      }
    }
  }

  /** The iteration visits exactly the keys that hold a value. */
  lemma {:induction false} KeysMembership<V>(n: Node<V>, p: seq<char>)
    requires Ordered(n)
    ensures p in KeysOf(n) <==> ValueAt(n, p).Some?
    decreases n
  {
    var cs := n.children;
    KeysRangeMembership(n, 0, |cs|, p);
    if |p| > 0 {
      assert p != [];
      GetChildMeaning(n, p[0]);
      if exists ch :: ch in cs && ch.key == p[0] {
        var ch := GetChild(n, p[0]).value;
        var i :| 0 <= i < |cs| && cs[i] == ch;
        KeysMembership(ch, p[1..]);
        assert ValueAt(n, p) == ValueAt(ch, p[1..]);
        forall j | 0 <= j < |cs| && cs[j].key == p[0]
          ensures j == i
        {
          if j < i {
            SortedAt(cs, j, i);
          } else if i < j {
            SortedAt(cs, i, j);
          }
        }
      } else {
        assert GetChild(n, p[0]).None?;
        forall j | 0 <= j < |cs|
          ensures cs[j].key != p[0]
        {
          assert cs[j] in cs;
        }
      }
    }
  }

  // ###### no dangling nodes ######

  /** Below a root with no dangling nodes, every node is live and has no
      dangling nodes itself. */
  lemma {:induction false} NoDanglingLookup<V>(n: Node<V>, p: seq<char>)
    requires NoDangling(n) && Lookup(n, p).Some?
    ensures NoDangling(Lookup(n, p).value)
    ensures |p| > 0 ==> Live(Lookup(n, p).value)
    decreases |p|
  {
    if p != [] {
      var ch := GetChild(n, p[0]).value;
      NoDanglingLookup(ch, p[1..]);
    }
  }

  /** A live node with no dangling nodes below it has a key. */
  lemma {:induction false} LiveHasKeys<V>(n: Node<V>)
    requires Live(n) && NoDangling(n)
    ensures |KeysOf(n)| > 0
    decreases n
  {
    if n.value.None? {
      var ch := n.children[0];
      assert ch in n.children;
      LiveHasKeys(ch);
      assert |KeysRange(n, 0, |n.children|)| >= |KeysOf(ch)|;
    }
  }

  /** With no dangling nodes, the last key in iteration order is a leaf:
      any child of it would lead to a larger key. */
  lemma LastKeyIsLeaf<V>(n: Node<V>)
    requires Ordered(n) && NoDangling(n) && |KeysOf(n)| > 0
    ensures var p := KeysOf(n)[|KeysOf(n)| - 1];
      Lookup(n, p).Some? && Lookup(n, p).value.children == []
  {
    var ks := KeysOf(n);
    var last := |ks| - 1;
    var p := ks[last];
    assert p in ks;
    KeysMembership(n, p);
    var m := Lookup(n, p).value;
    if m.children != [] {
      var ch := m.children[0];
      assert ch in m.children;
      NoDanglingLookup(n, p);
      LiveHasKeys(ch);
      var x := KeysOf(ch)[0];
      assert x in KeysOf(ch);
      assert Ordered(ch) by { OrderedLookup(n, p); }
      KeysMembership(ch, x);
      LookupAppend(n, p, [ch.key] + x);
      assert Lookup(m, [ch.key] + x) == Lookup(ch, x) by {
        assert ([ch.key] + x)[0] == ch.key;
        assert ([ch.key] + x)[1..] == x;
        OrderedLookup(n, p);
      }
      var q := p + ([ch.key] + x);
      KeysMembership(n, q);
      var i :| 0 <= i < |ks| && ks[i] == q;
      KeysSorted(n);
      if i != last {
        assert Less(q, p);
        ExtensionNotLess(p, [ch.key] + x);
      }
    }
  }

  /** Below an ordered root every node is ordered. */
  lemma {:induction false} OrderedLookup<V>(n: Node<V>, p: seq<char>)
    requires Ordered(n) && Lookup(n, p).Some?
    ensures Ordered(Lookup(n, p).value)
    decreases |p|
  {
    if p != [] {
      var ch := GetChild(n, p[0]).value;
      OrderedLookup(ch, p[1..]);
    }
  }
}
