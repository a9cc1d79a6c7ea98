/** The map layer of the trie (trie.h): a sentinel root with key '\0' that
    holds no value, and below it one node per key character. The abstract
    content of a trie is the partial map `ValueAt(t.root, ·)` from paths to
    values; each operation is stated against that map. */
module Trie {
  import opened Wrappers
  import opened TrieNode
  import opened TrieKeys
  import opened TriePaths
  import opened TrieIterator
  import opened KeyOrder

  /** The ways the C++ code fails instead of returning: the exception `at`
      throws, and a member call through a null pointer. */
  datatype Fault = OutOfRange | NullDereference

  datatype Trie<V> = Trie(root: Node<V>)

  /** The root is the sentinel and the tree is built from character keys. */
  ghost predicate Valid<V>(t: Trie<V>) {
    t.root.key == RootKey && t.root.value.None? && Ordered(t.root) && AllSorted(t.root)
  }

  /** Valid, and no node below the root is valueless and childless. */
  ghost predicate WellFormed<V>(t: Trie<V>) {
    Valid(t) && NoDangling(t.root)
  }

  /** The stored keys in iteration order. */
  function Keys<V>(t: Trie<V>): seq<seq<char>> {
    KeysOf(t.root)
  }

  // ###### construction ######

  /** trie() (trie.h:165-167): only the sentinel root. */
  function New<V>(): (t: Trie<V>)
    ensures WellFormed(t) && Keys(t) == []
    ensures forall q :: ValueAt(t.root, q).None?
  {
    var t := Trie(Node(RootKey, None, []));
    assert forall q :: ValueAt(t.root, q).None? by {
      forall q
        ensures ValueAt(t.root, q).None?
      {
        ChildlessValues(t.root, q);
      }
    }
    t
  }

  /** The copy constructor (trie.h:169-172): a deep copy of the root, equal
      to the source and sharing nothing with it. */
  function Copy<V>(t: Trie<V>): (r: Trie<V>)
    ensures r == t
  {
    CopyNodeIsEqual(t.root);
    Trie(CopyNode(t.root))
  }

  // ###### lookup ######

  /** find (trie.h:396-417): follow one child per key character; the end
      position as soon as one is missing. The node reached need not hold a
      value, and the empty key reaches the root. */
  method Find<V>(t: Trie<V>, key: seq<char>) returns (it: Iter)
    ensures it == if Lookup(t.root, key).Some? then Iter(At(key), None) else Iter(End, None)
  {
    var node := t.root;
    var i := 0;
    while i < |key|
      invariant i <= |key|
      invariant Lookup(t.root, key[..i]) == Some(node)
    {
      LookupAppend(t.root, key[..i], [key[i]]);
      assert key[..i] + [key[i]] == key[..i + 1];
      assert [key[i]][1..] == [];
      match GetChild(node, key[i])
      case None =>
        assert Lookup(t.root, key[..i + 1]).None?;
        NoNodeBelowMissing(t.root, key, i + 1);
        return Iter(End, None);
      case Some(ch) =>
        node := ch;
        i := i + 1;
    }
    assert key[..i] == key;
    return Iter(At(key), None);
  }

  /** Below a path that leads nowhere, nothing is found either. */
  lemma NoNodeBelowMissing<V>(n: Node<V>, key: seq<char>, i: nat)
    requires i <= |key| && Lookup(n, key[..i]).None?
    ensures Lookup(n, key).None?
  {
    if Lookup(n, key).Some? {
      LookupPrefix(n, key, i);
    }
  }

  /** count (trie.h:387-394): 1 when `find` reaches a node, else 0. */
  function Count<V>(t: Trie<V>, key: seq<char>): (n: nat)
    ensures n <= 1
    ensures n == 1 <==> Lookup(t.root, key).Some?
  {
    if Lookup(t.root, key).Some? then 1 else 0
  }

  /** contains (trie.h:419-422) */
  function Contains<V>(t: Trie<V>, key: seq<char>): (b: bool)
    ensures b <==> Count(t, key) == 1
  {
    Count(t, key) != 0
  }

  /** What `count` reports: 1 for the empty key, which reaches the root, and
      for every prefix of a stored key, junction nodes included; on a
      well-formed trie, where every node below the root leads to a value,
      0 for every other key. */
  lemma CountMeaning<V>(t: Trie<V>, key: seq<char>)
    ensures key == [] ==> Count(t, key) == 1
    ensures forall q :: ValueAt(t.root, key + q).Some? ==> Count(t, key) == 1
    ensures WellFormed(t) && Count(t, key) == 1 ==>
      key == [] || exists q :: ValueAt(t.root, key + q).Some?
  {
    forall q | ValueAt(t.root, key + q).Some?
      ensures Count(t, key) == 1
    {
      LookupPrefix(t.root, key + q, |key|);
      assert (key + q)[..|key|] == key;
    }
    if WellFormed(t) && Count(t, key) == 1 && key != [] {
      var node := Lookup(t.root, key).value;
      NoDanglingLookup(t.root, key);
      LiveHasKeys(node);
      OrderedLookup(t.root, key);
      var x := KeysOf(node)[0];
      KeysMembership(node, x);
      LookupAppend(t.root, key, x);
      assert ValueAt(t.root, key + x).Some?;
    }
  }

  /** `contains` on a well-formed trie: exactly the empty key and the
      prefixes of stored keys, so every stored key is contained and a
      contained key need not be stored. */
  lemma StoredKeysAreContained<V>(t: Trie<V>, key: seq<char>)
    ensures ValueAt(t.root, key).Some? ==> Contains(t, key)
    ensures WellFormed(t) ==>
      (Contains(t, key) <==> key == [] || exists q :: ValueAt(t.root, key + q).Some?)
  {
    CountMeaning(t, key);
    assert key + [] == key;
  }

  // ###### element access ######

  /** at (trie.h:184-198): the value slot of the node `find` reaches, which
      may be empty; out of range when it reaches none. */
  function AtKey<V>(t: Trie<V>, key: seq<char>): (r: Result<Option<V>, Fault>)
    ensures r.Failure? <==> Lookup(t.root, key).None?
    ensures r.Failure? ==> r.error == OutOfRange
    ensures r.Success? ==> r.value == ValueAt(t.root, key)
  {
    match Lookup(t.root, key)
    case None => Failure(OutOfRange)
    case Some(node) => Success(node.value)
  }

  // ###### insertion ######

  /** emplacer (trie.h:331-366) once its value is known, which is what
      insert (trie.h:298-308) passes: no-op for the empty key; otherwise
      create the missing nodes along the key and store `v` unless the key
      already holds a value. The position is that of the key's node. */
  function Insert<V>(t: Trie<V>, key: seq<char>, v: V): (r: (Trie<V>, Iter, bool))
    requires AllSorted(t.root)
    ensures AllSorted(r.0.root) && r.0.root.key == t.root.key && r.0.root.value == t.root.value
    ensures r.2 <==> key != [] && ValueAt(t.root, key).None?
    ensures forall q :: ValueAt(r.0.root, q) == if q == key && r.2 then Some(v) else ValueAt(t.root, q)
    ensures r.1 == if key == [] then Iter(End, None) else Iter(At(key), None)
    ensures key != [] ==> Lookup(r.0.root, key).Some?
  {
    if key == [] then (t, Iter(End, None), false)
    else
      EmplaceNodeMap(t.root, key, v);
      var (root, inserted) := EmplaceNode(t.root, key, v);
      (Trie(root), Iter(At(key), None), inserted)
  }

  lemma EmplaceNodeMap<V>(n: Node<V>, key: seq<char>, v: V)
    requires AllSorted(n) && |key| > 0
    ensures var r := EmplaceNode(n, key, v);
      && (r.1 <==> ValueAt(n, key).None?)
      && (forall q :: ValueAt(r.0, q) == if q == key && r.1 then Some(v) else ValueAt(n, q))
      && Lookup(r.0, key).Some?
  {
    forall q
      ensures ValueAt(EmplaceNode(n, key, v).0, q) ==
        if q == key && EmplaceNode(n, key, v).1 then Some(v) else ValueAt(n, q)
    {
      EmplaceNodeValues(n, key, v, q);
    }
    EmplaceNodeValues(n, key, v, key);
  }

  /** Insertion keeps the trie valid for a key of key characters, and never
      leaves a dangling node. */
  lemma InsertShape<V>(t: Trie<V>, key: seq<char>, v: V)
    requires AllSorted(t.root)
    ensures Valid(t) && AllKeyChars(key) ==> Valid(Insert(t, key, v).0)
    ensures NoDangling(t.root) ==> NoDangling(Insert(t, key, v).0.root)
  {
    if key != [] {
      if Valid(t) && AllKeyChars(key) {
        EmplaceNodeOrdered(t.root, key, v);
      }
      if NoDangling(t.root) {
        EmplaceNodeNoDangling(t.root, key, v);
      }
    }
  }

  /** emplace (trie.h:324-329): emplacer with an optional value; with none,
      `zero` stands for the value-initialised `_Value()`. */
  function Emplace<V>(t: Trie<V>, key: seq<char>, value: Option<V>, zero: V): (r: (Trie<V>, Iter, bool))
    requires AllSorted(t.root)
    ensures AllSorted(r.0.root)
    ensures r.2 <==> key != [] && ValueAt(t.root, key).None?
    ensures r.0.root.key == t.root.key && r.0.root.value == t.root.value
    ensures forall q :: ValueAt(r.0.root, q) == Stored(ValueAt(t.root, q), q == key && r.2, value, zero)
    ensures r.1 == if key == [] then Iter(End, None) else Iter(At(key), None)
    ensures key != [] ==> Lookup(r.0.root, key).Some?
  {
    Insert(t, key, match value case Some(v) => v case None => zero)
  }

  /** The slot after emplace: the given value, or `zero` without one, where
      emplace stored; the old slot elsewhere. */
  function Stored<V>(old_slot: Option<V>, stored: bool, value: Option<V>, zero: V): Option<V> {
    if !stored then old_slot else if value.Some? then value else Some(zero)
  }

  /** insert_or_assign (trie.h:316-322): insert, then assign `v` through the
      returned position. For the empty key that position is `end()`, and the
      assignment goes through a null pointer. */
  function InsertOrAssign<V>(t: Trie<V>, key: seq<char>, v: V): (r: Result<(Trie<V>, Iter, bool), Fault>)
    requires AllSorted(t.root)
    ensures r.Failure? <==> key == []
    ensures r.Failure? ==> r.error == NullDereference
    ensures r.Success? ==>
      && AllSorted(r.value.0.root)
      && r.value.0.root.key == t.root.key && r.value.0.root.value == t.root.value
      && (r.value.2 <==> ValueAt(t.root, key).None?)
      && r.value.1 == Iter(At(key), None)
      && forall q :: ValueAt(r.value.0.root, q) == if q == key then Some(v) else ValueAt(t.root, q)
  {
    var (t1, it, inserted) := Insert(t, key, v);
    if it.pos.End? then Failure(NullDereference)
    else
      SetValueAtMap(t1.root, key, v);
      Success((Trie(SetValueAt(t1.root, key, v)), it, inserted))
  }

  lemma SetValueAtMap<V>(n: Node<V>, p: seq<char>, v: V)
    requires AllSorted(n) && Lookup(n, p).Some?
    ensures forall q :: ValueAt(SetValueAt(n, p, v), q) == if q == p then Some(v) else ValueAt(n, q)
  {
    forall q
      ensures ValueAt(SetValueAt(n, p, v), q) == if q == p then Some(v) else ValueAt(n, q)
    {
      SetValueAtValues(n, p, v, q);
    }
  }

  /** Assignment through insert_or_assign keeps the trie valid for a key of
      key characters, and never leaves a dangling node. */
  lemma InsertOrAssignShape<V>(t: Trie<V>, key: seq<char>, v: V)
    requires AllSorted(t.root) && key != []
    ensures Valid(t) && AllKeyChars(key) ==> Valid(InsertOrAssign(t, key, v).value.0)
    ensures NoDangling(t.root) ==> NoDangling(InsertOrAssign(t, key, v).value.0.root)
  {
    InsertShape(t, key, v);
    var t1 := Insert(t, key, v).0;
    SetValueAtShape(t1.root, key, v);
  }

  // ###### operator[] ######

  /** operator[] (trie.h:208-214): the value slot of the node `find`
      reaches; when it reaches none, `zero` (`_Value()`) is inserted first.
      The returned slot is the one an assignment through it would write. */
  function Index<V>(t: Trie<V>, key: seq<char>, zero: V): (r: (Trie<V>, Option<V>))
    requires AllSorted(t.root)
    ensures AllSorted(r.0.root) && r.0.root.key == t.root.key && r.0.root.value == t.root.value
    ensures Lookup(t.root, key).Some? ==> r == (t, ValueAt(t.root, key))
    ensures Lookup(t.root, key).None? ==>
      && r.1 == Some(zero)
      && forall q :: ValueAt(r.0.root, q) == if q == key then Some(zero) else ValueAt(t.root, q)
    ensures Lookup(r.0.root, key).Some? && ValueAt(r.0.root, key) == r.1
  {
    match Lookup(t.root, key)
    case Some(node) => (t, node.value)
    case None =>
      assert key != [];
      var (t1, _, _) := Insert(t, key, zero);
      (t1, Some(zero))
  }

  /** `t[key] = v` (test.cpp:97-101): operator[] followed by an assignment
      through the returned slot. With the empty key that slot is the root's
      own, which iteration never visits. */
  function IndexAssign<V>(t: Trie<V>, key: seq<char>, zero: V, v: V): (r: Trie<V>)
    requires AllSorted(t.root)
    ensures AllSorted(r.root) && r.root.key == t.root.key
    ensures forall q :: ValueAt(r.root, q) == if q == key then Some(v) else ValueAt(t.root, q)
  {
    var (t1, _) := Index(t, key, zero);
    SetValueAtMap(t1.root, key, v);
    Trie(SetValueAt(t1.root, key, v))
  }

  /** Lookup through operator[] changes the structure only when the key was
      missing, and keeps a valid trie valid for a key of key characters. */
  lemma IndexShape<V>(t: Trie<V>, key: seq<char>, zero: V, v: V)
    requires AllSorted(t.root)
    ensures Valid(t) && AllKeyChars(key) ==> Valid(Index(t, key, zero).0)
    ensures NoDangling(t.root) ==> NoDangling(Index(t, key, zero).0.root)
    ensures Valid(t) && AllKeyChars(key) && key != [] ==> Valid(IndexAssign(t, key, zero, v))
    ensures NoDangling(t.root) ==> NoDangling(IndexAssign(t, key, zero, v).root)
  {
    if Lookup(t.root, key).None? {
      InsertShape(t, key, zero);
    }
    var t1 := Index(t, key, zero).0;
    SetValueAtShape(t1.root, key, v);
    if key != [] {
      var r := IndexAssign(t, key, zero, v);
      assert r.root.value == t1.root.value;
    }
  }

  // ###### erasure ######

  /** erase(key) (trie.h:377-384) as it behaves once `release_path` stops
      at the root and `erase_at` removes only the value: 0 and no change
      when `find` fails or the key is empty; otherwise 1, the key's value
      gone and nodes left valueless and childless pruned. */
  function EraseKey<V>(t: Trie<V>, key: seq<char>): (r: (Trie<V>, nat))
    requires AllSorted(t.root)
    ensures AllSorted(r.0.root) && r.0.root.key == t.root.key && r.0.root.value == t.root.value
    ensures r.1 == if key != [] && Lookup(t.root, key).Some? then 1 else 0
    ensures forall q :: ValueAt(r.0.root, q) == if q == key && key != [] then None else ValueAt(t.root, q)
  {
    if key == [] || Lookup(t.root, key).None? then (t, 0)
    else
      RemoveValueMap(t.root, key);
      (Trie(RemoveValue(t.root, key)), 1)
  }

  lemma RemoveValueMap<V>(n: Node<V>, p: seq<char>)
    requires AllSorted(n)
    ensures forall q :: ValueAt(RemoveValue(n, p), q) == if q == p then None else ValueAt(n, q)
  {
    forall q
      ensures ValueAt(RemoveValue(n, p), q) == if q == p then None else ValueAt(n, q)
    {
      RemoveValueValues(n, p, q);
    }
  }

  /** Erasure keeps a well-formed trie well-formed. */
  lemma EraseKeyShape<V>(t: Trie<V>, key: seq<char>)
    requires AllSorted(t.root)
    ensures Valid(t) ==> Valid(EraseKey(t, key).0)
    ensures NoDangling(t.root) ==> NoDangling(EraseKey(t, key).0.root)
  {
    if key != [] && Lookup(t.root, key).Some? {
      RemoveValueShape(t.root, key);
    }
  }

  /** erase(key) as written (trie.h:377-384, 456-474): `erase_at` unlinks
      the key's node with its whole subtree, and `release_path` climbs from
      its parent past every valueless, childless node. The root has no
      parent: erasing "" and climbing past an emptied root both call
      through a null pointer. */
  function EraseKeyAsWritten<V>(t: Trie<V>, key: seq<char>): (r: Result<(Trie<V>, nat), Fault>)
    requires AllSorted(t.root)
    ensures Lookup(t.root, key).None? ==> r == Success((t, 0))
    ensures Lookup(t.root, key).Some? && key == [] ==> r == Failure(NullDereference)
    ensures r.Success? && Lookup(t.root, key).Some? ==>
      && r.value.1 == 1
      && AllSorted(r.value.0.root) && r.value.0.root.key == t.root.key && r.value.0.root.value == t.root.value
      && forall q :: ValueAt(r.value.0.root, q) == if key <= q then None else ValueAt(t.root, q)
  {
    if Lookup(t.root, key).None? then Success((t, 0))
    else if key == [] then Failure(NullDereference)
    else
      var root := RemoveSubtree(t.root, key);
      if !HasChildren(root) && root.value.None? then Failure(NullDereference)
      else
        RemoveSubtreeMap(t.root, key);
        Success((Trie(root), 1))
  }

  lemma RemoveSubtreeMap<V>(n: Node<V>, p: seq<char>)
    requires AllSorted(n) && |p| > 0
    ensures forall q :: ValueAt(RemoveSubtree(n, p), q) == if p <= q then None else ValueAt(n, q)
  {
    forall q
      ensures ValueAt(RemoveSubtree(n, p), q) == if p <= q then None else ValueAt(n, q)
    {
      RemoveSubtreeValues(n, p, q);
    }
  }

  /** On a well-formed trie the written erase(key) crashes exactly when the
      key is found and is "" or a prefix of every stored key; otherwise it
      keeps the trie well-formed. */
  lemma EraseKeyAsWrittenFails<V>(t: Trie<V>, key: seq<char>)
    requires WellFormed(t)
    ensures EraseKeyAsWritten(t, key).Failure? <==>
      Lookup(t.root, key).Some? && (key == [] || forall q :: ValueAt(t.root, q).Some? ==> key <= q)
    ensures EraseKeyAsWritten(t, key).Success? ==> WellFormed(EraseKeyAsWritten(t, key).value.0)
  {
    if Lookup(t.root, key).Some? && key != [] {
      OrderedAllSorted(t.root);
      var root := RemoveSubtree(t.root, key);
      RemoveSubtreeShape(t.root, key);
      RemoveSubtreeMap(t.root, key);
      if HasChildren(root) {
        var ch := root.children[0];
        assert ch in root.children;
        assert Live(ch) && NoDangling(ch);
        LiveHasKeys(ch);
        var x := KeysOf(ch)[0];
        assert x in KeysOf(ch);
        OrderedChild(root, ch);
        KeysMembership(ch, x);
        var q := [ch.key] + x;
        ChildValue(root, ch, x);
        assert ValueAt(root, q).Some?;
        assert !(key <= q) && ValueAt(t.root, q).Some?;
      } else {
        forall q | ValueAt(t.root, q).Some?
          ensures key <= q
        {
          ChildlessValues(root, q);
        }
      }
    }
  }

  /** A node without children holds at most its own value. */
  lemma ChildlessValues<V>(n: Node<V>, q: seq<char>)
    requires !HasChildren(n)
    ensures ValueAt(n, q) == if q == [] then n.value else None
  {
    if q != [] {
      assert GetChild(n, q[0]).None?;
    }
  }

  lemma OrderedChild<V>(n: Node<V>, ch: Node<V>)
    requires Ordered(n) && ch in n.children
    ensures Ordered(ch)
  {
  }

  lemma ChildValue<V>(n: Node<V>, ch: Node<V>, x: seq<char>)
    requires SortedKeys(n.children) && ch in n.children
    ensures ValueAt(n, [ch.key] + x) == ValueAt(ch, x)
  {
    GetChildMeaning(n, ch.key);
    var q := [ch.key] + x;
    assert q[0] == ch.key && q[1..] == x;
  }

  // ###### capacity ######

  /** empty (trie.h:274-276): the root has no children. */
  function IsEmpty<V>(t: Trie<V>): (b: bool)
    ensures b ==> forall q :: ValueAt(t.root, q) == (if q == [] then t.root.value else None)
  {
    if HasChildren(t.root) then false
    else
      assert forall q :: ValueAt(t.root, q) == (if q == [] then t.root.value else None) by {
        forall q
          ensures ValueAt(t.root, q) == (if q == [] then t.root.value else None)
        {
          ChildlessValues(t.root, q);
        }
      }
      true
  }

  /** On a well-formed trie, empty() holds exactly when no key is stored. */
  lemma EmptyMeansNoKeys<V>(t: Trie<V>)
    requires WellFormed(t)
    ensures IsEmpty(t) <==> Keys(t) == []
  {
    var n := t.root;
    if !IsEmpty(t) {
      var ch := n.children[0];
      assert ch in n.children;
      LiveHasKeys(ch);
      assert KeysRange(n, 0, |n.children|) ==
        PrefixAll(ch.key, KeysOf(ch)) + KeysRange(n, 1, |n.children|);
      assert Keys(t) == KeysRange(n, 0, |n.children|);
    } else {
      assert KeysRange(n, 0, |n.children|) == [];
    }
  }

  /** clear (trie.h:294-296): every child of the root goes. */
  function Clear<V>(t: Trie<V>): (r: Trie<V>)
    ensures r.root.key == t.root.key && r.root.value == t.root.value
    ensures IsEmpty(r) && Keys(r) == (if t.root.value.Some? then [[]] else [])
    ensures forall q :: q != [] ==> ValueAt(r.root, q).None?
    ensures Valid(t) ==> WellFormed(r)
  {
    var r := Trie(ClearChildren(t.root));
    assert forall q :: q != [] ==> ValueAt(r.root, q).None? by {
      forall q | q != []
        ensures ValueAt(r.root, q).None?
      {
        ChildlessValues(r.root, q);
      }
    }
    assert KeysRange(r.root, 0, 0) == [];
    r
  }
}
