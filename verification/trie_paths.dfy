/** Changes at a path below a node: the value-level form of the trie's
    pointer manipulations (trie.h:331-366 and 443-474). Each rebuilds the
    nodes along the path and leaves every other subtree as it was. */
module TriePaths {
  import opened Wrappers
  import opened TrieNode

  /** The value slot at a non-empty path is found through the first child. */
  lemma ValueAtCons<V>(n: Node<V>, q: seq<char>)
    requires |q| > 0
    ensures ValueAt(n, q) ==
      match GetChild(n, q[0]) case None => None case Some(ch) => ValueAt(ch, q[1..])
  {
  }

  /** A node with no value and no children holds nothing at any path. */
  lemma DeadHoldsNothing<V>(m: Node<V>, q: seq<char>)
    requires !Live(m)
    ensures ValueAt(m, q).None?
  {
    if q != [] {
      GetChildMeaning(m, q[0]);
    }
  }

  /** Where the paths agree in their first character, they are equal
      exactly when the rest is. */
  lemma PathTail(q: seq<char>, p: seq<char>)
    requires |q| > 0 && |p| > 0 && q[0] == p[0]
    ensures q == p <==> q[1..] == p[1..]
    ensures p <= q <==> p[1..] <= q[1..]
  {
    assert q == [q[0]] + q[1..] && p == [p[0]] + p[1..];
  }

  /** What replacing a child changes: the paths through it. */
  lemma ReplaceChildValues<V>(n: Node<V>, nc: Node<V>, q: seq<char>)
    requires SortedKeys(n.children) && HasChild(n, nc.key)
    ensures ValueAt(ReplaceChild(n, nc), q) ==
      if q != [] && q[0] == nc.key then ValueAt(nc, q[1..]) else ValueAt(n, q)
  {
    if q != [] {
      ValueAtCons(ReplaceChild(n, nc), q);
      ValueAtCons(n, q);
      ReplaceChildGet(n, nc, q[0]);
    }
  }

  /** What erasing a child changes: the paths through it lead nowhere. */
  lemma EraseChildValues<V>(n: Node<V>, k: char, q: seq<char>)
    requires SortedKeys(n.children)
    ensures ValueAt(EraseChild(n, k), q) ==
      if q != [] && q[0] == k then None else ValueAt(n, q)
  {
    if q != [] {
      ValueAtCons(EraseChild(n, k), q);
      ValueAtCons(n, q);
      EraseChildGet(n, k, q[0]);
    }
  }

  /** What inserting a child changes: a new leaf at `[k]`. */
  lemma InsertChildValues<V>(n: Node<V>, k: char, v: Option<V>, q: seq<char>)
    requires SortedKeys(n.children)
    ensures ValueAt(InsertChild(n, k, v), q) ==
      if q != [] && q[0] == k && !HasChild(n, k) then (if |q| == 1 then v else None)
      else ValueAt(n, q)
  {
    if q != [] {
      ValueAtCons(InsertChild(n, k, v), q);
      ValueAtCons(n, q);
      InsertChildGet(n, k, v, q[0]);
      if q[0] == k && !HasChild(n, k) && |q| > 1 {
        ValueAtCons(Node(k, v, []), q[1..]);
      }
    }
  }

  /** Below a node only its children matter. */
  lemma SameChildrenValues<V>(a: Node<V>, b: Node<V>, q: seq<char>)
    requires a.children == b.children && q != []
    ensures ValueAt(a, q) == ValueAt(b, q)
  {
    ValueAtCons(a, q);
    ValueAtCons(b, q);
  }

  // ###### assigning a value ######

  /** The value slot at `p` set to `v`: an assignment through the reference
      that `at`, `operator[]` and `insert_or_assign` hand out, or the
      `assign_value` call of `insert_or_assign` (trie.h:320). */
  function SetValueAt<V>(n: Node<V>, p: seq<char>, v: V): (r: Node<V>)
    requires AllSorted(n) && Lookup(n, p).Some?
    ensures r.key == n.key && AllSorted(r)
    ensures p != [] ==> r.value == n.value && |r.children| > 0
    decreases |p|
  {
    if p == [] then AssignValue(n, v)
    else
      var ch := GetChild(n, p[0]).value;
      ReplaceChild(n, SetValueAt(ch, p[1..], v))
  }

  /** Only the slot at `p` changes, and it then holds `v`. */
  lemma {:induction false} SetValueAtValues<V>(n: Node<V>, p: seq<char>, v: V, q: seq<char>)
    requires AllSorted(n) && Lookup(n, p).Some?
    ensures ValueAt(SetValueAt(n, p, v), q) == if q == p then Some(v) else ValueAt(n, q)
    decreases |p|
  {
    if p == [] {
      if q != [] {
        SameChildrenValues(SetValueAt(n, p, v), n, q);
      }
    } else {
      var ch := GetChild(n, p[0]).value;
      ReplaceChildValues(n, SetValueAt(ch, p[1..], v), q);
      if q != [] && q[0] == p[0] {
        SetValueAtValues(ch, p[1..], v, q[1..]);
        PathTail(q, p);
        ValueAtCons(n, q);
      }
    }
  }

  /** Assigning a value creates and removes no node, keeps the subtree
      ordered and leaves no dangling node. */
  lemma {:induction false} SetValueAtShape<V>(n: Node<V>, p: seq<char>, v: V)
    requires AllSorted(n) && Lookup(n, p).Some?
    ensures Ordered(n) ==> Ordered(SetValueAt(n, p, v))
    ensures NoDangling(n) ==> NoDangling(SetValueAt(n, p, v))
    decreases |p|
  {
    if p != [] {
      var ch := GetChild(n, p[0]).value;
      SetValueAtShape(ch, p[1..], v);
    }
  }

  // ###### emplacing ######

  /** emplacer (trie.h:331-366) below `n` for a non-empty key: each
      character but the last is found, or created without a value, by
      insert_node (trie.h:443-454); at the last one a node without a value
      takes `v`, a missing node is created holding `v`, and a node with a
      value is left alone. The flag says whether `v` went in. */
  function EmplaceNode<V>(n: Node<V>, key: seq<char>, v: V): (r: (Node<V>, bool))
    requires AllSorted(n) && |key| > 0
    ensures r.0.key == n.key && r.0.value == n.value && AllSorted(r.0)
    ensures |r.0.children| > 0
    decreases |key|
  {
    var c := key[0];
    if |key| == 1 then
      match GetChild(n, c)
      case Some(ch) =>
        SameChildren(ch, AssignValue(ch, v));
        if ch.value.None? then (ReplaceChild(n, AssignValue(ch, v)), true) else (n, false)
      case None => (InsertChild(n, c, Some(v)), true)
    else
      var n1 := InsertChild(n, c, None);
      InsertChildGet(n, c, None, c);
      var ch := GetChild(n1, c).value;
      var sub := EmplaceNode(ch, key[1..], v);
      (ReplaceChild(n1, sub.0), sub.1)
  }

  /** The value goes in exactly when the key had none; then the key holds
      `v`, and no other key changes. */
  lemma {:induction false} EmplaceNodeValues<V>(n: Node<V>, key: seq<char>, v: V, q: seq<char>)
    requires AllSorted(n) && |key| > 0
    ensures EmplaceNode(n, key, v).1 <==> ValueAt(n, key).None?
    ensures ValueAt(EmplaceNode(n, key, v).0, q) ==
      if q == key && ValueAt(n, key).None? then Some(v) else ValueAt(n, q)
    decreases |key|
  {
    var c := key[0];
    ValueAtCons(n, key);
    if q != [] && q[0] == c {
      PathTail(q, key);
      ValueAtCons(n, q);
    }
    if |key| == 1 {
      EmplaceLastValues(n, c, v, q);
    } else {
      var n1 := InsertChild(n, c, None);
      InsertChildGet(n, c, None, c);
      var ch := GetChild(n1, c).value;
      var sub := EmplaceNode(ch, key[1..], v);
      EmplaceNodeValues(ch, key[1..], v, key[1..]);
      ReplaceChildValues(n1, sub.0, q);
      InsertChildValues(n, c, None, q);
      if GetChild(n, c).None? {
        DeadHoldsNothing(ch, key[1..]);
      }
      if q != [] && q[0] == c {
        EmplaceNodeValues(ch, key[1..], v, q[1..]);
        if GetChild(n, c).None? {
          DeadHoldsNothing(ch, q[1..]);
        }
      }
    }
  }

  /** The last character of emplacer (trie.h:351-363). */
  lemma EmplaceLastValues<V>(n: Node<V>, c: char, v: V, q: seq<char>)
    requires AllSorted(n)
    ensures EmplaceNode(n, [c], v).1 <==> ValueAt(n, [c]).None?
    ensures ValueAt(EmplaceNode(n, [c], v).0, q) ==
      if q == [c] && ValueAt(n, [c]).None? then Some(v) else ValueAt(n, q)
  {
    ValueAtCons(n, [c]);
    assert [c][1..] == [];
    if q != [] && q[0] == c {
      PathTail(q, [c]);
    }
    match GetChild(n, c)
    case Some(ch) =>
      if ch.value.None? {
        ReplaceChildValues(n, AssignValue(ch, v), q);
        if q != [] && q[0] == c {
          ValueAtCons(n, q);
          if |q| > 1 {
            SameChildrenValues(AssignValue(ch, v), ch, q[1..]);
          }
        }
      }
    case None =>
      InsertChildValues(n, c, Some(v), q);
  }

  /** Nodes with the same children are alike in every property of their
      subtrees below them. */
  lemma SameChildren<V>(a: Node<V>, b: Node<V>)
    requires a.children == b.children
    ensures Ordered(a) == Ordered(b) && AllSorted(a) == AllSorted(b) && NoDangling(a) == NoDangling(b)
  {
  }

  lemma AllKeyCharsTail(key: seq<char>)
    requires |key| > 0 && AllKeyChars(key)
    ensures IsKeyChar(key[0]) && AllKeyChars(key[1..])
  {
    forall i | 0 <= i < |key[1..]|
      ensures IsKeyChar(key[1..][i])
    {
      assert key[1..][i] == key[i + 1];
    }
  }

  /** Emplacing a key of key characters keeps the subtree ordered. */
  lemma {:induction false} EmplaceNodeOrdered<V>(n: Node<V>, key: seq<char>, v: V)
    requires AllSorted(n) && |key| > 0 && Ordered(n) && AllKeyChars(key)
    ensures Ordered(EmplaceNode(n, key, v).0)
    decreases |key|
  {
    var c := key[0];
    AllKeyCharsTail(key);
    if |key| > 1 {
      var n1 := InsertChild(n, c, None);
      InsertChildGet(n, c, None, c);
      var ch := GetChild(n1, c).value;
      assert Ordered(ch);
      EmplaceNodeOrdered(ch, key[1..], v);
    } else if GetChild(n, c).Some? {
      var ch := GetChild(n, c).value;
      SameChildren(ch, AssignValue(ch, v));
    }
  }

  /** Emplacing never leaves a dangling node: every node it creates leads
      to the new value. */
  lemma {:induction false} EmplaceNodeNoDangling<V>(n: Node<V>, key: seq<char>, v: V)
    requires AllSorted(n) && |key| > 0 && NoDangling(n)
    ensures NoDangling(EmplaceNode(n, key, v).0)
    decreases |key|
  {
    var c := key[0];
    var r := EmplaceNode(n, key, v).0;
    if |key| > 1 {
      var n1 := InsertChild(n, c, None);
      InsertChildGet(n, c, None, c);
      var ch := GetChild(n1, c).value;
      var sub := EmplaceNode(ch, key[1..], v);
      if HasChild(n, c) {
        EmplaceNodeNoDangling(ch, key[1..], v);
      } else {
        EmplaceNodeNoDangling(ch, key[1..], v);
        forall d | d in r.children
          ensures Live(d) && NoDangling(d)
        {
          if d != sub.0 {
            assert d in n1.children && d.key != c;
            assert d in n.children;
          }
        }
      }
    } else if GetChild(n, c).Some? {
      var ch := GetChild(n, c).value;
      SameChildren(ch, AssignValue(ch, v));
    }
  }

  // ###### erasing, as intended ######

  /** Erasing the value at `p` and releasing the path above it: the node at
      `p` loses its value, and if that leaves it with neither value nor
      children it is removed, as is every ancestor that becomes so in turn,
      up to but never including `n` itself. A missing path changes nothing. */
  function RemoveValue<V>(n: Node<V>, p: seq<char>): (r: Node<V>)
    requires AllSorted(n)
    ensures r.key == n.key && AllSorted(r)
    ensures p != [] ==> r.value == n.value
    decreases |p|
  {
    if p == [] then EraseValue(n)
    else match GetChild(n, p[0])
      case None => n
      case Some(ch) =>
        var sub := RemoveValue(ch, p[1..]);
        if Live(sub) then ReplaceChild(n, sub) else EraseChild(n, p[0])
  }

  /** Only the value at `p` goes. */
  lemma {:induction false} RemoveValueValues<V>(n: Node<V>, p: seq<char>, q: seq<char>)
    requires AllSorted(n)
    ensures ValueAt(RemoveValue(n, p), q) == if q == p then None else ValueAt(n, q)
    decreases |p|
  {
    if p == [] {
      if q != [] {
        SameChildrenValues(RemoveValue(n, p), n, q);
      }
    } else {
      ValueAtCons(n, p);
      if q != [] && q[0] == p[0] {
        PathTail(q, p);
        ValueAtCons(n, q);
      }
      match GetChild(n, p[0])
      case None =>
      case Some(ch) =>
        var sub := RemoveValue(ch, p[1..]);
        if q != [] && q[0] == p[0] {
          RemoveValueValues(ch, p[1..], q[1..]);
        }
        if Live(sub) {
          ReplaceChildValues(n, sub, q);
        } else {
          EraseChildValues(n, p[0], q);
          if q != [] && q[0] == p[0] {
            DeadHoldsNothing(sub, q[1..]);
          }
        }
    }
  }

  /** Erasing keeps the subtree ordered and leaves no dangling node below
      `n`. */
  lemma {:induction false} RemoveValueShape<V>(n: Node<V>, p: seq<char>)
    requires AllSorted(n)
    ensures Ordered(n) ==> Ordered(RemoveValue(n, p))
    ensures NoDangling(n) ==> NoDangling(RemoveValue(n, p))
    decreases |p|
  {
    if p != [] && GetChild(n, p[0]).Some? {
      var ch := GetChild(n, p[0]).value;
      RemoveValueShape(ch, p[1..]);
    }
  }

  // ###### erasing, as written ######

  /** erase_at and release_path (trie.h:456-474) below `n` for a non-empty
      path: the node at `p` is unlinked from its parent together with its
      whole subtree, then every ancestor left with neither value nor
      children is removed, up to but never including `n` itself. */
  function RemoveSubtree<V>(n: Node<V>, p: seq<char>): (r: Node<V>)
    requires AllSorted(n) && |p| > 0
    ensures r.key == n.key && r.value == n.value && AllSorted(r)
    decreases |p|
  {
    match GetChild(n, p[0])
    case None => n
    case Some(ch) =>
      if |p| == 1 then EraseChild(n, p[0])
      else
        var sub := RemoveSubtree(ch, p[1..]);
        if Live(sub) then ReplaceChild(n, sub) else EraseChild(n, p[0])
  }

  /** Every value at `p` or below it goes; the rest stay. */
  lemma {:induction false} RemoveSubtreeValues<V>(n: Node<V>, p: seq<char>, q: seq<char>)
    requires AllSorted(n) && |p| > 0
    ensures ValueAt(RemoveSubtree(n, p), q) == if p <= q then None else ValueAt(n, q)
    decreases |p|
  {
    if q != [] && q[0] == p[0] {
      PathTail(q, p);
      ValueAtCons(n, q);
    }
    match GetChild(n, p[0])
    case None =>
    case Some(ch) =>
      if |p| == 1 {
        EraseChildValues(n, p[0], q);
      } else {
        var sub := RemoveSubtree(ch, p[1..]);
        if q != [] && q[0] == p[0] {
          RemoveSubtreeValues(ch, p[1..], q[1..]);
        }
        if Live(sub) {
          ReplaceChildValues(n, sub, q);
        } else {
          EraseChildValues(n, p[0], q);
          if q != [] && q[0] == p[0] {
            DeadHoldsNothing(sub, q[1..]);
          }
        }
      }
  }

  /** Removing a subtree keeps the rest ordered and leaves no dangling node
      below `n`. */
  lemma {:induction false} RemoveSubtreeShape<V>(n: Node<V>, p: seq<char>)
    requires AllSorted(n) && |p| > 0
    ensures Ordered(n) ==> Ordered(RemoveSubtree(n, p))
    ensures NoDangling(n) ==> NoDangling(RemoveSubtree(n, p))
    decreases |p|
  {
    if |p| > 1 && GetChild(n, p[0]).Some? {
      var ch := GetChild(n, p[0]).value;
      RemoveSubtreeShape(ch, p[1..]);
    }
  }
}
