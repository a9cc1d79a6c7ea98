/** The node layer of the trie (trie_node.h): a key character, an optional
    value, and a set of owned children ordered and de-duplicated by key.

    Ownership is by value: a node contains its children, so deleting a child
    deletes its whole subtree and a copy shares nothing with its source. The
    parent back-pointer is replaced by the path of child keys from the root;
    `Lookup` follows such a path downwards. */
module TrieNode {
  import opened Wrappers

  /** The key of the trie's sentinel root (trie.h:166). */
  const RootKey: char := '\0'

  /** Characters a key may consist of. Zero is the root's key and the
      iterator's "arrived from above" marker, so it cannot label an edge;
      below 128 the order of `char` is the same whether it is signed or not. */
  predicate IsKeyChar(c: char) {
    0 < c as int < 128
  }

  predicate AllKeyChars(s: seq<char>) {
    forall i :: 0 <= i < |s| ==> IsKeyChar(s[i])
  }

  datatype Node<V> = Node(key: char, value: Option<V>, children: seq<Node<V>>)

  /** The std::set invariant (trie_node.h:66-76): children strictly ascending by key. */
  ghost predicate SortedKeys<V>(cs: seq<Node<V>>) {
    forall i, j {:trigger KeyBefore(cs, i, j)} :: 0 <= i < j < |cs| ==> KeyBefore(cs, i, j)
  }

  /** The child at `i` has a smaller key than the child at `j`. */
  ghost predicate KeyBefore<V>(cs: seq<Node<V>>, i: nat, j: nat)
    requires i < |cs| && j < |cs|
  {
    cs[i].key < cs[j].key
  }

  lemma SortedTail<V>(cs: seq<Node<V>>)
    requires SortedKeys(cs) && |cs| > 0
    ensures SortedKeys(cs[1..])
  {
    var t := cs[1..];
    forall i, j | 0 <= i < j < |t|
      ensures KeyBefore(t, i, j)
    {
      SortedAt(cs, i + 1, j + 1);
    }
  }

  /** Two positions of a sorted child sequence, in order. */
  lemma SortedAt<V>(cs: seq<Node<V>>, i: nat, j: nat)
    requires SortedKeys(cs) && i < j < |cs|
    ensures cs[i].key < cs[j].key
  {
    assert KeyBefore(cs, i, j);
  }

  /** Every node of the subtree keeps its children sorted by key, and every
      child key is a key character. */
  ghost predicate Ordered<V>(n: Node<V>) {
    && SortedKeys(n.children)
    && forall ch :: ch in n.children ==> IsKeyChar(ch.key) && Ordered(ch)
  }

  /** The std::set invariant at every node of the subtree, whatever the
      characters of the keys. */
  ghost predicate AllSorted<V>(n: Node<V>) {
    && SortedKeys(n.children)
    && forall ch :: ch in n.children ==> AllSorted(ch)
  }

  lemma {:induction false} OrderedAllSorted<V>(n: Node<V>)
    requires Ordered(n)
    ensures AllSorted(n)
  {
    forall ch | ch in n.children
      ensures AllSorted(ch)
    {
      OrderedAllSorted(ch);
    }
  }

  /** A node that holds a value or has a child. */
  predicate Live<V>(n: Node<V>) {
    n.value.Some? || |n.children| > 0
  }

  /** No valueless, childless node anywhere below `n` (`n` itself may be one). */
  ghost predicate NoDangling<V>(n: Node<V>) {
    forall ch :: ch in n.children ==> Live(ch) && NoDangling(ch)
  }

  /** Number of nodes in the subtree of `n`, `n` included. */
  function NodeCount<V>(n: Node<V>): (c: nat)
    decreases n, 1
  {
    1 + CountRange(n, 0, |n.children|)
  }

  function CountRange<V>(n: Node<V>, lo: nat, hi: nat): nat
    requires lo <= hi <= |n.children|
    decreases n, 0, hi - lo
  {
    if lo == hi then 0 else NodeCount(n.children[lo]) + CountRange(n, lo + 1, hi)
  }

  // ###### path ######

  /** Position of the first child with key `k`, or `|cs|` when there is
      none: the `std::find_if` scan in `get_child`. */
  function FindChild<V>(cs: seq<Node<V>>, k: char): (i: nat)
    ensures i <= |cs|
    ensures i < |cs| ==> cs[i].key == k
  {
    if cs == [] then 0
    else if cs[0].key == k then 0
    else 1 + FindChild(cs[1..], k)
  }

  /** The search stops at the first child with key `k`. */
  lemma {:induction false} FindChildFirst<V>(cs: seq<Node<V>>, k: char, j: nat)
    requires j < |cs| && cs[j].key == k
    ensures FindChild(cs, k) <= j
  {
    if cs[0].key != k {
      assert cs[1..][j - 1] == cs[j];
      FindChildFirst(cs[1..], k, j - 1);
    }
  }

  /** get_child (trie_node.h:125-135): the child with key `k`, or none. */
  function GetChild<V>(n: Node<V>, k: char): (r: Option<Node<V>>)
    ensures r.Some? ==> r.value in n.children && r.value.key == k
  {
    var i := FindChild(n.children, k);
    if i < |n.children| then Some(n.children[i]) else None
  }

  /** get_child finds a child exactly when one has key `k`, and in a sorted
      child set it is the only one. */
  lemma GetChildMeaning<V>(n: Node<V>, k: char)
    ensures GetChild(n, k).Some? <==> exists ch :: ch in n.children && ch.key == k
    ensures SortedKeys(n.children) ==>
      forall ch :: ch in n.children && ch.key == k ==> GetChild(n, k) == Some(ch)
  {
    var cs := n.children;
    var i := FindChild(cs, k);
    forall ch | ch in cs && ch.key == k
      ensures i < |cs|
      ensures SortedKeys(cs) ==> cs[i] == ch
    {
      var j :| 0 <= j < |cs| && cs[j] == ch;
      FindChildFirst(cs, k, j);
      if SortedKeys(cs) && i < j {
        SortedAt(cs, i, j);
      }
    }
  }

  /** In a sorted child set, the key of the child at `j` leads to it. */
  lemma GetChildAt<V>(n: Node<V>, j: nat)
    requires SortedKeys(n.children) && j < |n.children|
    ensures GetChild(n, n.children[j].key) == Some(n.children[j])
  {
    GetChildMeaning(n, n.children[j].key);
    assert n.children[j] in n.children;
  }

  /** The node reached from `n` by following the child keys of `p`: the
      chain of `get_child` calls made by `move_down`. A path is the
      value-level stand-in for a pointer to a node below `n`. */
  function Lookup<V>(n: Node<V>, p: seq<char>): (r: Option<Node<V>>)
    ensures r.Some? && |p| > 0 ==> r.value.key == p[|p| - 1]
    decreases |p|
  {
    if p == [] then Some(n)
    else match GetChild(n, p[0])
      case None => None
      case Some(ch) => Lookup(ch, p[1..])
  }

  /** The value slot of the node at `p`, or none when there is no such node. */
  function ValueAt<V>(n: Node<V>, p: seq<char>): Option<V> {
    match Lookup(n, p)
    case None => None
    case Some(m) => m.value
  }

  lemma {:induction false} LookupAppend<V>(n: Node<V>, p: seq<char>, q: seq<char>)
    ensures Lookup(n, p + q) == match Lookup(n, p) case None => None case Some(m) => Lookup(m, q)
    decreases |p|
  {
    if p == [] {
      assert p + q == q;
    } else {
      assert (p + q)[0] == p[0];
      assert (p + q)[1..] == p[1..] + q;
      match GetChild(n, p[0])
      case None =>
      case Some(ch) => LookupAppend(ch, p[1..], q);
    }
  }

  /** Every prefix of the path to a node leads to a node (its ancestors). */
  lemma LookupPrefix<V>(n: Node<V>, p: seq<char>, i: nat)
    requires Lookup(n, p).Some? && i <= |p|
    ensures Lookup(n, p[..i]).Some?
  {
    assert p == p[..i] + p[i..];
    LookupAppend(n, p[..i], p[i..]);
  }

  /** A node with a node strictly below it has children. */
  lemma LookupBelowHasChildren<V>(n: Node<V>, p: seq<char>, q: seq<char>)
    requires Lookup(n, p).Some? && Lookup(n, p + q).Some? && |q| > 0
    ensures |Lookup(n, p).value.children| > 0
  {
    LookupAppend(n, p, q);
  }

  /** get_key (trie_node.h:176-185): walk from the node at `p` up to the
      root, prepending each node's own key; the ancestors are the nodes at
      the prefixes of `p`. */
  method GetKey<V>(root: Node<V>, p: seq<char>) returns (key: seq<char>)
    requires Lookup(root, p).Some?
    ensures key == [root.key] + p
    ensures |key| == |p| + 1
  {
    key := [];
    var depth: int := |p|;
    while depth >= 0
      invariant -1 <= depth <= |p|
      invariant key == if depth >= 0 then p[depth..] else [root.key] + p
      decreases depth + 1
    {
      LookupPrefix(root, p, depth);
      var node := Lookup(root, p[..depth]).value;
      key := [node.key] + key;
      depth := depth - 1;
    }
  }

  // ###### get ######

  /** get_children_keys: the child keys in set order. */
  function ChildrenKeys<V>(n: Node<V>): (keys: seq<char>)
    ensures |keys| == |n.children|
    ensures forall i :: 0 <= i < |keys| ==> keys[i] == n.children[i].key
  {
    seq(|n.children|, i requires 0 <= i < |n.children| => n.children[i].key)
  }

  /** The key list comes out in ascending order, as iterating a std::set does. */
  lemma ChildrenKeysSorted<V>(n: Node<V>)
    requires SortedKeys(n.children)
    ensures forall i, j :: 0 <= i < j < |ChildrenKeys(n)| ==> ChildrenKeys(n)[i] < ChildrenKeys(n)[j]
  {
    var keys := ChildrenKeys(n);
    forall i, j | 0 <= i < j < |keys|
      ensures keys[i] < keys[j]
    {
      SortedAt(n.children, i, j);
    }
  }

  /** The key list names exactly the children there are. */
  lemma ChildrenKeysMembership<V>(n: Node<V>, k: char)
    ensures k in ChildrenKeys(n) <==> HasChild(n, k)
  {
    var keys := ChildrenKeys(n);
    if k in keys {
      var i :| 0 <= i < |keys| && keys[i] == k;
      FindChildFirst(n.children, k, i);
    }
    if HasChild(n, k) {
      var ch := GetChild(n, k).value;
      var i :| 0 <= i < |n.children| && n.children[i] == ch;
      assert keys[i] == k;
    }
  }

  /** has_child */
  function HasChild<V>(n: Node<V>, k: char): bool {
    GetChild(n, k).Some?
  }

  /** has_children */
  function HasChildren<V>(n: Node<V>): bool {
    |n.children| != 0
  }

  /** A node has children exactly when it has a child with some key. */
  lemma HasChildrenMeaning<V>(n: Node<V>)
    ensures HasChildren(n) <==> exists k :: HasChild(n, k)
  {
    if HasChildren(n) {
      assert HasChild(n, n.children[0].key) by {
        assert n.children[0] in n.children;
      }
    }
  }

  /** has_previous_child (trie_node.h:207-215): is there a child key before
      `k`? The source finds `k` with a reverse iterator and steps once past
      it. When `k` is not a child key, the step passes `rend()`, which is
      undefined behaviour; the model reads that case as "true" whenever the
      node has children. The backward walk relies on that reading, because
      it asks with the '\0' marker after every descent. */
  function HasPreviousChild<V>(n: Node<V>, k: char): bool {
    if !HasChildren(n) then false
    else
      var i := FindChild(n.children, k);
      i == |n.children| || i > 0
  }

  /** In a sorted child set, has_previous_child of a child key holds
      exactly when a smaller child key exists; it never holds without
      children, and holds for any key that is not a child's. */
  lemma HasPreviousChildMeaning<V>(n: Node<V>, k: char)
    ensures !HasChildren(n) ==> !HasPreviousChild(n, k)
    ensures SortedKeys(n.children) && HasChild(n, k) ==>
      (HasPreviousChild(n, k) <==> exists ch :: ch in n.children && ch.key < k)
    ensures HasChildren(n) && !HasChild(n, k) ==> HasPreviousChild(n, k)
  {
    var cs := n.children;
    var i := FindChild(cs, k);
    if SortedKeys(cs) && HasChild(n, k) {
      assert i < |cs|;
      if i > 0 {
        SortedAt(cs, 0, i);
        assert cs[0] in cs;
      }
      if ch :| ch in cs && ch.key < k {
        var j :| 0 <= j < |cs| && cs[j] == ch;
        if i == 0 && j > 0 {
          SortedAt(cs, 0, j);
        }
      }
    }
  }

  // ###### modifiers ######

  /** Insertion into the std::set of children: no-op when the key is taken. */
  function InsertSorted<V>(cs: seq<Node<V>>, nd: Node<V>): (r: seq<Node<V>>)
    requires SortedKeys(cs)
    ensures SortedKeys(r)
    ensures forall ch :: ch in r ==> ch in cs || ch == nd
    ensures forall ch :: ch in cs ==> ch in r
    ensures (forall c :: c in cs ==> c.key != nd.key) ==> nd in r && |r| == |cs| + 1
    ensures r == cs || forall c :: c in cs ==> c.key != nd.key
  {
    if cs == [] then [nd]
    else if nd.key < cs[0].key then
      InsertSortedFront(cs, nd);
      [nd] + cs
    else if nd.key == cs[0].key then cs
    else
      SortedTail(cs);
      var rest := InsertSorted(cs[1..], nd);
      InsertSortedStep(cs, nd, rest);
      [cs[0]] + rest
  }

  lemma InsertSortedFront<V>(cs: seq<Node<V>>, nd: Node<V>)
    requires SortedKeys(cs) && |cs| > 0 && nd.key < cs[0].key
    ensures SortedKeys([nd] + cs)
    ensures forall c :: c in cs ==> c.key != nd.key
  {
    forall c | c in cs
      ensures nd.key < c.key
    {
      var j :| 0 <= j < |cs| && cs[j] == c;
      if j > 0 {
        SortedAt(cs, 0, j);
      }
    }
    var r := [nd] + cs;
    forall i, j | 0 <= i < j < |r|
      ensures KeyBefore(r, i, j)
    {
      assert r[j] == cs[j - 1];
      assert cs[j - 1] in cs;
      if i > 0 {
        assert r[i] == cs[i - 1];
        SortedAt(cs, i - 1, j - 1);
      }
    }
  }

  lemma InsertSortedStep<V>(cs: seq<Node<V>>, nd: Node<V>, rest: seq<Node<V>>)
    requires SortedKeys(cs) && |cs| > 0 && cs[0].key < nd.key
    requires SortedKeys(rest)
    requires forall ch :: ch in rest ==> ch in cs[1..] || ch == nd
    ensures SortedKeys([cs[0]] + rest)
  {
    forall ch | ch in rest
      ensures cs[0].key < ch.key
    {
      if ch != nd {
        var j :| 0 <= j < |cs[1..]| && cs[1..][j] == ch;
        assert cs[j + 1] == ch;
        SortedAt(cs, 0, j + 1);
      }
    }
    var r := [cs[0]] + rest;
    forall i, j | 0 <= i < j < |r|
      ensures KeyBefore(r, i, j)
    {
      assert r[j] == rest[j - 1];
      assert rest[j - 1] in rest;
      if i > 0 {
        assert r[i] == rest[i - 1];
        SortedAt(rest, i - 1, j - 1);
      }
    }
  }

  /** insert_child (trie_node.h:254-267): a new leaf with key `k` and value
      `v` joins the children; when the key is taken the set rejects it and
      the children are unchanged. */
  function InsertChild<V>(n: Node<V>, k: char, v: Option<V>): (r: Node<V>)
    requires SortedKeys(n.children)
    ensures r.key == n.key && r.value == n.value && SortedKeys(r.children)
    ensures forall ch :: ch in r.children ==> ch in n.children || ch == Node(k, v, [])
    ensures forall ch :: ch in n.children ==> ch in r.children
    ensures Node(k, v, []) in r.children || HasChild(n, k)
    ensures HasChild(n, k) ==> r == n
    ensures !HasChild(n, k) ==> |r.children| == |n.children| + 1
    ensures Ordered(n) && IsKeyChar(k) ==> Ordered(r)
    ensures AllSorted(n) ==> AllSorted(r)
    ensures NoDangling(n) && v.Some? ==> NoDangling(r)
  {
    GetChildMeaning(n, k);
    n.(children := InsertSorted(n.children, Node(k, v, [])))
  }

  /** erase_child (trie_node.h:237-244): the child with key `k` goes, and
      its whole subtree with it; no-op when there is no such child. */
  function EraseChild<V>(n: Node<V>, k: char): (r: Node<V>)
    requires SortedKeys(n.children)
    ensures r.key == n.key && r.value == n.value && SortedKeys(r.children)
    ensures forall ch :: ch in r.children ==> ch in n.children && ch.key != k
    ensures forall ch :: ch in n.children && ch.key != k ==> ch in r.children
    ensures !HasChild(n, k) ==> r == n
    ensures HasChild(n, k) ==> |r.children| == |n.children| - 1
    ensures Ordered(n) ==> Ordered(r)
    ensures AllSorted(n) ==> AllSorted(r)
    ensures NoDangling(n) ==> NoDangling(r)
  {
    var i := FindChild(n.children, k);
    if i < |n.children| then
      EraseChildMembers(n.children, i);
      n.(children := n.children[..i] + n.children[i + 1..])
    else
      GetChildMeaning(n, k);
      n
  }

  lemma EraseChildMembers<V>(cs: seq<Node<V>>, i: nat)
    requires SortedKeys(cs) && i < |cs|
    ensures SortedKeys(cs[..i] + cs[i + 1..])
    ensures forall ch :: ch in cs[..i] + cs[i + 1..] ==> ch in cs && ch.key != cs[i].key
    ensures forall ch :: ch in cs && ch.key != cs[i].key ==> ch in cs[..i] + cs[i + 1..]
  {
    EraseChildSorted(cs, i);
    EraseChildKeeps(cs, i);
  }

  lemma EraseChildSorted<V>(cs: seq<Node<V>>, i: nat)
    requires SortedKeys(cs) && i < |cs|
    ensures SortedKeys(cs[..i] + cs[i + 1..])
  {
    var r := cs[..i] + cs[i + 1..];
    forall a, b | 0 <= a < b < |r|
      ensures KeyBefore(r, a, b)
    {
      var a' := if a < i then a else a + 1;
      var b' := if b < i then b else b + 1;
      assert r[a] == cs[a'] && r[b] == cs[b'];
      SortedAt(cs, a', b');
    }
  }

  lemma EraseChildKeeps<V>(cs: seq<Node<V>>, i: nat)
    requires SortedKeys(cs) && i < |cs|
    ensures forall ch :: ch in cs[..i] + cs[i + 1..] ==> ch in cs && ch.key != cs[i].key
    ensures forall ch :: ch in cs && ch.key != cs[i].key ==> ch in cs[..i] + cs[i + 1..]
  {
    var r := cs[..i] + cs[i + 1..];
    forall ch | ch in r
      ensures ch in cs && ch.key != cs[i].key
    {
      var j :| 0 <= j < |r| && r[j] == ch;
      var j' := if j < i then j else j + 1;
      assert cs[j'] == ch;
      if j' < i {
        SortedAt(cs, j', i);
      } else {
        SortedAt(cs, i, j');
      }
    }
    forall ch | ch in cs && ch.key != cs[i].key
      ensures ch in r
    {
      var j :| 0 <= j < |cs| && cs[j] == ch;
      assert r[if j < i then j else j - 1] == ch;
    }
  }

  /** The child with key `nc.key` replaced by `nc`: what an in-place change
      through a child pointer amounts to. */
  function ReplaceChild<V>(n: Node<V>, nc: Node<V>): (r: Node<V>)
    requires SortedKeys(n.children) && HasChild(n, nc.key)
    ensures r.key == n.key && r.value == n.value && SortedKeys(r.children)
    ensures forall ch :: ch in r.children ==> (ch in n.children && ch.key != nc.key) || ch == nc
    ensures forall ch :: ch in n.children && ch.key != nc.key ==> ch in r.children
    ensures nc in r.children && |r.children| == |n.children|
    ensures Ordered(n) && Ordered(nc) ==> Ordered(r)
    ensures AllSorted(n) && AllSorted(nc) ==> AllSorted(r)
    ensures NoDangling(n) && NoDangling(nc) && Live(nc) ==> NoDangling(r)
  {
    var i := FindChild(n.children, nc.key);
    assert GetChild(n, nc.key).Some?;
    var r := n.(children := n.children[i := nc]);
    ReplaceChildMembers(n.children, i, nc);
    r
  }

  lemma ReplaceChildMembers<V>(cs: seq<Node<V>>, i: nat, nc: Node<V>)
    requires SortedKeys(cs) && i < |cs| && cs[i].key == nc.key
    ensures SortedKeys(cs[i := nc])
    ensures forall ch :: ch in cs[i := nc] ==> (ch in cs && ch.key != nc.key) || ch == nc
    ensures forall ch :: ch in cs && ch.key != nc.key ==> ch in cs[i := nc]
    ensures nc in cs[i := nc] && |cs[i := nc]| == |cs|
  {
    assert cs[i := nc][i] == nc;
    var r := cs[i := nc];
    forall a, b | 0 <= a < b < |r|
      ensures KeyBefore(r, a, b)
    {
      SortedAt(cs, a, b);
    }
    forall ch | ch in r
      ensures (ch in cs && ch.key != nc.key) || ch == nc
    {
      var j :| 0 <= j < |r| && r[j] == ch;
      if j != i {
        assert cs[j] == ch;
        assert cs[j].key != cs[i].key by {
          if j < i {
            SortedAt(cs, j, i);
          } else {
            SortedAt(cs, i, j);
          }
        }
      }
    }
    forall ch | ch in cs && ch.key != nc.key
      ensures ch in r
    {
      var j :| 0 <= j < |cs| && cs[j] == ch;
      assert r[j] == ch;
    }
  }

  /** clear_children (trie_node.h:246-252): every child goes, with its subtree. */
  function ClearChildren<V>(n: Node<V>): (r: Node<V>)
    ensures r.key == n.key && r.value == n.value
    ensures !HasChildren(r) && forall k :: GetChild(r, k).None?
  {
    n.(children := [])
  }

  /** assign_value (trie_node.h:228-231) */
  function AssignValue<V>(n: Node<V>, v: V): (r: Node<V>)
    ensures r.value == Some(v) && r.key == n.key
    ensures forall k :: GetChild(r, k) == GetChild(n, k)
  {
    n.(value := Some(v))
  }

  /** erase_value (trie_node.h:233-235) */
  function EraseValue<V>(n: Node<V>): (r: Node<V>)
    ensures r.value.None? && r.key == n.key
    ensures forall k :: GetChild(r, k) == GetChild(n, k)
  {
    n.(value := None)
  }

  // ###### what the child operations change ######

  /** After insert_child only the inserted key leads somewhere new. */
  lemma InsertChildGet<V>(n: Node<V>, k: char, v: Option<V>, d: char)
    requires SortedKeys(n.children)
    ensures GetChild(InsertChild(n, k, v), d) ==
      if d == k && !HasChild(n, k) then Some(Node(k, v, [])) else GetChild(n, d)
  {
    var r := InsertChild(n, k, v);
    GetChildMeaning(n, d);
    GetChildMeaning(r, d);
    if d != k && GetChild(n, d).Some? {
      assert GetChild(n, d).value in r.children;
    }
  }

  /** After erase_child the erased key leads nowhere and every other key
      where it led before. */
  lemma EraseChildGet<V>(n: Node<V>, k: char, d: char)
    requires SortedKeys(n.children)
    ensures GetChild(EraseChild(n, k), d) == if d == k then None else GetChild(n, d)
  {
    var r := EraseChild(n, k);
    GetChildMeaning(n, d);
    GetChildMeaning(r, d);
    if d != k && GetChild(n, d).Some? {
      assert GetChild(n, d).value in r.children;
    }
  }

  /** After a child is replaced its key leads to the replacement and every
      other key where it led before. */
  lemma ReplaceChildGet<V>(n: Node<V>, nc: Node<V>, d: char)
    requires SortedKeys(n.children) && HasChild(n, nc.key)
    ensures GetChild(ReplaceChild(n, nc), d) == if d == nc.key then Some(nc) else GetChild(n, d)
  {
    var r := ReplaceChild(n, nc);
    GetChildMeaning(n, d);
    GetChildMeaning(r, d);
    if d != nc.key && GetChild(n, d).Some? {
      assert GetChild(n, d).value in r.children;
    }
  }

  // ###### copy ######

  /** The copy constructor (trie_node.h:101-113): the same key, a fresh copy
      of the value if there is one, and a deep copy of every child. */
  function CopyNode<V>(n: Node<V>): Node<V>
  {
    var value := match n.value case None => None case Some(v) => Some(v);
    Node(n.key, value, seq(|n.children|, i requires 0 <= i < |n.children| => CopyNode(n.children[i])))
  }

  /** A deep copy is indistinguishable from its source: same keys, values
      and children all the way down. */
  lemma {:induction false} CopyNodeIsEqual<V>(n: Node<V>)
    ensures CopyNode(n) == n
  {
    forall i | 0 <= i < |n.children|
      ensures CopyNode(n.children[i]) == n.children[i]
    {
      CopyNodeIsEqual(n.children[i]);
    }
    assert CopyNode(n).children == n.children;
  }
}
