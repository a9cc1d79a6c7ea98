/** The trie's bidirectional iterator (trie.h:13-95) as a state machine over
    paths. Its state is a position (past-the-end, or the node at a path from
    the root) and a marker holding the key of the child the last step came up
    from; no marker stands for the source's '\0', "arrived from above". */
module TrieIterator {
  import opened Wrappers
  import opened TrieNode

  datatype Direction = Forward | Backward

  /** Past-the-end (the null pointer), or the node at `path` below the root. */
  datatype Pos = End | At(path: seq<char>)

  /** `_ptr` and `_current_key` of trie_iterator. */
  datatype Iter = Iter(pos: Pos, marker: Option<char>)

  /** The iterator points at a node of the tree rooted at `root`. */
  ghost predicate ValidIter<V>(root: Node<V>, it: Iter) {
    it.pos.At? && Lookup(root, it.pos.path).Some?
  }

  /** The marker as the source stores it: '\0' when there is none. */
  function MarkerChar(m: Option<char>): char {
    match m
    case None => RootKey
    case Some(c) => c
  }

  /** get_next_child (trie.h:64-81): with no marker, the first (forward) or
      last (backward) child key; otherwise the child key after (forward) or
      before (backward) the marker. A marker that is not a child key is found
      at `end()`: going backward that yields the last key, going forward the
      source increments `end()`, which is undefined and modelled as "none". */
  function GetNextChild<V>(n: Node<V>, marker: Option<char>, dir: Direction): (r: Option<char>)
    requires |n.children| > 0
    ensures r.Some? ==> HasChild(n, r.value)
    ensures marker.None? ==>
      r == Some(n.children[if dir == Forward then 0 else |n.children| - 1].key)
  {
    var keys := ChildrenKeys(n);
    match marker
    case None =>
      var i := if dir == Forward then 0 else |keys| - 1;
      FindChildFirst(n.children, keys[i], i);
      Some(keys[i])
    case Some(c) =>
      // std::find over the key vector: the same position as in the child set
      var i := FindChild(n.children, c);
      if dir == Forward then
        if i + 1 < |keys| then
          FindChildFirst(n.children, keys[i + 1], i + 1);
          Some(keys[i + 1])
        else
          None
      else
        if i > 0 then
          FindChildFirst(n.children, keys[i - 1], i - 1);
          Some(keys[i - 1])
        else
          None
  }

  /** In a sorted child sequence a key is found at its own position. */
  lemma FindChildUnique<V>(cs: seq<Node<V>>, k: char)
    requires SortedKeys(cs)
    ensures forall i :: 0 <= i < |cs| && cs[i].key == k ==> FindChild(cs, k) == i
  {
    forall i | 0 <= i < |cs| && cs[i].key == k
      ensures FindChild(cs, k) == i
    {
      var j := FindChild(cs, k);
      FindChildFirst(cs, k, i);
      if j < i {
        SortedAt(cs, j, i);
      }
    }
  }

  /** With the marker at the child in position `i`, get_next_child gives
      the key of the neighbour at `i + 1` (forward) or `i - 1` (backward). */
  lemma GetNextChildAt<V>(n: Node<V>, i: nat, dir: Direction)
    requires SortedKeys(n.children) && i < |n.children|
    ensures GetNextChild(n, Some(n.children[i].key), dir) ==
      if dir == Forward then
        (if i + 1 < |n.children| then Some(n.children[i + 1].key) else None)
      else
        (if i > 0 then Some(n.children[i - 1].key) else None)
  {
    FindChildUnique(n.children, n.children[i].key);
  }

  /** What get_next_child means in a sorted child set: going forward, the
      next larger child key, or none when the marker is the largest; going
      backward, the next smaller one, or none when it is the smallest. */
  lemma GetNextChildIsSibling<V>(n: Node<V>, c: char, dir: Direction)
    requires SortedKeys(n.children) && HasChild(n, c)
    ensures var r := GetNextChild(n, Some(c), dir);
      if dir == Forward then
        && (r.None? <==> forall ch :: ch in n.children ==> ch.key <= c)
        && (r.Some? ==>
              c < r.value && HasChild(n, r.value) &&
              forall ch :: ch in n.children && c < ch.key ==> r.value <= ch.key)
      else
        && (r.None? <==> forall ch :: ch in n.children ==> c <= ch.key)
        && (r.Some? ==>
              r.value < c && HasChild(n, r.value) &&
              forall ch :: ch in n.children && ch.key < c ==> ch.key <= r.value)
  {
    var cs := n.children;
    var i :| 0 <= i < |cs| && cs[i].key == c;
    GetNextChildAt(n, i, dir);
    forall ch | ch in cs
      ensures ch.key < c ==> (i > 0 && ch.key <= cs[i - 1].key)
      ensures c < ch.key ==> (i + 1 < |cs| && cs[i + 1].key <= ch.key)
    {
      var j :| 0 <= j < |cs| && cs[j] == ch;
      if j < i - 1 {
        SortedAt(cs, j, i - 1);
      }
      if j > i + 1 {
        SortedAt(cs, i + 1, j);
      }
      if j > i {
        SortedAt(cs, i, j);
      }
      if j < i {
        SortedAt(cs, j, i);
      }
    }
    if i > 0 {
      SortedAt(cs, i - 1, i);
      assert cs[i - 1] in cs;
    }
    if i + 1 < |cs| {
      SortedAt(cs, i, i + 1);
      assert cs[i + 1] in cs;
    }
  }

  /** step (trie.h:83-94) from `node`, the node at `p`: descend into the
      next child in direction `dir` if there is one; otherwise climb to the
      parent, remembering the key of the node just left. Climbing from the
      root, whose key is '\0', reaches past-the-end with no marker. */
  function StepFrom<V>(p: seq<char>, node: Node<V>, marker: Option<char>, dir: Direction): Iter {
    var next := if HasChildren(node) then GetNextChild(node, marker, dir) else None;
    if next.Some? then Iter(At(p + [next.value]), None)
    else if p == [] then Iter(End, None)
    else Iter(At(p[..|p| - 1]), Some(node.key))
  }

  /** step on the tree rooted at `root`. */
  function Step<V>(root: Node<V>, it: Iter, dir: Direction): (r: Iter)
    requires Ordered(root) && ValidIter(root, it)
    ensures r.pos.End? || ValidIter(root, r)
  {
    var p := it.pos.path;
    var node := Lookup(root, p).value;
    StepFromSound(root, p, it.marker, dir);
    StepFrom(p, node, it.marker, dir)
  }

  lemma StepFromSound<V>(root: Node<V>, p: seq<char>, marker: Option<char>, dir: Direction)
    requires Ordered(root) && Lookup(root, p).Some?
    ensures var r := StepFrom(p, Lookup(root, p).value, marker, dir);
      && (r.pos.End? || ValidIter(root, r))
      && (r.pos.At? && r.marker.None? ==> |r.pos.path| == |p| + 1 && r.pos.path[..|p|] == p)
      && (r.marker.Some? ==> r.pos.At? && p == r.pos.path + [r.marker.value])
      && (r.pos.End? ==> p == [] && r.marker.None?)
  {
    var node := Lookup(root, p).value;
    var next := if HasChildren(node) then GetNextChild(node, marker, dir) else None;
    if next.Some? {
      LookupAppend(root, p, [next.value]);
      assert Lookup(node, [next.value]) == GetChild(node, next.value);
    } else if p != [] {
      LookupPrefix(root, p, |p| - 1);
      assert p == p[..|p| - 1] + [node.key];
    }
  }

  /** The loop conditions of operator++ (trie.h:28-29) and operator--
      (trie.h:41-42): keep stepping while on a node that has no value or,
      going forward, was reached from below or, going backward, has a child
      key smaller than the marker. */
  predicate Keep<V>(root: Node<V>, it: Iter, dir: Direction) {
    it.pos.At? &&
    match Lookup(root, it.pos.path)
    case None => false
    case Some(node) =>
      node.value.None? ||
      (if dir == Forward then it.marker.Some? else HasPreviousChild(node, MarkerChar(it.marker)))
  }

  /** The while loop of operator++ / operator--, given at most `fuel` steps.
      `StepBound` is enough from every tour state, which covers every
      position that find, begin, `++` and `--` produce (see
      TrieWalk.RunOnWalk). */
  function Run<V>(root: Node<V>, it: Iter, dir: Direction, fuel: nat): (r: Iter)
    requires Ordered(root) && (it.pos.End? || ValidIter(root, it))
    ensures r.pos.End? || ValidIter(root, r)
    decreases fuel
  {
    if !Keep(root, it, dir) || fuel == 0 then it
    else Run(root, Step(root, it, dir), dir, fuel - 1)
  }

  /** Two steps per node: one down into it, one up out of it. */
  function StepBound<V>(root: Node<V>): nat {
    2 * NodeCount(root)
  }

  /** operator++ (trie.h:26-33): one step, then step until past-the-end or a
      value-bearing node reached from above. */
  function Increment<V>(root: Node<V>, it: Iter): (r: Iter)
    requires Ordered(root) && ValidIter(root, it)
    ensures r.pos.End? || ValidIter(root, r)
  {
    Run(root, Step(root, it, Forward), Forward, StepBound(root))
  }

  /** operator-- (trie.h:39-46): one step backward, then step until
      past-the-end or a value-bearing node with no smaller child key than
      the marker. */
  function Decrement<V>(root: Node<V>, it: Iter): (r: Iter)
    requires Ordered(root) && ValidIter(root, it)
    ensures r.pos.End? || ValidIter(root, r)
  {
    Run(root, Step(root, it, Backward), Backward, StepBound(root))
  }

  /** operator== (trie.h:53-58): same node; the marker is not compared. */
  function SamePosition(a: Iter, b: Iter): bool {
    a.pos == b.pos
  }
}
