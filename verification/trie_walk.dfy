/** The complete run of the iterator's `step` over a tree: starting at the
    root with no marker, it enters every node once from above and leaves it
    once upwards, visiting children in ascending (forward) or descending
    (backward) key order, and ends past-the-end. `Tour` writes that run out
    as a sequence of states; `TourWalk` proves `step` produces it. The states
    where operator++ / operator-- stop are then exactly the stored keys, in
    ascending order forward and in descending order backward. */
module TrieWalk {
  import opened Wrappers
  import opened TrieNode
  import opened KeyOrder
  import opened TrieKeys
  import opened TrieIterator

  // ###### tours ######

  /** A state of a child's subtree as seen from its parent: paths get the
      child's key in front; past-the-end of the child is the parent reached
      from that child. */
  function Lift(c: char, s: Iter): Iter {
    match s.pos
    case End => Iter(At([]), Some(c))
    case At(q) => Iter(At([c] + q), s.marker)
  }

  function LiftAll(c: char, ss: seq<Iter>): (r: seq<Iter>)
    ensures |r| == |ss|
    ensures forall i :: 0 <= i < |ss| ==> r[i] == Lift(c, ss[i])
  {
    seq(|ss|, i requires 0 <= i < |ss| => Lift(c, ss[i]))
  }

  /** The states `step` passes through from the root of `n` to past-the-end. */
  function Tour<V>(n: Node<V>, dir: Direction): seq<Iter>
    decreases n, 1, 0
  {
    [Iter(At([]), None)] + Blocks(n, dir, 0, |n.children|) + [Iter(End, None)]
  }

  /** The tours of children `lo .. hi - 1` lifted to `n`, in the order `dir`
      visits them. */
  function Blocks<V>(n: Node<V>, dir: Direction, lo: nat, hi: nat): seq<Iter>
    requires lo <= hi <= |n.children|
    decreases n, 0, hi - lo
  {
    if lo == hi then []
    else if dir == Forward then
      LiftAll(n.children[lo].key, Tour(n.children[lo], dir)) + Blocks(n, dir, lo + 1, hi)
    else
      LiftAll(n.children[hi - 1].key, Tour(n.children[hi - 1], dir)) + Blocks(n, dir, lo, hi - 1)
  }

  /** `a` is a node of `root` and `step` takes it to `b`. */
  ghost predicate StepsTo<V>(root: Node<V>, a: Iter, b: Iter, dir: Direction) {
    Ordered(root) && ValidIter(root, a) && Step(root, a, dir) == b
  }

  /** `step` takes state `i` of `ss` to state `i + 1`. */
  ghost predicate StepAt<V>(root: Node<V>, ss: seq<Iter>, dir: Direction, i: nat)
    requires i < |ss| - 1
  {
    StepsTo(root, ss[i], ss[i + 1], dir)
  }

  /** Each state but the last is a node of `root`, and `step` takes it to
      the next state. */
  ghost predicate IsWalk<V>(root: Node<V>, ss: seq<Iter>, dir: Direction) {
    && Ordered(root)
    && forall i {:trigger StepAt(root, ss, dir, i)} :: 0 <= i < |ss| - 1 ==> StepAt(root, ss, dir, i)
  }

  lemma CountRangeSplitLast<V>(n: Node<V>, lo: nat, hi: nat)
    requires lo < hi <= |n.children|
    ensures CountRange(n, lo, hi) == CountRange(n, lo, hi - 1) + NodeCount(n.children[hi - 1])
    decreases hi - lo
  {
    if lo + 1 < hi {
      CountRangeSplitLast(n, lo + 1, hi);
    }
  }

  /** Following a path through child `j` is following the rest inside it. */
  lemma LookupThroughChild<V>(n: Node<V>, j: nat, q: seq<char>)
    requires SortedKeys(n.children) && j < |n.children|
    ensures Lookup(n, [n.children[j].key] + q) == Lookup(n.children[j], q)
  {
    var p := [n.children[j].key] + q;
    GetChildAt(n, j);
    assert p[0] == n.children[j].key && p[1..] == q;
  }

  /** `step` from a node inside a child's subtree and from the same node
      seen from the parent agree. */
  lemma StepFromLift<V>(c: char, q: seq<char>, node: Node<V>, marker: Option<char>, dir: Direction)
    requires q == [] ==> node.key == c
    ensures StepFrom([c] + q, node, marker, dir) == Lift(c, StepFrom(q, node, marker, dir))
  {
    var next := if HasChildren(node) then GetNextChild(node, marker, dir) else None;
    if next.Some? {
      assert [c] + (q + [next.value]) == ([c] + q) + [next.value];
    } else if q == [] {
      assert ([c] + q)[..0] == [];
    } else {
      assert ([c] + q)[..|q|] == [c] + q[..|q| - 1];
    }
  }

  /** `step` inside a child's subtree and `step` in the parent agree. */
  lemma StepLift<V>(n: Node<V>, j: nat, s: Iter, dir: Direction)
    requires Ordered(n) && j < |n.children| && ValidIter(n.children[j], s)
    ensures Ordered(n.children[j])
    ensures ValidIter(n, Lift(n.children[j].key, s))
    ensures Step(n, Lift(n.children[j].key, s), dir) ==
      Lift(n.children[j].key, Step(n.children[j], s, dir))
  {
    var ch := n.children[j];
    assert ch in n.children;
    var q := s.pos.path;
    LookupThroughChild(n, j, q);
    StepFromLift(ch.key, q, Lookup(ch, q).value, s.marker, dir);
  }

  lemma LiftWalk<V>(n: Node<V>, j: nat, ss: seq<Iter>, dir: Direction)
    requires Ordered(n) && j < |n.children|
    requires IsWalk(n.children[j], ss, dir)
    ensures IsWalk(n, LiftAll(n.children[j].key, ss), dir)
  {
    var ls := LiftAll(n.children[j].key, ss);
    forall i | 0 <= i < |ls| - 1
      ensures StepAt(n, ls, dir, i)
    {
      WalkStep(n.children[j], ss, dir, i);
      StepLift(n, j, ss[i], dir);
    }
  }

  lemma WalkStep<V>(root: Node<V>, ss: seq<Iter>, dir: Direction, i: nat)
    requires IsWalk(root, ss, dir) && i < |ss| - 1
    ensures StepsTo(root, ss[i], ss[i + 1], dir)
  {
    assert StepAt(root, ss, dir, i);
  }

  lemma WalkConcat<V>(root: Node<V>, a: seq<Iter>, b: seq<Iter>, dir: Direction)
    requires IsWalk(root, a, dir) && IsWalk(root, b, dir) && |a| > 0 && |b| > 0
    requires StepsTo(root, a[|a| - 1], b[0], dir)
    ensures IsWalk(root, a + b, dir)
    ensures (a + b)[0] == a[0] && (a + b)[|a + b| - 1] == b[|b| - 1]
  {
    var s := a + b;
    forall i | 0 <= i < |s| - 1
      ensures StepAt(root, s, dir, i)
    {
      if i < |a| - 1 {
        assert StepAt(root, a, dir, i);
        assert s[i] == a[i] && s[i + 1] == a[i + 1];
      } else if i == |a| - 1 {
        assert s[i] == a[i] && s[i + 1] == b[0];
      } else {
        assert StepAt(root, b, dir, i - |a|);
        assert s[i] == b[i - |a|] && s[i + 1] == b[i + 1 - |a|];
      }
    }
  }

  /** From the root with no marker, `step` enters the first child in
      direction `dir`, or leaves the tree when there is none. */
  lemma StepFromRoot<V>(n: Node<V>, dir: Direction)
    requires Ordered(n)
    ensures |n.children| == 0 ==> StepsTo(n, Iter(At([]), None), Iter(End, None), dir)
    ensures |n.children| > 0 ==>
      StepsTo(n, Iter(At([]), None),
        Iter(At([n.children[if dir == Forward then 0 else |n.children| - 1].key]), None), dir)
  {
    assert Lookup(n, []) == Some(n);
    assert Step(n, Iter(At([]), None), dir) == StepFrom([], n, None, dir);
    if |n.children| > 0 {
      var c := n.children[if dir == Forward then 0 else |n.children| - 1].key;
      assert GetNextChild(n, None, dir) == Some(c);
      assert [] + [c] == [c];
    }
  }

  /** Two states per node: a tour has `StepBound` states. */
  lemma {:induction false} TourLength<V>(n: Node<V>, dir: Direction)
    ensures |Tour(n, dir)| == StepBound(n)
    decreases n, 1, 0
  {
    BlocksLength(n, dir, 0, |n.children|);
  }

  lemma {:induction false} BlocksLength<V>(n: Node<V>, dir: Direction, lo: nat, hi: nat)
    requires lo <= hi <= |n.children|
    ensures |Blocks(n, dir, lo, hi)| == 2 * CountRange(n, lo, hi)
    decreases n, 0, hi - lo
  {
    if lo < hi {
      var j := if dir == Forward then lo else hi - 1;
      assert n.children[j] in n.children;
      TourLength(n.children[j], dir);
      if dir == Forward {
        BlocksLength(n, dir, lo + 1, hi);
      } else {
        BlocksLength(n, dir, lo, hi - 1);
        CountRangeSplitLast(n, lo, hi);
      }
    }
  }

  /** `step` traverses the whole tree: from the root with no marker it
      produces the tour state by state, two states per node, and the last
      state is past-the-end. */
  lemma {:induction false} TourWalk<V>(n: Node<V>, dir: Direction)
    requires Ordered(n)
    ensures IsWalk(n, Tour(n, dir), dir)
    ensures |Tour(n, dir)| == StepBound(n)
    decreases n, 1, 0
  {
    var cs := n.children;
    var first := [Iter(At([]), None)];
    var last := [Iter(End, None)];
    var B := Blocks(n, dir, 0, |cs|);
    assert Tour(n, dir) == first + B + last;
    StepFromRoot(n, dir);
    if |cs| == 0 {
      assert first + B + last == first + last;
      WalkConcat(n, first, last, dir);
    } else {
      BlocksWalk(n, dir, 0, |cs|);
      WalkConcat(n, first, B, dir);
      WalkConcat(n, first + B, last, dir);
    }
    TourLength(n, dir);
  }

  lemma {:induction false} BlocksWalk<V>(n: Node<V>, dir: Direction, lo: nat, hi: nat)
    requires Ordered(n) && lo < hi <= |n.children|
    requires dir == Forward ==> hi == |n.children|
    requires dir == Backward ==> lo == 0
    ensures IsWalk(n, Blocks(n, dir, lo, hi), dir)
    ensures var B := Blocks(n, dir, lo, hi);
      && |B| > 0
      && B[0] == Iter(At([n.children[if dir == Forward then lo else hi - 1].key]), None)
      && StepsTo(n, B[|B| - 1], Iter(End, None), dir)
    decreases n, 0, hi - lo, 1
  {
    if dir == Forward {
      ForwardBlocksWalk(n, lo);
    } else {
      BackwardBlocksWalk(n, hi);
    }
  }

  /** Forward, the children from `lo` on, one lifted tour after another. */
  lemma {:induction false} ForwardBlocksWalk<V>(n: Node<V>, lo: nat)
    requires Ordered(n) && lo < |n.children|
    ensures var B := Blocks(n, Forward, lo, |n.children|);
      && IsWalk(n, B, Forward) && |B| > 0
      && B[0] == Iter(At([n.children[lo].key]), None)
      && StepsTo(n, B[|B| - 1], Iter(End, None), Forward)
    decreases n, 0, |n.children| - lo, 0
  {
    var L := ChildBlock(n, lo, Forward);
    if lo + 1 == |n.children| {
      ReturnToEnd(n, lo, Forward);
      assert Blocks(n, Forward, lo, |n.children|) == L;
    } else {
      ReturnToNext(n, lo, lo + 1, Forward);
      ForwardBlocksWalk(n, lo + 1);
      var R := Blocks(n, Forward, lo + 1, |n.children|);
      WalkConcat(n, L, R, Forward);
      assert Blocks(n, Forward, lo, |n.children|) == L + R;
    }
  }

  /** Backward, the children below `hi`, from the last one down. */
  lemma {:induction false} BackwardBlocksWalk<V>(n: Node<V>, hi: nat)
    requires Ordered(n) && 0 < hi <= |n.children|
    ensures var B := Blocks(n, Backward, 0, hi);
      && IsWalk(n, B, Backward) && |B| > 0
      && B[0] == Iter(At([n.children[hi - 1].key]), None)
      && StepsTo(n, B[|B| - 1], Iter(End, None), Backward)
    decreases n, 0, hi, 0
  {
    var L := ChildBlock(n, hi - 1, Backward);
    if hi == 1 {
      ReturnToEnd(n, 0, Backward);
      assert Blocks(n, Backward, 0, hi) == L;
    } else {
      ReturnToNext(n, hi - 1, hi - 2, Backward);
      BackwardBlocksWalk(n, hi - 1);
      var R := Blocks(n, Backward, 0, hi - 1);
      WalkConcat(n, L, R, Backward);
      assert Blocks(n, Backward, 0, hi) == L + R;
    }
  }

  /** The lifted tour of child `j`: a walk of `n` from the child down to
      the return to `n`. */
  lemma {:induction false} ChildBlock<V>(n: Node<V>, j: nat, dir: Direction) returns (L: seq<Iter>)
    requires Ordered(n) && j < |n.children|
    ensures L == LiftAll(n.children[j].key, Tour(n.children[j], dir))
    ensures IsWalk(n, L, dir) && |L| > 0
    ensures L[0] == Iter(At([n.children[j].key]), None)
    ensures L[|L| - 1] == Iter(At([]), Some(n.children[j].key))
    decreases n, 0, 0
  {
    var ch := n.children[j];
    assert ch in n.children;
    var T := Tour(ch, dir);
    TourWalk(ch, dir);
    LiftWalk(n, j, T, dir);
    L := LiftAll(ch.key, T);
    assert L[0] == Iter(At([ch.key] + []), None);
    assert [ch.key] + [] == [ch.key];
  }

  /** Back at `n` from child `j`, `step` enters the neighbouring child `k`
      in direction `dir`. */
  lemma ReturnToNext<V>(n: Node<V>, j: nat, k: nat, dir: Direction)
    requires Ordered(n) && j < |n.children| && k < |n.children|
    requires k == if dir == Forward then j + 1 else j - 1
    ensures StepsTo(n, Iter(At([]), Some(n.children[j].key)), Iter(At([n.children[k].key]), None), dir)
  {
    var c := n.children[j].key;
    var d := n.children[k].key;
    assert Lookup(n, []) == Some(n);
    GetNextChildAt(n, j, dir);
    assert GetNextChild(n, Some(c), dir) == Some(d);
    assert [] + [d] == [d];
    assert StepFrom([], n, Some(c), dir) == Iter(At([d]), None);
  }

  /** Back at `n` from its last child in direction `dir`, `step` leaves `n`. */
  lemma ReturnToEnd<V>(n: Node<V>, j: nat, dir: Direction)
    requires Ordered(n) && j < |n.children|
    requires if dir == Forward then j == |n.children| - 1 else j == 0
    ensures StepsTo(n, Iter(At([]), Some(n.children[j].key)), Iter(End, None), dir)
  {
    assert Lookup(n, []) == Some(n);
    GetNextChildAt(n, j, dir);
  }

  // ###### stops ######

  /** The key at `s` if `s` ends the loop of operator++ / operator--. */
  function StopPath<V>(root: Node<V>, s: Iter, dir: Direction): seq<seq<char>> {
    if s.pos.At? && !Keep(root, s, dir) then [s.pos.path] else []
  }

  /** The keys at the states of `ss` where operator++ / operator-- stop. */
  function Yields<V>(root: Node<V>, ss: seq<Iter>, dir: Direction): seq<seq<char>> {
    if ss == [] then [] else StopPath(root, ss[0], dir) + Yields(root, ss[1..], dir)
  }

  lemma {:induction false} YieldsConcat<V>(root: Node<V>, a: seq<Iter>, b: seq<Iter>, dir: Direction)
    ensures Yields(root, a + b, dir) == Yields(root, a, dir) + Yields(root, b, dir)
    decreases |a|
  {
    if a == [] {
      assert a + b == b;
    } else {
      assert (a + b)[0] == a[0];
      assert (a + b)[1..] == a[1..] + b;
      YieldsConcat(root, a[1..], b, dir);
    }
  }

  lemma {:induction false} YieldsLift<V>(n: Node<V>, j: nat, ss: seq<Iter>, dir: Direction)
    requires Ordered(n) && j < |n.children|
    requires forall i :: 0 <= i < |ss| ==> ValidIter(n.children[j], ss[i])
    ensures Yields(n, LiftAll(n.children[j].key, ss), dir) ==
      PrefixAll(n.children[j].key, Yields(n.children[j], ss, dir))
    decreases |ss|
  {
    var c := n.children[j].key;
    if ss != [] {
      var ls := LiftAll(c, ss);
      assert ls[1..] == LiftAll(c, ss[1..]);
      StopPathLift(n, j, ss[0], dir);
      YieldsLift(n, j, ss[1..], dir);
      PrefixAllConcat(c, StopPath(n.children[j], ss[0], dir), Yields(n.children[j], ss[1..], dir));
    }
  }

  /** A node of a child's subtree stops the loop exactly when it does seen
      from the parent. */
  lemma StopPathLift<V>(n: Node<V>, j: nat, s: Iter, dir: Direction)
    requires SortedKeys(n.children) && j < |n.children| && ValidIter(n.children[j], s)
    ensures StopPath(n, Lift(n.children[j].key, s), dir) ==
      PrefixAll(n.children[j].key, StopPath(n.children[j], s, dir))
  {
    LookupThroughChild(n, j, s.pos.path);
  }

  lemma PrefixAllConcat(c: char, a: seq<seq<char>>, b: seq<seq<char>>)
    ensures PrefixAll(c, a + b) == PrefixAll(c, a) + PrefixAll(c, b)
  {
  }

  /** The stops of a lifted child tour, the return to the parent excluded,
      are the child's stops with its key in front. */
  lemma LiftedTourYields<V>(n: Node<V>, j: nat, dir: Direction)
    requires Ordered(n) && j < |n.children|
    ensures var c := n.children[j].key;
      Yields(n, LiftAll(c, Tour(n.children[j], dir)), dir) ==
        PrefixAll(c, Yields(n.children[j], Tour(n.children[j], dir), dir)) +
        StopPath(n, Iter(At([]), Some(c)), dir)
  {
    var ch := n.children[j];
    assert ch in n.children;
    var c := ch.key;
    var T := Tour(ch, dir);
    TourWalk(ch, dir);
    var init := T[..|T| - 1];
    assert T == init + [Iter(End, None)];
    forall i | 0 <= i < |init|
      ensures ValidIter(ch, init[i])
    {
      WalkStep(ch, T, dir, i);
    }
    var back := Iter(At([]), Some(c));
    assert LiftAll(c, T) == LiftAll(c, init) + [back];
    YieldsConcat(n, LiftAll(c, init), [back], dir);
    YieldsSingle(n, back, dir);
    YieldsConcat(ch, init, [Iter(End, None)], dir);
    YieldsSingle(ch, Iter(End, None), dir);
    assert Yields(ch, T, dir) == Yields(ch, init, dir);
    YieldsLift(n, j, init, dir);
  }

  /** A tour, cut into the entry into the root, the children's blocks and
      past-the-end. */
  lemma TourSplit<V>(n: Node<V>, dir: Direction)
    ensures Tour(n, dir) ==
      [Iter(At([]), None)] + Blocks(n, dir, 0, |n.children|) + [Iter(End, None)]
  {
  }

  lemma YieldsSingle<V>(root: Node<V>, s: Iter, dir: Direction)
    ensures Yields(root, [s], dir) == StopPath(root, s, dir)
  {
    assert [s][1..] == [];
  }

  /** The keys of a tour: the root's own key where it stops on entry, the
      children's blocks, and nothing past-the-end. */
  lemma TourYields<V>(n: Node<V>, dir: Direction)
    ensures Yields(n, Tour(n, dir), dir) ==
      StopPath(n, Iter(At([]), None), dir) + Yields(n, Blocks(n, dir, 0, |n.children|), dir)
  {
    var first := [Iter(At([]), None)];
    var B := Blocks(n, dir, 0, |n.children|);
    var last := [Iter(End, None)];
    TourSplit(n, dir);
    YieldsConcat(n, first + B, last, dir);
    YieldsConcat(n, first, B, dir);
    YieldsSingle(n, first[0], dir);
    YieldsSingle(n, last[0], dir);
  }

  /** Entering the root from above stops at its own key, except going
      backward into a root with children. */
  lemma EntryStop<V>(n: Node<V>, dir: Direction)
    requires Ordered(n)
    ensures StopPath(n, Iter(At([]), None), dir) ==
      if n.value.Some? && (dir == Forward || |n.children| == 0) then [[]] else []
  {
    assert Lookup(n, []) == Some(n);
    if dir == Backward && |n.children| > 0 {
      EnterKeepsBackward(n);
    }
  }

  /** Coming back up from child `j` stops at the node's own key only going
      backward from the smallest child. */
  lemma ReturnStop<V>(n: Node<V>, j: nat, dir: Direction)
    requires Ordered(n) && j < |n.children|
    ensures StopPath(n, Iter(At([]), Some(n.children[j].key)), dir) ==
      if n.value.Some? && dir == Backward && j == 0 then [[]] else []
  {
    assert Lookup(n, []) == Some(n);
    var cs := n.children;
    var c := cs[j].key;
    if dir == Backward {
      if j == 0 {
        forall d | d in cs
          ensures !(d.key < c)
        {
          var i :| 0 <= i < |cs| && cs[i] == d;
          if i > 0 {
            SortedAt(cs, 0, i);
          }
        }
      } else {
        SortedAt(cs, 0, j);
        assert cs[0] in cs;
      }
    }
  }

  lemma BlocksSplit<V>(n: Node<V>, dir: Direction, lo: nat, hi: nat)
    requires lo < hi <= |n.children|
    ensures var j := if dir == Forward then lo else hi - 1;
      Blocks(n, dir, lo, hi) ==
        LiftAll(n.children[j].key, Tour(n.children[j], dir)) +
        (if dir == Forward then Blocks(n, dir, lo + 1, hi) else Blocks(n, dir, lo, hi - 1))
  {
  }

  /** Forward, the loop of operator++ stops exactly at the stored keys, in
      ascending order. */
  lemma {:induction false} ForwardYields<V>(n: Node<V>)
    requires Ordered(n)
    ensures Yields(n, Tour(n, Forward), Forward) == KeysOf(n)
    decreases n, 1, 0
  {
    TourYields(n, Forward);
    EntryStop(n, Forward);
    ForwardBlocksYields(n, 0);
  }

  lemma {:induction false} ForwardBlocksYields<V>(n: Node<V>, lo: nat)
    requires Ordered(n) && lo <= |n.children|
    ensures Yields(n, Blocks(n, Forward, lo, |n.children|), Forward) == KeysRange(n, lo, |n.children|)
    decreases n, 0, |n.children| - lo
  {
    if lo < |n.children| {
      var ch := n.children[lo];
      var L := LiftAll(ch.key, Tour(ch, Forward));
      var R := Blocks(n, Forward, lo + 1, |n.children|);
      BlocksSplit(n, Forward, lo, |n.children|);
      YieldsConcat(n, L, R, Forward);
      ForwardChildYields(n, lo);
      ForwardBlocksYields(n, lo + 1);
    }
  }

  /** Going forward, the lifted tour of child `j` stops at the child's keys
      in ascending order, and not on the way back up. */
  lemma {:induction false} ForwardChildYields<V>(n: Node<V>, j: nat)
    requires Ordered(n) && j < |n.children|
    ensures var ch := n.children[j];
      Yields(n, LiftAll(ch.key, Tour(ch, Forward)), Forward) == PrefixAll(ch.key, KeysOf(ch))
    decreases n, 0, 0
  {
    var ch := n.children[j];
    assert ch in n.children;
    LiftedTourYields(n, j, Forward);
    ReturnStop(n, j, Forward);
    ForwardYields(ch);
  }

  /** `s` in reverse order. */
  function Reverse<T>(s: seq<T>): (r: seq<T>)
    ensures |r| == |s|
    ensures forall i :: 0 <= i < |s| ==> r[i] == s[|s| - 1 - i]
  {
    seq(|s|, i requires 0 <= i < |s| => s[|s| - 1 - i])
  }

  lemma ReverseConcat<T>(a: seq<T>, b: seq<T>)
    ensures Reverse(a + b) == Reverse(b) + Reverse(a)
  {
  }

  /** Reversing `yl + yr` puts the reversed `yr` first. */
  lemma ReverseJoin<T>(yl: seq<T>, yr: seq<T>, own: seq<T>, kr: seq<T>, kc: seq<T>)
    requires Reverse(yl) == kc && Reverse(yr) == own + kr
    ensures Reverse(yl + yr) == own + (kr + kc)
  {
    ReverseConcat(yl, yr);
    assert (own + kr) + kc == own + (kr + kc);
  }

  lemma ReversePrefixAll(c: char, s: seq<seq<char>>)
    ensures Reverse(PrefixAll(c, s)) == PrefixAll(c, Reverse(s))
  {
  }

  /** A node with children is never a stop on arrival from above going
      backward: '\0' is not a child key, so has_previous_child holds. */
  lemma EnterKeepsBackward<V>(n: Node<V>)
    requires Ordered(n) && |n.children| > 0
    ensures HasPreviousChild(n, RootKey)
  {
    forall k | 0 <= k < |n.children|
      ensures n.children[k].key != RootKey
    {
      assert n.children[k] in n.children;
    }
  }

  /** Backward, the loop of operator-- stops exactly at the stored keys, in
      descending order. */
  lemma {:induction false} BackwardYields<V>(n: Node<V>)
    requires Ordered(n)
    ensures Reverse(Yields(n, Tour(n, Backward), Backward)) == KeysOf(n)
    decreases n, 1, 0
  {
    var own: seq<seq<char>> := if n.value.Some? then [[]] else [];
    var yb := Yields(n, Blocks(n, Backward, 0, |n.children|), Backward);
    TourYields(n, Backward);
    EntryStop(n, Backward);
    if |n.children| > 0 {
      BackwardBlocksYields(n, |n.children|);
      assert Yields(n, Tour(n, Backward), Backward) == [] + yb == yb;
    } else {
      assert yb == [] && KeysRange(n, 0, 0) == [];
      assert Yields(n, Tour(n, Backward), Backward) == own + [] == own;
      assert KeysOf(n) == own + [] == own;
    }
  }

  lemma {:induction false} BackwardBlocksYields<V>(n: Node<V>, hi: nat)
    requires Ordered(n) && 0 < hi <= |n.children|
    ensures Reverse(Yields(n, Blocks(n, Backward, 0, hi), Backward)) ==
      (if n.value.Some? then [[]] else []) + KeysRange(n, 0, hi)
    decreases n, 0, hi
  {
    var ch := n.children[hi - 1];
    var own: seq<seq<char>> := if n.value.Some? then [[]] else [];
    var L := LiftAll(ch.key, Tour(ch, Backward));
    var R := Blocks(n, Backward, 0, hi - 1);
    var yl := Yields(n, L, Backward);
    var yr := Yields(n, R, Backward);
    var kc := PrefixAll(ch.key, KeysOf(ch));
    BlocksSplit(n, Backward, 0, hi);
    YieldsConcat(n, L, R, Backward);
    BackwardChildYields(n, hi - 1);
    KeysRangeSplitLast(n, 0, hi);
    if hi > 1 {
      BackwardBlocksYields(n, hi - 1);
      ReverseJoin(yl, yr, own, KeysRange(n, 0, hi - 1), kc);
    } else {
      ReverseConcat(yl, yr);
      assert R == [];
      assert Reverse(yr) == [];
      assert Reverse(yl) == own + kc;
      assert KeysRange(n, 0, 0) == [];
    }
  }

  /** Going backward, the lifted tour of child `j` stops at the child's keys
      in descending order, then at the node's own key if `j` is the first. */
  lemma {:induction false} BackwardChildYields<V>(n: Node<V>, j: nat)
    requires Ordered(n) && j < |n.children|
    ensures var ch := n.children[j];
      Reverse(Yields(n, LiftAll(ch.key, Tour(ch, Backward)), Backward)) ==
        (if n.value.Some? && j == 0 then [[]] else []) + PrefixAll(ch.key, KeysOf(ch))
    decreases n, 0, 0
  {
    var ch := n.children[j];
    assert ch in n.children;
    var c := ch.key;
    var yc := Yields(ch, Tour(ch, Backward), Backward);
    var ret := StopPath(n, Iter(At([]), Some(c)), Backward);
    LiftedTourYields(n, j, Backward);
    ReturnStop(n, j, Backward);
    ReverseConcat(PrefixAll(c, yc), ret);
    ReversePrefixAll(c, yc);
    BackwardYields(ch);
  }

  // ###### running the loops ######

  /** The first state at or after `i` where the loop stops. */
  function NextStop<V>(root: Node<V>, ss: seq<Iter>, dir: Direction, i: nat): (j: nat)
    requires i < |ss| && !Keep(root, ss[|ss| - 1], dir)
    ensures i <= j < |ss| && !Keep(root, ss[j], dir)
    ensures forall k :: i <= k < j ==> Keep(root, ss[k], dir)
    decreases |ss| - i
  {
    if !Keep(root, ss[i], dir) then i else NextStop(root, ss, dir, i + 1)
  }

  /** A walk that ends past-the-end. */
  ghost predicate IsTourLike<V>(root: Node<V>, ss: seq<Iter>, dir: Direction) {
    IsWalk(root, ss, dir) && |ss| > 0 && ss[|ss| - 1] == Iter(End, None)
  }

  /** Along a walk, the loop of operator++ / operator-- goes from state `i`
      to the next stop, given enough fuel. */
  lemma {:induction false} RunOnWalk<V>(root: Node<V>, ss: seq<Iter>, dir: Direction, i: nat, fuel: nat)
    requires IsTourLike(root, ss, dir) && i < |ss|
    requires fuel >= |ss| - 1 - i
    ensures ss[i].pos.End? || ValidIter(root, ss[i])
    ensures Run(root, ss[i], dir, fuel) == ss[NextStop(root, ss, dir, i)]
    decreases |ss| - i
  {
    if i < |ss| - 1 {
      WalkStep(root, ss, dir, i);
      if Keep(root, ss[i], dir) {
        RunOnWalk(root, ss, dir, i + 1, fuel - 1);
      }
    }
  }

  /** Skipping the states where the loop keeps going skips no key. */
  lemma {:induction false} YieldsFromStop<V>(root: Node<V>, ss: seq<Iter>, dir: Direction, i: nat)
    requires i < |ss| && !Keep(root, ss[|ss| - 1], dir)
    ensures Yields(root, ss[i..], dir) == Yields(root, ss[NextStop(root, ss, dir, i)..], dir)
    decreases |ss| - i
  {
    assert ss[i..][1..] == ss[i + 1..];
    if Keep(root, ss[i], dir) {
      YieldsFromStop(root, ss, dir, i + 1);
    }
  }

  /** One more operator++ / operator-- from a stop of a tour-like walk. */
  function Move<V>(root: Node<V>, it: Iter, dir: Direction): (r: Iter)
    requires Ordered(root) && ValidIter(root, it)
    ensures r.pos.End? || ValidIter(root, r)
  {
    if dir == Forward then Increment(root, it) else Decrement(root, it)
  }

  /** From a stop of a tour-like walk, one move reaches the next stop, and
      the keys still ahead lose exactly their first. */
  lemma MoveOnWalk<V>(root: Node<V>, ss: seq<Iter>, dir: Direction, j: nat)
    requires IsTourLike(root, ss, dir) && |ss| <= StepBound(root)
    requires j < |ss| - 1 && !Keep(root, ss[j], dir)
    ensures ValidIter(root, ss[j])
    ensures var k := NextStop(root, ss, dir, j + 1);
      && Move(root, ss[j], dir) == ss[k]
      && Yields(root, ss[j..], dir) == [ss[j].pos.path] + Yields(root, ss[k..], dir)
  {
    WalkStep(root, ss, dir, j);
    RunOnWalk(root, ss, dir, j + 1, StepBound(root));
    assert ss[j..][1..] == ss[j + 1..];
    YieldsFromStop(root, ss, dir, j + 1);
  }

  /** Past-the-end occurs only as the last state of a tour-like walk. */
  lemma EndIsLast<V>(root: Node<V>, ss: seq<Iter>, dir: Direction, k: nat)
    requires IsTourLike(root, ss, dir) && k < |ss|
    ensures ss[k].pos.End? ==> k == |ss| - 1
    ensures k < |ss| - 1 ==> ValidIter(root, ss[k])
  {
    if k < |ss| - 1 {
      WalkStep(root, ss, dir, k);
    }
  }

  /** At a stop of a tour-like walk, the keys still ahead begin with the
      stop's own key; only past-the-end has none ahead. */
  lemma StopYields<V>(root: Node<V>, ss: seq<Iter>, dir: Direction, k: nat)
    requires IsTourLike(root, ss, dir) && k < |ss| && !Keep(root, ss[k], dir)
    ensures ss[k].pos.End? <==> Yields(root, ss[k..], dir) == []
    ensures ss[k].pos.At? ==> Yields(root, ss[k..], dir)[0] == ss[k].pos.path
  {
    EndIsLast(root, ss, dir, k);
    assert ss[k..][0] == ss[k];
    if ss[k].pos.End? {
      assert ss[k..][1..] == [];
    }
  }

  /** `k` moves of operator++ / operator-- from `it`, staying put once
      past-the-end. */
  function Advance<V>(root: Node<V>, it: Iter, dir: Direction, k: nat): (r: Iter)
    requires Ordered(root) && (it.pos.End? || ValidIter(root, it))
    ensures r.pos.End? || ValidIter(root, r)
    decreases k
  {
    if k == 0 || it.pos.End? then it else Advance(root, Move(root, it, dir), dir, k - 1)
  }

  /** One more move after `k` moves is the move after them. */
  lemma {:induction false} AdvanceLast<V>(root: Node<V>, it: Iter, dir: Direction, k: nat)
    requires Ordered(root) && (it.pos.End? || ValidIter(root, it))
    ensures var r := Advance(root, it, dir, k);
      Advance(root, it, dir, k + 1) == if r.pos.End? then r else Move(root, r, dir)
    decreases k
  {
    if k > 0 && it.pos.At? {
      AdvanceLast(root, Move(root, it, dir), dir, k - 1);
    }
  }

  /** Where the `m`-th move should land, given the keys `y` ahead: on the
      `m`-th key as a stop, or past-the-end once the keys run out. */
  ghost predicate LandsAt<V>(root: Node<V>, r: Iter, dir: Direction, y: seq<seq<char>>, m: nat) {
    && (m < |y| ==> r.pos == At(y[m]) && !Keep(root, r, dir))
    && (m >= |y| ==> r == Iter(End, None))
  }

  /** Where `m` moves from `it` land, given the keys `y` ahead of it. */
  ghost predicate Lands<V>(root: Node<V>, it: Iter, dir: Direction, y: seq<seq<char>>, m: nat)
    requires Ordered(root) && (it.pos.End? || ValidIter(root, it))
  {
    LandsAt(root, Advance(root, it, dir, m), dir, y, m)
  }

  /** One key more ahead, one move more to land on the same state. */
  lemma LandsShift<V>(root: Node<V>, r: Iter, dir: Direction, p: seq<char>, y: seq<seq<char>>, m: nat)
    requires m > 0 && LandsAt(root, r, dir, y, m - 1)
    ensures LandsAt(root, r, dir, [p] + y, m)
  {
    if m < |[p] + y| {
      assert ([p] + y)[m] == y[m - 1];
    }
  }

  /** A stop `it` with its key `p`, followed by the keys `y` of the stop it
      moves to, lands where that stop lands one move later. */
  lemma LandsThroughStop<V>(root: Node<V>, it: Iter, next: Iter, dir: Direction, p: seq<char>, y: seq<seq<char>>, m: nat)
    requires Ordered(root) && ValidIter(root, it) && it.pos == At(p) && !Keep(root, it, dir)
    requires next == Move(root, it, dir)
    requires m == 0 || Lands(root, next, dir, y, m - 1)
    ensures Lands(root, it, dir, [p] + y, m)
  {
    if m == 0 {
      assert ([p] + y)[0] == p;
    } else {
      var r := Advance(root, next, dir, m - 1);
      assert Advance(root, it, dir, m) == r;
      LandsShift(root, r, dir, p, y, m);
    }
  }

  /** Past-the-end, with no keys ahead, stays put. */
  lemma LandsAtEnd<V>(root: Node<V>, dir: Direction, m: nat)
    requires Ordered(root)
    ensures Lands(root, Iter(End, None), dir, [], m)
  {
  }

  /** What a stop `j` of a walk leads to: past-the-end is the last state,
      with no keys ahead; from a node, one move reaches the next stop, and
      the keys ahead lose exactly their first. */
  ghost predicate StopLeads<V>(root: Node<V>, ss: seq<Iter>, dir: Direction, j: nat)
    requires Ordered(root) && j < |ss| && !Keep(root, ss[|ss| - 1], dir)
  {
    if ss[j].pos.End? then
      ss[j] == Iter(End, None) && Yields(root, ss[j..], dir) == []
    else
      && j < |ss| - 1
      && ValidIter(root, ss[j])
      && var k := NextStop(root, ss, dir, j + 1);
      && Move(root, ss[j], dir) == ss[k]
      && Yields(root, ss[j..], dir) == [ss[j].pos.path] + Yields(root, ss[k..], dir)
  }

  /** Every stop of `ss` leads on as `StopLeads` says. */
  ghost predicate StopsLead<V>(root: Node<V>, ss: seq<Iter>, dir: Direction) {
    && Ordered(root) && |ss| > 0 && !Keep(root, ss[|ss| - 1], dir)
    && forall j {:trigger StopLeads(root, ss, dir, j)} ::
         0 <= j < |ss| && !Keep(root, ss[j], dir) ==> StopLeads(root, ss, dir, j)
  }

  /** The stops of a tour-like walk lead on. */
  lemma TourStopsLead<V>(root: Node<V>, ss: seq<Iter>, dir: Direction)
    requires IsTourLike(root, ss, dir) && |ss| <= StepBound(root)
    ensures StopsLead(root, ss, dir)
  {
    forall j | 0 <= j < |ss| && !Keep(root, ss[j], dir)
      ensures StopLeads(root, ss, dir, j)
    {
      EndIsLast(root, ss, dir, j);
      StopYields(root, ss, dir, j);
      if ss[j].pos.At? {
        MoveOnWalk(root, ss, dir, j);
      }
    }
  }

  /** Along stops that lead on, `m` moves from a stop land on the `m`-th
      key still ahead of it, and past-the-end once those run out. */
  lemma {:induction false} WalkAdvance<V>(root: Node<V>, ss: seq<Iter>, dir: Direction, j: nat, m: nat)
    requires StopsLead(root, ss, dir)
    requires j < |ss| && !Keep(root, ss[j], dir)
    ensures ss[j].pos.End? || ValidIter(root, ss[j])
    ensures Lands(root, ss[j], dir, Yields(root, ss[j..], dir), m)
    decreases |ss| - j
  {
    StopNext(root, ss, dir, j);
    if ss[j].pos.At? {
      var k := NextStop(root, ss, dir, j + 1);
      if m > 0 {
        WalkAdvance(root, ss, dir, k, m - 1);
      }
      WalkAdvanceStep(root, ss, dir, j, k, m);
    } else {
      LandsAtEnd(root, dir, m);
    }
  }

  /** A stop that leads on is past-the-end, with no keys ahead, or a node
      that is not the last state. */
  lemma StopNext<V>(root: Node<V>, ss: seq<Iter>, dir: Direction, j: nat)
    requires StopsLead(root, ss, dir) && j < |ss| && !Keep(root, ss[j], dir)
    ensures ss[j].pos.End? ==> ss[j] == Iter(End, None) && Yields(root, ss[j..], dir) == []
    ensures ss[j].pos.At? ==> j < |ss| - 1 && ValidIter(root, ss[j])
  {
    assert StopLeads(root, ss, dir, j);
  }

  /** The step of `WalkAdvance` from a node stop `j` to the next stop `k`. */
  lemma WalkAdvanceStep<V>(root: Node<V>, ss: seq<Iter>, dir: Direction, j: nat, k: nat, m: nat)
    requires StopsLead(root, ss, dir) && j < |ss| - 1 && !Keep(root, ss[j], dir)
    requires ss[j].pos.At? && ValidIter(root, ss[j])
    requires k == NextStop(root, ss, dir, j + 1)
    requires m == 0 || ((ss[k].pos.End? || ValidIter(root, ss[k])) &&
      Lands(root, ss[k], dir, Yields(root, ss[k..], dir), m - 1))
    ensures Lands(root, ss[j], dir, Yields(root, ss[j..], dir), m)
  {
    assert StopLeads(root, ss, dir, j);
    LandsThroughStop(root, ss[j], ss[k], dir, ss[j].pos.path, Yields(root, ss[k..], dir), m);
  }
}
