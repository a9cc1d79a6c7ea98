/** Traversal of a whole trie (trie.h:218-284, 368-375): where `begin()` and
    `rbegin()` start, what repeated ++ and -- visit from there, `size()`, and
    erasure through a position. */
module TrieTraversal {
  import opened Wrappers
  import opened TrieNode
  import opened KeyOrder
  import opened TrieKeys
  import opened TriePaths
  import opened TrieIterator
  import opened TrieWalk
  import opened Trie

  /** The position the source builds from the root pointer: at the root,
      with no marker. */
  function RootIter(): Iter {
    Iter(At([]), None)
  }

  /** end() (trie.h:225-228), and rend() (trie.h:251-254) underneath its
      reverse_iterator wrapper: the null position. */
  function EndIter(): Iter {
    Iter(End, None)
  }

  // ###### forward ######

  /** The tour of the root, going forward: the walk of every ++ from the
      root, whose stops are the stored keys in order. */
  lemma ForwardTour<V>(t: Trie<V>)
    requires Valid(t)
    ensures var ss := Tour(t.root, Forward);
      && StopsLead(t.root, ss, Forward)
      && ss[0] == RootIter()
      && Increment(t.root, RootIter()) == ss[NextStop(t.root, ss, Forward, 1)]
      && Yields(t.root, ss[NextStop(t.root, ss, Forward, 1)..], Forward) == Keys(t)
  {
    var n := t.root;
    var ss := Tour(n, Forward);
    TourWalk(n, Forward);
    TourSplit(n, Forward);
    assert IsTourLike(n, ss, Forward);
    TourStopsLead(n, ss, Forward);
    WalkStep(n, ss, Forward, 0);
    RunOnWalk(n, ss, Forward, 1, StepBound(n));
    YieldsFromStop(n, ss, Forward, 1);
    ForwardYields(n);
    assert ss[0..][1..] == ss[1..];
    assert ss[0..] == ss;
  }

  /** `k` moves of ++ from the first ++ off the root visit the stored keys
      in ascending order, each with no marker, then reach end(). */
  lemma {:induction false} ForwardFromRoot<V>(t: Trie<V>, k: nat)
    requires Valid(t)
    ensures var ks := Keys(t);
      Advance(t.root, Increment(t.root, RootIter()), Forward, k) ==
        if k < |ks| then Iter(At(ks[k]), None) else EndIter()
  {
    var n := t.root;
    var ss := Tour(n, Forward);
    ForwardTour(t);
    var j := NextStop(n, ss, Forward, 1);
    WalkAdvance(n, ss, Forward, j, k);
    var r := Advance(n, ss[j], Forward, k);
    if k < |Keys(t)| {
      assert r.pos == At(Keys(t)[k]) && !Keep(n, r, Forward);
    }
  }

  /** begin() (trie.h:218-223): one ++ off the root. */
  function Begin<V>(t: Trie<V>): (r: Iter)
    requires Valid(t)
    ensures r == if Keys(t) == [] then EndIter() else Iter(At(Keys(t)[0]), None)
  {
    ForwardFromRoot(t, 0);
    Increment(t.root, RootIter())
  }

  /** Forward iteration from begin() visits exactly the stored keys, in
      strictly ascending order, and then stays at end(). */
  lemma ForwardIteration<V>(t: Trie<V>, k: nat)
    requires Valid(t)
    ensures StrictlySorted(Keys(t))
    ensures forall q :: q in Keys(t) <==> ValueAt(t.root, q).Some?
    ensures Advance(t.root, Begin(t), Forward, k) ==
      if k < |Keys(t)| then Iter(At(Keys(t)[k]), None) else EndIter()
  {
    ForwardFromRoot(t, k);
    KeysSorted(t.root);
    forall q
      ensures q in Keys(t) <==> ValueAt(t.root, q).Some?
    {
      KeysMembership(t.root, q);
    }
  }

  /** ++ from the position of the `m`-th stored key goes to the next one,
      or to end() after the last. */
  lemma NextKey<V>(t: Trie<V>, m: nat)
    requires Valid(t) && m < |Keys(t)|
    ensures ValidIter(t.root, Iter(At(Keys(t)[m]), None))
    ensures Increment(t.root, Iter(At(Keys(t)[m]), None)) ==
      if m + 1 < |Keys(t)| then Iter(At(Keys(t)[m + 1]), None) else EndIter()
  {
    ForwardFromRoot(t, m);
    ForwardFromRoot(t, m + 1);
    NextFromAdvance(t.root, Increment(t.root, RootIter()), Keys(t), m);
  }

  /** The `m + 1`-th move is one ++ after the `m`-th. */
  lemma NextFromAdvance<V>(root: Node<V>, first: Iter, ks: seq<seq<char>>, m: nat)
    requires Ordered(root) && (first.pos.End? || ValidIter(root, first)) && m < |ks|
    requires Advance(root, first, Forward, m) == Iter(At(ks[m]), None)
    requires Advance(root, first, Forward, m + 1) ==
      if m + 1 < |ks| then Iter(At(ks[m + 1]), None) else EndIter()
    ensures ValidIter(root, Iter(At(ks[m]), None))
    ensures Increment(root, Iter(At(ks[m]), None)) ==
      if m + 1 < |ks| then Iter(At(ks[m + 1]), None) else EndIter()
  {
    AdvanceLast(root, first, Forward, m);
  }

  /** size() (trie.h:278-284): count the ++ steps from begin() to end() in
      an unsigned 32-bit counter. */
  method Size<V>(t: Trie<V>) returns (size: nat)
    requires Valid(t)
    ensures size == |Keys(t)| % 0x1_0000_0000
  {
    ghost var ks := Keys(t);
    size := 0;
    var it := Begin(t);
    ghost var n: nat := 0;
    while it.pos.At?
      invariant n <= |ks|
      invariant n < |ks| ==> it == Iter(At(ks[n]), None)
      invariant n == |ks| ==> it == EndIter()
      invariant size == n % 0x1_0000_0000
      decreases |ks| - n
    {
      NextKey(t, n);
      CounterStep(size, n);
      it := Increment(t.root, it);
      n := n + 1;
      size := (size + 1) % 0x1_0000_0000;
    }
  }

  /** One more count in the unsigned 32-bit counter. */
  lemma CounterStep(size: nat, n: nat)
    requires size == n % 0x1_0000_0000
    ensures (size + 1) % 0x1_0000_0000 == (n + 1) % 0x1_0000_0000
  {
  }

  // ###### backward ######

  /** The tour of the root, going backward: the walk of every -- from the
      root, whose stops are the stored keys in descending order. */
  lemma BackwardTour<V>(t: Trie<V>)
    requires Valid(t)
    ensures var ss := Tour(t.root, Backward);
      && StopsLead(t.root, ss, Backward)
      && Decrement(t.root, RootIter()) == ss[NextStop(t.root, ss, Backward, 1)]
      && Reverse(Yields(t.root, ss[NextStop(t.root, ss, Backward, 1)..], Backward)) == Keys(t)
  {
    var n := t.root;
    var ss := Tour(n, Backward);
    TourWalk(n, Backward);
    TourSplit(n, Backward);
    assert IsTourLike(n, ss, Backward);
    TourStopsLead(n, ss, Backward);
    WalkStep(n, ss, Backward, 0);
    RunOnWalk(n, ss, Backward, 1, StepBound(n));
    YieldsFromStop(n, ss, Backward, 1);
    BackwardYields(n);
    assert ss[0..][1..] == ss[1..];
    assert ss[0..] == ss;
  }

  /** `k` moves of -- from the first -- off the root visit the stored keys
      in descending order, then reach the null position. */
  lemma {:induction false} BackwardFromRoot<V>(t: Trie<V>, k: nat)
    requires Valid(t)
    ensures var ks := Keys(t);
      Advance(t.root, Decrement(t.root, RootIter()), Backward, k).pos ==
        if k < |ks| then At(ks[|ks| - 1 - k]) else End
  {
    var n := t.root;
    var ss := Tour(n, Backward);
    BackwardTour(t);
    var j := NextStop(n, ss, Backward, 1);
    WalkAdvance(n, ss, Backward, j, k);
    var y := Yields(n, ss[j..], Backward);
    var ks := Keys(t);
    if k < |ks| {
      assert Reverse(y)[|ks| - 1 - k] == y[k];
    }
  }

  /** A root without children holds no key. */
  lemma ChildlessRootHasNoKeys<V>(t: Trie<V>)
    requires Valid(t) && !HasChildren(t.root)
    ensures Keys(t) == []
  {
    assert KeysRange(t.root, 0, 0) == [];
  }

  /** rbegin() (trie.h:242-249) underneath its reverse_iterator wrapper,
      once an empty trie yields the null position: -- off the root until a
      node without children. One -- suffices (see `RBeginIsLeaf`). */
  function RBegin<V>(t: Trie<V>): (r: Iter)
    requires Valid(t)
    ensures r.pos == if Keys(t) == [] then End else At(Keys(t)[|Keys(t)| - 1])
  {
    if !HasChildren(t.root) then
      ChildlessRootHasNoKeys(t);
      EndIter()
    else
      BackwardFromRoot(t, 0);
      Decrement(t.root, RootIter())
  }

  /** rbegin() as written (trie.h:242-249): with no children the loop never
      runs and the root itself comes back. */
  function RBeginAsWritten<V>(t: Trie<V>): (r: Iter)
    requires Valid(t)
    ensures HasChildren(t.root) ==> r == RBegin(t)
    ensures !HasChildren(t.root) ==> r == RootIter()
  {
    if !HasChildren(t.root) then RootIter() else Decrement(t.root, RootIter())
  }

  /** The loop of rbegin() stops after one --: on a well-formed trie the
      last stored key has no children. */
  lemma RBeginIsLeaf<V>(t: Trie<V>)
    requires WellFormed(t)
    ensures RBegin(t).pos.At? ==>
      Lookup(t.root, RBegin(t).pos.path).Some? && !HasChildren(Lookup(t.root, RBegin(t).pos.path).value)
  {
    if Keys(t) != [] {
      LastKeyIsLeaf(t.root);
    }
  }

  /** Backward iteration from rbegin() visits exactly the stored keys, in
      descending order, and then stays at the null position. */
  lemma BackwardIteration<V>(t: Trie<V>, k: nat)
    requires Valid(t)
    ensures var ks := Keys(t);
      Advance(t.root, RBegin(t), Backward, k).pos ==
        if k < |ks| then At(ks[|ks| - 1 - k]) else End
  {
    if HasChildren(t.root) {
      BackwardFromRoot(t, k);
    } else {
      ChildlessRootHasNoKeys(t);
      assert RBegin(t) == EndIter();
    }
  }

  // ###### erase(pos) ######

  /** erase(pos) (trie.h:368-375) once `erase_at` removes only the value at
      `pos` and `release_path` stops at the root: the position after `pos`
      is taken before the removal and returned. */
  function EraseIter<V>(t: Trie<V>, pos: Iter): (r: (Trie<V>, Iter))
    requires Valid(t) && ValidIter(t.root, pos)
    ensures r.0.root.key == t.root.key && r.0.root.value == t.root.value && AllSorted(r.0.root)
    ensures forall q :: ValueAt(r.0.root, q) == if q == pos.pos.path then None else ValueAt(t.root, q)
  {
    RemoveValueMap(t.root, pos.pos.path);
    (Trie(RemoveValue(t.root, pos.pos.path)), Increment(t.root, pos))
  }

  /** Erasing the `m`-th stored key through its position removes exactly
      that key, keeps the trie well-formed, and returns the position of the
      next key, still valid afterwards, or end() after the last. */
  lemma EraseIterNext<V>(t: Trie<V>, m: nat)
    requires WellFormed(t) && m < |Keys(t)|
    ensures var ks := Keys(t);
      && ValidIter(t.root, Iter(At(ks[m]), None))
      && var r := EraseIter(t, Iter(At(ks[m]), None));
      && WellFormed(r.0)
      && Keys(r.0) == ks[..m] + ks[m + 1..]
      && r.1 == (if m + 1 < |ks| then Iter(At(ks[m + 1]), None) else EndIter())
      && (r.1.pos.At? ==> ValidIter(r.0.root, r.1))
  {
    var ks := Keys(t);
    var p := ks[m];
    NextKey(t, m);
    var r := EraseIter(t, Iter(At(p), None));
    RemoveValueShape(t.root, p);
    assert WellFormed(r.0);
    RemovedKeys(t, r.0, m);
    if m + 1 < |ks| {
      KeysSorted(t.root);
      SortedDistinct(ks, m, m + 1);
      assert ks[m + 1] in ks;
      KeysMembership(t.root, ks[m + 1]);
    }
  }

  /** A valid trie whose value map is another's with the `m`-th stored key
      taken out lists the other's keys without that one. */
  lemma RemovedKeys<V>(t: Trie<V>, t': Trie<V>, m: nat)
    requires Valid(t) && Valid(t') && m < |Keys(t)|
    requires forall q :: ValueAt(t'.root, q) == if q == Keys(t)[m] then None else ValueAt(t.root, q)
    ensures Keys(t') == Keys(t)[..m] + Keys(t)[m + 1..]
  {
    var ks := Keys(t);
    var rest := ks[..m] + ks[m + 1..];
    KeysSorted(t.root);
    KeysSorted(t'.root);
    SortedRemove(ks, m);
    forall x
      ensures x in Keys(t') <==> x in rest
    {
      KeysMembership(t.root, x);
      KeysMembership(t'.root, x);
    }
    SortedUnique(Keys(t'), rest);
  }

  /** erase(key) on a stored key removes exactly that key from the
      iteration, so size() drops by one. */
  lemma EraseKeyKeys<V>(t: Trie<V>, m: nat)
    requires WellFormed(t) && m < |Keys(t)|
    ensures var ks := Keys(t);
      var r := EraseKey(t, ks[m]);
      && r.1 == 1
      && WellFormed(r.0)
      && Keys(r.0) == ks[..m] + ks[m + 1..]
      && |Keys(r.0)| == |ks| - 1
  {
    var ks := Keys(t);
    var key := ks[m];
    assert key in ks;
    KeysMembership(t.root, key);
    assert key != [];
    assert Lookup(t.root, key).Some?;
    var r := EraseKey(t, key);
    EraseKeyShape(t, key);
    RemovedKeys(t, r.0, m);
  }

  /** erase(pos) as written (trie.h:368-375, 456-474): ++ from `pos` (a null
      dereference at end()), then unlink `pos` with its whole subtree and
      climb as `release_path` does; erasing at the root or emptying the
      root calls through its null parent. The returned position may lie in
      the removed subtree. */
  function EraseIterAsWritten<V>(t: Trie<V>, pos: Iter): (r: Result<(Trie<V>, Iter), Fault>)
    requires Valid(t) && (pos.pos.End? || ValidIter(t.root, pos))
    ensures pos.pos.End? || pos.pos.path == [] ==> r == Failure(NullDereference)
    ensures r.Success? ==>
      && r.value.1 == Increment(t.root, pos)
      && AllSorted(r.value.0.root)
      && forall q :: ValueAt(r.value.0.root, q) == if pos.pos.path <= q then None else ValueAt(t.root, q)
  {
    if pos.pos.End? then Failure(NullDereference)
    else
      var next := Increment(t.root, pos);
      match EraseKeyAsWritten(t, pos.pos.path)
      case Failure(e) => Failure(e)
      case Success((t1, _)) => Success((t1, next))
  }
}
