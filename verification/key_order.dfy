/** Lexicographic order on keys, the order `std::string` comparison gives
    for characters 1..127, and sorted sequences of keys. */
module KeyOrder {

  /** `a` sorts strictly before `b`: `a` is a proper prefix of `b`, or the
      first character where they differ is smaller in `a`. */
  predicate Less(a: seq<char>, b: seq<char>)
    decreases |a|
  {
    |b| > 0 && (|a| == 0 || a[0] < b[0] || (a[0] == b[0] && Less(a[1..], b[1..])))
  }

  ghost predicate StrictlySorted(s: seq<seq<char>>) {
    forall i, j :: 0 <= i < j < |s| ==> Less(s[i], s[j])
  }

  /** Every key of `s` with `c` in front: the keys of a subtree as seen
      from its parent. */
  function PrefixAll(c: char, s: seq<seq<char>>): (r: seq<seq<char>>)
    ensures |r| == |s|
    ensures forall i :: 0 <= i < |s| ==> r[i] == [c] + s[i]
  {
    seq(|s|, i requires 0 <= i < |s| => [c] + s[i])
  }

  lemma {:induction false} LessIrreflexive(a: seq<char>)
    ensures !Less(a, a)
    decreases |a|
  {
    if |a| > 0 {
      LessIrreflexive(a[1..]);
    }
  }

  /** No extension of a key sorts before the key itself. */
  lemma {:induction false} ExtensionNotLess(a: seq<char>, b: seq<char>)
    ensures !Less(a + b, a)
    decreases |a|
  {
    if |a| > 0 {
      assert (a + b)[0] == a[0];
      assert (a + b)[1..] == a[1..] + b;
      ExtensionNotLess(a[1..], b);
    }
  }

  lemma LessPrefixed(c: char, a: seq<char>, b: seq<char>)
    ensures Less([c] + a, [c] + b) <==> Less(a, b)
  {
    assert ([c] + a)[1..] == a;
    assert ([c] + b)[1..] == b;
  }

  lemma SortedPrefixAll(c: char, s: seq<seq<char>>)
    requires StrictlySorted(s)
    ensures StrictlySorted(PrefixAll(c, s))
  {
    forall i, j | 0 <= i < j < |s|
      ensures Less(PrefixAll(c, s)[i], PrefixAll(c, s)[j])
    {
      LessPrefixed(c, s[i], s[j]);
    }
  }

  lemma SortedConcat(a: seq<seq<char>>, b: seq<seq<char>>)
    requires StrictlySorted(a) && StrictlySorted(b)
    requires forall x, y :: x in a && y in b ==> Less(x, y)
    ensures StrictlySorted(a + b)
  {
    var r := a + b;
    forall i, j | 0 <= i < j < |r|
      ensures Less(r[i], r[j])
    {
      if j < |a| {
        assert r[i] == a[i] && r[j] == a[j];
      } else if i >= |a| {
        assert r[i] == b[i - |a|] && r[j] == b[j - |a|];
      } else {
        assert r[i] == a[i] && r[j] == b[j - |a|];
        assert a[i] in a && b[j - |a|] in b;
      }
    }
  }

  /** A strictly sorted sequence lists each key once. */
  lemma SortedDistinct(s: seq<seq<char>>, i: nat, j: nat)
    requires StrictlySorted(s) && i < |s| && j < |s| && i != j
    ensures s[i] != s[j]
  {
    if i < j {
      LessIrreflexive(s[i]);
    } else {
      LessIrreflexive(s[j]);
    }
  }

  lemma {:induction false} LessAsymmetric(a: seq<char>, b: seq<char>)
    ensures !(Less(a, b) && Less(b, a))
    decreases |a|
  {
    if |a| > 0 && |b| > 0 && a[0] == b[0] {
      LessAsymmetric(a[1..], b[1..]);
    }
  }

  /** Two strictly sorted sequences with the same elements are the same
      sequence: a sorted listing of a set of keys is unique. */
  lemma {:induction false} SortedUnique(a: seq<seq<char>>, b: seq<seq<char>>)
    requires StrictlySorted(a) && StrictlySorted(b)
    requires forall x :: x in a <==> x in b
    ensures a == b
    decreases |a|
  {
    if a == [] && b != [] {
      HeadIn(b);
    } else if a != [] && b == [] {
      HeadIn(a);
    } else if a != [] {
      assert a[0] in a && b[0] in b;
      var i :| 0 <= i < |a| && a[i] == b[0];
      var j :| 0 <= j < |b| && b[j] == a[0];
      if i != 0 && j != 0 {
        LessAsymmetric(a[0], b[0]);
      }
      forall x
        ensures x in a[1..] <==> x in b[1..]
      {
        if x in a[1..] {
          var k :| 1 <= k < |a| && a[k] == x;
          LessIrreflexive(x);
          assert x in b;
        }
        if x in b[1..] {
          var k :| 1 <= k < |b| && b[k] == x;
          LessIrreflexive(x);
          assert x in a;
        }
      }
      SortedUnique(a[1..], b[1..]);
      assert a == [a[0]] + a[1..] && b == [b[0]] + b[1..];
    }
  }

  lemma HeadIn<T>(s: seq<T>)
    requires |s| > 0
    ensures s[0] in s
  {
  }

  /** Taking one key out of a sorted sequence leaves it sorted, with every
      other key still in it. */
  lemma SortedRemove(s: seq<seq<char>>, m: nat)
    requires StrictlySorted(s) && m < |s|
    ensures StrictlySorted(s[..m] + s[m + 1..])
    ensures forall x :: x in s[..m] + s[m + 1..] <==> x in s && x != s[m]
  {
    var r := s[..m] + s[m + 1..];
    forall i, j | 0 <= i < j < |r|
      ensures Less(r[i], r[j])
    {
      var i' := if i < m then i else i + 1;
      var j' := if j < m then j else j + 1;
      assert r[i] == s[i'] && r[j] == s[j'];
    }
    forall x
      ensures x in r <==> x in s && x != s[m]
    {
      if x in r {
        var k :| 0 <= k < |r| && r[k] == x;
        var k' := if k < m then k else k + 1;
        assert s[k'] == x;
        SortedDistinct(s, k', m);
      }
      if x in s && x != s[m] {
        var k :| 0 <= k < |s| && s[k] == x;
        assert r[if k < m then k else k - 1] == x;
      }
    }
  }
}
