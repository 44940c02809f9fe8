/**
 * The ordered child list of the element that holds the grid's rows, as the
 * DOM's mutation algorithms change it. A node is named by a `NodeId`; a node
 * "has a parentElement" exactly when it is in the list, and the list never
 * holds a node twice.
 *
 * `Remove` is `parent.removeChild(node)` and `InsertBefore` is
 * `parent.insertBefore(node, child)`, following the pre-insert algorithm of
 * the DOM Living Standard (section 4.2.3, "Mutation algorithms"): a node that
 * is already a child is moved, a null `child` appends, and a `child` equal to
 * the node itself stands for the node's next sibling.
 */
module ChildList {
  import opened Optional
  import opened Sequences
  import opened Nodes

  /** A DOM child list holds every node at most once. */
  predicate Distinct(s: seq<NodeId>)
  {
    s == [] || (s[0] !in s[1..] && Distinct(s[1..]))
  }

  /** The same, position by position: no two positions hold the same node. */
  lemma {:induction false} DistinctIndices(s: seq<NodeId>)
    ensures Distinct(s) <==> forall i, j :: 0 <= i < j < |s| ==> s[i] != s[j]
  {
    if s != [] {
      var t := s[1..];
      DistinctIndices(t);
      if Distinct(s) {
        forall i, j | 0 <= i < j < |s| ensures s[i] != s[j] {
          assert s[j] == t[j - 1];
          if i > 0 {
            assert s[i] == t[i - 1];
          }
        }
      }
      if forall i, j :: 0 <= i < j < |s| ==> s[i] != s[j] {
        forall k | 0 <= k < |t| ensures t[k] != s[0] {
          assert t[k] == s[k + 1];
        }
        forall i, j | 0 <= i < j < |t| ensures t[i] != t[j] {
          assert t[i] == s[i + 1] && t[j] == s[j + 1];
        }
      }
    }
  }

  /** The position of `x` among the children. */
  function IndexOf(s: seq<NodeId>, x: NodeId): (i: nat)
    requires x in s
    ensures i < |s| && s[i] == x
  {
    if s[0] == x then 0 else 1 + IndexOf(s[1..], x)
  }

  /** `a` is directly followed by `b`. */
  predicate ImmediatelyBefore(s: seq<NodeId>, a: NodeId, b: NodeId)
  {
    a in s && IndexOf(s, a) + 1 < |s| && s[IndexOf(s, a) + 1] == b
  }

  /** `a` is the last child. */
  predicate IsLast(s: seq<NodeId>, a: NodeId)
  {
    s != [] && s[|s| - 1] == a
  }

  /** `x.nextElementSibling` for a child `x`: `None` when `x` is the last child. */
  function NextSibling(s: seq<NodeId>, x: NodeId): (r: Option<NodeId>)
    requires x in s
    ensures r.None? ==> IsLast(s, x)
    ensures r.Some? ==> ImmediatelyBefore(s, x, r.value)
  {
    var i := IndexOf(s, x);
    if i + 1 < |s| then Some(s[i + 1]) else None
  }

  /** `parent.removeChild(x)`; a node that is not a child is left alone. */
  function Remove(s: seq<NodeId>, x: NodeId): (r: seq<NodeId>)
    ensures forall y :: y in r <==> y in s && y != x
    ensures x !in s ==> r == s
    ensures Distinct(s) ==> Distinct(r)
  {
    if s == [] then []
    else if s[0] == x then Remove(s[1..], x)
    else
      var rest := Remove(s[1..], x);
      assert ([s[0]] + rest)[1..] == rest;
      [s[0]] + rest
  }

  lemma {:induction false} RemoveConcat(a: seq<NodeId>, b: seq<NodeId>, x: NodeId)
    ensures Remove(a + b, x) == Remove(a, x) + Remove(b, x)
  {
    if a == [] {
      assert a + b == b;
    } else {
      assert (a + b)[0] == a[0];
      assert (a + b)[1..] == a[1..] + b;
      RemoveConcat(a[1..], b, x);
    }
  }

  /** On a list without duplicates, removing a child takes out exactly its one slot. */
  lemma RemoveChild(s: seq<NodeId>, x: NodeId)
    requires Distinct(s) && x in s
    ensures Remove(s, x) == RemoveAt(s, IndexOf(s, x))
  {
    var i := IndexOf(s, x);
    var before, after := s[..i], s[i + 1..];
    assert s == before + ([x] + after);
    forall k | 0 <= k < |s| && k != i ensures s[k] != x {
      if s[k] == x {
        SameIndex(s, k, i);
      }
    }
    assert x !in before && x !in after;
    RemoveConcat(before, [x] + after, x);
    assert ([x] + after)[1..] == after;
  }

  /** Placing a fresh node into a list without duplicates keeps it without duplicates. */
  lemma DistinctInsert(t: seq<NodeId>, k: nat, n: NodeId)
    requires Distinct(t) && n !in t && k <= |t|
    ensures Distinct(InsertAt(t, k, n))
  {
    var r := InsertAt(t, k, n);
    DistinctIndices(t);
    DistinctIndices(r);
    forall i, j | 0 <= i < j < |r| ensures r[i] != r[j] {
      if i != k && j != k {
        var i' := if i < k then i else i - 1;
        var j' := if j < k then j else j - 1;
        assert r[i] == t[i'] && r[j] == t[j'] && i' < j';
      }
    }
  }

  lemma InsertAtMembers(t: seq<NodeId>, k: nat, n: NodeId)
    requires k <= |t|
    ensures forall y :: y in InsertAt(t, k, n) <==> y in t || y == n
  {
    var r := InsertAt(t, k, n);
    InsertAtMultiset(t, k, n);
    forall y ensures y in r <==> y in t || y == n {
      assert y in r <==> y in multiset(r);
      assert y in t <==> y in multiset(t);
    }
  }

  /** The order of the remaining children does not depend on which of two nodes is removed first. */
  lemma {:induction false} RemoveCommutes(s: seq<NodeId>, a: NodeId, b: NodeId)
    ensures Remove(Remove(s, a), b) == Remove(Remove(s, b), a)
  {
    if s != [] {
      RemoveCommutes(s[1..], a, b);
    }
  }

  lemma IndexOfAt(s: seq<NodeId>, i: nat)
    requires Distinct(s) && i < |s|
    ensures IndexOf(s, s[i]) == i
  {
    SameIndex(s, IndexOf(s, s[i]), i);
  }

  /** The one position of a node in a list without duplicates. */
  lemma SameIndex(s: seq<NodeId>, i: nat, j: nat)
    requires Distinct(s) && i < |s| && j < |s| && s[i] == s[j]
    ensures i == j
  {
    DistinctIndices(s);
  }

  /** Taking out a node other than `a` and `b` keeps `a` directly before `b`. */
  lemma RemoveKeepsAdjacent(s: seq<NodeId>, a: NodeId, b: NodeId, n: NodeId)
    requires Distinct(s) && ImmediatelyBefore(s, a, b) && n != a && n != b
    ensures ImmediatelyBefore(Remove(s, n), a, b)
  {
    var i := IndexOf(s, a);
    assert s == s[..i] + [a, b] + s[i + 2..];
    RemoveConcat(s[..i] + [a, b], s[i + 2..], n);
    RemoveConcat(s[..i], [a, b], n);
    assert Remove([a, b], n) == [a, b] by {
      assert [a, b][1..] == [b];
      assert [b][1..] == [];
    }
    var t := Remove(s, n);
    var p := Remove(s[..i], n);
    assert t == p + [a, b] + Remove(s[i + 2..], n);
    assert t[|p|] == a && t[|p| + 1] == b;
    IndexOfAt(t, |p|);
  }

  /** Taking out a node other than the last child keeps that child last. */
  lemma RemoveKeepsLast(s: seq<NodeId>, a: NodeId, n: NodeId)
    requires IsLast(s, a) && n != a
    ensures IsLast(Remove(s, n), a)
  {
    var k := |s| - 1;
    assert s == s[..k] + [a];
    RemoveConcat(s[..k], [a], n);
    assert Remove([a], n) == [a] by {
      assert [a][1..] == [];
    }
  }

  /**
   * `parent.insertBefore(n, child)`. The DOM throws when a non-null `child`
   * is not a child of `parent`; every call in the grid passes a child or null.
   */
  function InsertBefore(s: seq<NodeId>, n: NodeId, child: Option<NodeId>): (r: seq<NodeId>)
    requires Distinct(s)
    requires child.Some? ==> child.value in s
    ensures Distinct(r)
    ensures forall y :: y in r <==> y in s || y == n
    ensures Remove(r, n) == Remove(s, n)
    ensures child.None? ==> IsLast(r, n)
    ensures child.Some? && child.value != n ==> ImmediatelyBefore(r, n, child.value)
    ensures child == Some(n) ==> r == s
  {
    var referenceChild := if child == Some(n) then NextSiblingOther(s, n); NextSibling(s, n) else child;
    var t := Remove(s, n);
    var k := if referenceChild.None? then |t| else IndexOf(t, referenceChild.value);
    InsertBeforeFacts(s, n, child, referenceChild, t, k);
    InsertAt(t, k, n)
  }

  lemma InsertBeforeFacts(s: seq<NodeId>, n: NodeId, child: Option<NodeId>,
                          referenceChild: Option<NodeId>, t: seq<NodeId>, k: nat)
    requires Distinct(s)
    requires child.Some? ==> child.value in s
    requires referenceChild == if child == Some(n) then NextSibling(s, n) else child
    requires t == Remove(s, n)
    requires referenceChild.Some? ==> referenceChild.value in t
    requires k == if referenceChild.None? then |t| else IndexOf(t, referenceChild.value)
    ensures k <= |t|
    ensures var r := InsertAt(t, k, n);
      && Distinct(r)
      && (forall y :: y in r <==> y in s || y == n)
      && Remove(r, n) == Remove(s, n)
      && (child.None? ==> IsLast(r, n))
      && (child.Some? && child.value != n ==> ImmediatelyBefore(r, n, child.value))
      && (child == Some(n) ==> r == s)
  {
    var r := InsertAt(t, k, n);
    DistinctInsert(t, k, n);
    InsertAtMembers(t, k, n);
    RemoveInsert(t, k, n);
    IndexOfAt(r, k);
    RemoveChild(r, n);
    if child == Some(n) {
      InsertSelf(s, n, referenceChild, t, k);
    } else if child.Some? {
      assert r[k + 1] == child.value;
    }
  }

  /** A child's next sibling is another child, so it survives the child's removal. */
  lemma NextSiblingOther(s: seq<NodeId>, n: NodeId)
    requires Distinct(s) && n in s
    ensures var next := NextSibling(s, n); next.Some? ==> next.value != n && next.value in Remove(s, n)
  {
    var i := IndexOf(s, n);
    if i + 1 < |s| {
      IndexOfAt(s, i + 1);
    }
  }

  /** `insertBefore(n, n)` puts `n` back before its own next sibling, where it was. */
  lemma InsertSelf(s: seq<NodeId>, n: NodeId, referenceChild: Option<NodeId>, t: seq<NodeId>, k: nat)
    requires Distinct(s) && n in s
    requires referenceChild == NextSibling(s, n)
    requires t == Remove(s, n)
    requires referenceChild.Some? ==> referenceChild.value in t
    requires k == if referenceChild.None? then |t| else IndexOf(t, referenceChild.value)
    ensures k <= |t| && InsertAt(t, k, n) == s
  {
    var i := IndexOf(s, n);
    RemoveChild(s, n);
    if referenceChild.Some? {
      assert referenceChild.value == s[i + 1];
      assert t[i] == s[i + 1];
      IndexOfAt(t, i);
    }
    InsertRemove(s, i);
  }

  /** `parent.insertBefore(n, n.nextElementSibling)` leaves the list as it is. */
  lemma InsertBeforeOwnSibling(s: seq<NodeId>, n: NodeId)
    requires Distinct(s) && n in s
    ensures InsertBefore(s, n, NextSibling(s, n)) == s
  {
    var next := NextSibling(s, n);
    var t := Remove(s, n);
    NextSiblingOther(s, n);
    var k := if next.None? then |t| else IndexOf(t, next.value);
    InsertSelf(s, n, next, t, k);
  }

  /** If `n` sits directly before `m` and, without `n`, `x` does, then `n` sits directly after `x`. */
  lemma PrecedesAfterRemoval(r: seq<NodeId>, n: NodeId, x: NodeId, m: NodeId)
    requires Distinct(r) && x != n
    requires ImmediatelyBefore(r, n, m) && ImmediatelyBefore(Remove(r, n), x, m)
    ensures ImmediatelyBefore(r, x, n)
  {
    var p := IndexOf(r, n);
    var t := Remove(r, n);
    NextIndex(t, x, m);
    RemovedNeighbours(r, n);
    IndexOfAt(t, p);
    IndexOfAt(r, p - 1);
  }

  /** In a list without duplicates, the node directly after `a` is at the next index. */
  lemma NextIndex(s: seq<NodeId>, a: NodeId, b: NodeId)
    requires Distinct(s) && ImmediatelyBefore(s, a, b)
    ensures b in s && IndexOf(s, b) == IndexOf(s, a) + 1
  {
    IndexOfAt(s, IndexOf(s, a) + 1);
  }

  /** Removing a child moves its successor into its slot and leaves its predecessor alone. */
  lemma RemovedNeighbours(r: seq<NodeId>, n: NodeId)
    requires Distinct(r) && n in r
    ensures var p, t := IndexOf(r, n), Remove(r, n);
      && (p + 1 < |r| ==> p < |t| && t[p] == r[p + 1])
      && (0 < p ==> p - 1 < |t| && t[p - 1] == r[p - 1])
  {
    RemoveChild(r, n);
  }

  /** If `n` is last and, without `n`, `x` is, then `n` sits directly after `x`. */
  lemma LastAfterRemoval(r: seq<NodeId>, n: NodeId, x: NodeId)
    requires Distinct(r) && x != n
    requires IsLast(r, n) && IsLast(Remove(r, n), x)
    ensures ImmediatelyBefore(r, x, n)
  {
    var p := |r| - 1;
    IndexOfAt(r, p);
    RemoveChild(r, n);
    assert r[p - 1] == x;
    IndexOfAt(r, p - 1);
  }

  /** `parent.insertBefore(n, x.nextElementSibling)` puts `n` directly after `x`. */
  lemma InsertAfter(s: seq<NodeId>, n: NodeId, x: NodeId)
    requires Distinct(s) && x in s && x != n
    ensures ImmediatelyBefore(InsertBefore(s, n, NextSibling(s, x)), x, n)
  {
    var next := NextSibling(s, x);
    var r := InsertBefore(s, n, next);
    if next.None? {
      RemoveKeepsLast(s, x, n);
      LastAfterRemoval(r, n, x);
    } else if next.value != n {
      RemoveKeepsAdjacent(s, x, next.value, n);
      PrecedesAfterRemoval(r, n, x, next.value);
    }
  }
  /** A child can be taken out and put back at its index. */
  lemma Reinsert(r: seq<NodeId>, c: NodeId)
    requires Distinct(r) && c in r
    ensures IndexOf(r, c) <= |Remove(r, c)|
    ensures r == InsertAt(Remove(r, c), IndexOf(r, c), c)
  {
    RemoveChild(r, c);
    InsertRemove(r, IndexOf(r, c));
  }

  /** Where `c` directly follows `a`, it is put back right after `a`'s place in the rest. */
  lemma IndexAfter(r: seq<NodeId>, a: NodeId, c: NodeId)
    requires Distinct(r) && ImmediatelyBefore(r, a, c)
    ensures a in Remove(r, c) && IndexOf(r, c) == IndexOf(Remove(r, c), a) + 1
  {
    var p := IndexOf(r, a);
    NextIndex(r, a, c);
    RemoveChild(r, c);
    var t := Remove(r, c);
    assert t[p] == a;
    IndexOfAt(t, p);
  }

  /** Where `c` directly precedes `a`, it is put back at `a`'s place in the rest. */
  lemma IndexBefore(r: seq<NodeId>, c: NodeId, a: NodeId)
    requires Distinct(r) && ImmediatelyBefore(r, c, a)
    ensures a in Remove(r, c) && IndexOf(r, c) == IndexOf(Remove(r, c), a)
  {
    var q := IndexOf(r, c);
    RemoveChild(r, c);
    var t := Remove(r, c);
    assert t[q] == a;
    IndexOfAt(t, q);
  }

  /**
   * The rest of the list and the node directly before `c` fix the whole list:
   * two lists without duplicates that agree on both are equal.
   */
  lemma PlacedAfterUnique(r1: seq<NodeId>, r2: seq<NodeId>, a: NodeId, c: NodeId)
    requires Distinct(r1) && Distinct(r2) && Remove(r1, c) == Remove(r2, c)
    requires ImmediatelyBefore(r1, a, c) && ImmediatelyBefore(r2, a, c)
    ensures r1 == r2
  {
    IndexAfter(r1, a, c);
    IndexAfter(r2, a, c);
    assert IndexOf(r1, c) == IndexOf(r2, c);
    Reinsert(r1, c);
    Reinsert(r2, c);
  }

  /** The same with the node directly after `c`. */
  lemma PlacedBeforeUnique(r1: seq<NodeId>, r2: seq<NodeId>, c: NodeId, a: NodeId)
    requires Distinct(r1) && Distinct(r2) && Remove(r1, c) == Remove(r2, c)
    requires ImmediatelyBefore(r1, c, a) && ImmediatelyBefore(r2, c, a)
    ensures r1 == r2
  {
    IndexBefore(r1, c, a);
    IndexBefore(r2, c, a);
    Reinsert(r1, c);
    Reinsert(r2, c);
  }
}
