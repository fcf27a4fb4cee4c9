/**
 The ancestor walk of the ANTLR tree utilities (`GetAncestors`), over an arena of nodes:
 node `i`'s parent is `parents[i]`, and `NoParent` (-1) stands for a null parent.

 The source follows parent links until it meets null and does not terminate on a cyclic
 chain. Acyclicity is stated with a ghost rank: every parent ranks strictly below its child.
 */
module TreeAncestors {

  /** The null parent of a root. */
  const NoParent: int := -1

  /** Every parent link points at a node of the arena, or is null. */
  predicate ValidArena(parents: seq<int>)
  {
    forall i :: 0 <= i < |parents| ==> parents[i] == NoParent || 0 <= parents[i] < |parents|
  }

  /** `rank` witnesses that following parent links always ends at a root. */
  ghost predicate Ranked(parents: seq<int>, rank: seq<nat>)
  {
    ValidArena(parents) && |rank| == |parents| &&
    forall i :: 0 <= i < |parents| && parents[i] != NoParent ==> rank[parents[i]] < rank[i]
  }

  /** The number of parent links from node `n` up to its root. */
  ghost function Depth(parents: seq<int>, rank: seq<nat>, n: nat): nat
    requires Ranked(parents, rank) && n < |parents|
    decreases rank[n]
  {
    if parents[n] == NoParent then 0 else 1 + Depth(parents, rank, parents[n])
  }

  /** The path from the root down to node `m`, both included. */
  ghost function PathFromRoot(parents: seq<int>, rank: seq<nat>, m: nat): seq<int>
    requires Ranked(parents, rank) && m < |parents|
    decreases rank[m]
  {
    if parents[m] == NoParent then [m] else PathFromRoot(parents, rank, parents[m]) + [m]
  }

  /** What the source promises of the list returned for node `n`: empty for a root;
      otherwise it starts at a root, ends at n's parent, each element is the parent of the
      one after it, and n itself is not in it. */
  ghost predicate IsAncestorList(parents: seq<int>, n: nat, a: seq<int>)
    requires ValidArena(parents) && n < |parents|
  {
    (forall i :: 0 <= i < |a| ==> 0 <= a[i] < |parents|) &&
    n !in a &&
    (parents[n] == NoParent ==> a == []) &&
    (parents[n] != NoParent ==>
      |a| > 0 &&
      a[|a| - 1] == parents[n] &&
      parents[a[0]] == NoParent &&
      forall i :: 0 < i < |a| ==> parents[a[i]] == a[i - 1])
  }

  /** The path from the root to `m` is a chain of parent links, ranked at most as `m`,
      and one longer than m's depth. */
  lemma {:induction false} PathFromRootChain(parents: seq<int>, rank: seq<nat>, m: nat)
    requires Ranked(parents, rank) && m < |parents|
    ensures var p := PathFromRoot(parents, rank, m);
      |p| == Depth(parents, rank, m) + 1 && p[|p| - 1] == m &&
      (forall i :: 0 <= i < |p| ==> 0 <= p[i] < |parents| && rank[p[i]] <= rank[m]) &&
      parents[p[0]] == NoParent &&
      forall i :: 0 < i < |p| ==> parents[p[i]] == p[i - 1]
    decreases rank[m]
  {
    if parents[m] != NoParent {
      PathFromRootChain(parents, rank, parents[m]);
    }
  }

  /** The list of the ancestors of `n`: nothing for a root, the path from the root to the
      parent otherwise. It has every property the source promises, and its length is n's
      depth. */
  lemma AncestorsAreAncestorList(parents: seq<int>, rank: seq<nat>, n: nat)
    requires Ranked(parents, rank) && n < |parents|
    ensures parents[n] == NoParent ==> IsAncestorList(parents, n, [])
    ensures parents[n] != NoParent ==>
      IsAncestorList(parents, n, PathFromRoot(parents, rank, parents[n])) &&
      |PathFromRoot(parents, rank, parents[n])| == Depth(parents, rank, n)
  {
    if parents[n] != NoParent {
      PathFromRootChain(parents, rank, parents[n]);
    }
  }

  /** The properties determine the list: any two lists that have them are equal. */
  lemma {:induction false} AncestorListUnique(parents: seq<int>, rank: seq<nat>, n: nat, a: seq<int>, b: seq<int>)
    requires Ranked(parents, rank) && n < |parents|
    requires IsAncestorList(parents, n, a) && IsAncestorList(parents, n, b)
    ensures a == b
    decreases rank[n]
  {
    if parents[n] != NoParent {
      var p := parents[n];
      AncestorListDropLast(parents, rank, n, a);
      AncestorListDropLast(parents, rank, n, b);
      AncestorListUnique(parents, rank, p, a[..|a| - 1], b[..|b| - 1]);
    }
  }

  /** Without its last element (the parent `p` of `n`), the ancestor list of `n` is the
      ancestor list of `p`. */
  lemma AncestorListDropLast(parents: seq<int>, rank: seq<nat>, n: nat, a: seq<int>)
    requires Ranked(parents, rank) && n < |parents|
    requires IsAncestorList(parents, n, a) && parents[n] != NoParent
    ensures 0 <= parents[n] < |parents| && rank[parents[n]] < rank[n]
    ensures |a| > 0 && a == a[..|a| - 1] + [parents[n]]
    ensures IsAncestorList(parents, parents[n], a[..|a| - 1])
  {
    var p := parents[n];
    var a' := a[..|a| - 1];
    assert a == a' + [p];
    if p in a' {
      var j :| 0 <= j < |a'| && a'[j] == p;
      AncestorRankBelow(parents, rank, a, j);
      assert false;
    }
    if |a| > 1 {
      assert parents[a[|a| - 1]] == a[|a| - 2];
      assert parents[p] != NoParent;
    }
  }

  /** Along a chain of parent links, every element before the last ranks below the last. */
  lemma {:induction false} AncestorRankBelow(parents: seq<int>, rank: seq<nat>, a: seq<int>, j: nat)
    requires Ranked(parents, rank)
    requires forall i :: 0 <= i < |a| ==> 0 <= a[i] < |parents|
    requires forall i :: 0 < i < |a| ==> parents[a[i]] == a[i - 1]
    requires j < |a| - 1
    ensures rank[a[j]] < rank[a[|a| - 1]]
    decreases |a| - j
  {
    assert parents[a[j + 1]] == a[j];
    if j + 1 < |a| - 1 {
      AncestorRankBelow(parents, rank, a, j + 1);
    }
  }

  /** The ancestor walk: a root has no ancestors; otherwise the walk follows parent links from
      the parent of `n` up to the root, inserting each node at the front of the list. */
  method GetAncestors(parents: seq<int>, ghost rank: seq<nat>, n: nat) returns (ancestors: seq<int>)
    requires Ranked(parents, rank) && n < |parents|
    ensures IsAncestorList(parents, n, ancestors)
    ensures |ancestors| == Depth(parents, rank, n)
  {
    AncestorsAreAncestorList(parents, rank, n);
    if parents[n] == NoParent {
      return [];
    }
    ancestors := [];
    var t := parents[n];
    while t != NoParent
      invariant t == NoParent || 0 <= t < |parents|
      invariant (if t == NoParent then [] else PathFromRoot(parents, rank, t)) + ancestors
                == PathFromRoot(parents, rank, parents[n])
      decreases if t == NoParent then 0 else rank[t] + 1
    {
      ghost var above := if parents[t] == NoParent then [] else PathFromRoot(parents, rank, parents[t]);
      assert PathFromRoot(parents, rank, t) == above + [t];
      assert (above + [t]) + ancestors == above + ([t] + ancestors);
      ancestors := [t] + ancestors;
      t := parents[t];
    }
    assert ancestors == PathFromRoot(parents, rank, parents[n]);
  }
}
