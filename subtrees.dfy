/**
 * In a forest every node lies in one subtree per ancestor only: the subtrees
 * of two siblings are disjoint, so a pre-order walk meets every node once and
 * `count(True)` is one less than the number of ids in the subtree.
 */
module Subtrees {
  import opened Shape
  import opened Tree2

  /** No element of `s` occurs twice. */
  ghost predicate NoRepeats(s: seq<nat>)
  {
    forall i, j :: 0 <= i < j < |s| ==> s[i] != s[j]
  }

  /** The distinct elements of `s`. */
  ghost function Elems(s: seq<nat>): set<nat>
  {
    set x | x in s
  }

  /** A node of the subtree of `u` has at most the rank of `u`. */
  lemma WithinRank(ch: seq<seq<nat>>, rank: seq<nat>, u: nat, x: nat)
    requires Ranked(ch, rank) && u < |ch| && Within(ch, rank, u, x)
    ensures x < |ch| && rank[x] <= rank[u]
  {
    if x != u {
      BelowRank(ch, rank, u, x);
    }
  }

  /** A proper descendant of `a` has a parent, and that parent lies in the subtree of `a`. */
  lemma BelowParent(isContainer: seq<bool>, parent: seq<int>, ch: seq<seq<nat>>, rank: seq<nat>, a: nat, x: nat)
    requires Forest(isContainer, parent, ch, rank) && a < |ch| && Below(ch, rank, a, x)
    ensures x < |ch| && 0 <= parent[x] < |ch| && Within(ch, rank, a, parent[x])
  {
    var p, k := BelowHasEdge(ch, rank, a, x);
    assert parent[ch[p][k]] == p;
  }

  /** Two subtrees that share a node are nested, one inside the other. */
  lemma {:induction false} Nested(isContainer: seq<bool>, parent: seq<int>, ch: seq<seq<nat>>, rank: seq<nat>, u: nat, v: nat, x: nat)
    requires Forest(isContainer, parent, ch, rank) && u < |ch| && v < |ch|
    requires Within(ch, rank, u, x) && Within(ch, rank, v, x) && x < |ch| && rank[x] <= rank[u]
    ensures Within(ch, rank, u, v) || Within(ch, rank, v, u)
    decreases rank[u] - rank[x]
  {
    WithinRank(ch, rank, u, x);
    if x != u && x != v {
      BelowParent(isContainer, parent, ch, rank, u, x);
      BelowParent(isContainer, parent, ch, rank, v, x);
      BelowRank(ch, rank, u, x);
      assert rank[x] < rank[parent[x]] by {
        assert x in ch[parent[x]];
      }
      WithinRank(ch, rank, u, parent[x]);
      Nested(isContainer, parent, ch, rank, u, v, parent[x]);
    }
  }

  /** The subtrees of two different children of `a` have no node in common. */
  lemma SiblingsDisjoint(isContainer: seq<bool>, parent: seq<int>, ch: seq<seq<nat>>, rank: seq<nat>, a: nat, i: nat, j: nat, x: nat)
    requires Forest(isContainer, parent, ch, rank) && a < |ch| && i < |ch[a]| && j < |ch[a]| && i != j
    ensures !(Within(ch, rank, ch[a][i], x) && Within(ch, rank, ch[a][j], x))
  {
    if Within(ch, rank, ch[a][i], x) && Within(ch, rank, ch[a][j], x) {
      assert ch[a][i] != ch[a][j] by {
        if i < j {
          assert ch[a][i] != ch[a][j];
        } else {
          assert ch[a][j] != ch[a][i];
        }
      }
      WithinRank(ch, rank, ch[a][i], x);
      Nested(isContainer, parent, ch, rank, ch[a][i], ch[a][j], x);
      if Within(ch, rank, ch[a][i], ch[a][j]) {
        NestedSiblingAbsurd(isContainer, parent, ch, rank, a, i, j);
      } else {
        NestedSiblingAbsurd(isContainer, parent, ch, rank, a, j, i);
      }
    }
  }

  /** A child of `a` never lies below another child of `a`. */
  lemma NestedSiblingAbsurd(isContainer: seq<bool>, parent: seq<int>, ch: seq<seq<nat>>, rank: seq<nat>, a: nat, i: nat, j: nat)
    requires Forest(isContainer, parent, ch, rank) && a < |ch| && i < |ch[a]| && j < |ch[a]| && ch[a][i] != ch[a][j]
    ensures !Within(ch, rank, ch[a][i], ch[a][j])
  {
    if Within(ch, rank, ch[a][i], ch[a][j]) {
      BelowParent(isContainer, parent, ch, rank, ch[a][i], ch[a][j]);
      assert parent[ch[a][j]] == a;
      WithinRank(ch, rank, ch[a][i], a);
    }
  }

  /** Gluing two repeat-free sequences with no element in common gives a repeat-free one. */
  lemma ConcatNoRepeats(s: seq<nat>, t: seq<nat>)
    requires NoRepeats(s) && NoRepeats(t)
    requires forall x | x in s :: x !in t
    ensures NoRepeats(s + t)
  {
    var st := s + t;
    forall i, j | 0 <= i < j < |st|
      ensures st[i] != st[j]
    {
      if i < |s| && j >= |s| {
        assert st[i] in s && st[j] == t[j - |s|];
      } else if i >= |s| {
        assert st[i] == t[i - |s|] && st[j] == t[j - |s|];
      }
    }
  }

  /** The pre-order of the subtree of a node meets every node once. */
  lemma {:induction false} PreOrderNoRepeats(isContainer: seq<bool>, parent: seq<int>, ch: seq<seq<nat>>, rank: seq<nat>, a: nat)
    requires Forest(isContainer, parent, ch, rank) && a < |ch|
    ensures NoRepeats(PreOrder(ch, rank, a))
    decreases rank[a], |ch[a]| + 1
  {
    var rest := PreOrderOf(ch, rank, a, |ch[a]|);
    PreOrderOfNoRepeats(isContainer, parent, ch, rank, a, |ch[a]|);
    forall x | x in [a]
      ensures x !in rest
    {
      PreOrderOfMembers(ch, rank, a, |ch[a]|, a);
      if a in rest {
        var j :| 0 <= j < |ch[a]| && (ch[a][j] == a || Below(ch, rank, ch[a][j], a));
        WithinRank(ch, rank, ch[a][j], a);
      }
    }
    ConcatNoRepeats([a], rest);
  }

  lemma {:induction false} PreOrderOfNoRepeats(isContainer: seq<bool>, parent: seq<int>, ch: seq<seq<nat>>, rank: seq<nat>, a: nat, k: nat)
    requires Forest(isContainer, parent, ch, rank) && a < |ch| && k <= |ch[a]|
    ensures NoRepeats(PreOrderOf(ch, rank, a, k))
    decreases rank[a], k
  {
    if k > 0 {
      var front, last := PreOrderOf(ch, rank, a, k - 1), PreOrder(ch, rank, ch[a][k - 1]);
      PreOrderOfNoRepeats(isContainer, parent, ch, rank, a, k - 1);
      PreOrderNoRepeats(isContainer, parent, ch, rank, ch[a][k - 1]);
      forall x | x in front
        ensures x !in last
      {
        PreOrderOfMembers(ch, rank, a, k - 1, x);
        PreOrderMembers(ch, rank, ch[a][k - 1], x);
        var j :| 0 <= j < k - 1 && (ch[a][j] == x || Below(ch, rank, ch[a][j], x));
        SiblingsDisjoint(isContainer, parent, ch, rank, a, j, k - 1, x);
      }
      ConcatNoRepeats(front, last);
    }
  }

  /** A repeat-free sequence has as many distinct elements as it is long. */
  lemma {:induction false} NoRepeatsCard(s: seq<nat>)
    requires NoRepeats(s)
    ensures |Elems(s)| == |s|
  {
    if s != [] {
      var init, last := s[..|s| - 1], s[|s| - 1];
      assert s == init + [last];
      assert NoRepeats(init);
      NoRepeatsCard(init);
      assert last !in Elems(init);
      assert Elems(s) == Elems(init) + {last};
    }
  }

  /**
   * `count(True)` of a node is the number of ids in its subtree besides the
   * node itself: the pre-order lists the subtree without repeats.
   */
  lemma SubtreeSize(isContainer: seq<bool>, parent: seq<int>, ch: seq<seq<nat>>, rank: seq<nat>, a: nat)
    requires Forest(isContainer, parent, ch, rank) && a < |ch|
    ensures NoRepeats(PreOrder(ch, rank, a))
    ensures |Closed(ch, rank, a)| == 1 + DescCount(ch, rank, a)
  {
    var s := PreOrder(ch, rank, a);
    PreOrderNoRepeats(isContainer, parent, ch, rank, a);
    PreOrderLength(ch, rank, a);
    NoRepeatsCard(s);
    forall x
      ensures x in s <==> x in Closed(ch, rank, a)
    {
      PreOrderMembers(ch, rank, a, x);
      if Within(ch, rank, a, x) {
        WithinRank(ch, rank, a, x);
      }
    }
    assert Elems(s) == Closed(ch, rank, a);
  }
}
