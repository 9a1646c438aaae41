/**
 * Shape of a forest of directories and files, given as the ordered child lists
 * `ch` of every node id (the arena the node registry hands out ids for).
 *
 * `rank` is a ghost measure that strictly decreases from a container to each
 * of its children.  It stands for the acyclicity the Python code never checks.
 * Every recursive walk of the source (reload_children, count(True),
 * collect_nodes, build_edges, build_positions) terminates because of it.
 */
module Shape {

  /** Every listed child is a valid id whose rank is below its container's. */
  ghost predicate Ranked(ch: seq<seq<nat>>, rank: seq<nat>)
  {
    |rank| == |ch| &&
    forall a, k :: 0 <= a < |ch| && 0 <= k < |ch[a]| ==> ch[a][k] < |ch| && rank[ch[a][k]] < rank[a]
  }

  /** `x` is a proper descendant of `a`. */
  ghost predicate Below(ch: seq<seq<nat>>, rank: seq<nat>, a: nat, x: nat)
    requires Ranked(ch, rank) && a < |ch|
    decreases rank[a]
  {
    exists k :: 0 <= k < |ch[a]| && (ch[a][k] == x || Below(ch, rank, ch[a][k], x))
  }

  /** `x` is `a` itself or one of its descendants. */
  ghost predicate Within(ch: seq<seq<nat>>, rank: seq<nat>, a: nat, x: nat)
    requires Ranked(ch, rank) && a < |ch|
  {
    x == a || Below(ch, rank, a, x)
  }

  /** The ids of the subtree rooted at `a`. */
  ghost function Closed(ch: seq<seq<nat>>, rank: seq<nat>, a: nat): set<nat>
    requires Ranked(ch, rank) && a < |ch|
  {
    set x | 0 <= x < |ch| && Within(ch, rank, a, x)
  }

  // ---------------------------------------------------------------------
  // Reachability facts
  // ---------------------------------------------------------------------

  /** Descendants are valid ids of strictly smaller rank; in particular no node is below itself. */
  lemma {:induction false} BelowRank(ch: seq<seq<nat>>, rank: seq<nat>, a: nat, x: nat)
    requires Ranked(ch, rank) && a < |ch| && Below(ch, rank, a, x)
    ensures x < |ch| && rank[x] < rank[a]
    decreases rank[a]
  {
    var k :| 0 <= k < |ch[a]| && (ch[a][k] == x || Below(ch, rank, ch[a][k], x));
    if ch[a][k] != x {
      BelowRank(ch, rank, ch[a][k], x);
    }
  }

  /** A child of a node of the subtree of `a` is a descendant of `a`. */
  lemma {:induction false} BelowExtend(ch: seq<seq<nat>>, rank: seq<nat>, a: nat, p: nat, k: nat)
    requires Ranked(ch, rank) && a < |ch| && p < |ch| && k < |ch[p]|
    requires Within(ch, rank, a, p)
    ensures Below(ch, rank, a, ch[p][k])
    decreases rank[a]
  {
    if a != p {
      var j :| 0 <= j < |ch[a]| && (ch[a][j] == p || Below(ch, rank, ch[a][j], p));
      BelowExtend(ch, rank, ch[a][j], p, k);
      assert Below(ch, rank, ch[a][j], ch[p][k]);
    }
  }

  /** Every descendant of `a` is the child of some node of the subtree of `a`. */
  lemma {:induction false} BelowHasEdge(ch: seq<seq<nat>>, rank: seq<nat>, a: nat, x: nat)
    returns (p: nat, k: nat)
    requires Ranked(ch, rank) && a < |ch| && Below(ch, rank, a, x)
    ensures p < |ch| && k < |ch[p]| && ch[p][k] == x && Within(ch, rank, a, p)
    decreases rank[a]
  {
    var j :| 0 <= j < |ch[a]| && (ch[a][j] == x || Below(ch, rank, ch[a][j], x));
    if ch[a][j] == x {
      p, k := a, j;
    } else {
      p, k := BelowHasEdge(ch, rank, ch[a][j], x);
      assert ch[a][j] == p || Below(ch, rank, ch[a][j], p);
    }
  }

  /** Descendant is transitive. */
  lemma {:induction false} BelowTrans(ch: seq<seq<nat>>, rank: seq<nat>, a: nat, b: nat, x: nat)
    requires Ranked(ch, rank) && a < |ch| && b < |ch|
    requires Below(ch, rank, a, b) && Below(ch, rank, b, x)
    ensures Below(ch, rank, a, x)
    decreases rank[b]
  {
    var k :| 0 <= k < |ch[b]| && (ch[b][k] == x || Below(ch, rank, ch[b][k], x));
    BelowExtend(ch, rank, a, b, k);
    if ch[b][k] != x {
      BelowTrans(ch, rank, a, ch[b][k], x);
    }
  }

  /**
   * Dropping edges never creates new descendants (used when a child is
   * removed), whatever ranks witness the two forests.
   */
  lemma {:induction false} BelowFewerEdges(ch: seq<seq<nat>>, ch': seq<seq<nat>>, rank: seq<nat>, rank': seq<nat>, a: nat, x: nat)
    requires Ranked(ch, rank) && Ranked(ch', rank') && |ch'| == |ch| && a < |ch|
    requires forall b, k :: 0 <= b < |ch'| && 0 <= k < |ch'[b]| ==> ch'[b][k] in ch[b]
    requires Below(ch', rank', a, x)
    ensures Below(ch, rank, a, x)
    decreases rank'[a]
  {
    var j :| 0 <= j < |ch'[a]| && (ch'[a][j] == x || Below(ch', rank', ch'[a][j], x));
    var c := ch'[a][j];
    assert c in ch[a];
    var i :| 0 <= i < |ch[a]| && ch[a][i] == c;
    if c != x {
      BelowFewerEdges(ch, ch', rank, rank', c, x);
    }
    assert ch[a][i] == x || Below(ch, rank, ch[a][i], x);
  }

  /**
   * After the edge c -> n is added, a descendant of `a` that does not lie in
   * the subtree of `c` was already a descendant of `a` before.
   */
  lemma {:induction false} BelowBesideNewEdge(ch: seq<seq<nat>>, rank: seq<nat>, ch': seq<seq<nat>>, rank': seq<nat>,
                                              c: nat, n: nat, a: nat, x: nat)
    requires Ranked(ch, rank) && Ranked(ch', rank') && c < |ch| && a < |ch|
    requires ch' == ch[c := ch[c] + [n]]
    requires Below(ch', rank', a, x) && !Within(ch', rank', c, x)
    ensures Below(ch, rank, a, x)
    decreases rank'[a]
  {
    var j :| 0 <= j < |ch'[a]| && (ch'[a][j] == x || Below(ch', rank', ch'[a][j], x));
    assert a != c;
    assert ch'[a] == ch[a];
    if ch'[a][j] != x {
      BelowBesideNewEdge(ch, rank, ch', rank', c, n, ch'[a][j], x);
    }
    assert ch[a][j] == x || Below(ch, rank, ch[a][j], x);
  }

  /** Descent does not depend on which ranks witness the forest. */
  lemma BelowAnyRank(ch: seq<seq<nat>>, rank: seq<nat>, rank': seq<nat>, a: nat, x: nat)
    requires Ranked(ch, rank) && Ranked(ch, rank') && a < |ch|
    ensures Below(ch, rank, a, x) <==> Below(ch, rank', a, x)
  {
    if Below(ch, rank, a, x) {
      BelowFewerEdges(ch, ch, rank', rank, a, x);
    }
    if Below(ch, rank', a, x) {
      BelowFewerEdges(ch, ch, rank, rank', a, x);
    }
  }

  /** `x` lies in the subtree of one of the first `k` children of `a`. */
  ghost predicate UnderFirst(ch: seq<seq<nat>>, rank: seq<nat>, a: nat, k: nat, x: nat)
    requires Ranked(ch, rank) && a < |ch| && k <= |ch[a]|
  {
    k > 0 && (UnderFirst(ch, rank, a, k - 1, x) || Within(ch, rank, ch[a][k - 1], x))
  }

  lemma {:induction false} UnderFirstExists(ch: seq<seq<nat>>, rank: seq<nat>, a: nat, k: nat, x: nat)
    requires Ranked(ch, rank) && a < |ch| && k <= |ch[a]|
    ensures UnderFirst(ch, rank, a, k, x) <==> exists j :: 0 <= j < k && Within(ch, rank, ch[a][j], x)
  {
    if k > 0 {
      UnderFirstExists(ch, rank, a, k - 1, x);
      if exists j :: 0 <= j < k && Within(ch, rank, ch[a][j], x) {
        var j :| 0 <= j < k && Within(ch, rank, ch[a][j], x);
        if j < k - 1 {
          assert exists i :: 0 <= i < k - 1 && Within(ch, rank, ch[a][i], x);
        }
      }
    }
  }

  /** Being under one of all the children of `a` is being a descendant of `a`. */
  lemma UnderAllChildren(ch: seq<seq<nat>>, rank: seq<nat>, a: nat, x: nat)
    requires Ranked(ch, rank) && a < |ch|
    ensures UnderFirst(ch, rank, a, |ch[a]|, x) <==> Below(ch, rank, a, x)
  {
    UnderFirstExists(ch, rank, a, |ch[a]|, x);
  }

  // ---------------------------------------------------------------------
  // Acyclic growth: the rank after attaching a detached subtree
  // ---------------------------------------------------------------------

  /** Ranks after the edge c -> n is added: every node that reaches `c` is lifted above `n`. */
  ghost function Lifted(ch: seq<seq<nat>>, rank: seq<nat>, c: nat, n: nat): (r: seq<nat>)
    requires Ranked(ch, rank) && c < |ch| && n < |ch|
    ensures |r| == |rank|
  {
    seq(|ch|, x requires 0 <= x < |ch| =>
      if Within(ch, rank, x, c) then rank[x] + rank[n] + 1 else rank[x])
  }

  /**
   * Appending `n` under `c` keeps the forest acyclic as long as `c` is not
   * inside the subtree of `n`: the lifted ranks witness it.
   */
  lemma LiftedRanked(ch: seq<seq<nat>>, rank: seq<nat>, c: nat, n: nat)
    requires Ranked(ch, rank) && c < |ch| && n < |ch|
    requires !Within(ch, rank, n, c)
    ensures Ranked(ch[c := ch[c] + [n]], Lifted(ch, rank, c, n))
  {
    var ch', r := ch[c := ch[c] + [n]], Lifted(ch, rank, c, n);
    forall a, k | 0 <= a < |ch'| && 0 <= k < |ch'[a]|
      ensures ch'[a][k] < |ch'| && r[ch'[a][k]] < r[a]
    {
      if a == c && k == |ch[c]| {
        assert ch'[a][k] == n;
      } else {
        assert ch'[a][k] == ch[a][k];
        var j := ch[a][k];
        if Within(ch, rank, j, c) {
          if j == c {
            BelowExtend(ch, rank, a, a, k);
          } else {
            BelowTrans(ch, rank, a, j, c);
          }
        }
      }
    }
  }

  // ---------------------------------------------------------------------
  // Pre-order traversal and the measures derived from it
  // ---------------------------------------------------------------------

  /** The subtree of `a` in pre-order (a node, then each child's subtree in turn). */
  ghost function PreOrder(ch: seq<seq<nat>>, rank: seq<nat>, a: nat): seq<nat>
    requires Ranked(ch, rank) && a < |ch|
    decreases rank[a], |ch[a]| + 1
  {
    [a] + PreOrderOf(ch, rank, a, |ch[a]|)
  }

  /** Pre-order of the subtrees of the first `k` children of `a`. */
  ghost function PreOrderOf(ch: seq<seq<nat>>, rank: seq<nat>, a: nat, k: nat): seq<nat>
    requires Ranked(ch, rank) && a < |ch| && k <= |ch[a]|
    decreases rank[a], k
  {
    if k == 0 then [] else PreOrderOf(ch, rank, a, k - 1) + PreOrder(ch, rank, ch[a][k - 1])
  }

  /** Number of proper descendants, accumulated child by child as `count(True)` does. */
  ghost function DescCount(ch: seq<seq<nat>>, rank: seq<nat>, a: nat): nat
    requires Ranked(ch, rank) && a < |ch|
    decreases rank[a], |ch[a]| + 1
  {
    DescCountOf(ch, rank, a, |ch[a]|)
  }

  ghost function DescCountOf(ch: seq<seq<nat>>, rank: seq<nat>, a: nat, k: nat): nat
    requires Ranked(ch, rank) && a < |ch| && k <= |ch[a]|
    decreases rank[a], k
  {
    if k == 0 then 0 else DescCountOf(ch, rank, a, k - 1) + 1 + DescCount(ch, rank, ch[a][k - 1])
  }

  /** Container -> child id pairs of the subtree of `a`, in pre-order. */
  ghost function Edges(ch: seq<seq<nat>>, rank: seq<nat>, a: nat): seq<(nat, nat)>
    requires Ranked(ch, rank) && a < |ch|
    decreases rank[a], |ch[a]| + 1
  {
    EdgesOf(ch, rank, a, |ch[a]|)
  }

  ghost function EdgesOf(ch: seq<seq<nat>>, rank: seq<nat>, a: nat, k: nat): seq<(nat, nat)>
    requires Ranked(ch, rank) && a < |ch| && k <= |ch[a]|
    decreases rank[a], k
  {
    if k == 0 then []
    else EdgesOf(ch, rank, a, k - 1) + [(a, ch[a][k - 1])] + Edges(ch, rank, ch[a][k - 1])
  }

  /** Length of the longest downward path from `a`. */
  ghost function Height(ch: seq<seq<nat>>, rank: seq<nat>, a: nat): nat
    requires Ranked(ch, rank) && a < |ch|
    decreases rank[a], |ch[a]| + 1
  {
    HeightOf(ch, rank, a, |ch[a]|)
  }

  ghost function HeightOf(ch: seq<seq<nat>>, rank: seq<nat>, a: nat, k: nat): nat
    requires Ranked(ch, rank) && a < |ch| && k <= |ch[a]|
    decreases rank[a], k
  {
    if k == 0 then 0
    else
      var h, c := HeightOf(ch, rank, a, k - 1), 1 + Height(ch, rank, ch[a][k - 1]);
      if h < c then c else h
  }

  /** A container is higher than each of its children. */
  lemma {:induction false} HeightChild(ch: seq<seq<nat>>, rank: seq<nat>, a: nat, j: nat)
    requires Ranked(ch, rank) && a < |ch| && j < |ch[a]|
    ensures Height(ch, rank, a) >= 1 + Height(ch, rank, ch[a][j])
  {
    var k := j + 1;
    while k < |ch[a]|
      invariant j < k <= |ch[a]| && HeightOf(ch, rank, a, k) >= 1 + Height(ch, rank, ch[a][j])
    {
      k := k + 1;
    }
  }

  /**
   * The nodes met at traversal depth `lvl` when the walk enters `a` at depth
   * `cur`, in the order collect_nodes appends them.
   */
  ghost function CollectFrom(ch: seq<seq<nat>>, rank: seq<nat>, a: nat, cur: int, lvl: int): seq<nat>
    requires Ranked(ch, rank) && a < |ch|
    decreases rank[a], |ch[a]| + 1
  {
    (if cur == lvl then [a] else []) + CollectOf(ch, rank, a, |ch[a]|, cur, lvl)
  }

  ghost function CollectOf(ch: seq<seq<nat>>, rank: seq<nat>, a: nat, k: nat, cur: int, lvl: int): seq<nat>
    requires Ranked(ch, rank) && a < |ch| && k <= |ch[a]|
    decreases rank[a], k
  {
    if k == 0 then []
    else CollectOf(ch, rank, a, k - 1, cur, lvl) + CollectFrom(ch, rank, ch[a][k - 1], cur + 1, lvl)
  }

  /** The pre-order of the subtree of `a`, each node tagged with its traversal depth. */
  ghost function Tagged(ch: seq<seq<nat>>, rank: seq<nat>, a: nat, cur: int): seq<(nat, int)>
    requires Ranked(ch, rank) && a < |ch|
    decreases rank[a], |ch[a]| + 1
  {
    [(a, cur)] + TaggedOf(ch, rank, a, |ch[a]|, cur)
  }

  ghost function TaggedOf(ch: seq<seq<nat>>, rank: seq<nat>, a: nat, k: nat, cur: int): seq<(nat, int)>
    requires Ranked(ch, rank) && a < |ch| && k <= |ch[a]|
    decreases rank[a], k
  {
    if k == 0 then [] else TaggedOf(ch, rank, a, k - 1, cur) + Tagged(ch, rank, ch[a][k - 1], cur + 1)
  }

  /** Ids of a tagged sequence. */
  function Ids(s: seq<(nat, int)>): (r: seq<nat>)
    ensures |r| == |s| && forall i :: 0 <= i < |s| ==> r[i] == s[i].0
  {
    if s == [] then [] else Ids(s[..|s| - 1]) + [s[|s| - 1].0]
  }

  /** The ids of a tagged sequence whose tag is `lvl`, in order. */
  function AtDepth(s: seq<(nat, int)>, lvl: int): (r: seq<nat>)
    ensures |r| <= |s|
  {
    if s == [] then []
    else AtDepth(s[..|s| - 1], lvl) + (if s[|s| - 1].1 == lvl then [s[|s| - 1].0] else [])
  }

  // ---------------------------------------------------------------------
  // Traversal lemmas
  // ---------------------------------------------------------------------

  /** The pre-order of `a` lists exactly `a` and its descendants. */
  lemma {:induction false} PreOrderMembers(ch: seq<seq<nat>>, rank: seq<nat>, a: nat, x: nat)
    requires Ranked(ch, rank) && a < |ch|
    ensures x in PreOrder(ch, rank, a) <==> Within(ch, rank, a, x)
    decreases rank[a], |ch[a]| + 1
  {
    PreOrderOfMembers(ch, rank, a, |ch[a]|, x);
  }

  lemma {:induction false} PreOrderOfMembers(ch: seq<seq<nat>>, rank: seq<nat>, a: nat, k: nat, x: nat)
    requires Ranked(ch, rank) && a < |ch| && k <= |ch[a]|
    ensures x in PreOrderOf(ch, rank, a, k) <==>
            exists j :: 0 <= j < k && (ch[a][j] == x || Below(ch, rank, ch[a][j], x))
    decreases rank[a], k
  {
    if k > 0 {
      PreOrderOfMembers(ch, rank, a, k - 1, x);
      PreOrderMembers(ch, rank, ch[a][k - 1], x);
      if exists j :: 0 <= j < k && (ch[a][j] == x || Below(ch, rank, ch[a][j], x)) {
        var j :| 0 <= j < k && (ch[a][j] == x || Below(ch, rank, ch[a][j], x));
        if j < k - 1 {
          assert exists i :: 0 <= i < k - 1 && (ch[a][i] == x || Below(ch, rank, ch[a][i], x));
        }
      }
    }
  }

  /** `count(True)` plus the node itself is the length of the pre-order. */
  lemma {:induction false} PreOrderLength(ch: seq<seq<nat>>, rank: seq<nat>, a: nat)
    requires Ranked(ch, rank) && a < |ch|
    ensures |PreOrder(ch, rank, a)| == 1 + DescCount(ch, rank, a)
    decreases rank[a], |ch[a]| + 1
  {
    PreOrderOfLength(ch, rank, a, |ch[a]|);
  }

  lemma {:induction false} PreOrderOfLength(ch: seq<seq<nat>>, rank: seq<nat>, a: nat, k: nat)
    requires Ranked(ch, rank) && a < |ch| && k <= |ch[a]|
    ensures |PreOrderOf(ch, rank, a, k)| == DescCountOf(ch, rank, a, k)
    decreases rank[a], k
  {
    if k > 0 {
      PreOrderOfLength(ch, rank, a, k - 1);
      PreOrderLength(ch, rank, ch[a][k - 1]);
    }
  }

  /** There is one edge per proper descendant. */
  lemma {:induction false} EdgesLength(ch: seq<seq<nat>>, rank: seq<nat>, a: nat)
    requires Ranked(ch, rank) && a < |ch|
    ensures |Edges(ch, rank, a)| == DescCount(ch, rank, a)
    decreases rank[a], |ch[a]| + 1
  {
    EdgesOfLength(ch, rank, a, |ch[a]|);
  }

  lemma {:induction false} EdgesOfLength(ch: seq<seq<nat>>, rank: seq<nat>, a: nat, k: nat)
    requires Ranked(ch, rank) && a < |ch| && k <= |ch[a]|
    ensures |EdgesOf(ch, rank, a, k)| == DescCountOf(ch, rank, a, k)
    decreases rank[a], k
  {
    if k > 0 {
      EdgesOfLength(ch, rank, a, k - 1);
      EdgesLength(ch, rank, ch[a][k - 1]);
    }
  }

  /** The edges of the subtree of `a` are exactly the (container, child) pairs inside it. */
  lemma {:induction false} EdgesMembers(ch: seq<seq<nat>>, rank: seq<nat>, a: nat, p: nat, q: nat)
    requires Ranked(ch, rank) && a < |ch|
    ensures (p, q) in Edges(ch, rank, a) <==> p < |ch| && q in ch[p] && Within(ch, rank, a, p)
    decreases rank[a], |ch[a]| + 1
  {
    EdgesOfMembers(ch, rank, a, |ch[a]|, p, q);
    if p < |ch| && q in ch[p] && Within(ch, rank, a, p) && p != a {
      var j :| 0 <= j < |ch[a]| && (ch[a][j] == p || Below(ch, rank, ch[a][j], p));
      assert j < |ch[a]| && Within(ch, rank, ch[a][j], p);
    }
  }

  lemma {:induction false} EdgesOfMembers(ch: seq<seq<nat>>, rank: seq<nat>, a: nat, k: nat, p: nat, q: nat)
    requires Ranked(ch, rank) && a < |ch| && k <= |ch[a]|
    ensures (p, q) in EdgesOf(ch, rank, a, k) <==>
            (p == a && q in ch[a][..k]) ||
            (p < |ch| && q in ch[p] && exists j :: 0 <= j < k && Within(ch, rank, ch[a][j], p))
    decreases rank[a], k
  {
    if k > 0 {
      var c := ch[a][k - 1];
      EdgesOfMembers(ch, rank, a, k - 1, p, q);
      EdgesMembers(ch, rank, c, p, q);
      assert ch[a][..k] == ch[a][..k - 1] + [c];
      if p < |ch| && q in ch[p] && exists j :: 0 <= j < k && Within(ch, rank, ch[a][j], p) {
        var j :| 0 <= j < k && Within(ch, rank, ch[a][j], p);
        if j < k - 1 {
          assert exists i :: 0 <= i < k - 1 && Within(ch, rank, ch[a][i], p);
        }
      }
      if p == a && p != c && Within(ch, rank, c, p) {
        BelowRank(ch, rank, c, p);
      }
    }
  }

  /** `count(True) >= count(False)`: each direct child is itself a descendant. */
  lemma {:induction false} DescCountAtLeastChildren(ch: seq<seq<nat>>, rank: seq<nat>, a: nat)
    requires Ranked(ch, rank) && a < |ch|
    ensures DescCount(ch, rank, a) >= |ch[a]|
  {
    var k := 0;
    while k < |ch[a]|
      invariant k <= |ch[a]| && DescCountOf(ch, rank, a, k) >= k
    {
      k := k + 1;
    }
  }

  /** Collection from depth `cur` never yields anything shallower than `cur`. */
  lemma {:induction false} CollectAbove(ch: seq<seq<nat>>, rank: seq<nat>, a: nat, cur: int, lvl: int)
    requires Ranked(ch, rank) && a < |ch| && lvl < cur
    ensures CollectFrom(ch, rank, a, cur, lvl) == []
    decreases rank[a], |ch[a]| + 1
  {
    CollectOfAbove(ch, rank, a, |ch[a]|, cur, lvl);
  }

  lemma {:induction false} CollectOfAbove(ch: seq<seq<nat>>, rank: seq<nat>, a: nat, k: nat, cur: int, lvl: int)
    requires Ranked(ch, rank) && a < |ch| && k <= |ch[a]| && lvl < cur + 1
    ensures CollectOf(ch, rank, a, k, cur, lvl) == []
    decreases rank[a], k
  {
    if k > 0 {
      CollectOfAbove(ch, rank, a, k - 1, cur, lvl);
      CollectAbove(ch, rank, ch[a][k - 1], cur + 1, lvl);
    }
  }

  /** At its own depth the walk collects exactly the node it starts from. */
  lemma CollectHere(ch: seq<seq<nat>>, rank: seq<nat>, a: nat, cur: int)
    requires Ranked(ch, rank) && a < |ch|
    ensures CollectFrom(ch, rank, a, cur, cur) == [a]
  {
    CollectOfAbove(ch, rank, a, |ch[a]|, cur, cur);
  }

  /** AtDepth distributes over concatenation. */
  lemma {:induction false} AtDepthAppend(s: seq<(nat, int)>, t: seq<(nat, int)>, lvl: int)
    ensures AtDepth(s + t, lvl) == AtDepth(s, lvl) + AtDepth(t, lvl)
    decreases |t|
  {
    if t != [] {
      assert (s + t)[..|s + t| - 1] == s + t[..|t| - 1];
      AtDepthAppend(s, t[..|t| - 1], lvl);
    } else {
      assert s + t == s;
    }
  }

  /** Ids distributes over concatenation. */
  lemma IdsAppend(s: seq<(nat, int)>, t: seq<(nat, int)>)
    ensures Ids(s + t) == Ids(s) + Ids(t)
  {
    assert |Ids(s + t)| == |Ids(s) + Ids(t)|;
  }

  /** The tagged walk visits the nodes in pre-order. */
  lemma {:induction false} TaggedIsPreOrder(ch: seq<seq<nat>>, rank: seq<nat>, a: nat, cur: int)
    requires Ranked(ch, rank) && a < |ch|
    ensures Ids(Tagged(ch, rank, a, cur)) == PreOrder(ch, rank, a)
    decreases rank[a], |ch[a]| + 1
  {
    TaggedOfIsPreOrder(ch, rank, a, |ch[a]|, cur);
    IdsAppend([(a, cur)], TaggedOf(ch, rank, a, |ch[a]|, cur));
  }

  lemma {:induction false} TaggedOfIsPreOrder(ch: seq<seq<nat>>, rank: seq<nat>, a: nat, k: nat, cur: int)
    requires Ranked(ch, rank) && a < |ch| && k <= |ch[a]|
    ensures Ids(TaggedOf(ch, rank, a, k, cur)) == PreOrderOf(ch, rank, a, k)
    decreases rank[a], k
  {
    if k > 0 {
      TaggedOfIsPreOrder(ch, rank, a, k - 1, cur);
      TaggedIsPreOrder(ch, rank, ch[a][k - 1], cur + 1);
      IdsAppend(TaggedOf(ch, rank, a, k - 1, cur), Tagged(ch, rank, ch[a][k - 1], cur + 1));
    }
  }

  /**
   * collect(k) is the pre-order walk filtered to the nodes whose traversal
   * depth is k.
   */
  lemma {:induction false} CollectIsDepthFilter(ch: seq<seq<nat>>, rank: seq<nat>, a: nat, cur: int, lvl: int)
    requires Ranked(ch, rank) && a < |ch|
    ensures CollectFrom(ch, rank, a, cur, lvl) == AtDepth(Tagged(ch, rank, a, cur), lvl)
    decreases rank[a], |ch[a]| + 1
  {
    CollectOfIsDepthFilter(ch, rank, a, |ch[a]|, cur, lvl);
    AtDepthAppend([(a, cur)], TaggedOf(ch, rank, a, |ch[a]|, cur), lvl);
    assert AtDepth([(a, cur)], lvl) == (if cur == lvl then [a] else []) by {
      assert [(a, cur)][..0] == [];
    }
  }

  lemma {:induction false} CollectOfIsDepthFilter(ch: seq<seq<nat>>, rank: seq<nat>, a: nat, k: nat, cur: int, lvl: int)
    requires Ranked(ch, rank) && a < |ch| && k <= |ch[a]|
    ensures CollectOf(ch, rank, a, k, cur, lvl) == AtDepth(TaggedOf(ch, rank, a, k, cur), lvl)
    decreases rank[a], k
  {
    if k > 0 {
      CollectOfIsDepthFilter(ch, rank, a, k - 1, cur, lvl);
      CollectIsDepthFilter(ch, rank, ch[a][k - 1], cur + 1, lvl);
      AtDepthAppend(TaggedOf(ch, rank, a, k - 1, cur), Tagged(ch, rank, ch[a][k - 1], cur + 1), lvl);
    }
  }

  /** Below the height of `a` nothing is collected. */
  lemma {:induction false} CollectBeyondHeight(ch: seq<seq<nat>>, rank: seq<nat>, a: nat, cur: int, lvl: int)
    requires Ranked(ch, rank) && a < |ch| && lvl > cur + Height(ch, rank, a)
    ensures CollectFrom(ch, rank, a, cur, lvl) == []
    decreases rank[a], |ch[a]| + 1
  {
    CollectOfBeyondHeight(ch, rank, a, |ch[a]|, cur, lvl);
  }

  lemma {:induction false} CollectOfBeyondHeight(ch: seq<seq<nat>>, rank: seq<nat>, a: nat, k: nat, cur: int, lvl: int)
    requires Ranked(ch, rank) && a < |ch| && k <= |ch[a]| && lvl > cur + HeightOf(ch, rank, a, k)
    ensures CollectOf(ch, rank, a, k, cur, lvl) == []
    decreases rank[a], k
  {
    if k > 0 {
      CollectOfBeyondHeight(ch, rank, a, k - 1, cur, lvl);
      CollectBeyondHeight(ch, rank, ch[a][k - 1], cur + 1, lvl);
    }
  }

  /** Every depth from `cur` down to the height of `a` holds at least one node. */
  lemma {:induction false} CollectUpToHeight(ch: seq<seq<nat>>, rank: seq<nat>, a: nat, cur: int, lvl: int)
    requires Ranked(ch, rank) && a < |ch| && cur <= lvl <= cur + Height(ch, rank, a)
    ensures CollectFrom(ch, rank, a, cur, lvl) != []
    decreases rank[a], |ch[a]| + 1
  {
    if lvl != cur {
      CollectOfUpToHeight(ch, rank, a, |ch[a]|, cur, lvl);
    }
  }

  lemma {:induction false} CollectOfUpToHeight(ch: seq<seq<nat>>, rank: seq<nat>, a: nat, k: nat, cur: int, lvl: int)
    requires Ranked(ch, rank) && a < |ch| && k <= |ch[a]| && cur < lvl <= cur + HeightOf(ch, rank, a, k)
    ensures CollectOf(ch, rank, a, k, cur, lvl) != []
    decreases rank[a], k
  {
    var c := ch[a][k - 1];
    if lvl <= cur + 1 + Height(ch, rank, c) {
      CollectUpToHeight(ch, rank, c, cur + 1, lvl);
    } else {
      CollectOfUpToHeight(ch, rank, a, k - 1, cur, lvl);
    }
  }

  /** Every collected node lies in the subtree the walk started from. */
  lemma {:induction false} CollectWithin(ch: seq<seq<nat>>, rank: seq<nat>, a: nat, cur: int, lvl: int, x: nat)
    requires Ranked(ch, rank) && a < |ch| && x in CollectFrom(ch, rank, a, cur, lvl)
    ensures Within(ch, rank, a, x)
  {
    CollectIsDepthFilter(ch, rank, a, cur, lvl);
    TaggedIsPreOrder(ch, rank, a, cur);
    AtDepthIds(Tagged(ch, rank, a, cur), lvl, x);
    PreOrderMembers(ch, rank, a, x);
  }

  lemma {:induction false} AtDepthIds(s: seq<(nat, int)>, lvl: int, x: nat)
    requires x in AtDepth(s, lvl)
    ensures x in Ids(s)
    decreases |s|
  {
    if x in AtDepth(s[..|s| - 1], lvl) {
      AtDepthIds(s[..|s| - 1], lvl, x);
    }
  }

  /**
   * Every node inside the subtree of `a` has a level one more than its
   * container's (what reload_all establishes).
   */
  ghost predicate LevelsFollow(ch: seq<seq<nat>>, rank: seq<nat>, level: seq<int>, a: nat)
    requires Ranked(ch, rank) && a < |ch| && |level| == |ch|
  {
    forall p, k :: 0 <= p < |ch| && 0 <= k < |ch[p]| && Within(ch, rank, a, p) ==>
      level[ch[p][k]] == level[p] + 1
  }

  /** When levels follow the tree, traversal depth and stored level differ by a constant. */
  lemma {:induction false} CollectLevels(ch: seq<seq<nat>>, rank: seq<nat>, level: seq<int>, a: nat, cur: int, lvl: int, x: nat)
    requires Ranked(ch, rank) && a < |ch| && |level| == |ch|
    requires LevelsFollow(ch, rank, level, a) && x in CollectFrom(ch, rank, a, cur, lvl)
    ensures x < |ch| && level[x] == level[a] + (lvl - cur)
    decreases rank[a], |ch[a]| + 1
  {
    if x !in (if cur == lvl then [a] else []) {
      CollectOfLevels(ch, rank, level, a, |ch[a]|, cur, lvl, x);
    }
  }

  lemma {:induction false} CollectOfLevels(ch: seq<seq<nat>>, rank: seq<nat>, level: seq<int>, a: nat, k: nat, cur: int, lvl: int, x: nat)
    requires Ranked(ch, rank) && a < |ch| && k <= |ch[a]| && |level| == |ch|
    requires LevelsFollow(ch, rank, level, a) && x in CollectOf(ch, rank, a, k, cur, lvl)
    ensures x < |ch| && level[x] == level[a] + (lvl - cur)
    decreases rank[a], k
  {
    var c := ch[a][k - 1];
    if x in CollectOf(ch, rank, a, k - 1, cur, lvl) {
      CollectOfLevels(ch, rank, level, a, k - 1, cur, lvl, x);
    } else {
      assert level[c] == level[a] + 1;
      forall p, j | 0 <= p < |ch| && 0 <= j < |ch[p]| && Within(ch, rank, c, p)
        ensures level[ch[p][j]] == level[p] + 1
      {
        if p == c {
          BelowExtend(ch, rank, a, a, k - 1);
        } else {
          BelowTrans(ch, rank, a, c, p) by { BelowExtend(ch, rank, a, a, k - 1); }
        }
      }
      CollectLevels(ch, rank, level, c, cur + 1, lvl, x);
    }
  }
}
