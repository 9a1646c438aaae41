/**
 * The two walks of models/graph.py that turn a directory tree into the
 * input of a graph drawing: `get_edges` (one name pair per container and
 * child) and `get_positions` (a position per name). The drawing itself is
 * not part of this model.
 */
module Graph {
  import opened Shape
  import opened Tree2

  /** The name of node `x` (an id outside the registry has the empty name). */
  function NameOf(name: seq<string>, x: nat): string
  {
    if x < |name| then name[x] else ""
  }

  /** The stored level of node `x` (-1 outside the registry, as for a detached node). */
  function LevelOf(level: seq<int>, x: nat): int
  {
    if x < |level| then level[x] else -1
  }

  /** Each id pair as the pair of its names. */
  function EdgeNames(name: seq<string>, e: seq<(nat, nat)>): seq<(string, string)>
  {
    seq(|e|, i requires 0 <= i < |e| => (NameOf(name, e[i].0), NameOf(name, e[i].1)))
  }

  // ---------------------------------------------------------------------
  // get_edges
  // ---------------------------------------------------------------------

  /**
   * `build_edges(node, edges)`: for a container, each child in turn adds the
   * pair (container name, child name) and then its own subtree's pairs.
   */
  method BuildEdges(reg: NodeRegistry, node: nat, acc: seq<(string, string)>) returns (out: seq<(string, string)>)
    requires reg.Valid() && node < |reg.name|
    ensures out == acc + EdgeNames(reg.name, Edges(reg.children, reg.rank, node))
    decreases reg.rank[node]
  {
    out := acc;
    if reg.isContainer[node] {
      var k := 0;
      while k < |reg.children[node]|
        invariant 0 <= k <= |reg.children[node]|
        invariant out == acc + EdgeNames(reg.name, EdgesOf(reg.children, reg.rank, node, k))
      {
        var child := reg.children[node][k];
        ghost var before := EdgesOf(reg.children, reg.rank, node, k);
        ghost var sub := Edges(reg.children, reg.rank, child);
        out := out + [(reg.name[node], reg.name[child])];
        out := BuildEdges(reg, child, out);
        assert EdgeNames(reg.name, before + [(node, child)] + sub) ==
               EdgeNames(reg.name, before) + [(reg.name[node], reg.name[child])] + EdgeNames(reg.name, sub);
        k := k + 1;
      }
    } else {
      assert reg.children[node] == [];
    }
  }

  /**
   * `get_edges(node)`: the edges of the subtree of `node` by name, in
   * pre-order; there are as many as `node.count(True)`, so a file or an
   * empty directory yields none.
   */
  method GetEdges(reg: NodeRegistry, root: nat) returns (edges: seq<(string, string)>)
    requires reg.Valid() && root < |reg.name|
    ensures edges == EdgeNames(reg.name, Edges(reg.children, reg.rank, root))
    ensures |edges| == DescCount(reg.children, reg.rank, root)
    ensures reg.children[root] == [] ==> edges == []
  {
    edges := BuildEdges(reg, root, []);
    EdgesLength(reg.children, reg.rank, root);
  }

  /**
   * The edges name exactly the container/child links inside the subtree:
   * every link from a container of the subtree is listed, and every listed
   * pair is such a link.
   */
  lemma EdgesAreLinks(reg: NodeRegistry, root: nat)
    requires reg.Valid() && root < |reg.name|
    ensures forall p, q :: 0 <= p < |reg.name| && q in reg.children[p] && Within(reg.children, reg.rank, root, p) ==>
              (reg.name[p], reg.name[q]) in EdgeNames(reg.name, Edges(reg.children, reg.rank, root))
    ensures forall i :: 0 <= i < |Edges(reg.children, reg.rank, root)| ==>
              var (p, q) := Edges(reg.children, reg.rank, root)[i];
              p < |reg.name| && q in reg.children[p] && Within(reg.children, reg.rank, root, p) &&
              EdgeNames(reg.name, Edges(reg.children, reg.rank, root))[i] == (reg.name[p], reg.name[q])
  {
    var ch, rank := reg.children, reg.rank;
    var e := Edges(ch, rank, root);
    forall p, q | 0 <= p < |reg.name| && q in ch[p] && Within(ch, rank, root, p)
      ensures (reg.name[p], reg.name[q]) in EdgeNames(reg.name, e)
    {
      EdgesMembers(ch, rank, root, p, q);
      var i :| 0 <= i < |e| && e[i] == (p, q);
      assert q < |reg.name|;
      assert EdgeNames(reg.name, e)[i] == (reg.name[p], reg.name[q]);
    }
    forall i | 0 <= i < |e|
      ensures e[i].0 < |reg.name| && e[i].1 in ch[e[i].0] && Within(ch, rank, root, e[i].0)
      ensures EdgeNames(reg.name, e)[i] == (reg.name[e[i].0], reg.name[e[i].1])
    {
      EdgesMembers(ch, rank, root, e[i].0, e[i].1);
      assert e[i].1 < |reg.name|;
    }
  }

  // ---------------------------------------------------------------------
  // get_positions
  // ---------------------------------------------------------------------

  /**
   * The positions dictionary after the nodes `s` are written in turn, each
   * under its name with (its level, its id); a later write of the same name
   * replaces an earlier one.
   */
  function Placed(name: seq<string>, level: seq<int>, m: map<string, (int, int)>, s: seq<nat>): map<string, (int, int)>
    decreases |s|
  {
    if s == [] then m
    else
      var x := s[|s| - 1];
      Placed(name, level, m, s[..|s| - 1])[NameOf(name, x) := (LevelOf(level, x), x)]
  }

  /** Writing `s` then `t` is writing `s + t`. */
  lemma {:induction false} PlacedAppend(name: seq<string>, level: seq<int>, m: map<string, (int, int)>, s: seq<nat>, t: seq<nat>)
    ensures Placed(name, level, m, s + t) == Placed(name, level, Placed(name, level, m, s), t)
    decreases |t|
  {
    if t != [] {
      var t' := t[..|t| - 1];
      assert (s + t)[..|s + t| - 1] == s + t';
      PlacedAppend(name, level, m, s, t');
    } else {
      assert s + t == s;
    }
  }

  /** The keys after the writes are the keys before and the names written. */
  lemma {:induction false} PlacedKeys(name: seq<string>, level: seq<int>, m: map<string, (int, int)>, s: seq<nat>)
    ensures Placed(name, level, m, s).Keys == m.Keys + set x | x in s :: NameOf(name, x)
    decreases |s|
  {
    if s != [] {
      var s' := s[..|s| - 1];
      PlacedKeys(name, level, m, s');
      assert s == s' + [s[|s| - 1]];
      assert (set x | x in s :: NameOf(name, x)) == (set x | x in s' :: NameOf(name, x)) + {NameOf(name, s[|s| - 1])};
    }
  }

  /**
   * Last write wins: a name holds the position of the node written at `i`
   * when no other node carrying that name is written after it.
   */
  lemma {:induction false} PlacedLast(name: seq<string>, level: seq<int>, m: map<string, (int, int)>, s: seq<nat>, i: nat)
    requires i < |s|
    requires forall j :: i < j < |s| && NameOf(name, s[j]) == NameOf(name, s[i]) ==> s[j] == s[i]
    ensures NameOf(name, s[i]) in Placed(name, level, m, s)
    ensures Placed(name, level, m, s)[NameOf(name, s[i])] == (LevelOf(level, s[i]), s[i])
    decreases |s|
  {
    if i < |s| - 1 {
      var s' := s[..|s| - 1];
      PlacedLast(name, level, m, s', i);
    }
  }

  /** A name no node of `s` carries keeps its earlier position. */
  lemma {:induction false} PlacedUntouched(name: seq<string>, level: seq<int>, m: map<string, (int, int)>, s: seq<nat>, k: string)
    requires k in m
    requires forall j :: 0 <= j < |s| ==> NameOf(name, s[j]) != k
    ensures k in Placed(name, level, m, s) && Placed(name, level, m, s)[k] == m[k]
    decreases |s|
  {
    if s != [] {
      PlacedUntouched(name, level, m, s[..|s| - 1], k);
    }
  }

  /**
   * What `get_positions(root)` returns: the root's name at (0, 0), then
   * every node below the root, in pre-order, at (its level, its id).
   */
  ghost function Layout(reg: NodeRegistry, root: nat): map<string, (int, int)>
    reads reg
    requires reg.Valid() && root < |reg.name|
  {
    Placed(reg.name, reg.level, map[reg.name[root] := (0, 0)], PreOrderOf(reg.children, reg.rank, root, |reg.children[root]|))
  }

  /**
   * `build_positions(node, x, y, positions)`: writes (x, y) under the
   * node's name, then each child of a container at (its level, its id).
   */
  method BuildPositions(reg: NodeRegistry, node: nat, x: int, y: int, acc: map<string, (int, int)>)
    returns (out: map<string, (int, int)>)
    requires reg.Valid() && node < |reg.name|
    ensures out == Placed(reg.name, reg.level, acc[reg.name[node] := (x, y)],
                          PreOrderOf(reg.children, reg.rank, node, |reg.children[node]|))
    decreases reg.rank[node]
  {
    out := acc[reg.name[node] := (x, y)];
    ghost var start := out;
    if reg.isContainer[node] {
      var k := 0;
      while k < |reg.children[node]|
        invariant 0 <= k <= |reg.children[node]|
        invariant out == Placed(reg.name, reg.level, start, PreOrderOf(reg.children, reg.rank, node, k))
      {
        var child := reg.children[node][k];
        ghost var before := PreOrderOf(reg.children, reg.rank, node, k);
        ghost var sub := PreOrderOf(reg.children, reg.rank, child, |reg.children[child]|);
        ghost var mid := out;
        out := BuildPositions(reg, child, reg.level[child], child, out);
        assert out == Placed(reg.name, reg.level, Placed(reg.name, reg.level, mid, [child]), sub);
        PlacedAppend(reg.name, reg.level, mid, [child], sub);
        PlacedAppend(reg.name, reg.level, start, before, [child] + sub);
        k := k + 1;
      }
    } else {
      assert reg.children[node] == [];
    }
  }

  /** `get_positions(node)`. */
  method GetPositions(reg: NodeRegistry, root: nat) returns (positions: map<string, (int, int)>)
    requires reg.Valid() && root < |reg.name|
    ensures positions == Layout(reg, root)
  {
    positions := BuildPositions(reg, root, 0, 0, map[]);
    assert map[][reg.name[root] := (0, 0)] == map[reg.name[root] := (0, 0)];
  }

  /** The nodes written after the root are exactly those below it. */
  lemma BelowListed(reg: NodeRegistry, root: nat, x: nat)
    requires reg.Valid() && root < |reg.name|
    ensures x in PreOrderOf(reg.children, reg.rank, root, |reg.children[root]|) <==> Below(reg.children, reg.rank, root, x)
  {
    PreOrderOfMembers(reg.children, reg.rank, root, |reg.children[root]|, x);
  }

  /** The positions are keyed by exactly the names of the subtree of the root. */
  lemma LayoutKeys(reg: NodeRegistry, root: nat)
    requires reg.Valid() && root < |reg.name|
    ensures Layout(reg, root).Keys == set x | 0 <= x < |reg.name| && Within(reg.children, reg.rank, root, x) :: reg.name[x]
  {
    var s := PreOrderOf(reg.children, reg.rank, root, |reg.children[root]|);
    PlacedKeys(reg.name, reg.level, map[reg.name[root] := (0, 0)], s);
    var lhs := {reg.name[root]} + set x | x in s :: NameOf(reg.name, x);
    var rhs := set x | 0 <= x < |reg.name| && Within(reg.children, reg.rank, root, x) :: reg.name[x];
    forall k | k in lhs
      ensures k in rhs
    {
      if k != reg.name[root] {
        var x :| x in s && NameOf(reg.name, x) == k;
        BelowListed(reg, root, x);
        BelowRank(reg.children, reg.rank, root, x);
      }
    }
    forall k | k in rhs
      ensures k in lhs
    {
      var x :| 0 <= x < |reg.name| && Within(reg.children, reg.rank, root, x) && reg.name[x] == k;
      if x != root {
        BelowListed(reg, root, x);
      }
    }
  }

  /**
   * A node below the root whose name no other node below the root carries
   * is drawn at (its level, its id).
   */
  lemma LayoutOfNode(reg: NodeRegistry, root: nat, x: nat)
    requires reg.Valid() && root < |reg.name| && x < |reg.name| && Below(reg.children, reg.rank, root, x)
    requires forall z :: 0 <= z < |reg.name| && Below(reg.children, reg.rank, root, z) && reg.name[z] == reg.name[x] ==> z == x
    ensures reg.name[x] in Layout(reg, root)
    ensures Layout(reg, root)[reg.name[x]] == (reg.level[x], x)
  {
    var s := PreOrderOf(reg.children, reg.rank, root, |reg.children[root]|);
    BelowListed(reg, root, x);
    var i :| 0 <= i < |s| && s[i] == x;
    forall j | i < j < |s| && NameOf(reg.name, s[j]) == NameOf(reg.name, s[i])
      ensures s[j] == s[i]
    {
      BelowListed(reg, root, s[j]);
      BelowRank(reg.children, reg.rank, root, s[j]);
    }
    PlacedLast(reg.name, reg.level, map[reg.name[root] := (0, 0)], s, i);
  }

  /** The root is drawn at (0, 0) unless a node below it carries its name. */
  lemma LayoutOfRoot(reg: NodeRegistry, root: nat)
    requires reg.Valid() && root < |reg.name|
    requires forall z :: 0 <= z < |reg.name| && Below(reg.children, reg.rank, root, z) ==> reg.name[z] != reg.name[root]
    ensures reg.name[root] in Layout(reg, root) && Layout(reg, root)[reg.name[root]] == (0, 0)
  {
    var s := PreOrderOf(reg.children, reg.rank, root, |reg.children[root]|);
    forall j | 0 <= j < |s|
      ensures NameOf(reg.name, s[j]) != reg.name[root]
    {
      BelowListed(reg, root, s[j]);
      BelowRank(reg.children, reg.rank, root, s[j]);
    }
    PlacedUntouched(reg.name, reg.level, map[reg.name[root] := (0, 0)], s, reg.name[root]);
  }

  /**
   * Every name an edge mentions has a position, so every edge of
   * `get_edges` can be drawn between two positioned nodes.
   */
  lemma EdgesPositioned(reg: NodeRegistry, root: nat)
    requires reg.Valid() && root < |reg.name|
    ensures forall i :: 0 <= i < |EdgeNames(reg.name, Edges(reg.children, reg.rank, root))| ==>
              EdgeNames(reg.name, Edges(reg.children, reg.rank, root))[i].0 in Layout(reg, root) &&
              EdgeNames(reg.name, Edges(reg.children, reg.rank, root))[i].1 in Layout(reg, root)
  {
    var ch, rank := reg.children, reg.rank;
    var e := Edges(ch, rank, root);
    EdgesAreLinks(reg, root);
    LayoutKeys(reg, root);
    forall i | 0 <= i < |e|
      ensures EdgeNames(reg.name, e)[i].0 in Layout(reg, root) && EdgeNames(reg.name, e)[i].1 in Layout(reg, root)
    {
      var (p, q) := e[i];
      assert q < |reg.name|;
      BelowExtend(ch, rank, root, p, FirstIndex(ch[p], q));
      assert Within(ch, rank, root, q);
    }
  }
}
