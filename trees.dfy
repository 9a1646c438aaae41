/**
 * The two views of models/tree2.py that group nodes by depth: `Tree`
 * (`append`, `collect`) and `TreeData` (`add_to_matrix`). The node registry
 * is a class-level list in the source, shared by every tree; here it is
 * passed to each operation.
 */
module Trees {
  import opened Shape
  import opened Tree2

  /** A tree is its base directory. */
  class Tree {
    var baseDir: nat

    constructor (base: nat)
      ensures baseDir == base
    {
      baseDir := base;
    }

    /**
     * `append(node)` as written: `node` is added to the child list of the
     * base directory and nothing else happens; its parent stays None and
     * nothing is reloaded.
     */
    method AppendAsWritten(reg: NodeRegistry, n: nat)
      requires reg.Valid() && baseDir < |reg.name|
      modifies reg`children
      ensures reg.children == old(reg.children)[baseDir := old(reg.children[baseDir]) + [n]]
    {
      reg.children := reg.children[baseDir := reg.children[baseDir] + [n]];
    }

    /**
     * `append(node)` as evidently intended: the base directory's own
     * `append`, which links the parent and reloads the subtree.
     */
    method Append(reg: NodeRegistry, n: nat)
      requires reg.Valid() && baseDir < |reg.name| && n < |reg.name| && reg.isContainer[baseDir]
      requires reg.parent[n] == NoParent && !Within(reg.children, reg.rank, n, baseDir)
      modifies reg`children, reg`parent, reg`rank, reg`level, reg`path, reg`pos
      ensures reg.Valid() && reg.name == old(reg.name)
      ensures reg.children == old(reg.children)[baseDir := old(reg.children[baseDir]) + [n]]
      ensures reg.parent == old(reg.parent)[n := baseDir]
      ensures reg.Reloaded(baseDir) && reg.ConsBelow(baseDir) && reg.Cons(n)
      ensures forall y :: 0 <= y < |reg.name| && !Within(reg.children, reg.rank, baseDir, y) ==>
                reg.AttrsOf(y) == old(reg.AttrsOf(y))
      ensures forall y :: 0 <= y < |reg.name| && old(reg.Settled(y)) ==> reg.Settled(y)
    {
      reg.Append(baseDir, n);
    }

    /**
     * `collect(level)`: the nodes at traversal depth `lvl` below the base
     * directory (which is at depth 0), in pre-order.
     */
    method Collect(reg: NodeRegistry, lvl: int) returns (nodes: seq<nat>)
      requires reg.Valid() && baseDir < |reg.name|
      ensures nodes == CollectFrom(reg.children, reg.rank, baseDir, 0, lvl)
    {
      nodes := CollectNodes(reg, baseDir, 0, lvl, []);
    }
  }

  /**
   * `collect_nodes(node, current_level)`: appends `node` when it sits at
   * depth `lvl`, then walks the children of a container.
   */
  method CollectNodes(reg: NodeRegistry, node: nat, cur: int, lvl: int, acc: seq<nat>) returns (out: seq<nat>)
    requires reg.Valid() && node < |reg.name|
    ensures out == acc + CollectFrom(reg.children, reg.rank, node, cur, lvl)
    decreases reg.rank[node]
  {
    out := acc;
    if cur == lvl {
      out := out + [node];
    }
    assert out == acc + (if cur == lvl then [node] else []);
    if reg.isContainer[node] {
      var k := 0;
      while k < |reg.children[node]|
        invariant 0 <= k <= |reg.children[node]|
        invariant out == acc + (if cur == lvl then [node] else []) + CollectOf(reg.children, reg.rank, node, k, cur, lvl)
      {
        var child := reg.children[node][k];
        out := CollectNodes(reg, child, cur + 1, lvl, out);
        k := k + 1;
      }
    } else {
      assert reg.children[node] == [];
    }
  }

  /**
   * `collect(0)` is the base directory alone, a negative level collects
   * nothing, and every collected node lies in the base directory's subtree.
   */
  lemma CollectBounds(reg: NodeRegistry, base: nat, lvl: int)
    requires reg.Valid() && base < |reg.name|
    ensures CollectFrom(reg.children, reg.rank, base, 0, 0) == [base]
    ensures lvl < 0 ==> CollectFrom(reg.children, reg.rank, base, 0, lvl) == []
    ensures forall x :: x in CollectFrom(reg.children, reg.rank, base, 0, lvl) ==> Within(reg.children, reg.rank, base, x)
  {
    CollectHere(reg.children, reg.rank, base, 0);
    if lvl < 0 {
      CollectAbove(reg.children, reg.rank, base, 0, lvl);
    }
    forall x | x in CollectFrom(reg.children, reg.rank, base, 0, lvl)
      ensures Within(reg.children, reg.rank, base, x)
    {
      CollectWithin(reg.children, reg.rank, base, 0, lvl, x);
    }
  }

  /**
   * After `reload_all` of the base directory every node `collect(k)`
   * returns has the stored level `base.level + k`.
   */
  lemma CollectedLevels(reg: NodeRegistry, base: nat, lvl: int)
    requires reg.Valid() && base < |reg.name|
    requires forall y :: 0 <= y < |reg.name| && Below(reg.children, reg.rank, base, y) ==> reg.Cons(y)
    ensures forall x :: x in CollectFrom(reg.children, reg.rank, base, 0, lvl) ==>
              x < |reg.name| && reg.level[x] == reg.level[base] + lvl
  {
    reg.LevelsFollowWhenConsistent(base);
    forall x | x in CollectFrom(reg.children, reg.rank, base, 0, lvl)
      ensures x < |reg.name| && reg.level[x] == reg.level[base] + lvl
    {
      CollectLevels(reg.children, reg.rank, reg.level, base, 0, lvl, x);
    }
  }

  /**
   * `append` as written lists a detached node under a container whose link
   * back is missing: the result is not a forest, whatever the ranks.
   */
  lemma AppendAsWrittenBreaksLink(isContainer: seq<bool>, parent: seq<int>, ch: seq<seq<nat>>, rank: seq<nat>,
                                  c: nat, n: nat, rank': seq<nat>)
    requires Forest(isContainer, parent, ch, rank) && c < |ch| && n < |ch| && parent[n] == NoParent
    ensures !Forest(isContainer, parent, ch[c := ch[c] + [n]], rank')
  {
    var ch' := ch[c := ch[c] + [n]];
    assert ch'[c][|ch[c]|] == n;
  }

  /** The depth matrix of a tree: row k holds the nodes at depth k. */
  class TreeData {
    var tree: Tree
    var matrix: seq<seq<nat>>

    /**
     * `TreeData(tree)` with the number of rows given: build_matrix sizes the
     * matrix by get_max_depth, which is not part of this model.
     */
    constructor (t: Tree)
      ensures tree == t && matrix == []
    {
      tree := t;
      matrix := [];
    }

    /**
     * `build_matrix()` with `rows` empty rows, then `add_to_matrix(root, 0)`.
     * Row k ends up as `collect(k)`; with enough rows, a row is non-empty
     * exactly up to the height of the tree.
     */
    method BuildMatrix(reg: NodeRegistry, rows: nat)
      requires reg.Valid() && tree.baseDir < |reg.name|
      requires Height(reg.children, reg.rank, tree.baseDir) < rows
      modifies this`matrix
      ensures |matrix| == rows
      ensures forall k :: 0 <= k < rows ==> matrix[k] == CollectFrom(reg.children, reg.rank, tree.baseDir, 0, k)
      ensures forall k :: 0 <= k < rows ==> (matrix[k] != [] <==> k <= Height(reg.children, reg.rank, tree.baseDir))
    {
      matrix := seq(rows, _ => []);
      AddToMatrix(reg, tree.baseDir, 0);
      forall k | 0 <= k < rows
        ensures matrix[k] != [] <==> k <= Height(reg.children, reg.rank, tree.baseDir)
      {
        if k <= Height(reg.children, reg.rank, tree.baseDir) {
          CollectUpToHeight(reg.children, reg.rank, tree.baseDir, 0, k);
        } else {
          CollectBeyondHeight(reg.children, reg.rank, tree.baseDir, 0, k);
        }
      }
    }

    /**
     * `add_to_matrix(node, level)`: appends `node` to row `lvl` and walks the
     * children of a container one row further down. Row k receives exactly
     * the nodes the walk meets at depth k.
     */
    method AddToMatrix(reg: NodeRegistry, node: nat, lvl: nat)
      requires reg.Valid() && node < |reg.name|
      requires lvl + Height(reg.children, reg.rank, node) < |matrix|
      modifies this`matrix
      ensures |matrix| == old(|matrix|)
      ensures forall k :: 0 <= k < |matrix| ==> matrix[k] == old(matrix[k]) + CollectFrom(reg.children, reg.rank, node, lvl, k)
      decreases reg.rank[node]
    {
      matrix := matrix[lvl := matrix[lvl] + [node]];
      if reg.isContainer[node] {
        var j := 0;
        while j < |reg.children[node]|
          invariant 0 <= j <= |reg.children[node]| && |matrix| == old(|matrix|)
          invariant forall k :: 0 <= k < |matrix| ==>
            matrix[k] == old(matrix[k]) + (if k == lvl then [node] else []) + CollectOf(reg.children, reg.rank, node, j, lvl, k)
        {
          var child := reg.children[node][j];
          HeightChild(reg.children, reg.rank, node, j);
          AddToMatrix(reg, child, lvl + 1);
          j := j + 1;
        }
      } else {
        assert reg.children[node] == [];
      }
    }
  }
}
