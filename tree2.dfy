/**
 * The self-recomputing file/folder tree of models/tree2.py.
 *
 * Every node, file (`Node`) or directory (`ContainerNode`), is identified by
 * the id the node registry hands out when it registers the node. The registry
 * keeps one column per node attribute, indexed by that id. A Python object
 * reference to a node is its id here, and `None` for a parent is `NoParent`.
 */
module Tree2 {
  import opened Wrappers
  import opened Shape

  /** The parent of a detached node (Python's `None`). */
  const NoParent: int := -1

  /** What `pos_of` answers for a name that no child carries. */
  const NotContained: int := -10

  /** Index of the first occurrence of `x` (Python's `list.index`). */
  function FirstIndex<T(==)>(s: seq<T>, x: T): (i: nat)
    requires x in s
    ensures i < |s| && s[i] == x && x !in s[..i]
  {
    if s[0] == x then 0
    else
      var i := 1 + FirstIndex(s[1..], x);
      assert s[..i] == [s[0]] + s[1..][..i - 1];
      i
  }

  /** Python's `list.remove(x)`: the list without the first occurrence of `x`. */
  function RemoveFirst<T(==)>(s: seq<T>, x: T): seq<T>
    requires x in s
  {
    var i := FirstIndex(s, x);
    s[..i] + s[i + 1..]
  }

  /**
   * `pos_of`: -10 when no child is called `x`, otherwise 1 + the index of the
   * first child called `x`.
   */
  function PosOf(names: seq<string>, x: string): (p: int)
    ensures p == NotContained <==> x !in names
    ensures x in names ==> 1 <= p <= |names| && names[p - 1] == x && x !in names[..p - 1]
  {
    if x in names then FirstIndex(names, x) + 1 else NotContained
  }

  /** The names of the nodes `ids`, in order (an id outside the registry has none). */
  function NamesOf(name: seq<string>, ids: seq<nat>): (r: seq<string>)
    ensures |r| == |ids|
  {
    seq(|ids|, i requires 0 <= i < |ids| => if ids[i] < |name| then name[ids[i]] else "")
  }

  /** `y` is one of the first `k` elements of `s`. */
  ghost predicate AmongFirst(s: seq<nat>, k: nat, y: nat)
    requires k <= |s|
  {
    exists i :: 0 <= i < k && s[i] == y
  }

  /** No name occurs twice. */
  predicate Distinct(names: seq<string>)
  {
    forall i, j :: 0 <= i < j < |names| ==> names[i] != names[j]
  }

  /** Among distinct sibling names, a child's position is its 1-based index. */
  lemma PosOfDistinct(names: seq<string>, i: nat)
    requires Distinct(names) && i < |names|
    ensures PosOf(names, names[i]) == i + 1
  {
    var p := PosOf(names, names[i]);
    assert names[p - 1] == names[i];
  }

  /** A name new among the siblings lands at the position after the last one. */
  lemma PosOfAppendNew(names: seq<string>, x: string)
    requires x !in names
    ensures PosOf(names + [x], x) == |names| + 1
  {
    assert (names + [x])[|names|] == x;
  }

  /** Appending an element not yet listed and removing it again restores the list. */
  lemma RemoveFirstLast<T>(s: seq<T>, x: T)
    requires x !in s
    ensures RemoveFirst(s + [x], x) == s
  {
    assert (s + [x])[|s|] == x;
  }

  /**
   * Removing the first `x` keeps the elements before it in place and moves
   * each later one a place forward.
   */
  lemma RemoveFirstAt<T>(s: seq<T>, x: T)
    requires x in s
    ensures |RemoveFirst(s, x)| == |s| - 1
    ensures forall j :: 0 <= j < FirstIndex(s, x) ==> RemoveFirst(s, x)[j] == s[j]
    ensures forall j :: FirstIndex(s, x) <= j < |s| - 1 ==> RemoveFirst(s, x)[j] == s[j + 1]
  {
  }

  /** Without repetitions, `list.remove(x)` drops exactly `x`. */
  lemma RemoveFirstMembers<T>(s: seq<T>, x: T)
    requires x in s
    requires forall i, j :: 0 <= i < j < |s| ==> s[i] != s[j]
    ensures forall y :: y in RemoveFirst(s, x) <==> y in s && y != x
    ensures forall i, j :: 0 <= i < j < |RemoveFirst(s, x)| ==> RemoveFirst(s, x)[i] != RemoveFirst(s, x)[j]
  {
    var k := FirstIndex(s, x);
    RemoveFirstAt(s, x);
    forall y | y in s && y != x
      ensures y in RemoveFirst(s, x)
    {
      var j :| 0 <= j < |s| && s[j] == y;
      if j < k {
        assert RemoveFirst(s, x)[j] == y;
      } else {
        assert RemoveFirst(s, x)[j - 1] == y;
      }
    }
  }

  /** The child lists once `n` has left its container `p` (none when `p` is None). */
  function Detach(ch: seq<seq<nat>>, p: int, n: nat): (r: seq<seq<nat>>)
    requires p < |ch| && (0 <= p ==> n in ch[p])
    ensures |r| == |ch|
    ensures forall a :: 0 <= a < |ch| && a != p ==> r[a] == ch[a]
    ensures 0 <= p ==> |r[p]| == |ch[p]| - 1 && forall y :: y in r[p] ==> y in ch[p]
  {
    if p < 0 then ch
    else
      RemoveFirstAt(ch[p], n);
      ch[p := RemoveFirst(ch[p], n)]
  }

  /**
   * The parent/children links form a forest: each child records the
   * container listing it, every attached node is listed by its parent, no
   * list repeats a node, files have no children and there is no cycle.
   */
  ghost predicate Forest(isContainer: seq<bool>, parent: seq<int>, ch: seq<seq<nat>>, rank: seq<nat>)
  {
    |isContainer| == |ch| && |parent| == |ch| && Ranked(ch, rank) &&
    (forall x :: 0 <= x < |ch| ==> NoParent <= parent[x] < |ch|) &&
    (forall x :: 0 <= x < |ch| && !isContainer[x] ==> ch[x] == []) &&
    (forall a, k :: 0 <= a < |ch| && 0 <= k < |ch[a]| ==> parent[ch[a][k]] == a) &&
    (forall x :: 0 <= x < |ch| && parent[x] != NoParent ==> x in ch[parent[x]]) &&
    (forall a, i, j :: 0 <= a < |ch| && 0 <= i < j < |ch[a]| ==> ch[a][i] != ch[a][j])
  }

  /**
   * Listing a detached `n` last under the container `c`, outside `n`'s
   * subtree, keeps the forest; ranks are lifted above `n`'s.
   */
  lemma LinkForest(isContainer: seq<bool>, parent: seq<int>, ch: seq<seq<nat>>, rank: seq<nat>, c: nat, n: nat)
    requires Forest(isContainer, parent, ch, rank) && c < |ch| && n < |ch| && isContainer[c]
    requires parent[n] == NoParent && !Within(ch, rank, n, c)
    ensures Forest(isContainer, parent[n := c], ch[c := ch[c] + [n]], Lifted(ch, rank, c, n))
  {
    LiftedRanked(ch, rank, c, n);
    var ch', parent' := ch[c := ch[c] + [n]], parent[n := c];
    forall a, k | 0 <= a < |ch'| && 0 <= k < |ch'[a]|
      ensures parent'[ch'[a][k]] == a
    {
      if a != c || k < |ch[c]| {
        assert ch'[a][k] == ch[a][k];
      }
    }
    forall x | 0 <= x < |ch'| && parent'[x] != NoParent
      ensures x in ch'[parent'[x]]
    {
      if x != n {
        assert x in ch[parent[x]];
      }
    }
    forall a, i, j | 0 <= a < |ch'| && 0 <= i < j < |ch'[a]|
      ensures ch'[a][i] != ch'[a][j]
    {
      if a == c && j == |ch[c]| {
        assert parent[ch[a][i]] == c;
      }
    }
  }

  /**
   * Node `x` is attached and holds the level, path and pos that reload derives
   * from its container, all read from the given columns.
   */
  ghost predicate ConsCols(name: seq<string>, parent: seq<int>, ch: seq<seq<nat>>,
                           lv: seq<int>, pt: seq<string>, ps: seq<int>, x: nat)
    requires x < |name| && |parent| == |name| && |ch| == |name|
    requires |lv| == |name| && |pt| == |name| && |ps| == |name|
    requires parent[x] < |name|
  {
    var p := parent[x];
    0 <= p &&
    lv[x] == lv[p] + 1 &&
    pt[x] == pt[p] + "/" + name[x] &&
    ps[x] == PosOf(NamesOf(name, ch[p]), name[x])
  }

  /** Registering one more detached node keeps every consistent node consistent. */
  lemma ConsColsGrow(name: seq<string>, parent: seq<int>, ch: seq<seq<nat>>,
                     lv: seq<int>, pt: seq<string>, ps: seq<int>, x: nat, nm: string)
    requires x < |name| && |parent| == |name| && |ch| == |name|
    requires |lv| == |name| && |pt| == |name| && |ps| == |name|
    requires forall a, k :: 0 <= a < |ch| && 0 <= k < |ch[a]| ==> ch[a][k] < |ch|
    requires parent[x] < |name| && ConsCols(name, parent, ch, lv, pt, ps, x)
    ensures ConsCols(name + [nm], parent + [NoParent], ch + [[]], lv + [-1], pt + [nm], ps + [-1], x)
  {
    var p := parent[x];
    assert NamesOf(name + [nm], (ch + [[]])[p]) == NamesOf(name, ch[p]);
  }

  /** A new detached node without children keeps the forest. */
  lemma GrowForest(isContainer: seq<bool>, parent: seq<int>, ch: seq<seq<nat>>, rank: seq<nat>, container: bool)
    requires Forest(isContainer, parent, ch, rank)
    ensures Forest(isContainer + [container], parent + [NoParent], ch + [[]], rank + [0])
  {
    var ch' := ch + [[]];
    assert Ranked(ch', rank + [0]) by {
      forall a, k | 0 <= a < |ch'| && 0 <= k < |ch'[a]|
        ensures ch'[a][k] < |ch'| && (rank + [0])[ch'[a][k]] < (rank + [0])[a]
      {
        assert a < |ch| && ch'[a] == ch[a];
      }
    }
    forall a, k | 0 <= a < |ch'| && 0 <= k < |ch'[a]|
      ensures (parent + [NoParent])[ch'[a][k]] == a
    {
      assert a < |ch| && ch'[a] == ch[a];
    }
  }

  /** Taking `n` out of its container `c` (`list.remove` and `parent = None`) keeps the forest. */
  lemma UnlinkForest(isContainer: seq<bool>, parent: seq<int>, ch: seq<seq<nat>>, rank: seq<nat>, c: nat, n: nat)
    requires Forest(isContainer, parent, ch, rank) && c < |ch| && n in ch[c]
    ensures Forest(isContainer, parent[n := NoParent], ch[c := RemoveFirst(ch[c], n)], rank)
  {
    var ch', parent' := ch[c := RemoveFirst(ch[c], n)], parent[n := NoParent];
    RemoveFirstMembers(ch[c], n);
    forall a, k | 0 <= a < |ch'| && 0 <= k < |ch'[a]|
      ensures ch'[a][k] < |ch'| && rank[ch'[a][k]] < rank[a] && parent'[ch'[a][k]] == a
    {
      assert ch'[a][k] in ch[a];
      var i :| 0 <= i < |ch[a]| && ch[a][i] == ch'[a][k];
    }
    forall x | 0 <= x < |ch'| && parent'[x] != NoParent
      ensures x in ch'[parent'[x]]
    {
      assert x in ch[parent[x]];
    }
  }

  /** Removing one child keeps distinct sibling names distinct. */
  lemma DistinctAfterRemove(name: seq<string>, s: seq<nat>, n: nat)
    requires n in s && Distinct(NamesOf(name, s))
    ensures Distinct(NamesOf(name, RemoveFirst(s, n)))
  {
    RemoveFirstAt(s, n);
    var k := FirstIndex(s, n);
    var names, names' := NamesOf(name, s), NamesOf(name, RemoveFirst(s, n));
    forall i, j | 0 <= i < j < |names'|
      ensures names'[i] != names'[j]
    {
      var i', j' := if i < k then i else i + 1, if j < k then j else j + 1;
      assert names'[i] == names[i'] && names'[j] == names[j'];
    }
  }

  /**
   * Taking the last child `n` of `p` away and appending it again gives the
   * same child lists; `n`'s position is one past the other children when its
   * name is new among them.
   */
  lemma Reattach(name: seq<string>, ch: seq<seq<nat>>, p: nat, n: nat)
    requires p < |ch| && n < |name| && n !in ch[p]
    ensures Detach(ch[p := ch[p] + [n]], p, n) == ch
    ensures name[n] !in NamesOf(name, ch[p]) ==> PosOf(NamesOf(name, ch[p] + [n]), name[n]) == |ch[p]| + 1
  {
    RemoveFirstLast(ch[p], n);
    assert NamesOf(name, ch[p] + [n]) == NamesOf(name, ch[p]) + [name[n]];
    if name[n] !in NamesOf(name, ch[p]) {
      PosOfAppendNew(NamesOf(name, ch[p]), name[n]);
    }
  }

  /**
   * Two steps that each leave every node outside the subtree of `p` alone
   * leave it alone together, even when the ranks witnessing the shape
   * differ between them.
   */
  lemma KeptAcrossRanks(ch: seq<seq<nat>>, r1: seq<nat>, r2: seq<nat>, p: nat,
                        lv: seq<int>, pt: seq<string>, ps: seq<int>,
                        lv1: seq<int>, pt1: seq<string>, ps1: seq<int>,
                        lv2: seq<int>, pt2: seq<string>, ps2: seq<int>)
    requires Ranked(ch, r1) && Ranked(ch, r2) && p < |ch|
    requires |lv| == |pt| == |ps| == |lv1| == |pt1| == |ps1| == |lv2| == |pt2| == |ps2| == |ch|
    requires forall y :: 0 <= y < |ch| && !Within(ch, r1, p, y) ==> lv1[y] == lv[y] && pt1[y] == pt[y] && ps1[y] == ps[y]
    requires forall y :: 0 <= y < |ch| && !Within(ch, r2, p, y) ==> lv2[y] == lv1[y] && pt2[y] == pt1[y] && ps2[y] == ps1[y]
    ensures forall y :: 0 <= y < |ch| && !Within(ch, r2, p, y) ==> lv2[y] == lv[y] && pt2[y] == pt[y] && ps2[y] == ps[y]
  {
    forall y | 0 <= y < |ch| && !Within(ch, r2, p, y)
      ensures lv2[y] == lv[y] && pt2[y] == pt[y] && ps2[y] == ps[y]
    {
      BelowAnyRank(ch, r1, r2, p, y);
    }
  }

  /** What reload writes into a node: (level, path, pos). */
  datatype Attrs = Attrs(level: int, path: string, pos: int)

  /**
   * The node registry (NodeRegistry.__nodes__) together with every node's
   * attributes, one column per attribute.
   */
  class NodeRegistry {
    var name: seq<string>
    var isContainer: seq<bool>
    var parent: seq<int>
    var children: seq<seq<nat>>
    var level: seq<int>
    var path: seq<string>
    var pos: seq<int>
    /** Witness of acyclicity: a child's rank is below its container's. */
    ghost var rank: seq<nat>

    /** The parent/children columns form a forest (see `Forest`). */
    ghost predicate Structured()
      reads this`name, this`isContainer, this`parent, this`children, this`rank
    {
      |children| == |name| && Forest(isContainer, parent, children, rank)
    }

    ghost predicate Valid()
      reads this
    {
      Structured() && |level| == |name| && |path| == |name| && |pos| == |name|
    }

    constructor ()
      ensures Valid() && name == []
    {
      name, isContainer, parent, children := [], [], [], [];
      level, path, pos := [], [], [];
      rank := [];
    }

    /** The names of the children of `c`, in order. */
    function ChildNames(c: nat): (r: seq<string>)
      reads this`name, this`isContainer, this`parent, this`children, this`rank
      requires Structured() && c < |name|
      ensures |r| == |children[c]|
    {
      NamesOf(name, children[c])
    }

    ghost function AttrsOf(y: nat): Attrs
      reads this`level, this`path, this`pos
      requires y < |level| && y < |path| && y < |pos|
    {
      Attrs(level[y], path[y], pos[y])
    }

    /**
     * `x` is attached and holds the level, path and pos that reload derives
     * from its container.
     */
    ghost predicate Cons(x: nat)
      reads this
      requires Valid() && x < |name|
    {
      ConsIn(level, path, pos, x)
    }

    /** `Cons` over the attribute columns `lv`, `pt`, `ps` instead of the current ones. */
    ghost predicate ConsIn(lv: seq<int>, pt: seq<string>, ps: seq<int>, x: nat)
      reads this`name, this`isContainer, this`parent, this`children, this`rank
      requires Structured() && x < |name| && |lv| == |name| && |pt| == |name| && |ps| == |name|
    {
      ConsCols(name, parent, children, lv, pt, ps, x)
    }

    /** `y` still holds the attributes recorded in the columns `lv`, `pt`, `ps`. */
    ghost predicate SameAttrs(lv: seq<int>, pt: seq<string>, ps: seq<int>, y: nat)
      reads this`level, this`path, this`pos
      requires y < |level| && y < |path| && y < |pos| && y < |lv| && y < |pt| && y < |ps|
    {
      AttrsOf(y) == Attrs(lv[y], pt[y], ps[y])
    }

    /** What reload writes into a detached node. */
    ghost predicate Reset(x: nat)
      reads this
      requires Valid() && x < |name|
    {
      level[x] == -1 && path[x] == name[x] && pos[x] == -1
    }

    /** A detached node, or an attached one whose attributes agree with its container. */
    ghost predicate Settled(x: nat)
      reads this
      requires Valid() && x < |name|
    {
      parent[x] == NoParent || Cons(x)
    }

    /** What reload leaves in `x`: consistent when attached, reset when detached. */
    ghost predicate Reloaded(x: nat)
      reads this
      requires Valid() && x < |name|
    {
      (parent[x] != NoParent ==> Cons(x)) && (parent[x] == NoParent ==> Reset(x))
    }

    /** Every descendant of `a` is consistent. */
    ghost predicate ConsBelow(a: nat)
      reads this
      requires Valid() && a < |name|
    {
      forall y :: 0 <= y < |name| && Below(children, rank, a, y) ==> Cons(y)
    }

    ghost predicate AllSettled()
      reads this
      requires Valid()
    {
      forall x :: 0 <= x < |name| ==> Settled(x)
    }

    /** Consistency of a node only depends on its own and its parent's attributes. */
    lemma ConsKept(lv: seq<int>, pt: seq<string>, ps: seq<int>, y: nat)
      requires Valid() && y < |name| && |lv| == |name| && |pt| == |name| && |ps| == |name|
      requires ConsIn(lv, pt, ps, y)
      requires SameAttrs(lv, pt, ps, y) && SameAttrs(lv, pt, ps, parent[y])
      ensures Cons(y)
    {
    }

    /** An attached node is listed by its parent, so it is a descendant of it. */
    lemma ParentAbove(y: nat)
      requires Valid() && y < |name| && parent[y] != NoParent
      ensures Below(children, rank, parent[y], y)
    {
      var p := parent[y];
      var k :| 0 <= k < |children[p]| && children[p][k] == y;
      BelowExtend(children, rank, p, p, k);
    }

    /** Every descendant of a node is attached. */
    lemma DescendantAttached(a: nat, y: nat)
      requires Valid() && a < |name| && Below(children, rank, a, y)
      ensures y < |name| && parent[y] != NoParent && Within(children, rank, a, parent[y])
    {
      var p, k := BelowHasEdge(children, rank, a, y);
    }

    /** Once everything below `a` is consistent, levels grow by one per step down from `a`. */
    lemma LevelsFollowWhenConsistent(a: nat)
      requires Valid() && a < |name|
      requires forall y :: 0 <= y < |name| && Below(children, rank, a, y) ==> Cons(y)
      ensures LevelsFollow(children, rank, level, a)
    {
      forall p, k | 0 <= p < |children| && 0 <= k < |children[p]| && Within(children, rank, a, p)
        ensures level[children[p][k]] == level[p] + 1
      {
        BelowExtend(children, rank, a, p, k);
      }
    }

    // -------------------------------------------------------------------
    // Registry (NodeRegistry)
    // -------------------------------------------------------------------

    /**
     * A node is created detached (parent None, path = name, level and pos -1)
     * and registered: it gets the next id, the length of the registry before.
     */
    method Register(nm: string, container: bool) returns (id: nat)
      requires Valid()
      modifies this
      ensures Valid()
      ensures id == old(|name|) && |name| == old(|name|) + 1
      ensures name == old(name) + [nm] && isContainer == old(isContainer) + [container]
      ensures parent == old(parent) + [NoParent] && children == old(children) + [[]]
      ensures level == old(level) + [-1] && path == old(path) + [nm] && pos == old(pos) + [-1]
      ensures rank == old(rank) + [0]
      ensures forall x :: 0 <= x < old(|name|) ==> (old(Settled(x)) ==> Settled(x))
    {
      id := |name|;
      GrowForest(isContainer, parent, children, rank, container);
      forall x | 0 <= x < |name| && Cons(x)
        ensures ConsCols(name + [nm], parent + [NoParent], children + [[]], level + [-1], path + [nm], pos + [-1], x)
      {
        ConsColsGrow(name, parent, children, level, path, pos, x, nm);
      }
      name, isContainer, parent, children := name + [nm], isContainer + [container], parent + [NoParent], children + [[]];
      level, path, pos := level + [-1], path + [nm], pos + [-1];
      rank := rank + [0];
    }

    /** `get(name)` and `find(name)`: the first registered node with that name, if any. */
    function Lookup(nm: string): (r: Option<nat>)
      reads this`name
      ensures r.None? <==> nm !in name
      ensures r.Some? ==> r.value < |name| && name[r.value] == nm && nm !in name[..r.value]
    {
      if nm in name then Some(FirstIndex(name, nm)) else None
    }

    /** `contains(name)`: some registered node carries the name. */
    function Contains(nm: string): (r: bool)
      reads this`name
      ensures r <==> Lookup(nm).Some?
    {
      nm in name
    }

    // -------------------------------------------------------------------
    // Queries of a container (ContainerNode)
    // -------------------------------------------------------------------

    /** `contains(node)`: some child of `c` has the name. */
    function ContainsChild(c: nat, nm: string): (r: bool)
      reads this
      requires Valid() && c < |name|
      ensures r <==> exists i :: 0 <= i < |children[c]| && name[children[c][i]] == nm
    {
      assert forall i :: 0 <= i < |children[c]| ==> ChildNames(c)[i] == name[children[c][i]];
      nm in ChildNames(c)
    }

    /** `get(name)`: the first child of `c` with that name, or None. */
    function Get(c: nat, nm: string): (r: Option<nat>)
      reads this
      requires Valid() && c < |name|
      ensures r.None? <==> !ContainsChild(c, nm)
      ensures r.Some? ==> exists i :: 0 <= i < |children[c]| && r.value == children[c][i] &&
                            name[r.value] == nm &&
                            forall j :: 0 <= j < i ==> name[children[c][j]] != nm
    {
      var names := ChildNames(c);
      if nm in names then
        var i := FirstIndex(names, nm);
        assert forall j :: 0 <= j < i ==> names[j] == names[..i][j] && names[j] == name[children[c][j]];
        assert names[i] == name[children[c][i]];
        Some(children[c][i])
      else None
    }

    /** `find(index)`: the child at `index`, or None when the index is out of range. */
    function Find(c: nat, index: int): (r: Option<nat>)
      reads this
      requires Valid() && c < |name|
      ensures r.None? <==> index < 0 || index >= |children[c]|
      ensures r.Some? ==> r.value == children[c][index]
    {
      if index < 0 || index >= |children[c]| then None else Some(children[c][index])
    }

    /** `pos_of(name)` on the container `c`. */
    function PosOfChild(c: nat, nm: string): (p: int)
      reads this
      requires Valid() && c < |name|
      ensures p == NotContained <==> !ContainsChild(c, nm)
      ensures p != NotContained ==> Find(c, p - 1) == Get(c, nm)
    {
      PosOf(ChildNames(c), nm)
    }

    /** `last()`: the last child; an empty child list raises IndexError. */
    function Last(c: nat): (r: Result<nat, Raised>)
      reads this
      requires Valid() && c < |name|
      ensures r.Err? <==> children[c] == []
      ensures r.Ok? ==> r.value == children[c][|children[c]| - 1]
    {
      if |children[c]| == 0 then Err(IndexError) else Ok(children[c][|children[c]| - 1])
    }

    /** `check_last(name)`: false when no child is called so, else whether the last child is. */
    function CheckLast(c: nat, nm: string): (r: bool)
      reads this
      requires Valid() && c < |name|
      ensures r <==> Last(c).Ok? && name[Last(c).value] == nm
    {
      if !ContainsChild(c, nm) then false
      else name[children[c][|children[c]| - 1]] == nm
    }

    /** `is_last()`: the node has a parent whose last child it is (None, i.e. false, otherwise). */
    function IsLast(x: nat): (r: bool)
      reads this
      requires Valid() && x < |name|
      ensures r <==> parent[x] != NoParent && Last(parent[x]) == Ok(x)
      ensures r ==> parent[x] != NoParent && CheckLast(parent[x], name[x])
    {
      if parent[x] == NoParent then false
      else
        assert x in children[parent[x]];
        Last(parent[x]) == Ok(x)
    }

    /**
     * `count(deep_search)`: the number of children, or with `deep` the number
     * of proper descendants, summed child by child.
     */
    method Count(c: nat, deep: bool) returns (count: nat)
      requires Valid() && c < |name|
      ensures !deep ==> count == |children[c]|
      ensures deep ==> count == DescCount(children, rank, c)
      decreases rank[c]
    {
      if !deep {
        return |children[c]|;
      }
      count := 0;
      var k := 0;
      while k < |children[c]|
        invariant 0 <= k <= |children[c]|
        invariant count == DescCountOf(children, rank, c, k)
      {
        var child := children[c][k];
        count := count + 1;
        if isContainer[child] {
          var sub := Count(child, true);
          count := count + sub;
        } else {
          assert children[child] == [];
          assert DescCount(children, rank, child) == DescCountOf(children, rank, child, 0) == 0;
        }
        k := k + 1;
      }
    }

    // -------------------------------------------------------------------
    // Recomputation (reload, reload_children, reload_all)
    // -------------------------------------------------------------------

    /**
     * `reload()`: an attached node takes level, path and pos from its
     * container; a detached one is reset.
     */
    method Reload(x: nat)
      requires Valid() && x < |name|
      modifies this`level, this`path, this`pos
      ensures Valid()
      ensures parent[x] != NoParent ==> Cons(x)
      ensures parent[x] == NoParent ==> Reset(x)
      ensures forall y :: 0 <= y < |name| && y != x ==> AttrsOf(y) == old(AttrsOf(y))
    {
      var p := parent[x];
      if p != NoParent {
        ParentAbove(x);
        BelowRank(children, rank, p, x);
        var lv, pt, ps := level[p] + 1, path[p] + "/" + name[x], PosOf(ChildNames(p), name[x]);
        level, path, pos := level[x := lv], path[x := pt], pos[x := ps];
      } else {
        level, path, pos := level[x := -1], path[x := name[x]], pos[x := -1];
      }
    }

    /**
     * `reload_children(only_direct)`: reloads every child of `c`; unless
     * `onlyDirect`, it also descends into container children, so afterwards
     * every descendant of `c` is consistent. Nothing else changes.
     */
    method ReloadChildren(c: nat, onlyDirect: bool)
      requires Valid() && c < |name|
      modifies this`level, this`path, this`pos
      ensures Valid()
      ensures onlyDirect ==> forall y :: y in children[c] ==> Cons(y)
      ensures onlyDirect ==> forall y :: 0 <= y < |name| && y !in children[c] ==> AttrsOf(y) == old(AttrsOf(y))
      ensures !onlyDirect ==> forall y :: 0 <= y < |name| && Below(children, rank, c, y) ==> Cons(y)
      ensures !onlyDirect ==> forall y :: 0 <= y < |name| && !Below(children, rank, c, y) ==> AttrsOf(y) == old(AttrsOf(y))
      decreases rank[c], 2
    {
      if onlyDirect {
        ReloadDirectChildren(c);
      } else {
        ReloadDescendants(c);
      }
    }

    /** The `only_direct` branch of `reload_children`: one reload per child. */
    method ReloadDirectChildren(c: nat)
      requires Valid() && c < |name|
      modifies this`level, this`path, this`pos
      ensures Valid()
      ensures forall y :: y in children[c] ==> Cons(y)
      ensures forall y :: 0 <= y < |name| && y !in children[c] ==> AttrsOf(y) == old(AttrsOf(y))
    {
      ReloadEachChild(c);
      forall y | y in children[c]
        ensures Cons(y)
      {
        var i :| 0 <= i < |children[c]| && children[c][i] == y;
      }
    }

    /** The loop of the `only_direct` branch, child by child. */
    method ReloadEachChild(c: nat)
      requires Valid() && c < |name|
      modifies this`level, this`path, this`pos
      ensures Valid()
      ensures forall i :: 0 <= i < |children[c]| ==> Cons(children[c][i])
      ensures forall y :: 0 <= y < |name| && !AmongFirst(children[c], |children[c]|, y) ==> AttrsOf(y) == old(AttrsOf(y))
    {
      ghost var lv, pt, ps := level, path, pos;
      var kids := children[c];
      var k := 0;
      while k < |kids|
        invariant Valid() && 0 <= k <= |kids| && children[c] == kids
        invariant forall y :: 0 <= y < |name| && !AmongFirst(kids, k, y) ==> SameAttrs(lv, pt, ps, y)
        invariant forall i :: 0 <= i < k ==> Cons(kids[i])
      {
        ReloadChild(c, k, lv, pt, ps);
        k := k + 1;
      }
    }

    /**
     * The default branch of `reload_children`: reload each child and, for a
     * container child, its own children recursively.
     */
    method ReloadDescendants(c: nat)
      requires Valid() && c < |name|
      modifies this`level, this`path, this`pos
      ensures Valid()
      ensures forall y :: 0 <= y < |name| && Below(children, rank, c, y) ==> Cons(y)
      ensures forall y :: 0 <= y < |name| && !Below(children, rank, c, y) ==> AttrsOf(y) == old(AttrsOf(y))
      decreases rank[c], 1
    {
      var k := 0;
      while k < |children[c]|
        invariant 0 <= k <= |children[c]| && Valid()
        invariant forall y :: 0 <= y < |name| && UnderFirst(children, rank, c, k, y) ==> Cons(y)
        invariant forall y :: 0 <= y < |name| && !UnderFirst(children, rank, c, k, y) ==> AttrsOf(y) == old(AttrsOf(y))
      {
        ReloadSubtree(c, k);
        k := k + 1;
      }
      forall y | 0 <= y < |name|
        ensures Below(children, rank, c, y) ==> Cons(y)
        ensures !Below(children, rank, c, y) ==> AttrsOf(y) == old(AttrsOf(y))
      {
        UnderAllChildren(children, rank, c, y);
      }
    }

    /**
     * One round of the default reload_children loop: `child.reload()` and,
     * for a container child, `child.reload_children()`. Afterwards everything
     * under the first `k + 1` children is consistent; nothing outside the
     * `k`th child's subtree changed.
     */
    method ReloadSubtree(c: nat, k: nat)
      requires Valid() && c < |name| && k < |children[c]|
      requires forall y :: 0 <= y < |name| && UnderFirst(children, rank, c, k, y) ==> Cons(y)
      modifies this`level, this`path, this`pos
      ensures Valid()
      ensures forall y :: 0 <= y < |name| && UnderFirst(children, rank, c, k + 1, y) ==> Cons(y)
      ensures forall y :: 0 <= y < |name| && !Within(children, rank, children[c][k], y) ==> AttrsOf(y) == old(AttrsOf(y))
      decreases rank[c], 0
    {
      var child := children[c][k];
      ghost var lv, pt, ps := level, path, pos;
      if isContainer[child] {
        ReloadAll(child);
      } else {
        Reload(child);
      }
      SubtreeStep(c, k, lv, pt, ps);
    }

    /** A child is strictly below its container, and differs from its siblings. */
    lemma ChildBelowParent(c: nat, k: nat)
      requires Valid() && c < |name| && k < |children[c]|
      ensures Below(children, rank, c, children[c][k])
      ensures !Below(children, rank, children[c][k], c) && children[c][k] != c
      ensures forall i :: 0 <= i < |children[c]| && i != k ==> children[c][i] != children[c][k]
    {
      BelowExtend(children, rank, c, c, k);
      if Below(children, rank, children[c][k], c) {
        BelowRank(children, rank, children[c][k], c);
      }
    }

    /** One round of the `only_direct` loop: `child.reload()` on the `k`th child. */
    method ReloadChild(c: nat, k: nat, ghost lv: seq<int>, ghost pt: seq<string>, ghost ps: seq<int>)
      requires Valid() && c < |name| && k < |children[c]|
      requires forall i :: 0 <= i < k ==> Cons(children[c][i])
      requires |lv| == |name| && |pt| == |name| && |ps| == |name|
      requires forall y :: 0 <= y < |name| && !AmongFirst(children[c], k, y) ==> SameAttrs(lv, pt, ps, y)
      modifies this`level, this`path, this`pos
      ensures Valid()
      ensures forall i :: 0 <= i < k + 1 ==> Cons(children[c][i])
      ensures forall y :: 0 <= y < |name| && y != children[c][k] ==> AttrsOf(y) == old(AttrsOf(y))
      ensures forall y :: 0 <= y < |name| && !AmongFirst(children[c], k + 1, y) ==> SameAttrs(lv, pt, ps, y)
    {
      var child := children[c][k];
      ghost var lv0, pt0, ps0 := level, path, pos;
      Reload(child);
      SiblingsKept(c, k, lv0, pt0, ps0);
      forall y | 0 <= y < |name| && !AmongFirst(children[c], k + 1, y)
        ensures SameAttrs(lv, pt, ps, y)
      {
        assert children[c][k] != y && !AmongFirst(children[c], k, y);
        assert AttrsOf(y) == Attrs(lv0[y], pt0[y], ps0[y]);
      }
    }

    /** Reloading the `k`th child of `c` keeps the earlier children consistent. */
    lemma SiblingsKept(c: nat, k: nat, lv: seq<int>, pt: seq<string>, ps: seq<int>)
      requires Valid() && c < |name| && k < |children[c]|
      requires |lv| == |name| && |pt| == |name| && |ps| == |name|
      requires forall y :: 0 <= y < |name| && y != children[c][k] ==> SameAttrs(lv, pt, ps, y)
      requires forall i :: 0 <= i < k ==> ConsIn(lv, pt, ps, children[c][i])
      ensures forall i :: 0 <= i < k ==> Cons(children[c][i])
    {
      ChildBelowParent(c, k);
      forall i | 0 <= i < k
        ensures Cons(children[c][i])
      {
        ConsKept(lv, pt, ps, children[c][i]);
      }
    }

    /**
     * One step of the default reload_children loop: once the `k`th child and
     * its descendants are recomputed, everything under the first `k + 1`
     * children is consistent.
     */
    lemma SubtreeStep(c: nat, k: nat, lv: seq<int>, pt: seq<string>, ps: seq<int>)
      requires Valid() && c < |name| && k < |children[c]|
      requires |lv| == |name| && |pt| == |name| && |ps| == |name|
      requires Cons(children[c][k])
      requires forall y :: 0 <= y < |name| && Below(children, rank, children[c][k], y) ==> Cons(y)
      requires forall y :: 0 <= y < |name| && !Within(children, rank, children[c][k], y) ==> SameAttrs(lv, pt, ps, y)
      requires forall y :: 0 <= y < |name| && UnderFirst(children, rank, c, k, y) ==> ConsIn(lv, pt, ps, y)
      ensures forall y :: 0 <= y < |name| && UnderFirst(children, rank, c, k + 1, y) ==> Cons(y)
    {
      SubtreeKept(children[c][k], lv, pt, ps);
    }

    /**
     * When only the subtree of `a` was recomputed, every node outside it that
     * was consistent stays so: its parent is outside the subtree as well.
     */
    lemma SubtreeKept(a: nat, lv: seq<int>, pt: seq<string>, ps: seq<int>)
      requires Valid() && a < |name| && |lv| == |name| && |pt| == |name| && |ps| == |name|
      requires forall y :: 0 <= y < |name| && !Within(children, rank, a, y) ==> SameAttrs(lv, pt, ps, y)
      ensures forall y :: 0 <= y < |name| && !Within(children, rank, a, y) && ConsIn(lv, pt, ps, y) ==> Cons(y)
    {
      forall y | 0 <= y < |name| && !Within(children, rank, a, y) && ConsIn(lv, pt, ps, y)
        ensures Cons(y)
      {
        var p := parent[y];
        var j :| 0 <= j < |children[p]| && children[p][j] == y;
        if Within(children, rank, a, p) {
          BelowExtend(children, rank, a, p, j);
        }
        ConsKept(lv, pt, ps, y);
      }
    }

    /**
     * `remove(node)`: `list.remove` raises ValueError, before anything
     * changes, when `n` is not a child of `c`. Otherwise `n` leaves the child
     * list and is reset, and `c` is recomputed with its subtree, which
     * renumbers the later siblings. The subtree of `n` is not recomputed: the
     * children of `n` keep paths that run through `c`.
     */
    method Remove(c: nat, n: nat) returns (r: Outcome<Raised>)
      requires Valid() && c < |name| && n < |name| && isContainer[c]
      modifies this`children, this`parent, this`level, this`path, this`pos
      ensures Valid() && name == old(name) && isContainer == old(isContainer)
      ensures n !in old(children[c]) ==> (r == Fail(ValueError) && children == old(children) &&
                parent == old(parent) && level == old(level) && path == old(path) && pos == old(pos))
      ensures n in old(children[c]) ==> (r == Pass && Reset(n) &&
                children == old(children)[c := RemoveFirst(old(children[c]), n)] &&
                parent == old(parent)[n := NoParent])
      ensures n in old(children[c]) ==> (parent[c] != NoParent ==> Cons(c)) && (parent[c] == NoParent ==> Reset(c))
      ensures n in old(children[c]) ==> forall y :: 0 <= y < |name| && Below(children, rank, c, y) ==> Cons(y)
      ensures n in old(children[c]) ==>
                forall y :: 0 <= y < |name| && y != n && !Within(children, rank, c, y) ==> AttrsOf(y) == old(AttrsOf(y))
      ensures n in old(children[c]) ==>
                forall y :: 0 <= y < |name| && y != n && parent[y] != n && old(Settled(y)) ==> Settled(y)
      ensures n in old(children[c]) && old(Cons(n)) ==>
                forall y :: 0 <= y < |name| && parent[y] == n && old(Cons(y)) ==> !Cons(y)
      ensures n in old(children[c]) && Distinct(old(ChildNames(c))) ==>
                forall j :: 0 <= j < |old(children[c])| && old(children[c][j]) != n && old(Cons(children[c][j])) ==>
                  pos[old(children[c][j])] == old(pos[children[c][j]]) - (if j > old(FirstIndex(children[c], n)) then 1 else 0)
    {
      if n !in children[c] {
        return Fail(ValueError);
      }
      ghost var ch0, par0, lv, pt, ps := children, parent, level, path, pos;
      ChildBelowParent(c, FirstIndex(children[c], n));
      RemoveChild(c, n);
      r := Pass;
      if Below(children, rank, n, c) {
        BelowRank(children, rank, n, c);
      }
      OutsideKept(c, n, ch0, par0, lv, pt, ps);
      OrphansStale(c, n, ch0, par0, lv, pt, ps);
      if Distinct(NamesOf(name, ch0[c])) {
        RenumberedAfterRemove(c, n, ch0, par0, lv, pt, ps);
      }
    }

    /** `remove` once `n` is known to be a child of `c`. */
    method RemoveChild(c: nat, n: nat)
      requires Valid() && c < |name| && n in children[c]
      modifies this`children, this`parent, this`level, this`path, this`pos
      ensures Valid() && Reset(n) && !Within(children, rank, c, n)
      ensures children == old(children)[c := RemoveFirst(old(children[c]), n)]
      ensures parent == old(parent)[n := NoParent]
      ensures parent[c] != NoParent ==> Cons(c)
      ensures parent[c] == NoParent ==> Reset(c)
      ensures forall y :: 0 <= y < |name| && Below(children, rank, c, y) ==> Cons(y)
      ensures forall y :: 0 <= y < |name| && y != n && !Within(children, rank, c, y) ==> AttrsOf(y) == old(AttrsOf(y))
    {
      ChildBelowParent(c, FirstIndex(children[c], n));
      Unlink(c, n);
      Reload(n);
      ghost var reset := AttrsOf(n);
      ReloadAll(c);
      if Below(children, rank, c, n) {
        DescendantAttached(c, n);
      }
      assert AttrsOf(n) == reset;
    }

    /**
     * Once `n` is reset, a child of `n` that was consistent is not any more:
     * its path still runs through `n`'s old container.
     */
    lemma OrphansStale(c: nat, n: nat, ch0: seq<seq<nat>>, par0: seq<int>, lv: seq<int>, pt: seq<string>, ps: seq<int>)
      requires Valid() && c < |name| && n < |name| && parent[n] == NoParent && Reset(n)
      requires |ch0| == |name| && |par0| == |name| && |lv| == |name| && |pt| == |name| && |ps| == |name|
      requires forall x :: 0 <= x < |name| ==> par0[x] < |name|
      requires forall y :: 0 <= y < |name| && y != n ==> par0[y] == parent[y]
      requires forall y :: 0 <= y < |name| && y != n && !Within(children, rank, c, y) ==> SameAttrs(lv, pt, ps, y)
      requires !Within(children, rank, n, c) && !Within(children, rank, c, n)
      ensures ConsCols(name, par0, ch0, lv, pt, ps, n) ==>
                forall y :: 0 <= y < |name| && parent[y] == n && ConsCols(name, par0, ch0, lv, pt, ps, y) ==> !Cons(y)
    {
      if ConsCols(name, par0, ch0, lv, pt, ps, n) {
        forall y | 0 <= y < |name| && parent[y] == n && ConsCols(name, par0, ch0, lv, pt, ps, y)
          ensures !Cons(y)
        {
          ParentAbove(y);
          assert y != c;
          if Below(children, rank, c, y) {
            DescendantAttached(c, y);
            assert false;
          }
          assert y != n && par0[y] == n;
          assert SameAttrs(lv, pt, ps, y);
          assert |path[y]| == |pt[n]| + 1 + |name[y]|;
        }
      }
    }

    /**
     * With distinct sibling names, removing the child at index `k` of `c`
     * lowers the pos of every later sibling by one and keeps the earlier ones.
     */
    lemma RenumberedAfterRemove(c: nat, n: nat, ch0: seq<seq<nat>>, par0: seq<int>, lv: seq<int>, pt: seq<string>, ps: seq<int>)
      requires Valid() && c < |name| && n < |name|
      requires |ch0| == |name| && |par0| == |name| && |lv| == |name| && |pt| == |name| && |ps| == |name|
      requires forall x :: 0 <= x < |name| ==> par0[x] < |name|
      requires n in ch0[c] && children[c] == RemoveFirst(ch0[c], n) && Distinct(NamesOf(name, ch0[c]))
      requires forall j :: 0 <= j < |ch0[c]| ==> ch0[c][j] < |name|
      requires forall y :: 0 <= y < |name| && Below(children, rank, c, y) ==> Cons(y)
      requires forall y :: 0 <= y < |name| && y != n ==> par0[y] == parent[y]
      ensures forall j :: 0 <= j < |ch0[c]| && ch0[c][j] != n && ConsCols(name, par0, ch0, lv, pt, ps, ch0[c][j]) ==>
                pos[ch0[c][j]] == ps[ch0[c][j]] - (if j > FirstIndex(ch0[c], n) then 1 else 0)
    {
      var k := FirstIndex(ch0[c], n);
      RemoveFirstAt(ch0[c], n);
      DistinctAfterRemove(name, ch0[c], n);
      forall i | 0 <= i < |children[c]|
        ensures Cons(children[c][i])
      {
        BelowExtend(children, rank, c, c, i);
      }
      PositionsAreIndices(c);
      forall j | 0 <= j < |ch0[c]| && ch0[c][j] != n && ConsCols(name, par0, ch0, lv, pt, ps, ch0[c][j])
        ensures pos[ch0[c][j]] == ps[ch0[c][j]] - (if j > k then 1 else 0)
      {
        var i := if j < k then j else j - 1;
        assert children[c][i] == ch0[c][j];
        PosOfDistinct(NamesOf(name, ch0[c]), j);
      }
    }

    /**
     * With distinct sibling names, once every child of `c` is consistent its
     * pos is its 1-based index.
     */
    lemma PositionsAreIndices(c: nat)
      requires Valid() && c < |name| && Distinct(ChildNames(c))
      requires forall i :: 0 <= i < |children[c]| ==> Cons(children[c][i])
      ensures forall i :: 0 <= i < |children[c]| ==> pos[children[c][i]] == i + 1
    {
      forall i | 0 <= i < |children[c]|
        ensures pos[children[c][i]] == i + 1
      {
        PosOfDistinct(ChildNames(c), i);
      }
    }

    /** The first half of `remove`: `children.remove(n)` and `n.parent = None`. */
    method Unlink(c: nat, n: nat)
      requires Valid() && c < |name| && n in children[c]
      modifies this`children, this`parent
      ensures Valid()
      ensures children == old(children)[c := RemoveFirst(old(children[c]), n)]
      ensures parent == old(parent)[n := NoParent]
    {
      UnlinkForest(isContainer, parent, children, rank, c, n);
      children, parent := children[c := RemoveFirst(children[c], n)], parent[n := NoParent];
    }

    /** The first half of `append`: `children.append(n)` and `n.parent = c`. */
    method Link(c: nat, n: nat)
      requires Valid() && c < |name| && n < |name| && isContainer[c]
      requires parent[n] == NoParent && !Within(children, rank, n, c)
      modifies this`children, this`parent, this`rank
      ensures Valid()
      ensures children == old(children)[c := old(children[c]) + [n]]
      ensures parent == old(parent)[n := c]
    {
      LinkForest(isContainer, parent, children, rank, c, n);
      children, parent, rank := children[c := children[c] + [n]], parent[n := c], Lifted(children, rank, c, n);
    }

    /**
     * After a structural change at `c` and the recomputation of `c`'s
     * subtree, a node outside that subtree (other than `n`) that was
     * consistent under the old columns `ch0`, `par0`, `lv`, `pt`, `ps` still
     * is: neither it, nor its container, nor the container's child list moved.
     */
    lemma OutsideKept(c: nat, n: nat, ch0: seq<seq<nat>>, par0: seq<int>, lv: seq<int>, pt: seq<string>, ps: seq<int>)
      requires Valid() && c < |name| && n < |name|
      requires |ch0| == |name| && |par0| == |name| && |lv| == |name| && |pt| == |name| && |ps| == |name|
      requires forall a :: 0 <= a < |name| && a != c ==> children[a] == ch0[a]
      requires forall y :: 0 <= y < |name| && y != n ==> par0[y] == parent[y]
      requires forall y :: 0 <= y < |name| && y != n && !Within(children, rank, c, y) ==> SameAttrs(lv, pt, ps, y)
      ensures forall y :: (0 <= y < |name| && y != n && par0[y] != n && !Within(children, rank, c, y) &&
                           ConsCols(name, par0, ch0, lv, pt, ps, y)) ==> Cons(y)
    {
      forall y | 0 <= y < |name| && y != n && par0[y] != n && !Within(children, rank, c, y) &&
                 ConsCols(name, par0, ch0, lv, pt, ps, y)
        ensures Cons(y)
      {
        var p := parent[y];
        var j :| 0 <= j < |children[p]| && children[p][j] == y;
        if Within(children, rank, c, p) {
          BelowExtend(children, rank, c, p, j);
        }
      }
    }

    /** `reload_all()`: reload `c` itself, then all of its descendants. */
    method ReloadAll(c: nat)
      requires Valid() && c < |name|
      modifies this`level, this`path, this`pos
      ensures Valid()
      ensures parent[c] != NoParent ==> Cons(c)
      ensures parent[c] == NoParent ==> Reset(c)
      ensures forall y :: 0 <= y < |name| && Below(children, rank, c, y) ==> Cons(y)
      ensures forall y :: 0 <= y < |name| && !Within(children, rank, c, y) ==> AttrsOf(y) == old(AttrsOf(y))
      decreases rank[c], 3
    {
      Reload(c);
      ghost var lv, pt, ps := level, path, pos;
      ReloadChildren(c, false);
      if Below(children, rank, c, c) {
        BelowRank(children, rank, c, c);
      }
      if parent[c] != NoParent {
        var p := parent[c];
        ParentAbove(c);
        BelowRank(children, rank, p, c);
        if Below(children, rank, c, p) {
          BelowRank(children, rank, c, p);
        }
        ConsKept(lv, pt, ps, c);
      }
    }

    // -------------------------------------------------------------------
    // Structural changes (append, remove, move)
    // -------------------------------------------------------------------

    /**
     * `append(node)`: `n` becomes the last child of `c`, its parent is `c`,
     * and `c` is recomputed together with its whole subtree (reload_all).
     * The source checks neither that `n` is detached nor that `c` lies
     * outside `n`'s subtree; both are required here, since a cycle would make
     * reload_children recurse forever.
     */
    method Append(c: nat, n: nat)
      requires Valid() && c < |name| && n < |name| && isContainer[c]
      requires parent[n] == NoParent && !Within(children, rank, n, c)
      modifies this`children, this`parent, this`rank, this`level, this`path, this`pos
      ensures Valid() && name == old(name) && isContainer == old(isContainer)
      ensures children == old(children)[c := old(children[c]) + [n]]
      ensures parent == old(parent)[n := c]
      ensures parent[c] != NoParent ==> Cons(c)
      ensures parent[c] == NoParent ==> Reset(c)
      ensures Cons(n)
      ensures forall y :: 0 <= y < |name| && Below(children, rank, c, y) ==> Cons(y)
      ensures forall y :: 0 <= y < |name| && !Within(children, rank, c, y) ==> AttrsOf(y) == old(AttrsOf(y))
      ensures forall y :: 0 <= y < |name| && old(Settled(y)) ==> Settled(y)
    {
      ghost var ch0, par0, lv, pt, ps := children, parent, level, path, pos;
      Link(c, n);
      ReloadAll(c);
      BelowExtend(children, rank, c, c, |children[c]| - 1);
      OutsideKept(c, n, ch0, par0, lv, pt, ps);
    }

    /**
     * `move(new_parent)`: detach `n` from its container `p0` when it has one
     * (`remove`), then `append` it to `q`. A file's trailing `reload()` is
     * not repeated here: it would rewrite exactly the values `Cons(n)` below
     * already promises, and `ReloadFile` proves that write changes nothing.
     * Afterwards `q` is recomputed (or reset when parentless), `n` and
     * everything below `q` are consistent, so is everything below `p0`
     * together with `p0` itself, and no node outside the subtrees of `q` and
     * `p0` changes.
     */
    method Move(n: nat, q: nat)
      requires Valid() && n < |name| && q < |name| && isContainer[q]
      requires !Within(children, rank, n, q)
      modifies this`children, this`parent, this`rank, this`level, this`path, this`pos
      ensures Valid() && name == old(name) && isContainer == old(isContainer)
      ensures children == Detach(old(children), old(parent[n]), n)[q := Detach(old(children), old(parent[n]), n)[q] + [n]]
      ensures parent == old(parent)[n := q]
      ensures Reloaded(q) && ConsBelow(q) && Cons(n)
      ensures old(parent[n]) != NoParent ==> Reloaded(old(parent[n])) && ConsBelow(old(parent[n]))
      ensures forall y :: (0 <= y < |name| && !Within(children, rank, q, y) &&
                           (old(parent[n]) == NoParent || !Within(children, rank, old(parent[n]), y))) ==>
                AttrsOf(y) == old(AttrsOf(y))
      ensures forall y :: 0 <= y < |name| && old(Settled(y)) ==> Settled(y)
    {
      ghost var p0 := parent[n];
      DetachNode(n, q);
      Rehome(n, q, p0);
    }

    /**
     * What `move` does once `n` has left its container `p0` (None when it
     * had none): `append` to `q`. `p0` and its subtree stay as consistent
     * as the removal left them, and the nodes outside both subtrees keep
     * their attributes.
     */
    method Rehome(n: nat, q: nat, ghost p0: int)
      requires Valid() && n < |name| && q < |name| && isContainer[q]
      requires parent[n] == NoParent && !Within(children, rank, n, q)
      requires NoParent <= p0 < |name| && p0 != n
      requires p0 != NoParent ==> Reloaded(p0) && ConsBelow(p0)
      modifies this`children, this`parent, this`rank, this`level, this`path, this`pos
      ensures Valid() && name == old(name) && isContainer == old(isContainer)
      ensures children == old(children)[q := old(children[q]) + [n]]
      ensures parent == old(parent)[n := q]
      ensures Reloaded(q) && ConsBelow(q) && Cons(n)
      ensures p0 != NoParent ==> Reloaded(p0) && ConsBelow(p0)
      ensures forall y :: 0 <= y < |name| && !Within(children, rank, q, y) && (p0 == NoParent || !Within(children, rank, p0, y)) ==>
                y != n && AttrsOf(y) == old(AttrsOf(y)) && (p0 == NoParent || old(!Within(children, rank, p0, y)))
      ensures forall y :: 0 <= y < |name| && (y == n || parent[y] == n || old(Settled(y))) ==> Settled(y)
    {
      ghost var ch1, rank1, par1, lv, pt, ps := children, rank, parent, level, path, pos;
      AttachNode(n, q);
      MovedFrame(n, q, p0, ch1, rank1, lv, pt, ps);
      if p0 != NoParent {
        OldContainerKept(n, q, p0, ch1, rank1, par1, lv, pt, ps);
      }
    }

    /**
     * The nodes `move` leaves alone: outside the subtree of `q` nothing
     * changed since `n` left `p0`, and outside the subtree of `p0` (taken
     * after the move) nothing was touched by the removal either.
     */
    lemma MovedFrame(n: nat, q: nat, p0: int, ch1: seq<seq<nat>>, rank1: seq<nat>, lv: seq<int>, pt: seq<string>, ps: seq<int>)
      requires Valid() && n < |name| && q < |name| && p0 < |name|
      requires |ch1| == |name| && Ranked(ch1, rank1) && |lv| == |name| && |pt| == |name| && |ps| == |name|
      requires children == ch1[q := ch1[q] + [n]]
      requires forall y :: 0 <= y < |name| && !Within(children, rank, q, y) ==> SameAttrs(lv, pt, ps, y)
      ensures forall y :: 0 <= y < |name| && !Within(children, rank, q, y) && (p0 < 0 || !Within(children, rank, p0, y)) ==>
                y != n && SameAttrs(lv, pt, ps, y) && (p0 < 0 || !Within(ch1, rank1, p0, y))
    {
      BelowExtend(children, rank, q, q, |ch1[q]|);
      forall b, k | 0 <= b < |ch1| && 0 <= k < |ch1[b]|
        ensures ch1[b][k] in children[b]
      {
        assert children[b][k] == ch1[b][k];
      }
      forall y | 0 <= y < |name| && 0 <= p0 && Within(ch1, rank1, p0, y)
        ensures Within(children, rank, p0, y)
      {
        if y != p0 {
          BelowFewerEdges(children, ch1, rank, rank1, p0, y);
        }
      }
    }

    /**
     * After `n` left `p0` (child lists `ch1`, parents `par1`, attributes `lv`,
     * `pt`, `ps`, ranks `rank1`) and was appended to `q`, `p0` and its subtree
     * are still consistent: `q`'s reload recomputed what lies below `q`, and
     * left the rest as `p0`'s reload wrote it.
     */
    lemma OldContainerKept(n: nat, q: nat, p0: nat, ch1: seq<seq<nat>>, rank1: seq<nat>, par1: seq<int>,
                           lv: seq<int>, pt: seq<string>, ps: seq<int>)
      requires Valid() && n < |name| && q < |name| && p0 < |name| && p0 != n
      requires |ch1| == |name| && |par1| == |name| && |lv| == |name| && |pt| == |name| && |ps| == |name|
      requires Ranked(ch1, rank1)
      requires forall x :: 0 <= x < |name| ==> NoParent <= par1[x] < |name|
      requires forall x :: 0 <= x < |name| && par1[x] != NoParent ==> x in ch1[par1[x]]
      requires children == ch1[q := ch1[q] + [n]] && parent == par1[n := q]
      requires forall y :: 0 <= y < |name| && !Within(children, rank, q, y) ==> SameAttrs(lv, pt, ps, y)
      requires parent[q] != NoParent ==> Cons(q)
      requires parent[q] == NoParent ==> Reset(q)
      requires forall y :: 0 <= y < |name| && Below(children, rank, q, y) ==> Cons(y)
      requires par1[p0] != NoParent ==> ConsCols(name, par1, ch1, lv, pt, ps, p0)
      requires par1[p0] == NoParent ==> lv[p0] == -1 && pt[p0] == name[p0] && ps[p0] == -1
      requires forall y :: 0 <= y < |name| && Below(ch1, rank1, p0, y) ==> ConsCols(name, par1, ch1, lv, pt, ps, y)
      ensures parent[p0] != NoParent ==> Cons(p0)
      ensures parent[p0] == NoParent ==> Reset(p0)
      ensures forall y :: 0 <= y < |name| && Below(children, rank, p0, y) ==> Cons(y)
    {
      MovedKept(n, q, ch1, par1, lv, pt, ps);
      if p0 != q {
        if Below(children, rank, q, p0) {
          DescendantAttached(q, p0);
        } else {
          assert SameAttrs(lv, pt, ps, p0) && parent[p0] == par1[p0];
        }
      }
      forall y | 0 <= y < |name| && Below(children, rank, p0, y)
        ensures Cons(y)
      {
        if y == q {
          DescendantAttached(p0, q);
        } else if !Within(children, rank, q, y) {
          BelowBesideNewEdge(ch1, rank1, children, rank, q, n, p0, y);
          assert ConsCols(name, par1, ch1, lv, pt, ps, y);
        }
      }
    }

    /**
     * Appending `n` to `q` after the columns `ch1`, `par1`, `lv`, `pt`, `ps`
     * keeps every node outside `q`'s subtree that was consistent there.
     */
    lemma MovedKept(n: nat, q: nat, ch1: seq<seq<nat>>, par1: seq<int>, lv: seq<int>, pt: seq<string>, ps: seq<int>)
      requires Valid() && n < |name| && q < |name|
      requires |ch1| == |name| && |par1| == |name| && |lv| == |name| && |pt| == |name| && |ps| == |name|
      requires forall x :: 0 <= x < |name| ==> NoParent <= par1[x] < |name|
      requires forall x :: 0 <= x < |name| && par1[x] != NoParent ==> x in ch1[par1[x]]
      requires children == ch1[q := ch1[q] + [n]] && parent == par1[n := q]
      requires forall y :: 0 <= y < |name| && !Within(children, rank, q, y) ==> SameAttrs(lv, pt, ps, y)
      ensures forall y :: 0 <= y < |name| && !Within(children, rank, q, y) && ConsCols(name, par1, ch1, lv, pt, ps, y) ==> Cons(y)
    {
      BelowExtend(children, rank, q, q, |ch1[q]|);
      assert n != q;
      OutsideKept(q, n, ch1, par1, lv, pt, ps);
      forall y | 0 <= y < |name| && !Within(children, rank, q, y) && par1[y] == n
        ensures false
      {
        var k :| 0 <= k < |ch1[n]| && ch1[n][k] == y;
        assert children[n][k] == y;
        BelowExtend(children, rank, q, n, k);
      }
    }

    /** The first half of `move`: `remove` from the current container, if any. */
    method DetachNode(n: nat, q: nat)
      requires Valid() && n < |name| && q < |name| && !Within(children, rank, n, q)
      modifies this`children, this`parent, this`level, this`path, this`pos
      ensures Valid() && name == old(name) && isContainer == old(isContainer) && rank == old(rank)
      ensures children == Detach(old(children), old(parent[n]), n)
      ensures parent == old(parent)[n := NoParent]
      ensures !Within(children, rank, n, q)
      ensures old(parent[n]) != NoParent ==> Reloaded(old(parent[n])) && ConsBelow(old(parent[n]))
      ensures forall y :: 0 <= y < |name| && y != n && (old(parent[n]) == NoParent || !Within(children, rank, old(parent[n]), y)) ==>
                AttrsOf(y) == old(AttrsOf(y))
      ensures forall y :: 0 <= y < |name| && y != n && parent[y] != n && old(Settled(y)) ==> Settled(y)
    {
      var p := parent[n];
      if p != NoParent {
        ghost var ch0 := children;
        assert n in children[p];
        var _ := Remove(p, n);
        assert children == Detach(ch0, p, n);
        if Below(children, rank, n, q) {
          BelowFewerEdges(ch0, children, rank, rank, n, q);
        }
      }
    }

    /**
     * The second half of `move`: `append` to `q`. Besides what was settled,
     * `n` and its children end up consistent.
     */
    method AttachNode(n: nat, q: nat)
      requires Valid() && n < |name| && q < |name| && isContainer[q]
      requires parent[n] == NoParent && !Within(children, rank, n, q)
      modifies this`children, this`parent, this`rank, this`level, this`path, this`pos
      ensures Valid() && name == old(name) && isContainer == old(isContainer)
      ensures children == old(children)[q := old(children[q]) + [n]]
      ensures parent == old(parent)[n := q]
      ensures parent[q] != NoParent ==> Cons(q)
      ensures parent[q] == NoParent ==> Reset(q)
      ensures Cons(n)
      ensures forall y :: 0 <= y < |name| && Below(children, rank, q, y) ==> Cons(y)
      ensures forall y :: 0 <= y < |name| && !Within(children, rank, q, y) ==> AttrsOf(y) == old(AttrsOf(y))
      ensures forall y :: 0 <= y < |name| && (y == n || parent[y] == n || old(Settled(y))) ==> Settled(y)
    {
      Append(q, n);
      BelowExtend(children, rank, q, q, |children[q]| - 1);
      forall y | 0 <= y < |name| && y != n && parent[y] == n
        ensures Cons(y)
      {
        var k :| 0 <= k < |children[n]| && children[n][k] == y;
        BelowExtend(children, rank, q, n, k);
      }
    }

    /**
     * The final `reload()` of `Node.move`: it rewrites what append already
     * derived, so no node's attributes change.
     */
    method ReloadFile(n: nat)
      requires Valid() && n < |name| && !isContainer[n] && Cons(n)
      modifies this`level, this`path, this`pos
      ensures Valid() && Cons(n)
      ensures level == old(level) && path == old(path) && pos == old(pos)
    {
      ghost var lv, pt, ps := level, path, pos;
      ParentAbove(n);
      BelowRank(children, rank, parent[n], n);
      Reload(n);
      assert AttrsOf(parent[n]) == Attrs(lv[parent[n]], pt[parent[n]], ps[parent[n]]);
      assert AttrsOf(n) == Attrs(lv[n], pt[n], ps[n]);
      forall y | 0 <= y < |name|
        ensures level[y] == lv[y] && path[y] == pt[y] && pos[y] == ps[y]
      {
        assert AttrsOf(y) == Attrs(lv[y], pt[y], ps[y]);
      }
    }

    // -------------------------------------------------------------------
    // Construction (Node.__init__, ContainerNode.__init__, _create_root)
    // -------------------------------------------------------------------

    /**
     * `Node(nm, p)` / `ContainerNode(nm, p)`. Without a container the node
     * stays detached. With one, construction moves the node into `p`, sets
     * its pos back to -1 and moves it into `p` once more (remove, then
     * append), so it ends up as the last child of `p`, consistent with `p`.
     * Registration comes first here, so that the node has its id while it
     * is being moved.
     */
    method NewNode(nm: string, container: bool, p: int) returns (id: nat)
      requires Valid() && (p == NoParent || (0 <= p < |name| && isContainer[p]))
      modifies this
      ensures Valid() && id == old(|name|)
      ensures name == old(name) + [nm] && isContainer == old(isContainer) + [container]
      ensures p == NoParent ==> (children == old(children) + [[]] && parent == old(parent) + [NoParent] && Reset(id))
      ensures p != NoParent ==> (children == (old(children) + [[]])[p := old(children[p]) + [id]] &&
                parent == old(parent) + [p] && Cons(id))
      ensures p != NoParent && nm !in old(ChildNames(p)) ==> pos[id] == |children[p]|
      ensures p == NoParent ==> level == old(level) + [-1] && path == old(path) + [nm] && pos == old(pos) + [-1]
      ensures p != NoParent ==> Reloaded(p) && ConsBelow(p)
      ensures forall y :: 0 <= y < old(|name|) && (p == NoParent || !Within(children, rank, p, y)) ==>
                AttrsOf(y) == old(AttrsOf(y))
      ensures forall y :: 0 <= y < old(|name|) && old(Settled(y)) ==> Settled(y)
    {
      ghost var lv, pt, ps := level, path, pos;
      id := Register(nm, container);
      if p != NoParent {
        assert ChildNames(p) == old(ChildNames(p));
        assert forall y :: 0 <= y < |lv| ==> SameAttrs(lv, pt, ps, y);
        Adopt(id, p);
      }
    }

    /**
     * The two moves of construction: `n`, detached and childless, becomes the
     * last child of `p`; in between its pos is set to -1 (BasicNode.__init__).
     */
    method Adopt(n: nat, p: nat)
      requires Valid() && n < |name| && p < |name| && isContainer[p]
      requires parent[n] == NoParent && children[n] == [] && n != p
      modifies this`children, this`parent, this`rank, this`level, this`path, this`pos
      ensures Valid() && name == old(name) && isContainer == old(isContainer)
      ensures children == old(children)[p := old(children[p]) + [n]]
      ensures parent == old(parent)[n := p]
      ensures Reloaded(p) && ConsBelow(p) && Cons(n)
      ensures name[n] !in old(ChildNames(p)) ==> pos[n] == |children[p]|
      ensures forall y :: 0 <= y < |name| && !Within(children, rank, p, y) ==> AttrsOf(y) == old(AttrsOf(y))
      ensures forall y :: 0 <= y < |name| && old(Settled(y)) ==> Settled(y)
    {
      ghost var ch0, lv, pt, ps := children, level, path, pos;
      assert n !in ch0[p];
      Reattach(name, ch0, p, n);
      FirstMove(n, p);
      ghost var ch1, rank1, lv1, pt1, ps1 := children, rank, level, path, pos;
      SecondMove(n, p);
      KeptAcrossRanks(ch1, rank1, rank, p, lv, pt, ps, lv1, pt1, ps1, level, path, pos);
    }

    /**
     * The second move of construction: `n`, the last child of `p`, leaves
     * `p` and is appended to it again, so the child lists stay as they are.
     */
    method SecondMove(n: nat, p: nat)
      requires Valid() && n < |name| && p < |name| && isContainer[p] && n != p
      requires parent[n] == p && children[n] == [] && |children[p]| > 0 && children[p][|children[p]| - 1] == n
      requires n !in children[p][..|children[p]| - 1]
      modifies this`children, this`parent, this`rank, this`level, this`path, this`pos
      ensures children == old(children) && parent == old(parent)
      ensures Valid() && name == old(name) && isContainer == old(isContainer)
      ensures Reloaded(p) && ConsBelow(p) && Cons(n)
      ensures forall y :: 0 <= y < |name| && !Within(children, rank, p, y) ==>
                level[y] == old(level[y]) && path[y] == old(path[y]) && pos[y] == old(pos[y])
      ensures forall y :: 0 <= y < |name| && old(Settled(y)) ==> Settled(y)
    {
      ghost var ch1 := children;
      ghost var others := ch1[p][..|ch1[p]| - 1];
      assert ch1[p] == others + [n];
      assert ch1 == ch1[p := others][p := others + [n]];
      Reattach(name, ch1[p := others], p, n);
      assert parent[n := p] == parent;
      Move(n, p);
    }

    /** The first move of construction, followed by `self.pos = -1`. */
    method FirstMove(n: nat, p: nat)
      requires Valid() && n < |name| && p < |name| && isContainer[p]
      requires parent[n] == NoParent && children[n] == [] && n != p
      modifies this`children, this`parent, this`rank, this`level, this`path, this`pos
      ensures Valid() && name == old(name) && isContainer == old(isContainer)
      ensures children == old(children)[p := old(children[p]) + [n]]
      ensures parent == old(parent)[n := p]
      ensures forall y :: 0 <= y < |name| && !Within(children, rank, p, y) ==>
                level[y] == old(level[y]) && path[y] == old(path[y]) && pos[y] == old(pos[y])
      ensures forall y :: 0 <= y < |name| && y != n && old(Settled(y)) ==> Settled(y)
    {
      Move(n, p);
      BelowExtend(children, rank, p, p, |children[p]| - 1);
      ClearPos(n);
    }

    /** `self.pos = -1` in BasicNode.__init__, on a node without children. */
    method ClearPos(n: nat)
      requires Valid() && n < |name| && children[n] == []
      modifies this`pos
      ensures Valid() && pos == old(pos)[n := -1]
      ensures forall y :: 0 <= y < |name| && y != n && old(Settled(y)) ==> Settled(y)
    {
      ghost var lv, pt, ps := level, path, pos;
      pos := pos[n := -1];
      forall y | 0 <= y < |name| && y != n && parent[y] != NoParent && ConsIn(lv, pt, ps, y)
        ensures Cons(y)
      {
        if parent[y] == n {
          assert false;
        }
        ConsKept(lv, pt, ps, y);
      }
    }

    /**
     * `ContainerNode._create_root(nm)`: a new detached container whose level
     * is set to 0 (`_load_root`); its pos stays -1.
     */
    method CreateRoot(nm: string) returns (id: nat)
      requires Valid()
      modifies this
      ensures Valid() && id == old(|name|)
      ensures name == old(name) + [nm] && isContainer == old(isContainer) + [true]
      ensures children == old(children) + [[]] && parent == old(parent) + [NoParent]
      ensures level == old(level) + [0] && path == old(path) + [nm] && pos == old(pos) + [-1]
      ensures forall y :: 0 <= y < old(|name|) && old(Settled(y)) ==> Settled(y)
    {
      id := NewNode(nm, true, NoParent);
      level := level[id := 0];
    }
  }
}