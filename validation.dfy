/**
 * The operation validators of utils/tree/validation.py: one boolean rule
 * each for `move`, `append` and `remove`, looked up by operation and by the
 * kind of the target node. The rules only read the kind (file or
 * directory) and the parent of the nodes involved, so they are stated over
 * those two columns of the node registry.
 */
module Validation {
  import opened Wrappers
  import opened Shape
  import opened Tree2

  /** The argument a rule receives: `None`, a node of the registry, or a plain string. */
  datatype Operand = Nothing | Ref(id: nat) | Text(s: string)

  /** The operations the two tables name, and anything else. */
  datatype Op = Move | Append | Remove | Other(opName: string)

  /** The columns the rules read, and an argument that names a registered node if any. */
  predicate Fits(isContainer: seq<bool>, parent: seq<int>, target: nat, arg: Operand)
  {
    |isContainer| == |parent| && target < |parent| && (arg.Ref? ==> arg.id < |parent|)
  }

  /**
   * `move` (the same rule in both tables): the new parent is a directory
   * and not already the target's parent.
   */
  function MoveAllowed(isContainer: seq<bool>, parent: seq<int>, target: nat, newParent: Operand): (r: bool)
    requires Fits(isContainer, parent, target, newParent)
    ensures !newParent.Ref? ==> !r
    ensures newParent.Ref? && !isContainer[newParent.id] ==> !r
    ensures newParent.Ref? && parent[target] == newParent.id ==> !r
    ensures newParent.Ref? && isContainer[newParent.id] && parent[target] != newParent.id ==> r
  {
    match newParent
    case Ref(q) => isContainer[q] && parent[target] != q
    case _ => false
  }

  /**
   * `append`: the new child is a node (file or directory) whose parent is
   * not already the target.
   */
  function AppendAllowed(isContainer: seq<bool>, parent: seq<int>, target: nat, newChild: Operand): (r: bool)
    requires Fits(isContainer, parent, target, newChild)
    ensures !newChild.Ref? ==> !r
    ensures newChild.Ref? && parent[newChild.id] == target ==> !r
    ensures newChild.Ref? && parent[newChild.id] != target ==> r
  {
    match newChild
    case Ref(n) => parent[n] != target
    case _ => false
  }

  /**
   * `remove`: the child is a file (`Node`; a `ContainerNode` is not one)
   * whose parent is the target. A string passes the type test and then
   * has no `parent` attribute to read.
   */
  function RemoveAllowed(isContainer: seq<bool>, parent: seq<int>, target: nat, child: Operand): (r: Result<bool, Raised>)
    requires Fits(isContainer, parent, target, child)
    ensures r.Err? <==> child.Text?
    ensures r.Err? ==> r.error == AttributeError
    ensures r == Ok(true) <==> child.Ref? && !isContainer[child.id] && parent[child.id] == target
  {
    match child
    case Ref(n) => Ok(!isContainer[n] && parent[n] == target)
    case Text(_) => Err(AttributeError)
    case Nothing => Ok(false)
  }

  /**
   * `validate(method, target, arg)` as the two tables lay it out: `move`
   * is in both, and a file target uses the node table, a directory the
   * container table; `append` and `remove` are only in the container
   * table; any other operation is refused.
   */
  function Validate(isContainer: seq<bool>, parent: seq<int>, op: Op, target: nat, arg: Operand): (r: Result<bool, Raised>)
    requires Fits(isContainer, parent, target, arg)
    ensures op.Other? ==> r == Ok(false)
    ensures op == Move ==> r == Ok(MoveAllowed(isContainer, parent, target, arg))
    ensures op == Append ==> r == Ok(AppendAllowed(isContainer, parent, target, arg))
    ensures op == Remove ==> r == RemoveAllowed(isContainer, parent, target, arg)
  {
    match op
    case Move =>
      if !isContainer[target] then ValidateNode(isContainer, parent, target, arg)
      else ValidateContainerNode(isContainer, parent, op, target, arg)
    case Other(_) => Ok(false)
    case _ => ValidateContainerNode(isContainer, parent, op, target, arg)
  }

  /** `validate_node`: the node table holds `move` only. */
  function ValidateNode(isContainer: seq<bool>, parent: seq<int>, target: nat, arg: Operand): (r: Result<bool, Raised>)
    requires Fits(isContainer, parent, target, arg)
    ensures r.Ok?
    ensures r.value <==> arg.Ref? && isContainer[arg.id] && parent[target] != arg.id
  {
    Ok(MoveAllowed(isContainer, parent, target, arg))
  }

  /** `validate_container_node`: the container table holds `move`, `append` and `remove`. */
  function ValidateContainerNode(isContainer: seq<bool>, parent: seq<int>, op: Op, target: nat, arg: Operand): (r: Result<bool, Raised>)
    requires Fits(isContainer, parent, target, arg) && !op.Other?
    ensures op == Remove ==> (r.Err? <==> arg.Text?)
    ensures op != Remove ==> r.Ok?
  {
    match op
    case Move => Ok(MoveAllowed(isContainer, parent, target, arg))
    case Append => Ok(AppendAllowed(isContainer, parent, target, arg))
    case Remove => RemoveAllowed(isContainer, parent, target, arg)
  }

  // ---------------------------------------------------------------------
  // What the rules mean for the tree
  // ---------------------------------------------------------------------

  /**
   * In a well-formed tree, `remove` is allowed exactly for a file listed
   * among the target's children, which is when the container's own
   * `remove` finds it; a directory child is never allowed.
   */
  lemma RemoveAllowedIsListedFile(isContainer: seq<bool>, parent: seq<int>, ch: seq<seq<nat>>, rank: seq<nat>, c: nat, n: nat)
    requires Forest(isContainer, parent, ch, rank) && c < |ch| && n < |ch|
    ensures RemoveAllowed(isContainer, parent, c, Ref(n)) == Ok(true) <==> !isContainer[n] && n in ch[c]
    ensures isContainer[n] ==> RemoveAllowed(isContainer, parent, c, Ref(n)) == Ok(false)
  {
    if n in ch[c] {
      var k :| 0 <= k < |ch[c]| && ch[c][k] == n;
    }
  }

  /**
   * In a well-formed tree, `append` is allowed exactly for a node not yet
   * listed among the target's children.
   */
  lemma AppendAllowedIsUnlisted(isContainer: seq<bool>, parent: seq<int>, ch: seq<seq<nat>>, rank: seq<nat>, c: nat, n: nat)
    requires Forest(isContainer, parent, ch, rank) && c < |ch| && n < |ch|
    ensures AppendAllowed(isContainer, parent, c, Ref(n)) <==> n !in ch[c]
  {
    if n in ch[c] {
      var k :| 0 <= k < |ch[c]| && ch[c][k] == n;
    }
  }

  /**
   * In a well-formed tree, `move` is allowed exactly when the new parent is
   * a directory that does not list the target yet.
   */
  lemma MoveAllowedIsNewDirectory(isContainer: seq<bool>, parent: seq<int>, ch: seq<seq<nat>>, rank: seq<nat>, t: nat, q: nat)
    requires Forest(isContainer, parent, ch, rank) && t < |ch| && q < |ch|
    ensures MoveAllowed(isContainer, parent, t, Ref(q)) <==> isContainer[q] && t !in ch[q]
  {
    if t in ch[q] {
      var k :| 0 <= k < |ch[q]| && ch[q][k] == t;
    }
  }
}
