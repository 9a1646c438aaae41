/**
 * The line-by-line walk of `create_folders_from_diagram` (main.py). It reads
 * a diagram like `Builder.handle_generate` does, but every item is a
 * directory, and an item whose name is empty (after dropping one trailing
 * `/`) still pops the stack but is neither pushed nor created. The walk
 * yields the component lists of the directories `os.makedirs` would
 * receive.
 */
module CreateFolders {
  import opened Wrappers
  import opened DiagramLine
  import Builder

  /** The directories produced so far and the current path stack. */
  datatype Walk = Walk(dirs: seq<seq<string>>, stack: seq<string>)

  /** What one line, as read by `ParseLine`, does to the walk. */
  function Step(w: Walk, parsed: Option<Item>): Walk
  {
    match parsed
    case None => w
    case Some(it) =>
      var kept := Keep(w.stack, it.depth + 1);
      if it.name == [] then Walk(w.dirs, kept)
      else Walk(w.dirs + [kept + [it.name]], kept + [it.name])
  }

  /** The walk over the read lines, starting from the stack `[dist]`. */
  function Run(items: seq<Option<Item>>, dist: string): Walk
    decreases |items|
  {
    if items == [] then Walk([], [dist])
    else Step(Run(items[..|items| - 1], dist), items[|items| - 1])
  }

  /** `create_folders_from_diagram` without the file system. */
  method CreateFoldersFromDiagram(lines: seq<string>, dist: string) returns (dirs: seq<seq<string>>)
    ensures dirs == Run(Builder.Parse(lines), dist).dirs
  {
    var currentPath := [dist];
    dirs := [];
    var i := 0;
    while i < |lines|
      invariant 0 <= i <= |lines|
      invariant Walk(dirs, currentPath) == Run(Builder.Parse(lines[..i]), dist)
    {
      dirs, currentPath := FolderLine(dirs, currentPath, lines[i]);
      assert lines[..i + 1][..i] == lines[..i];
      assert Builder.Parse(lines[..i + 1]) == Builder.Parse(lines[..i]) + [ParseLine(lines[i])];
      i := i + 1;
    }
    assert lines[..|lines|] == lines;
  }

  /** The body of the loop in `create_folders_from_diagram`, for one line. */
  method FolderLine(dirs: seq<seq<string>>, currentPath: seq<string>, line: string)
    returns (dirs': seq<seq<string>>, currentPath': seq<string>)
    ensures Walk(dirs', currentPath') == Step(Walk(dirs, currentPath), ParseLine(line))
  {
    var parsed := ParseLine(line);
    dirs', currentPath' := PlaceFolder(dirs, currentPath, parsed);
  }

  /** What the loop body does with the reading of a line: pop, then push and create a non-empty name. */
  method PlaceFolder(dirs: seq<seq<string>>, currentPath: seq<string>, parsed: Option<Item>)
    returns (dirs': seq<seq<string>>, currentPath': seq<string>)
    ensures Walk(dirs', currentPath') == Step(Walk(dirs, currentPath), parsed)
  {
    dirs', currentPath' := dirs, currentPath;
    if parsed.Some? {
      var item := parsed.value;
      currentPath' := PopTo(currentPath', item.depth + 1);
      if item.name != [] {
        currentPath' := currentPath' + [item.name];
        dirs' := dirs' + [currentPath'];
      }
    }
  }

  /**
   * The destination stays at the bottom of the stack, every directory
   * path starts at it and ends in a non-empty name, and there is at most one
   * directory per non-blank line.
   */
  lemma {:induction false} RunShape(items: seq<Option<Item>>, dist: string)
    ensures |Run(items, dist).stack| >= 1 && Run(items, dist).stack[0] == dist
    ensures |Run(items, dist).dirs| <= Builder.Processed(items)
    ensures forall d :: d in Run(items, dist).dirs ==> |d| >= 2 && d[0] == dist && d[|d| - 1] != []
    decreases |items|
  {
    if items != [] {
      var init, last := items[..|items| - 1], items[|items| - 1];
      RunShape(init, dist);
      var w := Run(init, dist);
      if last.Some? {
        var it := last.value;
        var kept := Keep(w.stack, it.depth + 1);
        assert kept[0] == w.stack[0];
        if it.name != [] {
          var d := kept + [it.name];
          assert d[|d| - 1] == it.name;
          assert Run(items, dist).dirs == w.dirs + [d];
        }
      }
    }
  }

  /** The component paths of the builder's entries. */
  function Paths(entries: seq<Builder.Entry>): (r: seq<seq<string>>)
    ensures |r| == |entries| && forall i :: 0 <= i < |entries| ==> r[i] == entries[i].path
  {
    if entries == [] then [] else Paths(entries[..|entries| - 1]) + [entries[|entries| - 1].path]
  }

  /** No non-blank line names an empty item. */
  predicate NamesPresent(items: seq<Option<Item>>)
  {
    forall i :: 0 <= i < |items| && items[i].Some? ==> items[i].value.name != []
  }

  /**
   * When no line names an empty item, both walkers keep the same stack and
   * produce the same paths: main.py creates a directory at every path for
   * which the builder yields an entry.
   */
  lemma {:induction false} AgreesWithBuilder(items: seq<Option<Item>>, dist: string)
    requires NamesPresent(items)
    ensures Run(items, dist).stack == Builder.Run(items, dist).stack
    ensures Run(items, dist).dirs == Paths(Builder.Run(items, dist).entries)
    decreases |items|
  {
    if items != [] {
      var init, last := items[..|items| - 1], items[|items| - 1];
      assert NamesPresent(init) by {
        forall i | 0 <= i < |init| && init[i].Some?
          ensures init[i].value.name != []
        {
          assert init[i] == items[i];
        }
      }
      AgreesWithBuilder(init, dist);
      var bw := Builder.Run(init, dist);
      if last.Some? {
        var e := Builder.Entry(Builder.Step(bw, last).stack, last.value.slashed);
        assert Paths(bw.entries + [e]) == Paths(bw.entries) + [e.path];
      }
    }
  }
}
