/**
 * The line-by-line walk of `Builder.handle_generate` (models/builder.py):
 * every non-blank diagram line pops a stack of path components, whose bottom
 * is the destination directory, to `depth + 1` entries and pushes its name,
 * where the depth counts the line's leading ` │├└` characters rather than
 * tree levels. With the usual four-character indentation, the items below
 * the first level therefore nest under their preceding sibling instead of
 * sitting beside it (`SiblingsNest`). The walk yields, per line, the path
 * stack and whether the item is a folder; what the source does with them on
 * disk is not part of this model.
 */
module Builder {
  import opened Wrappers
  import opened DiagramLine

  /** One line's path and kind: the components `os.path.join` receives, and whether it names a folder. */
  datatype Entry = Entry(path: seq<string>, isFolder: bool)

  /** The items produced so far and the current path stack. */
  datatype Walk = Walk(entries: seq<Entry>, stack: seq<string>)

  /** What one line, as read by `ParseLine`, does to the walk. */
  function Step(w: Walk, parsed: Option<Item>): Walk
  {
    match parsed
    case None => w
    case Some(it) =>
      var stack := Keep(w.stack, it.depth + 1) + [it.name];
      Walk(w.entries + [Entry(stack, it.slashed)], stack)
  }

  /** The reading of every line, in order. */
  function Parse(lines: seq<string>): (r: seq<Option<Item>>)
    ensures |r| == |lines|
  {
    if lines == [] then [] else Parse(lines[..|lines| - 1]) + [ParseLine(lines[|lines| - 1])]
  }

  /** The walk over the read lines, starting from the stack `[dist]`. */
  function Run(items: seq<Option<Item>>, dist: string): Walk
    decreases |items|
  {
    if items == [] then Walk([], [dist])
    else Step(Run(items[..|items| - 1], dist), items[|items| - 1])
  }

  /** The number of lines that are not blank after `rstrip`. */
  function Processed(items: seq<Option<Item>>): nat
  {
    if items == [] then 0
    else Processed(items[..|items| - 1]) + (if items[|items| - 1].None? then 0 else 1)
  }

  /**
   * `handle_generate` without the file system: the loop over the lines with
   * its pops and pushes; it reports success once every line is processed.
   */
  method HandleGenerate(lines: seq<string>, dist: string) returns (entries: seq<Entry>, status: bool)
    ensures entries == Run(Parse(lines), dist).entries
    ensures status
  {
    var currentPath := [dist];
    entries := [];
    var i := 0;
    while i < |lines|
      invariant 0 <= i <= |lines|
      invariant Walk(entries, currentPath) == Run(Parse(lines[..i]), dist)
    {
      entries, currentPath := HandleLine(entries, currentPath, lines[i]);
      assert lines[..i + 1][..i] == lines[..i];
      assert Parse(lines[..i + 1]) == Parse(lines[..i]) + [ParseLine(lines[i])];
      i := i + 1;
    }
    assert lines[..|lines|] == lines;
    status := true;
  }

  /** The body of the loop in `handle_generate`, for one line. */
  method HandleLine(entries: seq<Entry>, currentPath: seq<string>, line: string)
    returns (entries': seq<Entry>, currentPath': seq<string>)
    ensures Walk(entries', currentPath') == Step(Walk(entries, currentPath), ParseLine(line))
  {
    var parsed := ParseLine(line);
    entries', currentPath' := PlaceItem(entries, currentPath, parsed);
  }

  /** What the loop body does with the reading of a line: pop, push, record. */
  method PlaceItem(entries: seq<Entry>, currentPath: seq<string>, parsed: Option<Item>)
    returns (entries': seq<Entry>, currentPath': seq<string>)
    ensures Walk(entries', currentPath') == Step(Walk(entries, currentPath), parsed)
  {
    entries', currentPath' := entries, currentPath;
    if parsed.Some? {
      var item := parsed.value;
      currentPath' := PopTo(currentPath', item.depth + 1);
      currentPath' := currentPath' + [item.name];
      entries' := entries' + [Entry(currentPath', item.slashed)];
    }
  }

  /**
   * A non-blank line pops the stack to `depth + 1` entries, never below the
   * destination, and pushes its item name, even an empty one, without the
   * trailing `/` of a folder.
   */
  lemma StepStack(w: Walk, it: Item, kept: nat)
    requires |w.stack| >= 1
    requires kept == if |w.stack| <= it.depth + 1 then |w.stack| else it.depth + 1
    ensures 1 <= kept && |Step(w, Some(it)).stack| == kept + 1
    ensures Step(w, Some(it)).stack[..kept] == w.stack[..kept]
    ensures Step(w, Some(it)).stack[kept] == it.name
    ensures Step(w, Some(it)).entries == w.entries + [Entry(Step(w, Some(it)).stack, it.slashed)]
  {
    var st := Keep(w.stack, it.depth + 1) + [it.name];
    assert st[..kept] == w.stack[..kept];
  }

  /**
   * The depth is a character count, not a level: a line whose depth reaches
   * the stack's height pops nothing and goes below the item on top.
   */
  lemma DeepLineNests(w: Walk, it: Item)
    requires |w.stack| <= it.depth + 1
    ensures Step(w, Some(it)).stack == w.stack + [it.name]
    ensures Step(w, Some(it)).entries == w.entries + [Entry(w.stack + [it.name], it.slashed)]
  {
  }

  /**
   * The diagram `project/`, `├── src/`, `│   ├── main.py`, `│   └── utils.py`
   * reads as depths 0, 1, 5 and 5, so `utils.py` lands below `main.py`.
   */
  lemma SiblingsNest(dist: string)
    ensures Run([Some(Item(0, "project", true)), Some(Item(1, "src", true)),
                 Some(Item(5, "main.py", false)), Some(Item(5, "utils.py", false))], dist).stack
            == [dist, "project", "src", "main.py", "utils.py"]
  {
    var items := [Some(Item(0, "project", true)), Some(Item(1, "src", true)),
                  Some(Item(5, "main.py", false)), Some(Item(5, "utils.py", false))];
    assert items[..1][..0] == [] && items[..2][..1] == items[..1] && items[..3][..2] == items[..2];
    assert items[..4] == items && items[..4][..3] == items[..3];
    var w0 := Run([], dist);
    var w1 := Run(items[..1], dist);
    assert w1 == Step(w0, Some(Item(0, "project", true)));
    assert Keep([dist], 1) == [dist];
    assert w1.stack == [dist, "project"];
    var w2 := Run(items[..2], dist);
    assert w2 == Step(w1, Some(Item(1, "src", true)));
    assert Keep([dist, "project"], 2) == [dist, "project"];
    var w3 := Run(items[..3], dist);
    assert w3 == Step(w2, Some(Item(5, "main.py", false)));
    DeepLineNests(w2, Item(5, "main.py", false));
    assert Run(items, dist) == Step(w3, Some(Item(5, "utils.py", false)));
    DeepLineNests(w3, Item(5, "utils.py", false));
  }

  /**
   * Over the whole walk, the destination stays at the bottom of the stack,
   * one entry is produced per non-blank line, and every entry's path starts
   * at the destination and has the item below it.
   */
  lemma {:induction false} RunShape(items: seq<Option<Item>>, dist: string)
    ensures |Run(items, dist).stack| >= 1 && Run(items, dist).stack[0] == dist
    ensures |Run(items, dist).entries| == Processed(items)
    ensures forall e :: e in Run(items, dist).entries ==> |e.path| >= 2 && e.path[0] == dist
    decreases |items|
  {
    if items != [] {
      var init, last := items[..|items| - 1], items[|items| - 1];
      RunShape(init, dist);
      var w := Run(init, dist);
      if last.Some? {
        var it := last.value;
        var kept := Keep(w.stack, it.depth + 1);
        assert kept[0] == w.stack[0];
        var e := Entry(kept + [it.name], it.slashed);
        assert Run(items, dist).entries == w.entries + [e];
      }
    }
  }
}
