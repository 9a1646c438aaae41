/**
 * The reading of one line of a tree diagram, shared by the two diagram
 * walkers (models/builder.py and main.py): Python's `rstrip`, `lstrip`,
 * `strip` and `split('─')[-1]` on such a line, the depth of an entry and
 * its name.
 */
module DiagramLine {
  import opened Wrappers

  /** The box-drawing characters of a diagram. */
  const Bar: char := '\U{2502}'
  const Tee: char := '\U{251C}'
  const Corner: char := '\U{2514}'
  const Dash: char := '\U{2500}'

  /** Python's `str.isspace` on one character. */
  predicate IsSpace(c: char)
  {
    ('\U{9}' <= c <= '\U{D}') || ('\U{1C}' <= c <= '\U{20}') || c == '\U{85}' || c == '\U{A0}' ||
    c == '\U{1680}' || ('\U{2000}' <= c <= '\U{200A}') || c == '\U{2028}' || c == '\U{2029}' ||
    c == '\U{202F}' || c == '\U{205F}' || c == '\U{3000}'
  }

  /** The characters `lstrip(' │├└')` removes; the dash is not one of them. */
  predicate IsIndent(c: char)
  {
    c == ' ' || c == Bar || c == Tee || c == Corner
  }

  /** `s.rstrip()`: `s` without its trailing whitespace. */
  function RStrip(s: string): (r: string)
    ensures r <= s
  {
    if s != [] && IsSpace(s[|s| - 1]) then RStrip(s[..|s| - 1]) else s
  }

  /** `rstrip` removes whitespace only, and all of it: what is left does not end in whitespace. */
  lemma {:induction false} RStripSpaces(s: string)
    ensures RStrip(s) == [] || !IsSpace(RStrip(s)[|RStrip(s)| - 1])
    ensures forall i :: |RStrip(s)| <= i < |s| ==> IsSpace(s[i])
    decreases |s|
  {
    if s != [] && IsSpace(s[|s| - 1]) {
      RStripSpaces(s[..|s| - 1]);
    }
  }

  /** `s.lstrip(chars)`: `s` without its leading characters from `chars`. */
  function LStrip(s: string, chars: char -> bool): (r: string)
    ensures |r| <= |s| && r == s[|s| - |r|..]
  {
    if s != [] && chars(s[0]) then LStrip(s[1..], chars) else s
  }

  /** `lstrip` removes characters from `chars` only, and all of the leading ones. */
  lemma {:induction false} LStripChars(s: string, chars: char -> bool)
    ensures LStrip(s, chars) == [] || !chars(LStrip(s, chars)[0])
    ensures forall i :: 0 <= i < |s| - |LStrip(s, chars)| ==> chars(s[i])
    decreases |s|
  {
    if s != [] && chars(s[0]) {
      LStripChars(s[1..], chars);
    }
  }

  /** `s.strip()` */
  function Strip(s: string): string
  {
    LStrip(RStrip(s), IsSpace)
  }

  /** `strip` leaves a text that neither starts nor ends with whitespace. */
  lemma StripEnds(s: string)
    ensures Strip(s) == [] || (!IsSpace(Strip(s)[0]) && !IsSpace(Strip(s)[|Strip(s)| - 1]))
  {
    var t := RStrip(s);
    RStripSpaces(s);
    LStripChars(t, IsSpace);
    var r := Strip(s);
    if r != [] {
      assert r[|r| - 1] == t[|t| - 1];
    }
  }

  /** `strip` only removes characters: what is left is a piece of `s`. */
  lemma StripWithin(s: string)
    ensures forall c :: c in Strip(s) ==> c in s
  {
    var t := RStrip(s);
    var r := Strip(s);
    forall c | c in r
      ensures c in s
    {
      var k :| 0 <= k < |r| && r[k] == c;
      assert t[|t| - |r| + k] == c;
      assert s[|t| - |r| + k] == c;
    }
  }

  /**
   * `len(s) - len(s.lstrip(' │├└'))`: the number of leading indent
   * characters.
   */
  function Depth(s: string): (d: nat)
    ensures d <= |s|
  {
    |s| - |LStrip(s, IsIndent)|
  }

  /** The depth counts exactly the leading run of tree characters and spaces. */
  lemma DepthCounts(s: string)
    ensures forall i :: 0 <= i < Depth(s) ==> IsIndent(s[i])
    ensures Depth(s) < |s| ==> !IsIndent(s[Depth(s)])
  {
    LStripChars(s, IsIndent);
  }

  /** `s.split('─')[-1]`: the text after the last dash, or all of `s` without one. */
  function AfterLastDash(s: string): (r: string)
    ensures |r| <= |s| && r == s[|s| - |r|..]
  {
    if s == [] then []
    else if s[|s| - 1] == Dash then []
    else
      var t := AfterLastDash(s[..|s| - 1]);
      assert s[|s| - |t| - 1..] == s[..|s| - 1][|s| - 1 - |t|..] + [s[|s| - 1]];
      t + [s[|s| - 1]]
  }

  /** The text after the last dash holds no dash, and a dash precedes it unless it is all of `s`. */
  lemma {:induction false} AfterLastDashMeaning(s: string)
    ensures Dash !in AfterLastDash(s)
    ensures |AfterLastDash(s)| < |s| ==> s[|s| - |AfterLastDash(s)| - 1] == Dash
    decreases |s|
  {
    if s != [] && s[|s| - 1] != Dash {
      AfterLastDashMeaning(s[..|s| - 1]);
    }
  }

  /** The item of a diagram line: the text after the last dash, stripped. */
  function ItemName(s: string): string
  {
    Strip(AfterLastDash(s))
  }

  /** A trailing `/` marks a folder. */
  predicate EndsWithSlash(s: string)
  {
    s != [] && s[|s| - 1] == '/'
  }

  /** `s[:-1]` when `s` ends with `/`, else `s`. */
  function Unslashed(s: string): (r: string)
    ensures r <= s
    ensures EndsWithSlash(s) ==> r + ['/'] == s
    ensures !EndsWithSlash(s) ==> r == s
  {
    if EndsWithSlash(s) then s[..|s| - 1] else s
  }

  /**
   * The path stack popped until it holds at most `n` entries (the
   * `while len(current_path) > depth + 1: pop()` loop).
   */
  function Keep(stack: seq<string>, n: nat): (r: seq<string>)
    ensures |r| == if |stack| <= n then |stack| else n
    ensures r <= stack
  {
    if |stack| <= n then stack else stack[..n]
  }

  /** The pop loop itself, shared by both walkers. */
  method PopTo(stack: seq<string>, n: nat) returns (r: seq<string>)
    ensures r == Keep(stack, n)
  {
    r := stack;
    while |r| > n
      invariant r <= stack && |r| >= if |stack| <= n then |stack| else n
      decreases |r|
    {
      r := r[..|r| - 1];
    }
  }

  /** What a non-blank line states: its depth, its item name without a trailing `/`, and whether there was one. */
  datatype Item = Item(depth: nat, name: string, slashed: bool)

  /**
   * The reading both walkers make of a line: nothing for a line blank after
   * `rstrip`, else the depth and item name of the stripped line.
   */
  function ParseLine(line: string): Option<Item>
  {
    var s := RStrip(line);
    if s == [] then None
    else
      var nm := ItemName(s);
      Some(Item(Depth(s), Unslashed(nm), EndsWithSlash(nm)))
  }

  /** A parsed line holds as many leading tree characters as its depth, and no more. */
  lemma ParseLineDepth(line: string)
    requires !Blank(line)
    ensures ParseLine(line).Some?
    ensures ParseLine(line).value.depth <= |RStrip(line)|
    ensures forall i :: 0 <= i < ParseLine(line).value.depth ==> IsIndent(RStrip(line)[i])
    ensures ParseLine(line).value.depth < |RStrip(line)| ==> !IsIndent(RStrip(line)[ParseLine(line).value.depth])
  {
    DepthCounts(RStrip(line));
  }

  /**
   * The name of a parsed line, with the `/` put back for a folder, is the
   * stripped text after the last dash, and it contains no dash.
   */
  lemma ParseLineName(line: string)
    requires !Blank(line)
    ensures ParseLine(line).Some?
    ensures var it := ParseLine(line).value;
            it.name + (if it.slashed then "/" else "") == ItemName(RStrip(line))
    ensures Dash !in ParseLine(line).value.name
  {
    var s := RStrip(line);
    var after := AfterLastDash(s);
    var nm := Strip(after);
    var it := ParseLine(line).value;
    assert it == Item(Depth(s), Unslashed(nm), EndsWithSlash(nm));
    AfterLastDashMeaning(s);
    StripWithin(after);
    forall c | c in it.name
      ensures c != Dash
    {
      assert c in nm;
    }
  }

  /** A line is processed when something is left of it after `rstrip`. */
  predicate Blank(line: string)
  {
    RStrip(line) == []
  }

  /** `rstrip` keeps exactly the content of a line ending in a line break. */
  lemma RStripNewline(s: string)
    ensures RStrip(s + "\n") == RStrip(s)
  {
    assert (s + "\n")[..|s + "\n"| - 1] == s;
  }
}
