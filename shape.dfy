/**
 * shape/shape.py: tab expansion of source lines, and the "shape" image in
 * which every non-whitespace character of the expanded lines is a black cell
 * on a white grid as wide as the longest line and as tall as the line count.
 */
module Shape {
  import opened Sequences

  /** `" " * n`: n spaces, none when n is zero or negative. */
  function Spaces(n: int): (s: string)
    ensures |s| == Max(n, 0)
    ensures forall i :: 0 <= i < |s| ==> s[i] == ' '
  {
    if n <= 0 then [] else Repeat(' ', n)
  }

  /** What one character becomes: a tab becomes `tabwidth` spaces, anything else stays. */
  function Expansion(c: char, tabwidth: int): string
  {
    if c == '\t' then Spaces(tabwidth) else [c]
  }

  /** The line with every character expanded, in order. */
  function ExpandTabs(line: string, tabwidth: int): string
  {
    if line == [] then [] else Expansion(line[0], tabwidth) + ExpandTabs(line[1..], tabwidth)
  }

  /** Expansion works character by character, so it distributes over concatenation. */
  lemma {:induction false} ExpandTabsAppend(a: string, b: string, tabwidth: int)
    ensures ExpandTabs(a + b, tabwidth) == ExpandTabs(a, tabwidth) + ExpandTabs(b, tabwidth)
  {
    if a == [] {
      assert a + b == b;
    } else {
      assert (a + b)[1..] == a[1..] + b;
      ExpandTabsAppend(a[1..], b, tabwidth);
    }
  }

  /** `convert_tabs`: append each character's expansion to the result, then join. */
  method ConvertTabs(line: string, tabwidth: int) returns (result: string)
    ensures result == ExpandTabs(line, tabwidth)
  {
    result := [];
    for i := 0 to |line|
      invariant result == ExpandTabs(line[..i], tabwidth)
    {
      var c := line[i];
      ExpandTabsAppend(line[..i], [c], tabwidth);
      assert line[..i + 1] == line[..i] + [c];
      assert ExpandTabs([c], tabwidth) == Expansion(c, tabwidth) + ExpandTabs([], tabwidth);
      if c == '\t' {
        result := result + Spaces(tabwidth);
      } else {
        result := result + [c];
      }
    }
    assert line[..|line|] == line;
  }

  /** No tab survives expansion. */
  lemma {:induction false} ExpandTabsHasNoTab(line: string, tabwidth: int)
    ensures '\t' !in ExpandTabs(line, tabwidth)
  {
    if line != [] {
      ExpandTabsHasNoTab(line[1..], tabwidth);
    }
  }

  /** A line without tabs comes back unchanged. */
  lemma {:induction false} ExpandTabsWithoutTabs(line: string, tabwidth: int)
    requires '\t' !in line
    ensures ExpandTabs(line, tabwidth) == line
  {
    if line != [] {
      assert line[1..] == line[1..];
      assert '\t' !in line[1..] by {
        assert forall c :: c in line[1..] ==> c in line;
      }
      ExpandTabsWithoutTabs(line[1..], tabwidth);
    }
  }

  function CountTabs(line: string): nat
  {
    if line == [] then 0 else (if line[0] == '\t' then 1 else 0) + CountTabs(line[1..])
  }

  /** Each tab adds `tabwidth - 1` characters. */
  lemma {:induction false} ExpandTabsLength(line: string, tabwidth: nat)
    ensures |ExpandTabs(line, tabwidth)| == |line| + (tabwidth - 1) * CountTabs(line)
  {
    if line != [] {
      var t := CountTabs(line[1..]);
      var a: int := tabwidth - 1;
      ExpandTabsLength(line[1..], tabwidth);
      assert |ExpandTabs(line[1..], tabwidth)| == |line| - 1 + a * t;
      if line[0] == '\t' {
        assert CountTabs(line) == t + 1;
        assert |Expansion(line[0], tabwidth)| == a + 1;
        MulSucc(a, t);
      } else {
        assert CountTabs(line) == t;
        assert |Expansion(line[0], tabwidth)| == 1;
      }
    }
  }

  lemma MulSucc(a: int, t: nat)
    ensures a * (t + 1) == a * t + a
  {
  }

  /**
   * Where each character lands: at the length of the expanded prefix before
   * it, a tab's spaces or the character itself, unchanged.
   */
  lemma ExpandTabsAt(line: string, tabwidth: int, k: nat)
    requires k < |line|
    ensures var o := |ExpandTabs(line[..k], tabwidth)|;
      && o + |Expansion(line[k], tabwidth)| <= |ExpandTabs(line, tabwidth)|
      && ExpandTabs(line, tabwidth)[o..o + |Expansion(line[k], tabwidth)|] == Expansion(line[k], tabwidth)
      && |ExpandTabs(line[..k + 1], tabwidth)| == o + |Expansion(line[k], tabwidth)|
  {
    var before, at, after := line[..k], [line[k]], line[k + 1..];
    assert line == before + at + after;
    ExpandTabsAppend(before + at, after, tabwidth);
    ExpandTabsAppend(before, at, tabwidth);
    assert ExpandTabs(at, tabwidth) == Expansion(line[k], tabwidth) + ExpandTabs([], tabwidth);
    assert line[..k + 1] == before + at;
  }

  /** Python's `str.isspace` on the ASCII and Latin-1 range. */
  predicate IsSpace(c: char)
  {
    c == ' ' || ('\t' <= c <= '\r') || ('\U{1C}' <= c <= '\U{1F}') || c == '\U{85}' || c == '\U{A0}'
  }

  datatype Rgb = Rgb(r: int, g: int, b: int)

  const White: Rgb := Rgb(255, 255, 255)

  const Black: Rgb := Rgb(0, 0, 0)

  /** `[convert_tabs(line, tabwidth) for line in lines]`. */
  function ExpandLines(text: seq<string>, tabwidth: int): (lines: seq<string>)
    ensures |lines| == |text|
    ensures forall y :: 0 <= y < |text| ==> lines[y] == ExpandTabs(text[y], tabwidth)
  {
    if text == [] then [] else [ExpandTabs(text[0], tabwidth)] + ExpandLines(text[1..], tabwidth)
  }

  /** The shape rule: cell (x, y) is dark exactly when line y has a non-whitespace character at x. */
  predicate IsDark(lines: seq<string>, x: nat, y: nat)
    requires y < |lines|
  {
    x < |lines[y]| && !IsSpace(lines[y][x])
  }

  /** The colour the shape rule gives cell (x, y). */
  function CellColor(lines: seq<string>, x: nat, y: nat): Rgb
    requires y < |lines|
  {
    if IsDark(lines, x, y) then Black else White
  }

  /**
   * The shape image of the source lines: expand the tabs, make a white grid
   * as wide as the longest line and as tall as the line count, and blacken the
   * cell of every non-whitespace character.
   */
  method DrawShape(text: seq<string>, tabwidth: int) returns (image: array2<Rgb>)
    requires |text| > 0
    ensures fresh(image)
    ensures image.Length0 == MaxLen(ExpandLines(text, tabwidth))
    ensures image.Length1 == |text|
    ensures forall x, y :: 0 <= x < image.Length0 && 0 <= y < image.Length1 ==>
      image[x, y] == CellColor(ExpandLines(text, tabwidth), x, y)
  {
    var lines: seq<string> := [];
    for i := 0 to |text|
      invariant |lines| == i
      invariant forall j :: 0 <= j < i ==> lines[j] == ExpandTabs(text[j], tabwidth)
    {
      var line := ConvertTabs(text[i], tabwidth);
      lines := lines + [line];
    }
    assert lines == ExpandLines(text, tabwidth);
    var width := MaxLen(lines);
    var height := |lines|;
    image := new Rgb[width, height]((x, y) => White);
    for y := 0 to height
      invariant forall x', y' :: 0 <= x' < width && 0 <= y' < height ==>
        image[x', y'] == if y' < y then CellColor(lines, x', y') else White
    {
      PaintLine(image, lines, y);
    }
  }

  /** The inner loop of the shape rule: blacken line y's non-whitespace cells, leave every other cell. */
  method PaintLine(image: array2<Rgb>, lines: seq<string>, y: nat)
    requires y < |lines| && y < image.Length1 && |lines[y]| <= image.Length0
    modifies image
    ensures forall x', y' :: 0 <= x' < image.Length0 && 0 <= y' < image.Length1 ==>
      image[x', y'] == if y' == y && IsDark(lines, x', y) then Black else old(image[x', y'])
  {
    var line := lines[y];
    for x := 0 to |line|
      invariant forall x', y' :: 0 <= x' < image.Length0 && 0 <= y' < image.Length1 ==>
        image[x', y'] == if y' == y && x' < x && IsDark(lines, x', y) then Black else old(image[x', y'])
    {
      if !IsSpace(line[x]) {
        image[x, y] := Black;
      }
    }
  }

  /**
   * Against the source line: a tab's cells are all white, and any other
   * character's cell, at its expanded position, is black exactly when the
   * character is not whitespace.
   */
  lemma ShapeOfSourceLine(text: seq<string>, tabwidth: int, y: nat, k: nat)
    requires y < |text| && k < |text[y]|
    ensures var lines := ExpandLines(text, tabwidth);
      var o := |ExpandTabs(text[y][..k], tabwidth)|;
      && (text[y][k] == '\t' ==> forall x :: o <= x < o + Max(tabwidth, 0) ==> !IsDark(lines, x, y))
      && (text[y][k] != '\t' ==> (IsDark(lines, o, y) <==> !IsSpace(text[y][k])))
  {
    var lines := ExpandLines(text, tabwidth);
    var line := text[y];
    var expanded := ExpandTabs(line, tabwidth);
    var o := |ExpandTabs(line[..k], tabwidth)|;
    var piece := Expansion(line[k], tabwidth);
    ExpandTabsAt(line, tabwidth, k);
    assert lines[y] == expanded;
    assert expanded[o..o + |piece|] == piece;
    if line[k] == '\t' {
      forall x | o <= x < o + Max(tabwidth, 0) ensures !IsDark(lines, x, y) {
        assert expanded[x] == expanded[o..o + |piece|][x - o] == ' ';
      }
    } else {
      assert expanded[o] == expanded[o..o + |piece|][0] == line[k];
    }
  }
}
