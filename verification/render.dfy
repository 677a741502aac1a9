/**
  `Grid::display` (src/grid.rs:42-65) as a pure function returning the printed
  lines instead of writing them: a top border, one framed line per row and a
  bottom border. Lengths count characters, so each box-drawing glyph is one.

  `ParseRowLine` reads a row line back into what each cell shows, and
  `RowLineRoundTrip` proves that printing and reading back are inverse.
 */
module Render {
  import opened Options
  import opened Decimal
  import opened GridModel

  /** `n` copies of `s`, end to end. */
  function Repeat(s: string, n: nat): (r: string)
    ensures |r| == n * |s|
    ensures forall c :: c in r ==> c in s
  {
    if n == 0 then [] else s + Repeat(s, n - 1)
  }

  /** A border line: a corner, `2 * largeur + 1` horizontal bars, a corner. */
  predicate IsBorder(line: string, left: char, right: char, largeur: nat) {
    && |line| == 2 * largeur + 3
    && line[0] == left
    && line[|line| - 1] == right
    && forall i :: 0 < i < |line| - 1 ==> line[i] == '─'
  }

  /** The border the source prints: the corner and one bar, one `"──"` per column, the corner. */
  function Border(left: char, right: char, largeur: nat): (line: string)
    ensures IsBorder(line, left, right, largeur)
  {
    var bars := Repeat("──", largeur);
    assert forall i :: 0 <= i < |bars| ==> bars[i] in "──";
    [left, '─'] + bars + [right]
  }

  /** What one cell shows: nothing, or its adjacent-mine count. */
  datatype View = Hidden | Shown(count: nat)

  function ViewOf(c: Cell): View {
    if c.isRevealed then Shown(c.adjacentMines) else Hidden
  }

  function Views(row: seq<Cell>): (vs: seq<View>)
    ensures |vs| == |row|
    ensures forall x :: 0 <= x < |row| ==> vs[x] == ViewOf(row[x])
  {
    seq(|row|, x requires 0 <= x < |row| => ViewOf(row[x]))
  }

  /**
    The segment of one cell: a revealed cell's count and a blank, or two
    blanks. It ends in a blank, starts with a digit exactly when the cell is
    revealed, and then the digits before the blank spell the count.
   */
  function Segment(c: Cell): (seg: string)
    ensures 2 <= |seg| && seg[|seg| - 1] == ' '
    ensures c.isRevealed <==> IsDigit(seg[0])
    ensures c.isRevealed ==>
      && (forall i :: 0 <= i < |seg| - 1 ==> IsDigit(seg[i]))
      && Value(seg[..|seg| - 1]) == c.adjacentMines
  {
    if c.isRevealed then
      var d := ToDecimal(c.adjacentMines);
      ValueOfDecimal(c.adjacentMines);
      assert (d + " ")[..|d|] == d;
      d + " "
    else "  "
  }

  /** The segments of a row, in column order; each takes at least two characters. */
  function Segments(row: seq<Cell>): (r: string)
    ensures |r| >= 2 * |row|
  {
    if |row| == 0 then "" else Segment(row[0]) + Segments(row[1..])
  }

  /** The framed line of one row: `"│ "`, the row's segments, `"│"`. */
  function RowLine(row: seq<Cell>): (line: string)
    ensures |line| == |Segments(row)| + 3
    ensures line[0] == '│' && line[1] == ' ' && line[|line| - 1] == '│'
    ensures line[2..|line| - 1] == Segments(row)
  {
    "│ " + Segments(row) + "│"
  }

  /** The printed lines of the board, top border first. */
  function Display(g: Grid): (lines: seq<string>)
    requires WellFormed(g)
    ensures |lines| == g.hauteur + 2
    ensures IsBorder(lines[0], '┌', '┐', g.largeur)
    ensures IsBorder(lines[|lines| - 1], '└', '┘', g.largeur)
    ensures forall y :: 0 <= y < g.hauteur ==> lines[y + 1] == RowLine(g.cells[y])
  {
    [Border('┌', '┐', g.largeur)]
    + seq(g.hauteur, y requires 0 <= y < g.hauteur => RowLine(g.cells[y]))
    + [Border('└', '┘', g.largeur)]
  }

  /** Puts one decoded view in front of the decoded rest, keeping a failure. */
  function Cons(v: View, rest: Option<seq<View>>): Option<seq<View>> {
    match rest
    case Some(vs) => Some([v] + vs)
    case None => None
  }

  /** One decoded segment: what the cell shows, and how many characters it took. */
  datatype Token = Token(view: View, size: nat)

  /**
    Reads the segment at the start of `s`: two blanks, or a count followed by
    a blank. A count must be written as `{}` writes it, with no leading zero.
   */
  function ParseSegment(s: string): (t: Option<Token>)
    ensures t.Some? ==> 2 <= t.value.size <= |s|
  {
    if |s| >= 2 && s[0] == ' ' && s[1] == ' ' then Some(Token(Hidden, 2))
    else
      var k := DigitPrefix(s);
      if 0 < k < |s| && s[k] == ' ' && (k == 1 || s[0] != '0') then
        Some(Token(Shown(Value(s[..k])), k + 1))
      else None
  }

  /** Reads the segments of a row back into cell views; `None` if `s` is not a run of segments. */
  function ParseSegments(s: string): Option<seq<View>>
    decreases |s|
  {
    if |s| == 0 then Some([])
    else match ParseSegment(s)
      case None => None
      case Some(t) => Cons(t.view, ParseSegments(s[t.size..]))
  }

  /** Reads a framed row line back into cell views. */
  function ParseRowLine(line: string): Option<seq<View>> {
    if |line| >= 3 && line[0] == '│' && line[1] == ' ' && line[|line| - 1] == '│' then
      ParseSegments(line[2..|line| - 1])
    else None
  }

  /** The segment of a cell, whatever follows it, reads back as that cell's view. */
  lemma SegmentParses(c: Cell, rest: string)
    ensures ParseSegment(Segment(c) + rest) == Some(Token(ViewOf(c), |Segment(c)|))
  {
    var s := Segment(c) + rest;
    if c.isRevealed {
      var d := ToDecimal(c.adjacentMines);
      assert s == d + (" " + rest);
      DigitPrefixOfRun(d, " " + rest);
      assert s[..|d|] == d;
      ValueOfDecimal(c.adjacentMines);
    }
  }

  /** A segment read as a cell's view is, character for character, that cell's segment. */
  lemma ParsedIsSegment(s: string, c: Cell)
    requires ParseSegment(s).Some? && ParseSegment(s).value.view == ViewOf(c)
    ensures s[..ParseSegment(s).value.size] == Segment(c)
  {
    var t := ParseSegment(s).value;
    if t.view.Shown? {
      var k := DigitPrefix(s);
      assert s[..k + 1] == s[..k] + " ";
      CanonicalDecimal(s[..k]);
    }
  }

  /** The segments of a row decode to the views of its cells. */
  lemma {:induction false} ParseSegmentsOfSegments(row: seq<Cell>)
    ensures ParseSegments(Segments(row)) == Some(Views(row))
    decreases |row|
  {
    if |row| > 0 {
      var c := row[0];
      var rest := Segments(row[1..]);
      var s := Segments(row);
      SegmentParses(c, rest);
      assert s[|Segment(c)|..] == rest;
      ParseSegmentsOfSegments(row[1..]);
      assert Views(row) == [ViewOf(c)] + Views(row[1..]);
    }
  }

  /** Decoding a nonempty text takes the first cell's view off its first segment. */
  lemma ParseSegmentsStep(s: string, row: seq<Cell>)
    requires |s| > 0 && ParseSegments(s) == Some(Views(row))
    ensures ParseSegment(s).Some? && |row| > 0
    ensures ParseSegment(s).value.view == ViewOf(row[0])
    ensures ParseSegments(s[ParseSegment(s).value.size..]) == Some(Views(row[1..]))
  {
    var t := ParseSegment(s).value;
    var vs := ParseSegments(s[t.size..]).value;
    assert [t.view] + vs == Views(row);
    assert Views(row[1..]) == vs;
  }

  /** Text that decodes to the views of a row is exactly the segments of that row. */
  lemma {:induction false} SegmentsOfParse(s: string, row: seq<Cell>)
    requires ParseSegments(s) == Some(Views(row))
    ensures s == Segments(row)
    decreases |s|
  {
    if |s| == 0 {
      assert |row| == 0;
    } else {
      ParseSegmentsStep(s, row);
      var n := ParseSegment(s).value.size;
      ParsedIsSegment(s, row[0]);
      SegmentsOfParse(s[n..], row[1..]);
      SplitAt(s, n, Segment(row[0]), Segments(row[1..]));
    }
  }

  /** A sequence whose first `n` elements are `a` and whose rest is `b` is `a + b`. */
  lemma SplitAt<T>(s: seq<T>, n: nat, a: seq<T>, b: seq<T>)
    requires n <= |s| && s[..n] == a && s[n..] == b
    ensures s == a + b
  {
  }

  /** The printed line of a row decodes to the views of its cells. */
  lemma RowLineParses(row: seq<Cell>)
    ensures ParseRowLine(RowLine(row)) == Some(Views(row))
  {
    ParseSegmentsOfSegments(row);
  }

  /** A line that decodes to the views of a row is that row's printed line. */
  lemma ParsedRowLine(row: seq<Cell>, line: string)
    requires ParseRowLine(line) == Some(Views(row))
    ensures line == RowLine(row)
  {
    var body := line[2..|line| - 1];
    SegmentsOfParse(body, row);
    assert line == "│ " + body + "│";
  }

  /**
    A line decodes to the views of a row if and only if it is that row's
    printed line: printing and reading back are inverse in both directions.
   */
  lemma RowLineRoundTrip(row: seq<Cell>, line: string)
    ensures ParseRowLine(line) == Some(Views(row)) <==> line == RowLine(row)
  {
    if ParseRowLine(line) == Some(Views(row)) {
      ParsedRowLine(row, line);
    }
    if line == RowLine(row) {
      RowLineParses(row);
    }
  }

  /** Every row line of the display decodes to the views of that row's cells, and to nothing else. */
  lemma DisplayDecodes(g: Grid)
    requires WellFormed(g)
    ensures forall y :: 0 <= y < g.hauteur ==> ParseRowLine(Display(g)[y + 1]) == Some(Views(g.cells[y]))
  {
    var lines := Display(g);
    forall y | 0 <= y < g.hauteur
      ensures ParseRowLine(lines[y + 1]) == Some(Views(g.cells[y]))
    {
      RowLineRoundTrip(g.cells[y], lines[y + 1]);
    }
  }

  /** With every count below ten, each segment is two characters wide. */
  lemma {:induction false} SegmentsWidth(row: seq<Cell>)
    requires forall x :: 0 <= x < |row| ==> row[x].adjacentMines < 10
    ensures |Segments(row)| == 2 * |row|
    decreases |row|
  {
    if |row| > 0 {
      SegmentsWidth(row[1..]);
    }
  }

  /** With every count below ten, every printed line is `2 * largeur + 3` characters. */
  lemma DisplayWidth(g: Grid)
    requires WellFormed(g)
    requires forall y, x :: 0 <= y < |g.cells| && 0 <= x < |g.cells[y]| ==> g.cells[y][x].adjacentMines < 10
    ensures forall i :: 0 <= i < |Display(g)| ==> |Display(g)[i]| == 2 * g.largeur + 3
  {
    var lines := Display(g);
    forall i | 0 <= i < |lines|
      ensures |lines[i]| == 2 * g.largeur + 3
    {
      if 0 < i < |lines| - 1 {
        var row := g.cells[i - 1];
        SegmentsWidth(row);
      }
    }
  }

  /** A row of new cells shows a zero in every column. */
  lemma {:induction false} NewSegments(row: seq<Cell>)
    requires forall x :: 0 <= x < |row| ==> IsNewCell(row[x])
    ensures Segments(row) == Repeat("0 ", |row|)
    decreases |row|
  {
    if |row| > 0 {
      assert ToDecimal(0) == "0";
      NewSegments(row[1..]);
    }
  }

  /** On a freshly built grid every row line is `"│ "`, `largeur` times `"0 "`, then `"│"`. */
  lemma NewGridDisplay(largeur: nat, hauteur: nat)
    ensures var lines := Display(New(largeur, hauteur));
      forall y :: 1 <= y <= hauteur ==> lines[y] == "│ " + Repeat("0 ", largeur) + "│"
  {
    var g := New(largeur, hauteur);
    forall y | 0 <= y < hauteur
      ensures Segments(g.cells[y]) == Repeat("0 ", largeur)
    {
      NewSegments(g.cells[y]);
    }
  }
}
