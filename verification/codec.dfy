/**
 * `TextController`: the plain-text board format. A board is saved as one line per
 * row, '1' for a live cell and '0' for a dead one, each line ended by "\n". Reading
 * a file overwrites the cells the lines cover; loading a figure stamps a small
 * pattern at an offset drawn at random.
 *
 * The file system is left out: saving produces the file's text, reading and loading
 * take the file's lines, and `ReadAllLines` models how the runtime splits a text
 * into lines.
 */
module TextController {
  import opened Wrappers
  import opened Boards

  /** The character a cell is saved as. */
  function CellChar(alive: bool): (c: char)
    ensures c == '0' || c == '1'
    ensures c == '1' <==> alive
  {
    if alive then '1' else '0'
  }

  /** `Save_life`: the lines written for the board, top row first. */
  function SaveLife(g: Grid): (lines: seq<string>)
    requires g.Valid()
    ensures |lines| == g.rows
    ensures forall y | 0 <= y < g.rows :: |lines[y]| == g.columns && '\n' !in lines[y]
    ensures forall y, x | 0 <= y < g.rows && 0 <= x < g.columns ::
      (lines[y][x] == '0' || lines[y][x] == '1') && (lines[y][x] == '1' <==> g.cells[y][x])
  {
    seq(g.rows, y requires 0 <= y < g.rows =>
      seq(g.columns, x requires 0 <= x < g.columns => CellChar(g.cells[y][x])))
  }

  /** The text of a file written line by line, each line followed by "\n". */
  function JoinLines(lines: seq<string>): (text: string)
    ensures |lines| == 0 <==> text == ""
  {
    if |lines| == 0 then "" else lines[0] + "\n" + JoinLines(lines[1..])
  }

  /** The text of one or more lines ends with "\n". */
  lemma JoinedTextEndsWithNewline(lines: seq<string>)
    requires |lines| > 0
    ensures var text := JoinLines(lines);
      |text| > 0 && text[|text| - 1] == '\n'
    decreases |lines|
  {
    if |lines| > 1 {
      JoinedTextEndsWithNewline(lines[1..]);
    }
  }

  /** Writing lines that hold no "\n" puts exactly one "\n" in the text per line. */
  lemma {:induction false} JoinedLineBreaks(lines: seq<string>)
    requires forall i | 0 <= i < |lines| :: '\n' !in lines[i]
    ensures multiset(JoinLines(lines))['\n'] == |lines|
  {
    if |lines| > 0 {
      JoinedLineBreaks(lines[1..]);
      assert multiset(lines[0])['\n'] == 0;
    }
  }

  /** The position of the first "\n" in `s`, or `|s|` when there is none. */
  function NewlineIndex(s: string): (i: nat)
    ensures i <= |s|
    ensures forall j | 0 <= j < i :: s[j] != '\n'
    ensures i < |s| ==> s[i] == '\n'
  {
    if |s| == 0 || s[0] == '\n' then 0 else 1 + NewlineIndex(s[1..])
  }

  /**
   * `File.ReadAllLines` for texts whose line breaks are "\n": the text cut at every
   * "\n", where a final "\n" does not start another (empty) line.
   */
  function ReadAllLines(text: string): (lines: seq<string>)
    ensures forall i | 0 <= i < |lines| :: '\n' !in lines[i]
    ensures |lines| == 0 <==> text == ""
    decreases |text|
  {
    if |text| == 0 then []
    else
      var i := NewlineIndex(text);
      if i == |text| then [text] else [text[..i]] + ReadAllLines(text[i + 1..])
  }

  /** Splitting the text of lines without "\n" gives back those lines. */
  lemma {:induction false} ReadJoinedLines(lines: seq<string>)
    requires forall i | 0 <= i < |lines| :: '\n' !in lines[i]
    ensures ReadAllLines(JoinLines(lines)) == lines
  {
    if |lines| > 0 {
      var text := JoinLines(lines);
      var rest := JoinLines(lines[1..]);
      assert text == lines[0] + "\n" + rest;
      NewlineAfterLine(lines[0], rest);
      assert text[..|lines[0]|] == lines[0];
      assert text[|lines[0]| + 1..] == rest;
      ReadJoinedLines(lines[1..]);
    }
  }

  lemma NewlineAfterLine(line: string, rest: string)
    requires '\n' !in line
    ensures NewlineIndex(line + "\n" + rest) == |line|
    decreases |line|
  {
    var s := line + "\n" + rest;
    if |line| > 0 {
      assert s[1..] == line[1..] + "\n" + rest;
      NewlineAfterLine(line[1..], rest);
    }
  }

  /**
   * Writing back the lines of a text gives the text itself, with a final "\n"
   * added when it had none.
   */
  lemma {:induction false} JoinReadLines(text: string)
    ensures JoinLines(ReadAllLines(text)) == if text == "" || text[|text| - 1] == '\n' then text else text + "\n"
    decreases |text|
  {
    if |text| > 0 {
      var i := NewlineIndex(text);
      if i == |text| {
        LastLine(text);
      } else {
        JoinReadLines(text[i + 1..]);
        JoinReadFirstLine(text, i);
      }
    }
  }

  /** The step of `JoinReadLines`: the first line and its "\n" go in front of the rest's text. */
  lemma JoinReadFirstLine(text: string, i: nat)
    requires i == NewlineIndex(text) < |text|
    requires var rest := text[i + 1..];
      JoinLines(ReadAllLines(rest)) == if rest == "" || rest[|rest| - 1] == '\n' then rest else rest + "\n"
    ensures JoinLines(ReadAllLines(text)) == if text[|text| - 1] == '\n' then text else text + "\n"
  {
    var line, rest := text[..i], text[i + 1..];
    FirstLine(text, i);
    SplitAt(text, i);
    JoinCons(line, ReadAllLines(rest));
    EndsWithNewline(line, rest);
    if rest == "" || rest[|rest| - 1] == '\n' {
      assert JoinLines(ReadAllLines(text)) == line + "\n" + rest;
    } else {
      assert JoinLines(ReadAllLines(text)) == line + "\n" + (rest + "\n");
      assert line + "\n" + (rest + "\n") == (line + "\n" + rest) + "\n";
    }
  }

  /** A non-empty text without "\n" is one line, which gets its "\n" when written back. */
  lemma LastLine(text: string)
    requires text != "" && NewlineIndex(text) == |text|
    ensures text[|text| - 1] != '\n'
    ensures JoinLines(ReadAllLines(text)) == text + "\n"
  {
    assert ReadAllLines(text) == [text];
    JoinCons(text, []);
  }

  /** A text with a "\n" splits into the line before it and the lines of the rest. */
  lemma FirstLine(text: string, i: nat)
    requires i == NewlineIndex(text) < |text|
    ensures ReadAllLines(text) == [text[..i]] + ReadAllLines(text[i + 1..])
  {
  }

  /** A text is the part before any of its "\n"s, that "\n" and the part after. */
  lemma SplitAt(text: string, i: nat)
    requires i < |text| && text[i] == '\n'
    ensures text == text[..i] + "\n" + text[i + 1..]
  {
    assert text[i..] == "\n" + text[i + 1..];
    assert text == text[..i] + text[i..];
  }

  /** A line, a "\n" and a rest end with "\n" exactly when the rest is empty or does. */
  lemma EndsWithNewline(line: string, rest: string)
    ensures var text := line + "\n" + rest;
      text[|text| - 1] == '\n' <==> rest == "" || rest[|rest| - 1] == '\n'
  {
  }

  /** Writing one more line in front adds that line and its "\n" in front of the text. */
  lemma JoinCons(line: string, lines: seq<string>)
    ensures JoinLines([line] + lines) == line + "\n" + JoinLines(lines)
  {
    assert ([line] + lines)[1..] == lines;
  }

  /** The text line `lines[y]` has a character for column `x`. */
  predicate Covers(lines: seq<string>, x: int, y: int) {
    0 <= y < |lines| && 0 <= x < |lines[y]|
  }

  /**
   * `Read_life`: every cell that a character of the lines covers becomes alive
   * exactly when that character is '1'; longer lines and extra lines are ignored.
   */
  function ReadLife(g: Grid, lines: seq<string>): (r: Grid)
    requires g.Valid()
    ensures r.Valid() && r.columns == g.columns && r.rows == g.rows
    ensures forall y, x | 0 <= y < g.rows && 0 <= x < g.columns && Covers(lines, x, y) ::
      r.cells[y][x] <==> lines[y][x] == '1'
    ensures forall y, x | 0 <= y < g.rows && 0 <= x < g.columns && !Covers(lines, x, y) ::
      r.cells[y][x] == g.cells[y][x]
  {
    Build(g.columns, g.rows, (x: nat, y: nat) =>
      if Covers(lines, x, y) then lines[y][x] == '1'
      else if x < g.columns && y < g.rows then g.cells[y][x]
      else false)
  }

  /** Reading what was saved restores the board, whatever it held before. */
  lemma ReadSaved(g: Grid, before: Grid)
    requires g.Valid() && before.Valid() && before.columns == g.columns && before.rows == g.rows
    ensures ReadLife(before, SaveLife(g)) == g
  {
    SameGrid(ReadLife(before, SaveLife(g)), g);
  }

  /** The same, through the text of the file: `Save_life` then `Read_life` is the identity. */
  lemma ReadSavedFile(g: Grid, before: Grid)
    requires g.Valid() && before.Valid() && before.columns == g.columns && before.rows == g.rows
    ensures ReadLife(before, ReadAllLines(JoinLines(SaveLife(g)))) == g
  {
    ReadJoinedLines(SaveLife(g));
    ReadSaved(g, before);
  }

  /** Reading the same lines twice changes nothing more. */
  lemma ReadIdempotent(g: Grid, lines: seq<string>)
    requires g.Valid()
    ensures ReadLife(ReadLife(g, lines), lines) == ReadLife(g, lines)
  {
    SameGrid(ReadLife(ReadLife(g, lines), lines), ReadLife(g, lines));
  }

  /** Lines covering the whole board determine it: the previous state is forgotten. */
  lemma ReadForgetsBoard(g: Grid, h: Grid, lines: seq<string>)
    requires g.Valid() && h.Valid() && h.columns == g.columns && h.rows == g.rows
    requires |lines| >= g.rows && forall y | 0 <= y < g.rows :: |lines[y]| >= g.columns
    ensures ReadLife(g, lines) == ReadLife(h, lines)
  {
    SameGrid(ReadLife(g, lines), ReadLife(h, lines));
  }

  /** Saving a board read from saved lines gives those lines back. */
  lemma SaveRead(g: Grid, before: Grid)
    requires g.Valid() && before.Valid() && before.columns == g.columns && before.rows == g.rows
    ensures SaveLife(ReadLife(before, SaveLife(g))) == SaveLife(g)
  {
    ReadSaved(g, before);
  }

  /** The exceptions `Load_figure` can raise. */
  datatype FigureError =
    | IndexOutOfRange      // an empty file (`lines[0]`), or a line shorter than the first one
    | ArgumentOutOfRange   // the figure is too big: `Random.Next(0, max)` with `max < 0`

  /**
   * What `Random.Next(0, max)` may return: 0 when `max` is 0, a value in [0, max)
   * when it is positive; a negative `max` throws, so any value will do.
   */
  predicate IsDraw(v: int, max: int) {
    if max < 0 then true else if max == 0 then v == 0 else 0 <= v < max
  }

  /**
   * An offset drawn for a figure of `size` cells along a board side of `extent`
   * cells, `Random.Next(0, extent - size + 1)`, keeps the whole figure on that side.
   */
  lemma DrawKeepsFigureOnBoard(v: int, size: int, extent: int)
    requires 0 <= size <= extent && IsDraw(v, extent - size + 1)
    ensures 0 <= v && v + size <= extent
  {
  }

  function Min(a: int, b: int): int {
    if a < b then a else b
  }

  /**
   * Some figure line that lands on the board is too short for the figure columns
   * that land on the board: writing the cell after its end throws.
   */
  predicate Ragged(g: Grid, lines: seq<string>, startX: int, startY: int)
    requires |lines| > 0
  {
    exists y | 0 <= y < |lines| && startY + y < g.rows :: |lines[y]| < Min(|lines[0]|, g.columns - startX)
  }

  /** The board cell (x, y) lies under the figure placed at (startX, startY). */
  predicate UnderFigure(lines: seq<string>, startX: int, startY: int, x: int, y: int)
    requires |lines| > 0
  {
    startX <= x < startX + |lines[0]| && startY <= y < startY + |lines|
  }

  /**
   * `Load_figure` with the figure file's lines and the two random draws as
   * parameters. The figure is as wide as its first line and as tall as the file;
   * its cells are copied, clipped at the right and bottom edges, to the rectangle
   * at (startX, startY), and every other cell keeps its state.
   */
  function LoadFigure(g: Grid, lines: seq<string>, startX: int, startY: int): (r: Result<Grid, FigureError>)
    requires g.Valid()
    requires |lines| > 0 ==> IsDraw(startX, g.columns - |lines[0]| + 1) && IsDraw(startY, g.rows - |lines| + 1)
    ensures |lines| == 0 ==> r == Failure(IndexOutOfRange)
    ensures |lines| > 0 ==>
      (r == Failure(ArgumentOutOfRange) <==> |lines[0]| > g.columns + 1 || |lines| > g.rows + 1)
    ensures |lines| > 0 && |lines[0]| <= g.columns + 1 && |lines| <= g.rows + 1 ==>
      (r == Failure(IndexOutOfRange) <==> Ragged(g, lines, startX, startY))
    ensures r.Success? ==>
      && |lines| > 0
      && r.value.Valid() && r.value.columns == g.columns && r.value.rows == g.rows
      && (forall y, x | 0 <= y < g.rows && 0 <= x < g.columns && UnderFigure(lines, startX, startY, x, y) ::
            x - startX < |lines[y - startY]| && (r.value.cells[y][x] <==> lines[y - startY][x - startX] == '1'))
      && (forall y, x | 0 <= y < g.rows && 0 <= x < g.columns && !UnderFigure(lines, startX, startY, x, y) ::
            r.value.cells[y][x] == g.cells[y][x])
  {
    if |lines| == 0 then Failure(IndexOutOfRange)
    else if g.columns - |lines[0]| + 1 < 0 || g.rows - |lines| + 1 < 0 then Failure(ArgumentOutOfRange)
    else if Ragged(g, lines, startX, startY) then Failure(IndexOutOfRange)
    else
      Success(Build(g.columns, g.rows, (x: nat, y: nat) =>
        if x < g.columns && y < g.rows then
          if UnderFigure(lines, startX, startY, x, y) && x - startX < |lines[y - startY]| then lines[y - startY][x - startX] == '1'
          else g.cells[y][x]
        else false))
  }

  /** A rectangular figure no bigger than the board is always placed whole. */
  lemma LoadFittingFigure(g: Grid, lines: seq<string>, startX: int, startY: int)
    requires g.Valid() && |lines| > 0
    requires forall y | 0 <= y < |lines| :: |lines[y]| == |lines[0]|
    requires |lines[0]| <= g.columns && |lines| <= g.rows
    requires IsDraw(startX, g.columns - |lines[0]| + 1) && IsDraw(startY, g.rows - |lines| + 1)
    ensures LoadFigure(g, lines, startX, startY).Success?
    ensures startX + |lines[0]| <= g.columns && startY + |lines| <= g.rows
  {
  }

  /** Loading a saved board as a figure on a board of the same size reproduces it. */
  lemma LoadSavedBoard(g: Grid, h: Grid)
    requires g.Valid() && h.Valid() && h.columns == g.columns && h.rows == g.rows && g.rows > 0
    ensures LoadFigure(g, SaveLife(h), 0, 0) == Success(h)
  {
    var r := LoadFigure(g, SaveLife(h), 0, 0);
    SameGrid(r.value, h);
  }
}
