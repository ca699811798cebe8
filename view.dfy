/** The board as the player sees it: `color` (index.js, line 57) wraps a text
    in a style and a reset, each cell is `[ ]` or its guessed letter in
    brackets, styled by its mark, and `renderMainViewState` (lines 80-82)
    joins the cells of each row and ends every row with a newline. The ANSI
    escape strings themselves are left abstract: a style switch and a reset
    are tokens of their own. */
module View {
  import opened Feedback
  import opened Text

  /** The two foreground colours the game uses: green for a correct letter,
      yellow for a present one. */
  datatype Style = Green | Yellow

  /** Displayed text: a visible character, a switch to a style, or the reset. */
  datatype Token = Char(c: char) | Escape(style: Style) | Reset

  /** What a board cell holds: the initial placeholder or a guessed letter with its mark. */
  datatype Cell = Blank | Guessed(letter: char, mark: Mark)

  /** Plain characters as displayed text. */
  function Chars(s: string): (r: seq<Token>)
    ensures |r| == |s|
    ensures forall i :: 0 <= i < |s| ==> r[i] == Char(s[i])
  {
    if s == [] then [] else [Char(s[0])] + Chars(s[1..])
  }

  /** `color(style, text)`: the text between a style switch and a reset. */
  function Color(style: Style, text: seq<Token>): seq<Token> {
    [Escape(style)] + text + [Reset]
  }

  /** The visible characters of displayed text, styling removed. */
  function Plain(t: seq<Token>): string {
    if t == [] then []
    else (match t[0] case Char(c) => [c] case _ => []) + Plain(t[1..])
  }

  lemma {:induction false} PlainAppend(a: seq<Token>, b: seq<Token>)
    ensures Plain(a + b) == Plain(a) + Plain(b)
  {
    if a == [] {
      assert a + b == b;
    } else {
      assert (a + b)[0] == a[0];
      assert (a + b)[1..] == a[1..] + b;
      PlainAppend(a[1..], b);
    }
  }

  lemma {:induction false} PlainChars(s: string)
    ensures Plain(Chars(s)) == s
  {
    if s != [] {
      PlainChars(s[1..]);
    }
  }

  /** Colouring changes how a text looks, never which characters it shows. */
  lemma PlainColor(style: Style, text: seq<Token>)
    ensures Plain(Color(style, text)) == Plain(text)
  {
    PlainAppend([Escape(style)] + text, [Reset]);
    PlainAppend([Escape(style)], text);
  }

  /** A cell as displayed (lines 86 and 118-122). */
  function CellText(cell: Cell): seq<Token> {
    match cell
    case Blank => Chars("[ ]")
    case Guessed(l, Correct) => Color(Green, Chars(['[', l, ']']))
    case Guessed(l, Present) => Color(Yellow, Chars(['[', l, ']']))
    case Guessed(l, Absent) => Chars(['[', l, ']'])
  }

  /** The character a cell shows between its brackets. */
  function Shown(cell: Cell): char {
    match cell
    case Blank => ' '
    case Guessed(l, _) => l
  }

  /** Every cell shows its bracketed letter, or a bracketed blank, whatever its mark. */
  lemma CellShows(cell: Cell)
    ensures Plain(CellText(cell)) == ['[', Shown(cell), ']']
  {
    PlainChars(['[', Shown(cell), ']']);
    if cell.Guessed? && cell.mark != Absent {
      PlainColor(if cell.mark == Correct then Green else Yellow, Chars(['[', Shown(cell), ']']));
    }
  }

  /** The mark of a guessed cell can be read back from its styling: green,
      yellow, or no style at all. */
  lemma CellStyle(l: char, m: Mark)
    ensures CellText(Guessed(l, m))[0] == (match m
      case Correct => Escape(Green)
      case Present => Escape(Yellow)
      case Absent => Char('['))
  {
  }

  /** `row.join('')`. */
  function RowText(row: seq<Cell>): seq<Token> {
    if row == [] then [] else CellText(row[0]) + RowText(row[1..])
  }

  /** The `reduce` of `renderMainViewState`: each row's text and a newline
      are appended to the accumulated text, top row first. */
  function RenderFrom(acc: seq<Token>, rows: seq<seq<Cell>>): seq<Token>
    decreases |rows|
  {
    if rows == [] then acc
    else RenderFrom(acc + RowText(rows[0]) + [Char('\n')], rows[1..])
  }

  /** `renderMainViewState`: the fold started from the empty text. */
  function Render(rows: seq<seq<Cell>>): seq<Token> {
    RenderFrom([], rows)
  }

  /** The fold only ever appends to what it was given. */
  lemma {:induction false} RenderFromAppends(acc: seq<Token>, rows: seq<seq<Cell>>)
    ensures RenderFrom(acc, rows) == acc + Render(rows)
    decreases |rows|
  {
    if rows != [] {
      var line, rest := RowText(rows[0]) + [Char('\n')], rows[1..];
      calc {
        RenderFrom(acc, rows);
        { assert acc + RowText(rows[0]) + [Char('\n')] == acc + line; }
        RenderFrom(acc + line, rest);
        { RenderFromAppends(acc + line, rest); }
        (acc + line) + Render(rest);
        acc + (line + Render(rest));
        { RenderFromAppends(line, rest); }
        acc + RenderFrom(line, rest);
        { assert [] + RowText(rows[0]) + [Char('\n')] == line; }
        acc + Render(rows);
      }
    }
  }

  /** The top row's line comes first, then the rest of the board. */
  lemma RenderCons(rows: seq<seq<Cell>>)
    requires rows != []
    ensures Render(rows) == RowText(rows[0]) + [Char('\n')] + Render(rows[1..])
  {
    RenderFromAppends(RowText(rows[0]) + [Char('\n')], rows[1..]);
    assert [] + RowText(rows[0]) + [Char('\n')] == RowText(rows[0]) + [Char('\n')];
  }

  /** Rendering distributes over putting boards one above the other. */
  lemma {:induction false} RenderAppend(a: seq<seq<Cell>>, b: seq<seq<Cell>>)
    ensures Render(a + b) == Render(a) + Render(b)
  {
    if a == [] {
      assert a + b == b;
    } else {
      RenderCons(a + b);
      assert (a + b)[0] == a[0] && (a + b)[1..] == a[1..] + b;
      RenderAppend(a[1..], b);
      RenderCons(a);
    }
  }

  /** The visible text of a row: three characters per cell. */
  function PlainRow(row: seq<Cell>): string {
    if row == [] then [] else ['[', Shown(row[0]), ']'] + PlainRow(row[1..])
  }

  lemma {:induction false} PlainRowText(row: seq<Cell>)
    ensures Plain(RowText(row)) == PlainRow(row)
  {
    if row != [] {
      PlainAppend(CellText(row[0]), RowText(row[1..]));
      CellShows(row[0]);
      PlainRowText(row[1..]);
    }
  }

  /** A row shows no newline unless a guessed letter is one. */
  lemma {:induction false} PlainRowNoNewline(row: seq<Cell>)
    requires forall j :: 0 <= j < |row| ==> Shown(row[j]) != '\n'
    ensures '\n' !in PlainRow(row)
  {
    if row != [] {
      PlainRowNoNewline(row[1..]);
    }
  }

  /** The visible text of each row, top to bottom. */
  function PlainRows(rows: seq<seq<Cell>>): seq<string> {
    if rows == [] then [] else [PlainRow(rows[0])] + PlainRows(rows[1..])
  }

  /** What the player sees: the visible text of each row, each followed by a newline. */
  lemma {:induction false} PlainRender(rows: seq<seq<Cell>>)
    ensures Plain(Render(rows)) == Join(PlainRows(rows) + [[]], '\n')
    decreases |rows|
  {
    if rows != [] {
      var first, rest := rows[0], rows[1..];
      var nl := [Char('\n')];
      var lines := PlainRows(rest) + [[]];
      calc {
        Plain(Render(rows));
        { RenderCons(rows); }
        Plain(RowText(first) + nl + Render(rest));
        { PlainAppend(RowText(first) + nl, Render(rest)); }
        Plain(RowText(first) + nl) + Plain(Render(rest));
        { PlainAppend(RowText(first), nl); }
        Plain(RowText(first)) + Plain(nl) + Plain(Render(rest));
        { PlainRowText(first); PlainRender(rest); assert Plain(nl) == "\n"; }
        PlainRow(first) + "\n" + Join(lines, '\n');
        Join([PlainRow(first)] + lines, '\n');
        { assert PlainRows(rows) + [[]] == [PlainRow(first)] + lines; }
        Join(PlainRows(rows) + [[]], '\n');
      }
    }
  }

  /** Splitting the displayed board at its newlines gives back the rows, one
      line per row, plus the empty text after the final newline. */
  lemma {:induction false} RenderLines(rows: seq<seq<Cell>>)
    requires forall i, j :: 0 <= i < |rows| && 0 <= j < |rows[i]| ==> Shown(rows[i][j]) != '\n'
    ensures Split(Plain(Render(rows)), '\n') == PlainRows(rows) + [[]]
  {
    PlainRender(rows);
    NoNewlineRows(rows);
    SplitJoin(PlainRows(rows) + [[]], '\n');
  }

  lemma {:induction false} NoNewlineRows(rows: seq<seq<Cell>>)
    requires forall i, j :: 0 <= i < |rows| && 0 <= j < |rows[i]| ==> Shown(rows[i][j]) != '\n'
    ensures forall i :: 0 <= i < |PlainRows(rows) + [[]]| ==> '\n' !in (PlainRows(rows) + [[]])[i]
  {
    if rows != [] {
      PlainRowNoNewline(rows[0]);
      NoNewlineRows(rows[1..]);
      assert PlainRows(rows) + [[]] == [PlainRow(rows[0])] + (PlainRows(rows[1..]) + [[]]);
    }
  }
}
