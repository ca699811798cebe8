/** The game itself: the secret word, the 6-by-5 board and the attempt
    counter of `main` (index.js, lines 84-86), and the handler that reads
    one line of input at a time (lines 101-142).

    `Step` is the handler as a function of the session state; the class
    `Game` keeps that state in the source's form (an array of row arrays
    overwritten in place, and a mutable counter) and its method `Submit` is
    proved to do what `Step` says. Ending the process becomes the statuses
    `Won` and `Lost`, after which `Submit` may not be called again. */
module Game {
  import opened Text
  import opened Library
  import opened Feedback
  import opened View

  /** MAX_ATTEMPTS: the number of rows of the board. */
  const MaxAttempts := 6

  /** What one input line leads to: rejected, the game goes on, or it ended
      (with the secret disclosed on a loss). */
  datatype Status = Invalid | Continue | Won | Lost(secret: string)

  /** The state the handler updates: the row the next guess goes to, and the board. */
  datatype Session = Session(attempt: nat, grid: seq<seq<Cell>>)

  /** The row index is in range and the board has 6 rows of 5 cells. */
  predicate WellFormed(st: Session) {
    st.attempt < MaxAttempts && |st.grid| == MaxAttempts &&
    forall i :: 0 <= i < |st.grid| ==> |st.grid[i]| == WordsLength
  }

  /** Six rows of five `[ ]` placeholders. */
  function InitialGrid(): seq<seq<Cell>> {
    seq(MaxAttempts, _ => seq(WordsLength, _ => Blank))
  }

  function Initial(): (st: Session)
    ensures WellFormed(st)
  {
    Session(0, InitialGrid())
  }

  /** `line.trim().toLowerCase()`. */
  function Normalize(line: string): string {
    ToLower(Trim(line))
  }

  /** A normalised answer is its own normal form: no white space is left at
      either end and no capital remains. */
  lemma NormalizeIdempotent(line: string)
    ensures Normalize(Normalize(line)) == Normalize(line)
  {
    var t := Trim(line);
    var r := ToLower(t);
    if r != [] {
      LowerKeepsSpace(t[0]);
      LowerKeepsSpace(t[|t| - 1]);
    }
    TrimFixed(r);
    ToLowerIdempotent(r);
  }

  /** The validity test of line 103: the right length and an entry of the
      library, compared with the entries as they are (not lowercased). */
  predicate Accepts(library: seq<string>, answer: string) {
    |answer| == WordsLength && answer in library
  }

  /** The cells a valid guess writes into its row: each guessed letter with its mark. */
  function GuessRow(word: string, answer: string): (r: seq<Cell>)
    ensures |r| == |answer|
    ensures forall i :: 0 <= i < |r| ==> Shown(r[i]) == answer[i]
  {
    seq(|answer|, i requires 0 <= i < |answer| => Guessed(answer[i], Evaluate(word, answer)[i]))
  }

  /** Before any guess the player sees six lines of five `[ ]` placeholders. */
  lemma InitialView()
    ensures Split(Plain(Render(InitialGrid())), '\n') == seq(MaxAttempts, _ => "[ ][ ][ ][ ][ ]") + [[]]
  {
    var blank := seq(WordsLength, _ => Blank);
    assert InitialGrid() == seq(MaxAttempts, _ => blank);
    RenderLines(InitialGrid());
    BlankRowView();
    SameRows(blank, MaxAttempts);
  }

  lemma BlankRowView()
    ensures PlainRow(seq(WordsLength, _ => Blank)) == "[ ][ ][ ][ ][ ]"
  {
    var b := Blank;
    assert seq(WordsLength, _ => Blank) == [b, b, b, b, b];
    assert PlainRow([b]) == "[ ]";
    assert PlainRow([b, b]) == "[ ][ ]";
    assert PlainRow([b, b, b]) == "[ ][ ][ ]";
    assert PlainRow([b, b, b, b]) == "[ ][ ][ ][ ]";
  }

  lemma {:induction false} SameRows(row: seq<Cell>, n: nat)
    ensures PlainRows(seq(n, _ => row)) == seq(n, _ => PlainRow(row))
  {
    if n > 0 {
      SameRows(row, n - 1);
      assert seq(n, _ => row)[1..] == seq(n - 1, _ => row);
      assert seq(n, _ => PlainRow(row)) == [PlainRow(row)] + seq(n - 1, _ => PlainRow(row));
    }
  }

  /** The line handler: validation, the rewrite of row `attempt`, then the
      win check, the loss check and the increment, in that order. */
  function Step(library: seq<string>, word: string, st: Session, line: string): (r: (Session, Status))
    requires WellFormed(st)
    ensures WellFormed(r.0)
  {
    var answer := Normalize(line);
    if !Accepts(library, answer) then (st, Invalid)
    else
      var grid := st.grid[st.attempt := GuessRow(word, answer)];
      if answer == word then (Session(st.attempt, grid), Won)
      else if st.attempt == MaxAttempts - 1 then (Session(st.attempt, grid), Lost(word))
      else (Session(st.attempt + 1, grid), Continue)
  }

  /** A rejected line (wrong length after trimming, or not in the library)
      changes neither the counter nor any cell, and the game goes on. */
  lemma StepRejects(library: seq<string>, word: string, st: Session, line: string)
    requires WellFormed(st)
    requires |Normalize(line)| != WordsLength || Normalize(line) !in library
    ensures Step(library, word, st, line) == (st, Invalid)
  {
  }

  /** An accepted line rewrites all five cells of row `attempt` with the
      guessed letters and their marks, and no other row. */
  lemma StepRewritesOneRow(library: seq<string>, word: string, st: Session, line: string)
    requires WellFormed(st) && Accepts(library, Normalize(line))
    ensures var (st', s) := Step(library, word, st, line);
      s != Invalid &&
      |st'.grid[st.attempt]| == WordsLength &&
      (forall i :: 0 <= i < WordsLength ==>
        st'.grid[st.attempt][i] == Guessed(Normalize(line)[i], Evaluate(word, Normalize(line))[i])) &&
      (forall j :: 0 <= j < MaxAttempts && j != st.attempt ==> st'.grid[j] == st.grid[j])
  {
  }

  /** The counter moves by exactly one, and only when a valid guess neither
      wins nor loses; it therefore never leaves the board. */
  lemma StepCounter(library: seq<string>, word: string, st: Session, line: string)
    requires WellFormed(st)
    ensures var (st', s) := Step(library, word, st, line);
      st'.attempt < MaxAttempts &&
      (s == Continue ==> st'.attempt == st.attempt + 1) &&
      (s != Continue ==> st'.attempt == st.attempt)
  {
  }

  /** Entering the secret (in any letter case, with any surrounding white
      space) wins, on any attempt including the last, and the row shows five
      correct letters. */
  lemma StepWinsOnSecret(library: seq<string>, word: string, st: Session, line: string)
    requires WellFormed(st) && Accepts(library, word) && Normalize(line) == word
    ensures var (st', s) := Step(library, word, st, line);
      s == Won && st'.attempt == st.attempt &&
      forall i :: 0 <= i < WordsLength ==> st'.grid[st.attempt][i] == Guessed(word[i], Correct)
  {
    SecretAllCorrect(word);
  }

  /** The sixth valid guess that is not the secret loses and discloses the secret. */
  lemma StepLosesOnLastRow(library: seq<string>, word: string, st: Session, line: string)
    requires WellFormed(st) && st.attempt == MaxAttempts - 1
    requires Accepts(library, Normalize(line)) && Normalize(line) != word
    ensures Step(library, word, st, line).1 == Lost(word)
  {
  }

  /** The handler applied to the lines in turn until one ends the game;
      the status is that of the last line handled. */
  function Run(library: seq<string>, word: string, st: Session, lines: seq<string>): (r: (Session, Status))
    requires WellFormed(st)
    ensures WellFormed(r.0)
    decreases |lines|
  {
    if lines == [] then (st, Continue)
    else
      var (st', s) := Step(library, word, st, lines[0]);
      if s.Won? || s.Lost? || |lines| == 1 then (st', s)
      else Run(library, word, st', lines[1..])
  }

  /** The answers, in order, of the lines the handler accepts. */
  function Accepted(library: seq<string>, lines: seq<string>): seq<string> {
    if lines == [] then []
    else
      var head := if Accepts(library, Normalize(lines[0])) then [Normalize(lines[0])] else [];
      head + Accepted(library, lines[1..])
  }

  /** `st'` is `st` after the accepted guesses `acc`, none of which won:
      the counter has advanced once per guess, the rows from the old counter
      on hold the guesses in order, and every other row is as it was. */
  ghost predicate Records(word: string, st: Session, st': Session, acc: seq<string>) {
    st'.attempt == st.attempt + |acc| && st'.attempt <= |st.grid| == |st'.grid| &&
    (forall i :: 0 <= i < |acc| ==> acc[i] != word && st'.grid[st.attempt + i] == GuessRow(word, acc[i])) &&
    (forall j :: 0 <= j < |st.grid| && !(st.attempt <= j < st.attempt + |acc|) ==> st'.grid[j] == st.grid[j])
  }

  lemma RecordsPrepend(word: string, st: Session, answer: string, acc: seq<string>, st': Session)
    requires st.attempt < |st.grid| && answer != word
    requires Records(word, Session(st.attempt + 1, st.grid[st.attempt := GuessRow(word, answer)]), st', acc)
    ensures Records(word, st, st', [answer] + acc)
  {
    var all := [answer] + acc;
    forall i | 0 <= i < |all|
      ensures all[i] != word && st'.grid[st.attempt + i] == GuessRow(word, all[i])
    {
      if i > 0 {
        assert all[i] == acc[i - 1];
      }
    }
  }

  /** While the game goes on, the board is the record of the valid guesses
      (see `Records`). */
  lemma {:induction false} RunInProgress(library: seq<string>, word: string, st: Session, lines: seq<string>)
    requires WellFormed(st)
    requires !Run(library, word, st, lines).1.Won? && !Run(library, word, st, lines).1.Lost?
    ensures Records(word, st, Run(library, word, st, lines).0, Accepted(library, lines))
    decreases |lines|
  {
    if lines != [] {
      var answer, rest := Normalize(lines[0]), lines[1..];
      var step := Step(library, word, st, lines[0]);
      var acc, accRest := Accepted(library, lines), Accepted(library, rest);
      if |lines| == 1 {
        assert accRest == [];
        if Accepts(library, answer) {
          assert acc == [answer];
          RecordsPrepend(word, st, answer, [], step.0);
        } else {
          assert acc == [];
        }
      } else {
        assert Run(library, word, st, lines) == Run(library, word, step.0, rest);
        RunInProgress(library, word, step.0, rest);
        if !Accepts(library, answer) {
          assert acc == accRest;
        } else {
          assert acc == [answer] + accRest;
          RecordsPrepend(word, st, answer, accRest, Run(library, word, st, lines).0);
        }
      }
    }
  }

  /** Valid guesses that all miss end the game exactly when they fill the
      board: the one on the last row loses and discloses the secret, and
      fewer leave the game going with the counter advanced by their number. */
  lemma {:induction false} RunOfMisses(library: seq<string>, word: string, st: Session, lines: seq<string>)
    requires WellFormed(st) && lines != [] && st.attempt + |lines| <= MaxAttempts
    requires forall i :: 0 <= i < |lines| ==> Accepts(library, Normalize(lines[i])) && Normalize(lines[i]) != word
    ensures var (st', s) := Run(library, word, st, lines);
      (st.attempt + |lines| == MaxAttempts ==> s == Lost(word) && st'.attempt == MaxAttempts - 1) &&
      (st.attempt + |lines| < MaxAttempts ==> s == Continue && st'.attempt == st.attempt + |lines|)
    decreases |lines|
  {
    if |lines| > 1 {
      var (st1, s) := Step(library, word, st, lines[0]);
      assert s == Continue;
      RunOfMisses(library, word, st1, lines[1..]);
    }
  }

  /** From a fresh board, six valid guesses that are not the secret lose. */
  lemma SixMissesLose(library: seq<string>, word: string, lines: seq<string>)
    requires |lines| == MaxAttempts
    requires forall i :: 0 <= i < |lines| ==> Accepts(library, Normalize(lines[i])) && Normalize(lines[i]) != word
    ensures Run(library, word, Initial(), lines).1 == Lost(word)
  {
    RunOfMisses(library, word, Initial(), lines);
  }

  /** Membership is tested against the library as it is, while the secret is
      lowercased: a secret drawn from an entry with capitals that has no
      lowercase twin in the library can never be entered, so no line wins. */
  lemma CapitalisedSecretUnwinnable(library: seq<string>, k: nat, st: Session, line: string)
    requires k < |library| && WellFormed(st)
    requires ToLower(library[k]) !in library
    ensures !Step(library, ToLower(library[k]), st, line).1.Won?
  {
  }

  /** Input is trimmed but library entries are not: a secret ending in white
      space (which the entry filter lets through, see `StripTrailingSpace`)
      can never be entered, so no line wins. */
  lemma TrailingSpaceSecretUnwinnable(library: seq<string>, word: string, st: Session, line: string)
    requires WellFormed(st) && |word| > 0 && IsSpace(word[|word| - 1])
    ensures !Step(library, word, st, line).1.Won?
  {
  }

  /** The game of `main`: its library, its secret, the board and the counter. */
  class Game {
    const library: seq<string>
    const word: string
    const board: array<array<Cell>>
    var attempt: nat
    /** The contents of the rows, for specification. */
    ghost var Grid: seq<seq<Cell>>
    /** Whether a line has ended the game (the process would have exited). */
    ghost var Finished: bool
    ghost const Repr: set<object>

    /** Six distinct rows of five cells, mirrored by `Grid`, and a counter on the board. */
    ghost predicate Valid()
      reads this, Repr
    {
      board in Repr && board.Length == MaxAttempts &&
      (forall i :: 0 <= i < MaxAttempts ==> board[i] in Repr && board[i].Length == WordsLength) &&
      (forall i, j :: 0 <= i < j < MaxAttempts ==> board[i] != board[j]) &&
      |Grid| == MaxAttempts &&
      (forall i :: 0 <= i < MaxAttempts ==> board[i][..] == Grid[i]) &&
      attempt < MaxAttempts
    }

    ghost function State(): Session
      reads this
    {
      Session(attempt, Grid)
    }

    /** The start of `main`: the secret is the entry at index `k` (the random
        pick of line 85), lowercased; the board is all placeholders. */
    constructor (library: seq<string>, k: nat)
      requires k < |library|
      ensures Valid() && fresh(Repr)
      ensures this.library == library && word == ToLower(library[k])
      ensures State() == Initial() && !Finished
    {
      this.library := library;
      word := ToLower(library[k]);
      var first := new Cell[WordsLength](_ => Blank);
      var rows := new array<Cell>[MaxAttempts](_ => first);
      for i := 1 to MaxAttempts
        invariant forall j :: 0 <= j < MaxAttempts ==>
          fresh(rows[j]) && rows[j].Length == WordsLength && rows[j][..] == InitialGrid()[j]
        invariant forall j :: i <= j < MaxAttempts ==> rows[j] == first
        invariant forall j, l :: 0 <= j < l < i ==> rows[j] != rows[l]
      {
        rows[i] := new Cell[WordsLength](_ => Blank);
      }
      board := rows;
      attempt := 0;
      Grid := InitialGrid();
      Finished := false;
      Repr := {rows} + set j | 0 <= j < MaxAttempts :: rows[j];
    }

    /** One input line: the handler of lines 101-142. */
    method Submit(line: string) returns (s: Status)
      requires Valid() && !Finished
      modifies this, board[attempt]
      ensures Valid()
      ensures (State(), s) == Step(library, word, old(State()), line)
      ensures Finished <==> s.Won? || s.Lost?
    {
      var answer := ToLower(Trim(line));
      var isValid := |answer| == WordsLength && answer in library;
      if !isValid {
        return Invalid;
      }
      var row := board[attempt];
      for index := 0 to |answer|
        modifies row
        invariant row[..index] == GuessRow(word, answer)[..index]
        invariant forall j :: 0 <= j < MaxAttempts && j != attempt ==> board[j] != row
        invariant forall j :: 0 <= j < MaxAttempts && j != attempt ==> board[j][..] == old(board[j][..])
      {
        var letter := answer[index];
        var isOnCorrectPosition := index < |word| && word[index] == letter;
        var isExistInWord := letter in word;
        if isOnCorrectPosition {
          row[index] := Guessed(letter, Correct);
        } else if isExistInWord {
          row[index] := Guessed(letter, Present);
        } else {
          row[index] := Guessed(letter, Absent);
        }
        assert row[index] == Guessed(letter, Evaluate(word, answer)[index]);
      }
      assert row[..] == row[..|answer|] == GuessRow(word, answer);
      Grid := Grid[attempt := row[..]];
      assert Valid();
      if answer == word {
        Finished := true;
        return Won;
      }
      if attempt == MaxAttempts - 1 {
        Finished := true;
        return Lost(word);
      }
      attempt := attempt + 1;
      s := Continue;
    }
  }

  /** A short game against the secret "abide": a four-letter line and an
      unknown word are rejected without using a row, a miss takes the first
      row, and " ABIDE" wins. */
  method AbideScenario() {
    var library := ["abide", "crane"];
    var g := new Game(library, 0);
    assert g.word == "abide" by {
      ToLowerIdempotent("abide");
    }
    NormalizeExamples();
    var s := g.Submit("abid");
    assert s == Invalid && g.attempt == 0;
    s := g.Submit("zzzzz");
    assert s == Invalid && g.attempt == 0;
    s := g.Submit("crane");
    assert s == Continue && g.attempt == 1;
    s := g.Submit(" ABIDE");
    assert s == Won;
  }

  lemma NormalizeExamples()
    ensures Normalize("abid") == "abid"
    ensures Normalize("zzzzz") == "zzzzz"
    ensures Normalize("crane") == "crane"
    ensures Normalize(" ABIDE") == "abide"
  {
    NormalizePlain("abid");
    NormalizePlain("zzzzz");
    NormalizePlain("crane");
    NormalizeAbide();
  }

  lemma NormalizePlain(w: string)
    requires forall i :: 0 <= i < |w| ==> 'a' <= w[i] <= 'z'
    ensures Normalize(w) == w
  {
    TrimFixed(w);
    LowerFixed(w);
  }

  lemma NormalizeAbide()
    ensures Normalize(" ABIDE") == "abide"
  {
    var line := " ABIDE";
    assert SkipSpaces(line, 0) == 1 by {
      assert IsSpace(line[0]) && !IsSpace(line[1]);
      assert SkipSpaces(line, 1) == 1;
    }
    assert SkipSpacesBack(line, 1, 6) == 6 by {
      assert !IsSpace(line[5]);
    }
    assert Trim(line) == line[1..6];
    assert line[1..6] == "ABIDE";
    var r := ToLower("ABIDE");
    assert r[0] == 'a' && r[1] == 'b' && r[2] == 'i' && r[3] == 'd' && r[4] == 'e';
  }
}
