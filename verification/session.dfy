/**
  One game session: the board of typed letters, the cursor (row and column),
  the target word, the game-over flag, the keyboard's key classes and the
  verdict rows of the evaluated guesses. Every handler of the game is a pure
  transition from one session record to the next.
 */
module Session {
  import opened Config
  import opened Verdicts
  import opened Keyboard
  import opened Evaluator

  datatype Game = Game(
    board: seq<seq<string>>,
    row: nat,
    col: nat,
    target: string,
    gameOver: bool,
    keys: map<char, set<Verdict>>,
    results: seq<seq<Verdict>>)

  /** Why a submission was turned down. */
  datatype Reason = GameAlreadyOver | WrongLength | NotInWordList

  /** What a submission reports to the player. */
  datatype Outcome =
    | Rejected(reason: Reason)
    | Continue(verdicts: seq<Verdict>)
    | Won(verdicts: seq<Verdict>)
    | Lost(verdicts: seq<Verdict>, word: string)

  datatype Step = Step(game: Game, outcome: Outcome)

  /** A board cell holding one typed letter. */
  predicate LetterCell(cell: string) {
    |cell| == 1 && IsLetter(cell[0])
  }

  /** The letters of a row, concatenated (the row's `join("")`). */
  function Join(cells: seq<string>): (w: string)
    ensures (forall j | 0 <= j < |cells| :: |cells[j]| == 1) ==>
              |w| == |cells| && forall j | 0 <= j < |cells| :: w[j] == cells[j][0]
  {
    if |cells| == 0 then "" else cells[0] + Join(cells[1..])
  }

  /** The cell layout the handlers keep: rows above the cursor are full,
      the cursor row is filled left of the column, everything else empty. */
  predicate CellShape(board: seq<seq<string>>, row: nat, col: nat, r: nat, c: nat)
    requires r < |board| && c < |board[r]|
  {
    if r < row || (r == row && c < col) then LetterCell(board[r][c])
    else board[r][c] == ""
  }

  /** The invariant every handler preserves. */
  predicate Valid(g: Game) {
    && |g.board| == ROWS
    && (forall r | 0 <= r < ROWS :: |g.board[r]| == COLS)
    && g.row < ROWS
    && g.col <= COLS
    && |g.target| == COLS
    && (forall r, c | 0 <= r < ROWS && 0 <= c < COLS :: CellShape(g.board, g.row, g.col, r, c))
    && |g.results| == g.row + (if g.gameOver then 1 else 0)
    && (forall k | 0 <= k < g.row ::
          |Join(g.board[k])| == COLS && g.results[k] == Feedback(Join(g.board[k]), g.target))
    && (forall l | l in g.keys :: Reachable(g.keys[l]))
  }

  /** The word typed on the cursor row. */
  function CurrentGuess(g: Game): string
    requires Valid(g)
  {
    Join(g.board[g.row])
  }

  /** A completely filled cursor row spells a word of COLS letters. */
  lemma {:induction false} FullRowIsWord(g: Game)
    requires Valid(g) && g.col == COLS
    ensures |CurrentGuess(g)| == COLS
    ensures forall j | 0 <= j < COLS :: IsLetter(CurrentGuess(g)[j])
  {
    var cells := g.board[g.row];
    assert |cells| == COLS;
    forall j | 0 <= j < COLS
      ensures LetterCell(cells[j])
    {
      assert CellShape(g.board, g.row, g.col, g.row, j);
    }
    assert forall j | 0 <= j < |cells| :: |cells[j]| == 1;
  }

  /** A fresh board: ROWS rows of COLS empty cells, laid out as the
      invariant wants for a cursor on the first cell. */
  function EmptyBoard(): (b: seq<seq<string>>)
    ensures |b| == ROWS && forall r | 0 <= r < ROWS :: |b[r]| == COLS
    ensures forall r, c | 0 <= r < ROWS && 0 <= c < COLS :: b[r][c] == "" && CellShape(b, 0, 0, r, c)
  {
    seq(ROWS, _ => seq(COLS, _ => ""))
  }

  /**
    Starts a game: the target is entry `i` of the word list (the index the
    random draw picks), the cursor goes to the first cell, the board is
    emptied, every key loses its classes and no row has been evaluated.
    `keyLetters` are the letters the on-screen keyboard has keys for.
   */
  function NewGame(words: seq<string>, i: nat, keyLetters: set<char>): (g: Game)
    requires IsWordList(words) && i < |words|
    ensures Valid(g)
    ensures g.target == words[i] && g.target in words
    ensures g.row == 0 && g.col == 0 && !g.gameOver && g.results == []
    ensures forall r, c | 0 <= r < ROWS && 0 <= c < COLS :: g.board[r][c] == ""
    ensures g.keys.Keys == keyLetters && forall l | l in g.keys :: g.keys[l] == {}
  {
    Game(EmptyBoard(), 0, 0, words[i], false, map l | l in keyLetters :: {}, [])
  }

  /**
    Types a letter into the cursor cell. Nothing happens on a full row; the
    game-over flag is not consulted. Only the cursor cell and the column
    change.
   */
  function AddLetter(g: Game, letter: char): (r: Game)
    requires Valid(g) && IsLetter(letter)
    ensures Valid(r)
    ensures g.col == COLS ==> r == g
    ensures g.col < COLS ==>
              && r.col == g.col + 1
              && r.board[g.row][g.col] == [letter]
              && r == g.(board := r.board, col := r.col)
              && |r.board| == |g.board|
              && forall rr, c | 0 <= rr < ROWS && 0 <= c < COLS && (rr != g.row || c != g.col) ::
                   r.board[rr][c] == g.board[rr][c]
  {
    if g.col >= COLS then g
    else
      var r := g.(board := g.board[g.row := g.board[g.row][g.col := [letter]]], col := g.col + 1);
      assert forall rr, c | 0 <= rr < ROWS && 0 <= c < COLS :: CellShape(r.board, r.row, r.col, rr, c) by {
        forall rr, c | 0 <= rr < ROWS && 0 <= c < COLS
          ensures CellShape(r.board, r.row, r.col, rr, c)
        {
          assert CellShape(g.board, g.row, g.col, rr, c);
        }
      }
      r
  }

  /**
    Erases the cell left of the cursor. Nothing happens on an empty row; the
    game-over flag is not consulted. Only that cell and the column change.
   */
  function RemoveLetter(g: Game): (r: Game)
    requires Valid(g)
    ensures Valid(r)
    ensures g.col == 0 ==> r == g
    ensures g.col > 0 ==>
              && r.col == g.col - 1
              && r.board[g.row][r.col] == ""
              && r == g.(board := r.board, col := r.col)
              && |r.board| == |g.board|
              && forall rr, c | 0 <= rr < ROWS && 0 <= c < COLS && (rr != g.row || c != r.col) ::
                   r.board[rr][c] == g.board[rr][c]
  {
    if g.col == 0 then g
    else
      var col := g.col - 1;
      var r := g.(board := g.board[g.row := g.board[g.row][col := ""]], col := col);
      assert forall rr, c | 0 <= rr < ROWS && 0 <= c < COLS :: CellShape(r.board, r.row, r.col, rr, c) by {
        forall rr, c | 0 <= rr < ROWS && 0 <= c < COLS
          ensures CellShape(r.board, r.row, r.col, rr, c)
        {
          assert CellShape(g.board, g.row, g.col, rr, c);
        }
      }
      r
  }

  /** Typing a letter and erasing it again restores the session exactly. */
  lemma {:induction false} AddThenRemove(g: Game, letter: char)
    requires Valid(g) && IsLetter(letter) && g.col < COLS
    ensures RemoveLetter(AddLetter(g, letter)) == g
  {
    assert CellShape(g.board, g.row, g.col, g.row, g.col);
    var b := RemoveLetter(AddLetter(g, letter)).board;
    assert b[g.row] == g.board[g.row];
    assert b == g.board;
  }

  /** Recording the full cursor row's verdicts and moving to the start of
      the next row keeps the invariant. */
  lemma {:induction false} NextRowValid(g: Game, verdicts: seq<Verdict>, keys: map<char, set<Verdict>>)
    requires Valid(g) && !g.gameOver && g.col == COLS && g.row < ROWS - 1
    requires |CurrentGuess(g)| == COLS && verdicts == Feedback(CurrentGuess(g), g.target)
    requires forall l | l in keys :: Reachable(keys[l])
    ensures Valid(g.(keys := keys, results := g.results + [verdicts], row := g.row + 1, col := 0))
  {
    var next := g.(keys := keys, results := g.results + [verdicts], row := g.row + 1, col := 0);
    forall r, c | 0 <= r < ROWS && 0 <= c < COLS
      ensures CellShape(next.board, next.row, next.col, r, c)
    {
      assert CellShape(g.board, g.row, g.col, r, c);
    }
  }

  /** Recording the full cursor row's verdicts and ending the game keeps the
      invariant. */
  lemma FinalRowValid(g: Game, verdicts: seq<Verdict>, keys: map<char, set<Verdict>>)
    requires Valid(g) && !g.gameOver && g.col == COLS
    requires forall l | l in keys :: Reachable(keys[l])
    ensures Valid(g.(keys := keys, results := g.results + [verdicts], gameOver := true))
  {
  }

  /** Ends the game: only the flag changes; a loss reveals the target. */
  function EndGame(g: Game, win: bool, verdicts: seq<Verdict>): (s: Step)
    ensures s.game == g.(gameOver := true)
    ensures win ==> s.outcome == Won(verdicts)
    ensures !win ==> s.outcome == Lost(verdicts, g.target)
  {
    Step(g.(gameOver := true), if win then Won(verdicts) else Lost(verdicts, g.target))
  }

  /**
    Evaluates the full cursor row and decides the game: won on the target,
    lost on the last row, otherwise on to the start of the next row. In every
    case the row's verdicts are recorded and its key updates applied.
   */
  function Accept(g: Game): (s: Step)
    requires Valid(g) && !g.gameOver && g.col == COLS
    ensures |CurrentGuess(g)| == COLS
    ensures Valid(s.game)
    ensures !s.outcome.Rejected?
    ensures s.outcome.verdicts == Feedback(CurrentGuess(g), g.target)
    ensures s.game.results == g.results + [s.outcome.verdicts]
    ensures s.game.keys == ApplyAll(g.keys, KeyLog(CurrentGuess(g), s.outcome.verdicts))
    ensures s.game.board == g.board && s.game.target == g.target
    ensures s.outcome.Won? <==> CurrentGuess(g) == g.target
    ensures s.outcome.Won? <==> forall j | 0 <= j < COLS :: s.outcome.verdicts[j] == Correct
    ensures s.outcome.Won? ==> s.game.gameOver && s.game.row == g.row && s.game.col == g.col
    ensures s.outcome.Lost? <==> !s.outcome.Won? && g.row == ROWS - 1
    ensures s.outcome.Lost? ==> s.game.gameOver && s.game.row == g.row && s.outcome.word == g.target
    ensures s.outcome.Continue? ==> !s.game.gameOver && s.game.row == g.row + 1 && s.game.col == 0
  {
    FullRowIsWord(g);
    var guess := CurrentGuess(g);
    var verdicts := Feedback(guess, g.target);
    WinIffAllCorrect(guess, g.target);
    var keys := ApplyAll(g.keys, KeyLog(guess, verdicts));
    ApplyAllKeepsReachable(g.keys, KeyLog(guess, verdicts));
    var evaluated := g.(keys := keys, results := g.results + [verdicts]);
    if guess == g.target then
      FinalRowValid(g, verdicts, keys);
      EndGame(evaluated, true, verdicts)
    else if g.row == ROWS - 1 then
      FinalRowValid(g, verdicts, keys);
      EndGame(evaluated, false, verdicts)
    else
      NextRowValid(g, verdicts, keys);
      Step(evaluated.(row := g.row + 1, col := 0), Continue(verdicts))
  }

  /**
    Submits the cursor row. It is turned down, in this order, when the game
    is over, when the row is not full, or when the word is not in the list;
    a turned-down submission changes nothing. Otherwise the row is accepted.
   */
  function SubmitGuess(g: Game, words: seq<string>): (s: Step)
    requires Valid(g) && IsWordList(words)
    ensures Valid(s.game)
    ensures g.gameOver ==> s == Step(g, Rejected(GameAlreadyOver))
    ensures !g.gameOver && g.col != COLS ==> s == Step(g, Rejected(WrongLength))
    ensures !g.gameOver && g.col == COLS && CurrentGuess(g) !in words ==> s == Step(g, Rejected(NotInWordList))
    ensures !s.outcome.Rejected? <==> !g.gameOver && g.col == COLS && CurrentGuess(g) in words
    ensures !s.outcome.Rejected? ==> s == Accept(g)
  {
    if g.gameOver then Step(g, Rejected(GameAlreadyOver))
    else if g.col != COLS then Step(g, Rejected(WrongLength))
    else if CurrentGuess(g) !in words then Step(g, Rejected(NotInWordList))
    else Accept(g)
  }

  /** After an accepted guess each key's rank is the better of its rank before
      and the best verdict its letter got in the guess. */
  lemma {:induction false} SubmitKeyRank(g: Game, words: seq<string>, l: char)
    requires Valid(g) && IsWordList(words) && l in g.keys
    requires !SubmitGuess(g, words).outcome.Rejected?
    ensures var s := SubmitGuess(g, words);
            l in s.game.keys &&
            Rank(s.game.keys[l]) == Max(Rank(g.keys[l]), BestVerdict(CurrentGuess(g), s.outcome.verdicts, l, COLS))
  {
    var s := SubmitGuess(g, words);
    var guess := CurrentGuess(g);
    FullRowIsWord(g);
    ApplyAllRank(g.keys, KeyLog(guess, s.outcome.verdicts), l);
    KeyLogBest(guess, s.outcome.verdicts, l);
  }

  /** The guess that uses up the last row without matching loses the game
      and reveals the target. */
  lemma LastGuessLoses(g: Game, words: seq<string>)
    requires Valid(g) && IsWordList(words) && !g.gameOver
    requires |g.results| == ROWS - 1
    requires g.col == COLS && CurrentGuess(g) in words && CurrentGuess(g) != g.target
    ensures SubmitGuess(g, words).outcome == Lost(Feedback(CurrentGuess(g), g.target), g.target)
    ensures SubmitGuess(g, words).game.gameOver
  {
  }

  /** Once a game is won, a further submission is turned down as game over. */
  lemma NoSubmissionAfterWin(g: Game, words: seq<string>)
    requires Valid(g) && IsWordList(words)
    requires SubmitGuess(g, words).outcome.Won?
    ensures SubmitGuess(SubmitGuess(g, words).game, words).outcome == Rejected(GameAlreadyOver)
  {
  }
}
