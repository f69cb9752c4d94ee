/**
  A game played as a sequence of inputs: letters, backspace and enter, each
  dispatched to its handler in order. The bounds of the game follow from the
  session invariant: every accepted guess adds one evaluated row, and there
  are at most ROWS of them.
 */
module Play {
  import opened Config
  import opened Session

  datatype Input = Letter(letter: char) | Backspace | Enter

  /** Letters come in as single lower-case a to z characters. */
  predicate WellFormed(inputs: seq<Input>) {
    forall k | 0 <= k < |inputs| :: inputs[k].Letter? ==> IsLetter(inputs[k].letter)
  }

  /** Whether the input is a submission the session accepts. */
  predicate Accepted(g: Game, words: seq<string>, input: Input)
    requires Valid(g) && IsWordList(words)
  {
    input.Enter? && !SubmitGuess(g, words).outcome.Rejected?
  }

  /** One input, dispatched to its handler. An accepted guess appends one
      evaluated row; nothing else touches the rows, the target or the keys,
      and nothing at all happens to a finished game's record. */
  function Handle(g: Game, words: seq<string>, input: Input): (h: Game)
    requires Valid(g) && IsWordList(words)
    requires input.Letter? ==> IsLetter(input.letter)
    ensures Valid(h)
    ensures h.target == g.target && h.row >= g.row
    ensures Accepted(g, words, input) ==> |h.results| == |g.results| + 1 && g.results <= h.results
    ensures !Accepted(g, words, input) ==> h.results == g.results && h.keys == g.keys && h.row == g.row
    ensures g.gameOver ==> h.gameOver && !Accepted(g, words, input)
  {
    match input
    case Letter(c) => AddLetter(g, c)
    case Backspace => RemoveLetter(g)
    case Enter => SubmitGuess(g, words).game
  }

  /**
    Plays `inputs` from `g`; the result is the final session and the number of
    accepted guesses. Every accepted guess adds exactly one evaluated row;
    the target never changes; a finished game stays finished with its rows
    and keys untouched.
   */
  function Run(g: Game, words: seq<string>, inputs: seq<Input>): (r: (Game, nat))
    requires Valid(g) && IsWordList(words) && WellFormed(inputs)
    ensures Valid(r.0)
    ensures |r.0.results| == |g.results| + r.1
    ensures g.results <= r.0.results
    ensures r.0.target == g.target
    ensures g.gameOver ==> r.0.gameOver && r.1 == 0 && r.0.row == g.row && r.0.keys == g.keys
    ensures r.0.row >= g.row
    decreases |inputs|
  {
    if |inputs| == 0 then (g, 0)
    else
      var rest := Run(Handle(g, words, inputs[0]), words, inputs[1..]);
      (rest.0, rest.1 + if Accepted(g, words, inputs[0]) then 1 else 0)
  }

  /** A game accepts at most ROWS guesses, and one that has accepted ROWS
      guesses is over. */
  lemma AtMostRowsGuesses(words: seq<string>, i: nat, keyLetters: set<char>, inputs: seq<Input>)
    requires IsWordList(words) && i < |words| && WellFormed(inputs)
    ensures Run(NewGame(words, i, keyLetters), words, inputs).1 <= ROWS
    ensures Run(NewGame(words, i, keyLetters), words, inputs).1 == ROWS ==>
              Run(NewGame(words, i, keyLetters), words, inputs).0.gameOver
  {
  }

  /** While a game is running, the cursor row counts the guesses accepted. */
  lemma RowCountsGuesses(words: seq<string>, i: nat, keyLetters: set<char>, inputs: seq<Input>)
    requires IsWordList(words) && i < |words| && WellFormed(inputs)
    ensures var r := Run(NewGame(words, i, keyLetters), words, inputs);
            !r.0.gameOver ==> r.0.row == r.1
  {
  }
}
