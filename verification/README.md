# Wordle game logic in Dafny

This project models the game logic of a browser Wordle clone (`script.js`).
It keeps the data and leaves out the DOM. The game has three parts:

- **Evaluator** (`evaluator.dfy`, with its specification in `verdicts.dfy`).
  This is the two-pass verdict algorithm. It builds a map from each letter to its
  count in the target. The first pass marks exact matches Correct and spends their
  counts. The second pass goes left to right over the other tiles: a tile is Present
  while its letter still has a count, and Absent after that. The tile class the code
  reads back (`classList.contains("correct")`) is modelled as a sequence of `Tile`
  values, each either `Blank` or `Marked(verdict)`. Every mark also updates the key
  for its letter, and the method returns those updates in the order they are made.
  `Verdicts.Feedback` is a separate declarative definition that uses no counters.
  For each position it says which verdict the position gets. `EvaluateGuess` is
  proved to compute exactly that definition.
- **Keyboard** (`keyboard.dfy`). Each key holds a set of verdict classes.
  - A "correct" update replaces the whole set with {Correct}.
  - A "present" update adds Present unless the key is already correct.
  - An "absent" update adds Absent only when the key is neither correct nor present.
  - A letter with no on-screen key is ignored.
- **Session** (`session.dfy`, `play.dfy`). The game state is one immutable record:
  the ROWS×COLS board of typed cells, the cursor row and column, the target, the
  game-over flag, the key classes, and the verdict rows already evaluated. The
  handlers `NewGame`, `AddLetter`, `RemoveLetter`, `SubmitGuess` and `EndGame` are
  pure transitions, and `Play.Run` plays a whole sequence of inputs. `Session.Valid`
  is the invariant every handler keeps:
  - the cursor stays on the board;
  - rows above the cursor are full;
  - the cursor row is filled left of the column;
  - every row above the cursor has its verdicts recorded;
  - a correct key carries no other class.

`config.dfy` holds ROWS = 6, COLS = 5, the letter predicate, the shape of the word
list, and the length filter applied to the word file.

Behaviour of the code worth knowing:
- `addLetter` and `removeLetter` do not check `gameOver` (script.js:122-141). After a
  game ends, letters can still be erased from and retyped into the last row, but
  nothing can be submitted.
- On a win or a loss the cursor row does not advance (script.js:168-176).
- Repeated letters are credited left to right: `trace` against `crane` gives
  [Absent, Correct, Correct, Present, Correct] (`Verdicts.TraceAgainstCrane`).

## Model

| member | source | states |
|---|---|---|
| Config.KeepWords | script.js:22-25 | The kept words are exactly the input lines of length COLS, so every word in the list has COLS letters. Each kept word occurs as often as in the input, and other lines occur not at all. |
| Config.KeepWordsAppend | script.js:25 | The filter keeps the input order: filtering two parts of the file and joining the results is filtering the whole file. |
| Evaluator.CountLetters | script.js:188-191 | The count map reads back as each letter's number of occurrences in the target (missing letters read 0). Every stored count is positive. |
| Evaluator.ExactStep | script.js:196-198 | On an exact match the letter's count is at least 1 before the decrement. Each step of the first pass keeps every count equal to its target count minus the exact matches so far. |
| Evaluator.MarkExact | script.js:194-201 | After the first pass, exactly the exact-match tiles are Correct and all other tiles are blank. No count is negative. Each letter's remaining count equals the target's copies of it that the guess does not match. One "correct" key update is issued per exact match, left to right. |
| Evaluator.RestStep | script.js:207-215 | A tile that is not Correct is Present exactly when its letter has a count above 0. Spending that count keeps the second-pass counts in step with the specification. |
| Evaluator.MarkRest | script.js:204-217 | The second pass turns the first-pass tiles into exactly the specified feedback row. It issues one key update per tile that is not Correct, carrying that tile's verdict, left to right. |
| Evaluator.EvaluateGuess | script.js:187-218 | Returns exactly COLS verdicts. Position i is Correct iff `guess[i] == target[i]`. The row equals the declarative `Feedback`. The key updates are the first pass's "correct" updates followed by the second pass's updates. |
| Evaluator.KeyLogBest | script.js:194-217 | The updates one evaluation sends report, for each letter, the best verdict that letter got anywhere in the row. |
| Verdicts.Feedback | script.js:187-218 | The feedback row has one verdict per position, and a position is Correct exactly when guess and target agree there. |
| Verdicts.LetterBudget | script.js:188-217 | For every letter, the positions marked Correct or Present number min(copies in guess, copies in target). Extra copies are Absent. |
| Verdicts.AbsentWhenNotInTarget | script.js:204-215 | A letter the target does not contain is Absent at every position of the guess. |
| Verdicts.PresentBeforePresent | script.js:204-215 | For two positions holding the same letter, neither of them Correct: if the right one is Present, the left one is Present. |
| Verdicts.PresentGoesLeftmost | script.js:204-215 | Among a letter's positions that are not Correct, the Present ones come first and the Absent ones last. Left of a Present position everything is Present, and right of an Absent position everything is Absent. |
| Verdicts.WinIffAllCorrect | script.js:194-201 | For words of equal length, the guess equals the target iff every verdict is Correct. This is what makes the win check at line 168 agree with the tiles. |
| Verdicts.IdenticalWords | script.js:187-218 | `crane` against itself is all Correct. |
| Verdicts.TraceAgainstCrane | script.js:187-218 | `trace` against `crane` gives Absent, Correct, Correct, Present, Correct. |
| Verdicts.LollyAgainstAllot | script.js:187-218 | `lolly` against `allot` gives Present, Present, Correct, Absent, Absent. Of the three copies of 'l', two are credited and the third is Absent. |
| Keyboard.UpdateKeyColor | script.js:228-238 | A "correct" update makes the key exactly {Correct}. Other updates only add their own class. A correct key ignores them. Absent is added only to a key that is neither correct nor present. |
| Keyboard.UpdateRank | script.js:228-238 | After an update, the key's best class is the better of its old best class and the update's verdict (Correct over Present over Absent). |
| Keyboard.UpdateKeepsReachable | script.js:228-238 | A key that is correct carries no other class, and updates keep it that way. |
| Keyboard.Press | script.js:225-226 | Applying an update to the keyboard changes only the key of that letter, and it does nothing when the letter has no key. |
| Keyboard.ApplyAll | script.js:194-217 | Applying the key updates of a guess in order keeps the same set of keys. |
| Keyboard.ApplyAllAppend | script.js:194-217 | Updates take effect in the order they are made: applying a log in two parts, one after the other, is applying it whole. |
| Keyboard.ApplyAllRank | script.js:224-239 | After any sequence of updates, a key's best class is the better of its class before and the best verdict reported for its letter. |
| Keyboard.CorrectIsKept | script.js:230-236 | A correct key stays exactly {Correct} under any further updates. |
| Keyboard.OnlyCorrectRemoves | script.js:228-238 | With no "correct" update for a letter, its key's classes only grow. |
| Session.Join | script.js:159 | For a row of one-character cells, the joined word has one letter per cell, in cell order. |
| Session.EmptyBoard | script.js:97-99 | A fresh board has ROWS rows of COLS empty cells, which is the layout the invariant allows for a cursor on the first cell. |
| Session.FullRowIsWord | script.js:154-159 | When the column reaches COLS, the joined cursor row is a word of COLS letters. |
| Session.NewGame | script.js:81-99 | Resets the game: the target is the chosen word-list entry, row, column and game-over flag are reset, every cell is empty, every key is plain, and no rows are recorded. The result satisfies the invariant. |
| Session.AddLetter | script.js:122-131 | Does nothing on a full row. Otherwise it writes the letter to the cursor cell and advances the column, and changes nothing else. The invariant is kept. |
| Session.RemoveLetter | script.js:133-141 | Does nothing at column 0. Otherwise it steps the column back and empties that cell, and changes nothing else. The invariant is kept. |
| Session.AddThenRemove | script.js:122-141 | Typing a letter into a row that is not full and then erasing it restores the exact previous state. |
| Session.NextRowValid | script.js:178-179 | Recording the row's verdicts and moving to the start of the next row keeps the invariant. |
| Session.FinalRowValid | script.js:245-246 | Recording the row's verdicts and setting the game-over flag keeps the invariant. |
| Session.EndGame | script.js:245-253 | Only the game-over flag changes. A win reports the verdicts, and a loss also reveals the target. |
| Session.Accept | script.js:166-179 | Evaluates the row, records its verdicts and applies its key updates. The guess wins iff it equals the target iff all verdicts are Correct, and the row stays. Otherwise the last row loses and reveals the target. Otherwise play moves to column 0 of the next row. |
| Session.SubmitGuess | script.js:147-180 | Rejects, in this order, when the game is over, when the column is not COLS, and when the word is not in the list. A rejection changes nothing. A guess is accepted exactly when all three checks pass. |
| Session.SubmitKeyRank | script.js:194-239 | After an accepted guess, each key shows the better of its previous class and the best verdict its letter got in that guess. |
| Session.LastGuessLoses | script.js:173-176 | With ROWS-1 rows used, a valid guess that misses the target loses and reveals the target. |
| Session.NoSubmissionAfterWin | script.js:149-152 | Once a guess wins, the next submission is rejected because the game is over. |
| Play.Handle | script.js:110-114 | Each input goes to its handler and keeps the invariant. An accepted guess appends exactly one recorded row. Nothing else changes the rows, keys or cursor row. A finished game stays finished. |
| Play.Run | script.js:122-180 | Over any input sequence, each accepted guess appends exactly one recorded row, and earlier rows are never changed. The target is fixed. A finished game accepts nothing more. |
| Play.AtMostRowsGuesses | script.js:166-179 | From a new game, at most ROWS guesses are accepted, and after ROWS accepted guesses the game is over. |
| Play.RowCountsGuesses | script.js:166-179 | While a game started fresh is running, the cursor row equals the number of accepted guesses. |

## Left out

- Reading the word file (`fetch`, `res.text()`, script.js:19-20) is I/O. So are the line split, `trim` and `toLowerCase` (script.js:23-24). `Config.KeepWords` takes lines that are already trimmed and lower-cased and models only the length filter.
- Strings are modelled as sequences of Unicode characters. JavaScript measures `w.length` (script.js:25) and indexes `targetWord[c]` (script.js:196) in UTF-16 code units, while `for…of` (script.js:189) walks code points. This counting is not modelled, so for a line containing a character outside the Basic Multilingual Plane (two UTF-16 units) the code and the model can disagree on whether it has COLS characters.
- `Math.random` in `newGame` (script.js:82) is replaced by an index parameter. An empty word list is a precondition violation, not modelled behaviour.
- All DOM work (`createBoard`, tile text, the `filled` class, `querySelector`, `getElementById`) is left out. The board, tile verdicts and key classes are kept as data. The initial state before the first `newGame` (script.js:7-12, 53-75) is not modelled.
- The set of letters that have an on-screen key comes from the page markup, which is not part of this model. `NewGame` takes that set as a parameter.
- `showMessage` and its `setTimeout` animation (script.js:258-270), and `console.log` (script.js:101), are presentation. Rejections and game endings are reported as an `Outcome` value instead.
- Event-listener wiring (script.js:44-46, 109) is left out. `Play.Input` carries only the three dispatched inputs, and letters are required to be a single lower-case a to z character (script.js:112). Other keys are ignored by the handler and do not appear.
- Session.Valid: recorded verdicts are tied to board rows only above the cursor row. After a game ends, `removeLetter` can still erase letters from the final row while its tiles keep their classes.
