/**
  Game dimensions, the shape of the word list and small integer helpers
  shared by the other modules.
 */
module Config {

  /** Number of guesses a game allows (rows of the board). */
  const ROWS: nat := 6

  /** Length of every word (columns of the board). */
  const COLS: nat := 5

  /** A letter the keyboard handler passes on: exactly the lower-case a to z. */
  predicate IsLetter(c: char) {
    'a' <= c <= 'z'
  }

  /** Every entry of the word list has exactly COLS characters. */
  predicate IsWordList(words: seq<string>) {
    forall k | 0 <= k < |words| :: |words[k]| == COLS
  }

  /**
    The length filter applied to the lines of the word file, after they have
    been trimmed and lower-cased. Order and multiplicity of the kept lines
    are those of the input.
   */
  function KeepWords(lines: seq<string>): (words: seq<string>)
    ensures IsWordList(words)
    ensures forall w :: w in words <==> w in lines && |w| == COLS
    ensures forall w :: multiset(words)[w] == if |w| == COLS then multiset(lines)[w] else 0
    ensures |words| <= |lines|
  {
    if |lines| == 0 then []
    else
      var rest := KeepWords(lines[..|lines| - 1]);
      var last := lines[|lines| - 1];
      assert lines == lines[..|lines| - 1] + [last];
      assert multiset(lines) == multiset(lines[..|lines| - 1]) + multiset{last};
      if |last| == COLS then rest + [last] else rest
  }

  /** The filter keeps the order of the lines: filtering two parts of the file
      and joining the results is filtering the whole file. */
  lemma {:induction false} KeepWordsAppend(a: seq<string>, b: seq<string>)
    ensures KeepWords(a + b) == KeepWords(a) + KeepWords(b)
  {
    if |b| == 0 {
      assert a + b == a;
    } else {
      assert (a + b)[..|a + b| - 1] == a + b[..|b| - 1];
      KeepWordsAppend(a, b[..|b| - 1]);
    }
  }

  function Min(a: int, b: int): int {
    if a <= b then a else b
  }

  function Max(a: int, b: int): int {
    if a <= b then b else a
  }
}
