/**
  The two-pass guess evaluator. A map from letter to remaining count starts
  as the target's letter counts; the first pass marks exact matches Correct
  and spends their counts, the second pass walks the other positions left to
  right, marking Present while the letter's count lasts and Absent after.
  Every mark also updates the key of its letter; the method returns the
  updates in the order it issues them.
 */
module Evaluator {
  import opened Config
  import opened Verdicts
  import opened Keyboard

  /** A board tile: not yet marked, or carrying a verdict class. */
  datatype Tile = Blank | Marked(verdict: Verdict)

  /** `letterCount[x]`, where a letter never counted reads as 0. */
  function Lookup(m: map<char, int>, x: char): int {
    if x in m then m[x] else 0
  }

  /** Key updates of the first pass: one "correct" per Correct position below `n`. */
  function CorrectUpdates(g: string, v: seq<Verdict>, n: nat): seq<KeyUpdate>
    requires n <= |g| && n <= |v|
  {
    if n == 0 then []
    else if v[n - 1] == Correct then CorrectUpdates(g, v, n - 1) + [KeyUpdate(g[n - 1], Correct)]
    else CorrectUpdates(g, v, n - 1)
  }

  /** Key updates of the second pass: the verdict of each other position below `n`. */
  function OtherUpdates(g: string, v: seq<Verdict>, n: nat): seq<KeyUpdate>
    requires n <= |g| && n <= |v|
  {
    if n == 0 then []
    else if v[n - 1] != Correct then OtherUpdates(g, v, n - 1) + [KeyUpdate(g[n - 1], v[n - 1])]
    else OtherUpdates(g, v, n - 1)
  }

  /** All key updates of one evaluation, first pass then second pass. */
  function KeyLog(g: string, v: seq<Verdict>): seq<KeyUpdate>
    requires |g| == |v|
  {
    CorrectUpdates(g, v, |g|) + OtherUpdates(g, v, |g|)
  }

  /** The best verdict row `v` gives letter `l` among the first `n` positions. */
  function BestVerdict(g: string, v: seq<Verdict>, l: char, n: nat): nat
    requires n <= |g| && n <= |v|
  {
    if n == 0 then 0
    else Max(BestVerdict(g, v, l, n - 1), if g[n - 1] == l then StatusRank(v[n - 1]) else 0)
  }

  lemma {:induction false} PassesBest(g: string, v: seq<Verdict>, l: char, n: nat)
    requires n <= |g| && n <= |v|
    ensures Max(Best(CorrectUpdates(g, v, n), l), Best(OtherUpdates(g, v, n), l)) == BestVerdict(g, v, l, n)
  {
    if n > 0 {
      PassesBest(g, v, l, n - 1);
      var c := CorrectUpdates(g, v, n - 1);
      var o := OtherUpdates(g, v, n - 1);
      if v[n - 1] == Correct {
        BestAppend(c, [KeyUpdate(g[n - 1], Correct)], l);
      } else {
        BestAppend(o, [KeyUpdate(g[n - 1], v[n - 1])], l);
      }
    }
  }

  /** The updates of one evaluation report, per letter, the best verdict that
      letter received in the row. */
  lemma {:induction false} KeyLogBest(g: string, v: seq<Verdict>, l: char)
    requires |g| == |v|
    ensures Best(KeyLog(g, v), l) == BestVerdict(g, v, l, |g|)
  {
    BestAppend(CorrectUpdates(g, v, |g|), OtherUpdates(g, v, |g|), l);
    PassesBest(g, v, l, |g|);
  }

  /** The letter counts of the target, as the map the evaluator starts from. */
  method CountLetters(target: string) returns (letterCount: map<char, int>)
    requires |target| == COLS
    ensures forall x :: Lookup(letterCount, x) == Count(target, x)
    ensures forall x | x in letterCount :: letterCount[x] > 0
  {
    letterCount := map[];
    for i := 0 to COLS
      invariant forall x :: Lookup(letterCount, x) == Count(target[..i], x)
      invariant forall x | x in letterCount :: letterCount[x] > 0
    {
      letterCount := letterCount[target[i] := Lookup(letterCount, target[i]) + 1];
      assert target[..i + 1][..i] == target[..i];
    }
    assert target[..COLS] == target;
  }

  /** The counts the first pass holds before position `c`: each letter's
      count in the target, less its exact matches so far. */
  ghost predicate SpentCounts(g: string, t: string, m: map<char, int>, c: nat)
    requires |g| == |t| && c <= |g|
  {
    forall x :: Lookup(m, x) == Count(t, x) - Exact(g, t, x, c)
  }

  /** One step of the first pass: an exact match finds its letter with a
      positive count, and spending it (or nothing, on a mismatch) keeps the
      counts in step and non-negative. */
  lemma {:induction false} ExactStep(g: string, t: string, m: map<char, int>, c: nat)
    requires |g| == |t| && c < |g|
    requires SpentCounts(g, t, m, c)
    ensures g[c] == t[c] ==> g[c] in m && m[g[c]] >= 1
    ensures g[c] == t[c] ==> SpentCounts(g, t, m[g[c] := m[g[c]] - 1], c + 1)
    ensures g[c] != t[c] ==> SpentCounts(g, t, m, c + 1)
  {
    assert forall y :: Exact(g, t, y, c + 1) == Exact(g, t, y, c) + (if g[c] == y && t[c] == y then 1 else 0);
    if g[c] == t[c] {
      TargetCountSplit(g, t, g[c], |t|);
      ExactMonotone(g, t, g[c], c + 1, |t|);
      assert t[..|t|] == t;
    }
  }

  /**
    First pass: marks every exact match Correct and spends one count of its
    letter. What is left of a letter's count is then exactly the number of
    the target's copies of it that the guess does not match.
   */
  method MarkExact(guess: string, target: string, counts: map<char, int>)
    returns (tiles: seq<Tile>, letterCount: map<char, int>, log: seq<KeyUpdate>)
    requires |guess| == COLS && |target| == COLS
    requires forall x :: Lookup(counts, x) == Count(target, x)
    requires forall x | x in counts :: counts[x] >= 0
    ensures |tiles| == COLS
    ensures forall j | 0 <= j < COLS :: tiles[j] == (if guess[j] == target[j] then Marked(Correct) else Blank)
    ensures forall x :: Lookup(letterCount, x) == Unmatched(guess, target, x, |target|)
    ensures forall x | x in letterCount :: letterCount[x] >= 0
    ensures log == CorrectUpdates(guess, Feedback(guess, target), |guess|)
  {
    ghost var spec := Feedback(guess, target);
    tiles := seq(COLS, _ => Blank);
    letterCount := counts;
    log := [];
    assert target[..COLS] == target;
    for c := 0 to COLS
      invariant |tiles| == COLS
      invariant forall j | 0 <= j < c :: tiles[j] == (if guess[j] == target[j] then Marked(Correct) else Blank)
      invariant forall j | c <= j < COLS :: tiles[j] == Blank
      invariant SpentCounts(guess, target, letterCount, c)
      invariant forall x | x in letterCount :: letterCount[x] >= 0
      invariant log == CorrectUpdates(guess, spec, c)
    {
      ExactStep(guess, target, letterCount, c);
      assert spec[c] == Correct <==> guess[c] == target[c];
      if guess[c] == target[c] {
        var x := guess[c];
        tiles := tiles[c := Marked(Correct)];
        letterCount := letterCount[x := letterCount[x] - 1];
        log := log + [KeyUpdate(x, Correct)];
      }
    }
    forall x
      ensures Lookup(letterCount, x) == Unmatched(guess, target, x, |target|)
    {
      TargetCountSplit(guess, target, x, COLS);
    }
  }

  /** The counts the second pass holds before position `c`: each letter's
      unmatched target copies, less the misplaced copies already credited. */
  ghost predicate RemainingCounts(g: string, t: string, m: map<char, int>, c: nat)
    requires |g| == |t| && c <= |g|
  {
    forall x :: Lookup(m, x) == Max(0, Unmatched(g, t, x, |t|) - Misplaced(g, t, x, c))
  }

  /** One step of the second pass: a non-exact position is Present exactly
      when its letter has a count left, and spending that count (or not, when
      it is Absent or Correct) keeps the counts in step. */
  lemma {:induction false} RestStep(g: string, t: string, m: map<char, int>, c: nat)
    requires |g| == |t| && c < |g|
    requires RemainingCounts(g, t, m, c)
    ensures g[c] != t[c] ==> FeedbackAt(g, t, c) == (if g[c] in m && m[g[c]] > 0 then Present else Absent)
    ensures g[c] != t[c] && g[c] in m && m[g[c]] > 0 ==> RemainingCounts(g, t, m[g[c] := m[g[c]] - 1], c + 1)
    ensures g[c] == t[c] || !(g[c] in m && m[g[c]] > 0) ==> RemainingCounts(g, t, m, c + 1)
  {
  }

  /**
    Second pass: every tile not already Correct becomes Present while its
    letter has a count left (spending one), and Absent once it has none.
   */
  method MarkRest(guess: string, target: string, marked: seq<Tile>, counts: map<char, int>)
    returns (verdicts: seq<Verdict>, log: seq<KeyUpdate>)
    requires |guess| == COLS && |target| == COLS && |marked| == COLS
    requires forall j | 0 <= j < COLS :: marked[j] == (if guess[j] == target[j] then Marked(Correct) else Blank)
    requires forall x :: Lookup(counts, x) == Unmatched(guess, target, x, |target|)
    requires forall x | x in counts :: counts[x] >= 0
    ensures verdicts == Feedback(guess, target)
    ensures log == OtherUpdates(guess, verdicts, COLS)
  {
    ghost var spec := Feedback(guess, target);
    var tiles := marked;
    var letterCount := counts;
    log := [];
    for c := 0 to COLS
      invariant |tiles| == COLS
      invariant forall j | 0 <= j < c :: tiles[j] == Marked(FeedbackAt(guess, target, j))
      invariant forall j | c <= j < COLS :: tiles[j] == marked[j]
      invariant RemainingCounts(guess, target, letterCount, c)
      invariant forall x | x in letterCount :: letterCount[x] >= 0
      invariant log == OtherUpdates(guess, spec, c)
    {
      RestStep(guess, target, letterCount, c);
      assert spec[c] == FeedbackAt(guess, target, c);
      if tiles[c] != Marked(Correct) {
        var x := guess[c];
        if x in letterCount && letterCount[x] > 0 {
          tiles := tiles[c := Marked(Present)];
          letterCount := letterCount[x := letterCount[x] - 1];
          log := log + [KeyUpdate(x, Present)];
        } else {
          tiles := tiles[c := Marked(Absent)];
          log := log + [KeyUpdate(x, Absent)];
        }
      }
    }
    verdicts := seq(COLS, j requires 0 <= j < COLS && tiles[j].Marked? => tiles[j].verdict);
    assert forall j | 0 <= j < COLS :: verdicts[j] == spec[j];
    assert verdicts == spec;
  }

  /**
    Evaluates `guess` against `target` as the game does: the target's letter
    counts, the exact matches, then the remaining positions against the
    remaining counts. The result is the feedback row, and the key updates
    come in the order the two passes issue them.
   */
  method EvaluateGuess(guess: string, target: string) returns (verdicts: seq<Verdict>, log: seq<KeyUpdate>)
    requires |guess| == COLS && |target| == COLS
    ensures |verdicts| == COLS
    ensures forall i | 0 <= i < COLS :: verdicts[i] == Correct <==> guess[i] == target[i]
    ensures verdicts == Feedback(guess, target)
    ensures log == KeyLog(guess, verdicts)
  {
    var counts := CountLetters(target);
    var tiles, remaining, firstLog := MarkExact(guess, target, counts);
    var restLog;
    verdicts, restLog := MarkRest(guess, target, tiles, remaining);
    log := firstLog + restLog;
  }
}
