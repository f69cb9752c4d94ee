/**
  What a guess should be told about a target, stated position by position
  without any running counter. The two-pass evaluator in module Evaluator is
  proved to compute exactly this feedback.

  For a letter x, the target's copies of x split into the ones the guess
  matches exactly (Exact) and the ones it does not (Unmatched); the guess's
  copies split into the same exact matches and the misplaced ones
  (Misplaced). A misplaced copy of x is Present when fewer misplaced copies
  of x lie to its left than the target has unmatched copies, otherwise Absent.
 */
module Verdicts {
  import opened Config

  datatype Verdict = Correct | Present | Absent

  /** Number of occurrences of `x` in `s`. */
  function Count(s: string, x: char): nat {
    if |s| == 0 then 0
    else Count(s[..|s| - 1], x) + (if s[|s| - 1] == x then 1 else 0)
  }

  /** Positions below `n` where guess and target both hold `x`. */
  function Exact(g: string, t: string, x: char, n: nat): nat
    requires n <= |g| && n <= |t|
  {
    if n == 0 then 0
    else Exact(g, t, x, n - 1) + (if g[n - 1] == x && t[n - 1] == x then 1 else 0)
  }

  /** Positions below `n` where the guess holds `x` and the target another letter. */
  function Misplaced(g: string, t: string, x: char, n: nat): nat
    requires n <= |g| && n <= |t|
  {
    if n == 0 then 0
    else Misplaced(g, t, x, n - 1) + (if g[n - 1] == x && t[n - 1] != x then 1 else 0)
  }

  /** Positions below `n` where the target holds `x` and the guess another letter. */
  function Unmatched(g: string, t: string, x: char, n: nat): nat
    requires n <= |g| && n <= |t|
  {
    if n == 0 then 0
    else Unmatched(g, t, x, n - 1) + (if t[n - 1] == x && g[n - 1] != x then 1 else 0)
  }

  /** The verdict of position `i` of guess `g` against target `t`. */
  function FeedbackAt(g: string, t: string, i: nat): Verdict
    requires |g| == |t| && i < |g|
  {
    if g[i] == t[i] then Correct
    else if Misplaced(g, t, g[i], i) < Unmatched(g, t, g[i], |t|) then Present
    else Absent
  }

  /** The feedback row for guess `g` against target `t`. */
  function Feedback(g: string, t: string): (v: seq<Verdict>)
    requires |g| == |t|
    ensures |v| == |g|
    ensures forall i | 0 <= i < |g| :: v[i] == Correct <==> g[i] == t[i]
  {
    seq(|g|, i requires 0 <= i < |g| => FeedbackAt(g, t, i))
  }

  /** Positions below `n` holding `x` in the guess whose verdict is not Absent. */
  function Credited(g: string, v: seq<Verdict>, x: char, n: nat): nat
    requires n <= |g| && n <= |v|
  {
    if n == 0 then 0
    else Credited(g, v, x, n - 1) + (if g[n - 1] == x && v[n - 1] != Absent then 1 else 0)
  }

  // ---------------------------------------------------------------------------
  // Counting facts

  /** The guess's copies of `x` are its exact matches plus its misplaced ones. */
  lemma {:induction false} GuessCountSplit(g: string, t: string, x: char, n: nat)
    requires n <= |g| && n <= |t|
    ensures Count(g[..n], x) == Exact(g, t, x, n) + Misplaced(g, t, x, n)
  {
    if n > 0 {
      assert g[..n][..n - 1] == g[..n - 1];
      GuessCountSplit(g, t, x, n - 1);
    }
  }

  /** The target's copies of `x` are the exact matches plus the unmatched ones. */
  lemma {:induction false} TargetCountSplit(g: string, t: string, x: char, n: nat)
    requires n <= |g| && n <= |t|
    ensures Count(t[..n], x) == Exact(g, t, x, n) + Unmatched(g, t, x, n)
  {
    if n > 0 {
      assert t[..n][..n - 1] == t[..n - 1];
      TargetCountSplit(g, t, x, n - 1);
    }
  }

  lemma {:induction false} ExactMonotone(g: string, t: string, x: char, a: nat, b: nat)
    requires a <= b <= |g| && b <= |t|
    ensures Exact(g, t, x, a) <= Exact(g, t, x, b)
  {
    if a < b {
      ExactMonotone(g, t, x, a, b - 1);
    }
  }

  lemma {:induction false} MisplacedMonotone(g: string, t: string, x: char, a: nat, b: nat)
    requires a <= b <= |g| && b <= |t|
    ensures Misplaced(g, t, x, a) <= Misplaced(g, t, x, b)
  {
    if a < b {
      MisplacedMonotone(g, t, x, a, b - 1);
    }
  }

  /** A letter that does not occur has count zero. */
  lemma {:induction false} CountOfMissing(s: string, x: char)
    requires x !in s
    ensures Count(s, x) == 0
  {
    if |s| > 0 {
      assert forall c | c in s[..|s| - 1] :: c in s;
      CountOfMissing(s[..|s| - 1], x);
    }
  }

  // ---------------------------------------------------------------------------
  // Properties of the feedback

  /** Among the first `n` positions, the credited copies of `x` are all exact
      matches plus as many misplaced copies as the unmatched budget allows. */
  lemma {:induction false} CreditedPrefix(g: string, t: string, x: char, n: nat)
    requires |g| == |t| && n <= |g|
    ensures Credited(g, Feedback(g, t), x, n)
            == Exact(g, t, x, n) + Min(Misplaced(g, t, x, n), Unmatched(g, t, x, |t|))
  {
    if n > 0 {
      CreditedPrefix(g, t, x, n - 1);
    }
  }

  /**
    Per-letter budget: the positions of `x` in the guess that are Correct or
    Present number min(copies in guess, copies in target); every further copy
    is Absent.
   */
  lemma {:induction false} LetterBudget(g: string, t: string, x: char)
    requires |g| == |t|
    ensures Credited(g, Feedback(g, t), x, |g|) == Min(Count(g, x), Count(t, x))
  {
    CreditedPrefix(g, t, x, |g|);
    GuessCountSplit(g, t, x, |g|);
    TargetCountSplit(g, t, x, |t|);
    assert g[..|g|] == g;
    assert t[..|t|] == t;
  }

  /** A letter the target does not contain is Absent wherever the guess has it. */
  lemma {:induction false} AbsentWhenNotInTarget(g: string, t: string, x: char)
    requires |g| == |t| && x !in t
    ensures forall i | 0 <= i < |g| && g[i] == x :: Feedback(g, t)[i] == Absent
  {
    CountOfMissing(t, x);
    TargetCountSplit(g, t, x, |t|);
    assert t[..|t|] == t;
  }

  /** One pair of positions of the allocation order below. */
  lemma {:induction false} PresentBeforePresent(g: string, t: string, i: nat, j: nat)
    requires |g| == |t| && i < j < |g|
    requires g[i] == g[j] && g[i] != t[i] && g[j] != t[j]
    requires FeedbackAt(g, t, j) == Present
    ensures FeedbackAt(g, t, i) == Present
  {
    MisplacedMonotone(g, t, g[i], i + 1, j);
  }

  /**
    Left-to-right allocation: among the non-Correct positions holding the
    same letter, a Present one has only Present ones to its left, and after
    an Absent one every later one is Absent.
   */
  lemma {:induction false} PresentGoesLeftmost(g: string, t: string)
    requires |g| == |t|
    ensures var v := Feedback(g, t);
            forall i, j | 0 <= i < j < |g| && g[i] == g[j] && v[i] != Correct && v[j] != Correct ::
              (v[j] == Present ==> v[i] == Present) && (v[i] == Absent ==> v[j] == Absent)
  {
    var v := Feedback(g, t);
    forall i, j | 0 <= i < j < |g| && g[i] == g[j] && v[i] != Correct && v[j] != Correct
      ensures v[j] == Present ==> v[i] == Present
    {
      if v[j] == Present {
        PresentBeforePresent(g, t, i, j);
      }
    }
  }

  /** A guess equals the target exactly when every verdict is Correct. */
  lemma {:induction false} WinIffAllCorrect(g: string, t: string)
    requires |g| == |t|
    ensures g == t <==> forall i | 0 <= i < |g| :: Feedback(g, t)[i] == Correct
  {
    var v := Feedback(g, t);
    if forall i | 0 <= i < |g| :: v[i] == Correct {
      assert forall i | 0 <= i < |g| :: g[i] == t[i];
    }
  }

  // ---------------------------------------------------------------------------
  // Worked rows

  lemma IdenticalWords()
    ensures Feedback("crane", "crane") == [Correct, Correct, Correct, Correct, Correct]
  {
  }

  lemma TraceAgainstCrane()
    ensures Feedback("trace", "crane") == [Absent, Correct, Correct, Present, Correct]
  {
    var g, t := "trace", "crane";
    assert Unmatched(g, t, 't', 5) == 0;
    assert Misplaced(g, t, 'c', 3) == 0;
    assert Unmatched(g, t, 'c', 5) == 1;
  }

  /** Three copies of 'l' against two: one exact, one Present, one Absent. */
  lemma LollyAgainstAllot()
    ensures Feedback("lolly", "allot") == [Present, Present, Correct, Absent, Absent]
  {
    var g, t := "lolly", "allot";
    assert Unmatched(g, t, 'l', 5) == 1;
    assert Misplaced(g, t, 'l', 0) == 0;
    assert Misplaced(g, t, 'l', 3) == 1;
    assert Unmatched(g, t, 'o', 5) == 1;
    assert Misplaced(g, t, 'o', 1) == 0;
    assert Unmatched(g, t, 'y', 5) == 0;
  }
}
