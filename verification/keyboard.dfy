/**
  The on-screen keyboard: each key carries a set of verdict classes that the
  evaluator updates letter by letter. A "correct" update replaces the whole
  class list; "present" and "absent" only ever add their own class, and only
  when no better class is already there.
 */
module Keyboard {
  import opened Config
  import opened Verdicts

  /** One call of the key-colour update: which key, which verdict. */
  datatype KeyUpdate = KeyUpdate(letter: char, status: Verdict)

  /** The precedence of a verdict: Correct over Present over Absent. */
  function StatusRank(s: Verdict): nat {
    match s
    case Correct => 3
    case Present => 2
    case Absent => 1
  }

  /** The best verdict a key's classes show (0 for a plain key). */
  function Rank(key: set<Verdict>): nat {
    if Correct in key then 3
    else if Present in key then 2
    else if Absent in key then 1
    else 0
  }

  /** The class sets the updates can produce from a plain key: a correct key
      carries no other class. */
  predicate Reachable(key: set<Verdict>) {
    Correct in key ==> key == {Correct}
  }

  /** One colour update of a single key. */
  function UpdateKeyColor(key: set<Verdict>, status: Verdict): (r: set<Verdict>)
    ensures status == Correct ==> r == {Correct}
    ensures status != Correct ==> key <= r <= key + {status}
    ensures Correct in key && status != Correct ==> r == key
    ensures Absent in r - key ==> status == Absent && Correct !in key && Present !in key
  {
    if status == Correct then {Correct}
    else if status == Present && Correct !in key then key + {Present}
    else if status == Absent && Correct !in key && Present !in key then key + {Absent}
    else key
  }

  /** The key's rank after an update is the better of its old rank and the
      update's verdict: the classes record the best verdict seen. */
  lemma UpdateRank(key: set<Verdict>, status: Verdict)
    ensures Rank(UpdateKeyColor(key, status)) == Max(Rank(key), StatusRank(status))
  {
  }

  lemma UpdateKeepsReachable(key: set<Verdict>, status: Verdict)
    requires Reachable(key)
    ensures Reachable(UpdateKeyColor(key, status))
  {
  }

  /** One update on the whole keyboard; a letter without a key is ignored. */
  function Press(keys: map<char, set<Verdict>>, u: KeyUpdate): (r: map<char, set<Verdict>>)
    ensures r.Keys == keys.Keys
    ensures forall l | l in keys && l != u.letter :: r[l] == keys[l]
    ensures u.letter in keys ==> r[u.letter] == UpdateKeyColor(keys[u.letter], u.status)
  {
    if u.letter in keys then keys[u.letter := UpdateKeyColor(keys[u.letter], u.status)] else keys
  }

  /** A sequence of updates applied in order, first one first. */
  function ApplyAll(keys: map<char, set<Verdict>>, log: seq<KeyUpdate>): (r: map<char, set<Verdict>>)
    ensures r.Keys == keys.Keys
  {
    if |log| == 0 then keys
    else Press(ApplyAll(keys, log[..|log| - 1]), log[|log| - 1])
  }

  /** Updates apply in order: running a log in two parts, one after the
      other, is running it whole. */
  lemma {:induction false} ApplyAllAppend(keys: map<char, set<Verdict>>, a: seq<KeyUpdate>, b: seq<KeyUpdate>)
    ensures ApplyAll(keys, a + b) == ApplyAll(ApplyAll(keys, a), b)
  {
    if |b| == 0 {
      assert a + b == a;
    } else {
      assert (a + b)[..|a + b| - 1] == a + b[..|b| - 1];
      ApplyAllAppend(keys, a, b[..|b| - 1]);
    }
  }

  /** The best verdict the updates report for letter `l` (0 when none do). */
  function Best(log: seq<KeyUpdate>, l: char): nat {
    if |log| == 0 then 0
    else
      var u := log[|log| - 1];
      Max(Best(log[..|log| - 1], l), if u.letter == l then StatusRank(u.status) else 0)
  }

  /** Splitting a log splits its best verdict. */
  lemma {:induction false} BestAppend(a: seq<KeyUpdate>, b: seq<KeyUpdate>, l: char)
    ensures Best(a + b, l) == Max(Best(a, l), Best(b, l))
  {
    if |b| > 0 {
      assert (a + b)[..|a + b| - 1] == a + b[..|b| - 1];
      BestAppend(a, b[..|b| - 1], l);
    } else {
      assert a + b == a;
    }
  }

  /**
    After any sequence of updates a key's rank is the better of its rank
    before and the best verdict reported for its letter: the keyboard holds
    the best verdict ever seen.
   */
  lemma {:induction false} ApplyAllRank(keys: map<char, set<Verdict>>, log: seq<KeyUpdate>, l: char)
    requires l in keys
    ensures Rank(ApplyAll(keys, log)[l]) == Max(Rank(keys[l]), Best(log, l))
  {
    if |log| > 0 {
      var prev := ApplyAll(keys, log[..|log| - 1]);
      ApplyAllRank(keys, log[..|log| - 1], l);
      UpdateRank(prev[l], log[|log| - 1].status);
    }
  }

  lemma {:induction false} ApplyAllKeepsReachable(keys: map<char, set<Verdict>>, log: seq<KeyUpdate>)
    requires forall l | l in keys :: Reachable(keys[l])
    ensures forall l | l in ApplyAll(keys, log) :: Reachable(ApplyAll(keys, log)[l])
  {
    if |log| > 0 {
      var prev := ApplyAll(keys, log[..|log| - 1]);
      ApplyAllKeepsReachable(keys, log[..|log| - 1]);
      var u := log[|log| - 1];
      if u.letter in prev {
        UpdateKeepsReachable(prev[u.letter], u.status);
      }
    }
  }

  /** A key that is correct stays exactly correct, whatever follows. */
  lemma {:induction false} CorrectIsKept(keys: map<char, set<Verdict>>, log: seq<KeyUpdate>, l: char)
    requires l in keys && Reachable(keys[l]) && Correct in keys[l]
    ensures ApplyAll(keys, log)[l] == {Correct}
  {
    if |log| > 0 {
      CorrectIsKept(keys, log[..|log| - 1], l);
    }
  }

  /** Classes are only taken away by a "correct" update for the same letter. */
  lemma {:induction false} OnlyCorrectRemoves(keys: map<char, set<Verdict>>, log: seq<KeyUpdate>, l: char)
    requires l in keys
    requires forall k | 0 <= k < |log| && log[k].letter == l :: log[k].status != Correct
    ensures keys[l] <= ApplyAll(keys, log)[l]
  {
    if |log| > 0 {
      OnlyCorrectRemoves(keys, log[..|log| - 1], l);
    }
  }
}
