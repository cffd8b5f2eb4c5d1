/**
 * The rules of a round: the four guards a normalised answer must pass, in
 * order, the title and message shown for the first one it fails, the points
 * an accepted answer earns, and the invariant every round's list of used
 * words keeps.
 */
module Rules {
  import opened Strings

  /** The guards stand for the reasons a word can be rejected. */
  datatype Reason = NotLongEnough | AlreadyUsed | NotPossible | NotRecognised

  datatype Verdict = Accepted | Rejected(reason: Reason)

  /** Position of each guard in the pipeline: the length check runs first, the dictionary last. */
  function Rank(g: Reason): nat {
    match g
    case NotLongEnough => 0
    case AlreadyUsed => 1
    case NotPossible => 2
    case NotRecognised => 3
  }

  /** The word can be spelled from the root: each letter used at most as often as the root holds it. */
  predicate IsSpellableFrom(word: string, root: string) {
    multiset(word) <= multiset(root)
  }

  /** Whether `answer` gets past guard `g`. */
  predicate Passes(g: Reason, answer: string, used: seq<string>, root: string, isReal: string -> bool) {
    match g
    case NotLongEnough => |answer| > 2
    case AlreadyUsed => answer !in used
    case NotPossible => IsSpellableFrom(answer, root)
    case NotRecognised => isReal(answer)
  }

  /** The verdict on a normalised answer: the guards run in pipeline order and the first that fails decides. */
  function Check(answer: string, used: seq<string>, root: string, isReal: string -> bool): Verdict {
    if |answer| <= 2 then Rejected(NotLongEnough)
    else if answer in used then Rejected(AlreadyUsed)
    else if !IsSpellableFrom(answer, root) then Rejected(NotPossible)
    else if !isReal(answer) then Rejected(NotRecognised)
    else Accepted
  }

  /**
   * The verdict is accepted exactly when the answer passes all four guards;
   * otherwise it names a guard the answer fails, and the answer passes every
   * guard that runs before that one.
   */
  lemma CheckIsFirstFailure(answer: string, used: seq<string>, root: string, isReal: string -> bool)
    ensures Check(answer, used, root, isReal) == Accepted <==> forall g :: Passes(g, answer, used, root, isReal)
    ensures var v := Check(answer, used, root, isReal);
      v.Rejected? ==> !Passes(v.reason, answer, used, root, isReal)
    ensures var v := Check(answer, used, root, isReal);
      v.Rejected? ==> forall g :: Rank(g) < Rank(v.reason) ==> Passes(g, answer, used, root, isReal)
  {
    var v := Check(answer, used, root, isReal);
    if v.Rejected? {
      assert !Passes(v.reason, answer, used, root, isReal);
    }
  }

  /** The alert title shown for each rejection. */
  function Title(g: Reason): string {
    match g
    case NotLongEnough => "Word not long enough"
    case AlreadyUsed => "Word already used"
    case NotPossible => "Word not possible"
    case NotRecognised => "Word is not recognised"
  }

  /** The alert message shown for each rejection; the spelling message quotes the root word. */
  function Message(g: Reason, root: string): string {
    match g
    case NotLongEnough => "It must have at least 3 letters"
    case AlreadyUsed => "Be more original!"
    case NotPossible => "You can't spell that word from '" + root + "'"
    case NotRecognised => "That is not a real word!"
  }

  /** Points for an accepted answer: one, plus its length, plus ten for an answer as long as the root. */
  function Points(word: string, root: string): nat {
    1 + |word| + if |word| == |root| then 10 else 0
  }

  /** The score a round's used words add up to. */
  function TotalScore(used: seq<string>, root: string): nat {
    if used == [] then 0 else Points(used[0], root) + TotalScore(used[1..], root)
  }

  predicate NoDuplicates(s: seq<string>) {
    forall i, j :: 0 <= i < j < |s| ==> s[i] != s[j]
  }

  /** A word that may stand in a round's used words: normalised, long enough, spellable from the root and recognised. */
  predicate Admissible(w: string, root: string, isReal: string -> bool) {
    IsNormal(w) && |w| > 2 && IsSpellableFrom(w, root) && isReal(w)
  }

  /**
   * What holds of a round's used words at all times, stated word by word from
   * the most recent: each word is admissible and does not occur again among
   * the older ones.
   */
  predicate RoundInvariant(used: seq<string>, root: string, isReal: string -> bool) {
    used == [] ||
      (Admissible(used[0], root, isReal) && used[0] !in used[1..] && RoundInvariant(used[1..], root, isReal))
  }

  /** The round invariant says exactly: no word twice, and every word admissible. */
  lemma {:induction false} RoundInvariantMeans(used: seq<string>, root: string, isReal: string -> bool)
    ensures RoundInvariant(used, root, isReal) <==>
      NoDuplicates(used) && forall w :: w in used ==> Admissible(w, root, isReal)
  {
    if used != [] {
      var rest := used[1..];
      RoundInvariantMeans(rest, root, isReal);
      assert used == [used[0]] + rest;
      assert forall w :: w in used <==> w == used[0] || w in rest;
      if NoDuplicates(used) {
        forall i, j | 0 <= i < j < |rest| ensures rest[i] != rest[j] {
          assert rest[i] == used[i + 1] && rest[j] == used[j + 1];
        }
      }
      if used[0] !in rest && NoDuplicates(rest) {
        forall i, j | 0 <= i < j < |used| ensures used[i] != used[j] {
          if i == 0 {
            assert used[j] == rest[j - 1];
          } else {
            assert used[i] == rest[i - 1] && used[j] == rest[j - 1];
          }
        }
      }
    }
  }

  /** The titles tell the four rejections apart. */
  lemma TitlesDistinct(g: Reason, h: Reason)
    requires Title(g) == Title(h)
    ensures g == h
  {
  }

  /** An answer of two characters or fewer is rejected as too short, whatever the other guards would say. */
  lemma ShortAnswerRejected(answer: string, used: seq<string>, root: string, isReal: string -> bool)
    requires |answer| <= 2
    ensures Check(answer, used, root, isReal) == Rejected(NotLongEnough)
  {
  }

  /** An answer just accepted is rejected as already used when it is submitted again to the same round. */
  lemma ResubmissionRejected(answer: string, used: seq<string>, root: string, isReal: string -> bool)
    requires Check(answer, used, root, isReal) == Accepted
    ensures Check(answer, [answer] + used, root, isReal) == Rejected(AlreadyUsed)
  {
  }

  /** Accepting a normalised answer that the round's guards let through keeps the round invariant. */
  lemma AcceptPreservesInvariant(answer: string, used: seq<string>, root: string, isReal: string -> bool)
    requires RoundInvariant(used, root, isReal)
    requires IsNormal(answer)
    requires Check(answer, used, root, isReal) == Accepted
    ensures RoundInvariant([answer] + used, root, isReal)
  {
    assert ([answer] + used)[1..] == used;
  }

  /** A word that can be spelled from the root is no longer than the root. */
  lemma SpellableNoLonger(word: string, root: string)
    requires IsSpellableFrom(word, root)
    ensures |word| <= |root|
  {
    assert |multiset(word)| == |word| && |multiset(root)| == |root|;
    var rest := multiset(root) - multiset(word);
    assert multiset(root) == multiset(word) + rest;
  }

  /** An answer that earns the anagram bonus uses every letter of the root exactly as often as the root does. */
  lemma BonusMeansAnagram(word: string, root: string)
    requires IsSpellableFrom(word, root)
    requires Points(word, root) == |word| + 11
    ensures multiset(word) == multiset(root)
  {
    var rest := multiset(root) - multiset(word);
    assert multiset(root) == multiset(word) + rest;
    assert |rest| == 0;
  }

  /** Accepting an answer adds its points to the round's total. */
  lemma {:induction false} TotalScoreOfAccepted(answer: string, used: seq<string>, root: string)
    ensures TotalScore([answer] + used, root) == TotalScore(used, root) + Points(answer, root)
  {
    assert ([answer] + used)[1..] == used;
  }

  lemma MulSucc(m: nat, n: nat)
    ensures m * (n + 1) == m * n + m
  {
  }

  /**
   * Under the round invariant each used word earns between 4 points (three
   * letters) and the root's length plus 11 (a full anagram), so the total
   * lies between those bounds times the number of words.
   */
  lemma {:induction false} ScoreBounds(used: seq<string>, root: string, isReal: string -> bool)
    requires RoundInvariant(used, root, isReal)
    ensures 4 * |used| <= TotalScore(used, root) <= (|root| + 11) * |used|
  {
    if used != [] {
      var m, n := |root| + 11, |used| - 1;
      SpellableNoLonger(used[0], root);
      ScoreBounds(used[1..], root, isReal);
      MulSucc(m, n);
    }
  }

  /** No answer long enough can be spelled from an empty root word, so a round with an empty root accepts nothing. */
  lemma EmptyRootAcceptsNothing(answer: string, used: seq<string>, isReal: string -> bool)
    ensures Check(answer, used, "", isReal) != Accepted
  {
    if |answer| > 2 {
      assert answer[0] in multiset(answer);
    }
  }

  /** "xyz" cannot be spelled from "keyboard": the root has no 'x'. */
  lemma XyzNotFromKeyboard()
    ensures !IsSpellableFrom("xyz", "keyboard")
  {
    assert multiset("keyboard")['x'] == 0;
    assert multiset("xyz")['x'] == 1;
  }

  /**
   * The step `isPossible` takes: matching the word's first letter with one
   * occurrence in the root and removing both leaves a word spellable from the
   * rest exactly when the whole word was spellable from the whole root.
   */
  lemma SpellStep(word: string, before: string, after: string)
    requires word != []
    ensures IsSpellableFrom(word, before + [word[0]] + after) <==> IsSpellableFrom(word[1..], before + after)
  {
    var x, w, r := word[0], multiset(word[1..]), multiset(before + after);
    assert word == [x] + word[1..];
    assert multiset(word) == w + multiset{x};
    assert multiset(before + [x] + after) == r + multiset{x};
    if !(w <= r) {
      var c :| w[c] > r[c];
      assert (w + multiset{x})[c] > (r + multiset{x})[c];
    }
  }

  /** In a fresh round with root "keyboard", "bored" passes every guard once the dictionary knows it. */
  lemma BoredFromKeyboard(isReal: string -> bool)
    requires isReal("bored")
    ensures Check("bored", [], "keyboard", isReal) == Accepted
  {
    assert "bored"[1..] == "ored" && "ored"[1..] == "red" && "red"[1..] == "ed" && "ed"[1..] == "d" && "d"[1..] == "";
    assert "key" + ['b'] + "oard" == "keyboard";
    assert "key" + ['o'] + "ard" == "key" + "oard";
    assert "keya" + ['r'] + "d" == "key" + "ard";
    assert "k" + ['e'] + "yad" == "keya" + "d";
    assert "kya" + ['d'] + "" == "k" + "yad";
    assert IsSpellableFrom("", "kya" + "");
    SpellStep("d", "kya", "");
    SpellStep("ed", "k", "yad");
    SpellStep("red", "keya", "d");
    SpellStep("ored", "key", "ard");
    SpellStep("bored", "key", "oard");
  }

  /**
   * A round whose root is "keyboard" ("bored" already accepted for 6 points):
   * "bored" again, "xyz", "ok", and the points "keyboard" itself would earn.
   */
  lemma KeyboardRound(isReal: string -> bool)
    ensures Points("bored", "keyboard") == 6
    ensures Check("bored", ["bored"], "keyboard", isReal) == Rejected(AlreadyUsed)
    ensures Check("xyz", ["bored"], "keyboard", isReal) == Rejected(NotPossible)
    ensures Check("ok", ["bored"], "keyboard", isReal) == Rejected(NotLongEnough)
    ensures Points("keyboard", "keyboard") == 19
  {
    XyzNotFromKeyboard();
  }
}
