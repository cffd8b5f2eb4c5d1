# WordScramble round engine in Dafny

WordScramble is a small SwiftUI word game. The player is shown a root word,
for example "silkworm", and types words that can be spelled from its letters.
Each submitted word is lowercased and trimmed. It then has to pass four checks,
in this order:

1. it has more than two letters;
2. it has not been used this round;
3. it can be spelled from the root, each letter used at most as often as the
   root holds it;
4. the English dictionary recognises it.

If a check fails, an alert names the first one that failed. If all four pass,
the word goes to the front of the list of used words. It scores one point, plus
one per letter, plus ten when it is as long as the root word. Starting a game
resets the score and the list and picks a new root word from the bundled word
list.

The project has three modules:

- `Strings` (`strings.dfy`) covers the string operations the game uses:
  lowercasing, trimming, first occurrence and removal at a position. It proves
  what normalisation guarantees.
- `Rules` (`rules.dfy`) covers the pure rules of a round:
  - `Check`, the guard pipeline as a verdict;
  - `Title` and `Message`, the alert texts;
  - `Points` and `TotalScore`, the scoring;
  - `RoundInvariant`, the invariant the list of used words keeps.
- `WordScramble` (`content_view.dfy`) covers the screen itself:
  - the class `ContentView` with the screen's state fields, and its methods
    `AddNewWord`, `IsOriginal`, `IsPossible`, `WordError`, `DismissError`
    and `StartGame`;
  - the value `Screen` with the function `Submit`, which states what one
    submission does to the state.

`AddNewWord` is proved to change the state exactly as `Submit` says, and to
keep `Valid()`. `Valid()` says the used words obey the round invariant and add
up to the score. `IsPossible` keeps the source's loop, which takes each letter
out of a working copy of the root. It is proved to succeed exactly when the
word is a sub-multiset of the root.

## Model

| member | source | states |
|---|---|---|
| Strings.Lowercased | WordScramble/ContentView.swift:64 | lowercasing the whole text, character by character; its properties are stated by `LowercasedPointwise` |
| Strings.Trimmed | WordScramble/ContentView.swift:64 | trimming whitespace from both ends; its properties are stated by `TrimStartSpec`, `TrimEndSpec`, `TrimmedEnds` and `TrimmedKeepsLower` |
| Strings.Normalised | WordScramble/ContentView.swift:64 | the answer: the text lowercased, then trimmed; its properties are stated by `NormalisedIsNormal`, `NormalIsFixedPoint` and `NormalisedIdempotent` |
| Strings.LowerChar | WordScramble/ContentView.swift:64 | the lowercased character is never upper case; non-capitals are kept; a capital maps to its lower-case letter; whitespace is kept and never created |
| Strings.LowercasedPointwise | WordScramble/ContentView.swift:64 | lowercasing keeps the length and lowercases every character in place |
| Strings.TrimStartSpec | WordScramble/ContentView.swift:64 | trimming the start leaves a suffix; every dropped character is whitespace; the result does not start with whitespace |
| Strings.TrimEndSpec | WordScramble/ContentView.swift:64 | trimming the end leaves a prefix; every dropped character is whitespace; the result does not end with whitespace |
| Strings.TrimmedKeepsLower | WordScramble/ContentView.swift:64 | trimming a string that has no capital leaves none |
| Strings.TrimmedEnds | WordScramble/ContentView.swift:64 | the trimmed text is empty or neither starts nor ends with whitespace |
| Strings.NormalisedIsNormal | WordScramble/ContentView.swift:64 | whatever was typed, the answer has no capital and no whitespace at either end |
| Strings.NormalIsFixedPoint | WordScramble/ContentView.swift:64 | normalising an already normal word returns it unchanged |
| Strings.NormalisedIdempotent | WordScramble/ContentView.swift:64 | normalising twice is the same as normalising once |
| Strings.FirstIndex | WordScramble/ContentView.swift:132 | no index exactly when the letter is absent; otherwise the index holds the letter and no earlier position does |
| Strings.RemoveAt | WordScramble/ContentView.swift:133 | the result is one character shorter; exactly that one occurrence is taken out of the multiset; the characters before and after it are in place |
| Rules.Check | WordScramble/ContentView.swift:71-89 | the verdict of the four guards in source order; its meaning is stated by `CheckIsFirstFailure` |
| Rules.Title | WordScramble/ContentView.swift:72-87 | the alert title of each guard, one per `wordError` call; `TitlesDistinct` states that they differ |
| Rules.Message | WordScramble/ContentView.swift:72-87 | the alert message of each guard; the spelling message quotes the root word; `ShortTextRejected` and `UsedTextRejected` state which one a submission shows |
| Rules.Points | WordScramble/ContentView.swift:93-97 | the points an accepted answer earns; `BonusMeansAnagram` and `ScoreBounds` state their meaning |
| Rules.TotalScore | WordScramble/ContentView.swift:93-97 | the score the used words add up to; `TotalScoreOfAccepted` and `ScoreBounds` state its properties |
| Rules.CheckIsFirstFailure | WordScramble/ContentView.swift:71-89 | the answer is accepted exactly when it passes all four guards; a rejection names a guard it fails, and it passes every earlier guard |
| Rules.TitlesDistinct | WordScramble/ContentView.swift:71-89 | different rejections show different alert titles |
| Rules.ShortAnswerRejected | WordScramble/ContentView.swift:71-74 | an answer of at most two characters is always rejected as not long enough, whatever the other guards would say |
| Rules.ResubmissionRejected | WordScramble/ContentView.swift:76-79 | an answer just accepted is rejected as already used when it is submitted again |
| Rules.RoundInvariantMeans | WordScramble/ContentView.swift:71-92 | the invariant on the used words is equivalent to: no duplicates, and every word is normal, longer than two letters, spellable from the root and recognised |
| Rules.AcceptPreservesInvariant | WordScramble/ContentView.swift:91-92 | putting an accepted normal answer at the front keeps the round invariant |
| Rules.SpellStep | WordScramble/ContentView.swift:131-136 | one step of the loop: taking the word's first letter out of the root at one occurrence keeps spellability, in both directions |
| Rules.SpellableNoLonger | WordScramble/ContentView.swift:128-140 | a word spellable from the root is no longer than the root |
| Rules.BonusMeansAnagram | WordScramble/ContentView.swift:95-97 | a spellable word that earns the ten-point bonus is an anagram of the root |
| Rules.TotalScoreOfAccepted | WordScramble/ContentView.swift:93-97 | accepting an answer adds exactly its points to the total of the used words |
| Rules.ScoreBounds | WordScramble/ContentView.swift:91-97 | under the invariant, the total is between 4 and the root's length plus 11 per used word |
| Rules.EmptyRootAcceptsNothing | WordScramble/ContentView.swift:81-84 | with an empty root word, no answer is ever accepted |
| Rules.BoredFromKeyboard | WordScramble/ContentView.swift:71-97 | with root "keyboard" and no used words, "bored" passes all four guards once the dictionary knows it |
| Rules.XyzNotFromKeyboard | WordScramble/ContentView.swift:81-84 | "xyz" cannot be spelled from "keyboard" |
| Rules.KeyboardRound | WordScramble/ContentView.swift:71-97 | with root "keyboard" and "bored" used: "bored" earns 6 points and is rejected as already used; "xyz" is not possible; "ok" is not long enough; "keyboard" earns 19 points |
| WordScramble.Submit | WordScramble/ContentView.swift:63-101 | the state after one submission; `SubmitEffect`, `SubmitPreservesConsistency`, `ShortTextRejected`, `ResubmittedTextRejected` and `UsedTextRejected` state its properties |
| WordScramble.SubmitPreservesConsistency | WordScramble/ContentView.swift:63-101 | a submission keeps the used words within the round invariant and the score equal to their total |
| WordScramble.SubmitEffect | WordScramble/ContentView.swift:63-101 | the root never changes. A rejection changes only the alert, titled by the first failing guard. An acceptance adds exactly one word in front, raises the score and clears the text field |
| WordScramble.ShortTextRejected | WordScramble/ContentView.swift:64-74 | text whose normalised form has at most two characters changes only the alert, to "Word not long enough" with its message |
| WordScramble.ResubmittedTextRejected | WordScramble/ContentView.swift:76-79 | typing an accepted word again is rejected as already used and leaves the used words and score unchanged |
| WordScramble.UsedTextRejected | WordScramble/ContentView.swift:76-79 | in a consistent round, any text that normalises to a used word, in whatever letter case or with surrounding whitespace, changes only the alert, to "Word already used" |
| WordScramble.ContentView.constructor | WordScramble/ContentView.swift:12-20 | the initial state is empty strings, no used words, no alert and score 0, and it is valid |
| WordScramble.ContentView.EnterText | WordScramble/ContentView.swift:27 | the text field stores the typed text in `newWord` and changes nothing else |
| WordScramble.ContentView.IsOriginal | WordScramble/ContentView.swift:124-126 | on a list of used words without duplicates, the word is original exactly when putting it in front keeps the list free of duplicates |
| WordScramble.ContentView.DismissError | WordScramble/ContentView.swift:53-54 | the alert's OK button writes `showingError` back to false and changes nothing else |
| WordScramble.ContentView.IsPossible | WordScramble/ContentView.swift:128-140 | true exactly when the word's letters, counted with repetition, are contained in the root's |
| WordScramble.ContentView.WordError | WordScramble/ContentView.swift:151-155 | sets the alert title and message, shows the alert, and changes nothing else |
| WordScramble.ContentView.Accept | WordScramble/ContentView.swift:91-99 | puts the answer at index 0 of the used words, adds its points to the score, and clears the text field |
| WordScramble.ContentView.AddNewWord | WordScramble/ContentView.swift:63-101 | the new state is exactly the one `Submit` gives for the old state, and validity is kept |
| WordScramble.ContentView.StartGame | WordScramble/ContentView.swift:103-122 | the score becomes 0 and the used words empty. A loaded list gives a root taken from it, or "silkworm" if it is empty. A missing file keeps the old root. An unreadable file is fatal. Validity holds afterwards |

## Left out

- The SwiftUI view body is not modelled: the navigation view, list, toolbar,
  alert presentation, the circle images and the `onSubmit`/`onAppear` wiring.
  These are presentation only. `EnterText` stands for the text-field binding
  and `DismissError` for the alert's `isPresented` binding.
  Submitting is a call of `AddNewWord`, and appearing or tapping "Start Game"
  is a call of `StartGame`.
- `withAnimation` only animates the change. The model performs the same
  updates without it.
- The dictionary check (`isReal`, which uses `UITextChecker` for English) is a
  foreign call. It is the function `isReal`, fixed when the screen is built and
  otherwise unconstrained.
- Loading `start.txt` and splitting it into lines are file I/O. They are the
  `StartWords` input to `StartGame`.
- `randomElement()` is a free choice of any line, so no random source is
  modelled.
- `fatalError` ends the program. The model returns `fatal` instead.
- Strings.LowerChar: covers only the ASCII letters A–Z. Swift's
  `lowercased()` is Unicode-aware, and Dafny has no Unicode case mapping.
- Strings.IsWhitespace: covers only ASCII space, tab, line feed, vertical tab,
  form feed and carriage return. The Unicode whitespace and newline set of
  `trimmingCharacters(in:)` is wider.
- Characters are Dafny `char`s, not Swift grapheme clusters. `count` is the
  sequence length, and `firstIndex(of:)` and `remove(at:)` work on positions.
- `score` is an unbounded integer. Swift's `Int` would trap on overflow, which
  takes about 10^17 accepted words and so does not happen in play.
- `components(separatedBy:)` yields at least one element, so in the source the
  "silkworm" fallback is never taken. The model keeps the fallback for an empty
  list.
- A blank line of the word list can become the root word. By
  `EmptyRootAcceptsNothing`, such a round then accepts nothing.
- The code accepts the root word itself as an answer and gives it the anagram
  bonus. It does not check the root's length.
- The duplicate check compares the normalised answer exactly. Every stored
  word is normalised, so a used word typed in another case or with surrounding
  whitespace is still rejected (`UsedTextRejected`).
