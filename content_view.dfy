/**
 * The game screen's state and the operations that change it: submitting the
 * word in the text field, and starting a new round.
 */
module WordScramble {
  import opened Strings
  import opened Rules

  /** What loading the bundled list of start words produced. */
  datatype StartWords =
    | Missing                           // the bundle has no start.txt
    | Unreadable                        // start.txt is there but cannot be read
    | Loaded(allWords: seq<string>)     // the file's lines

  /** The values the screen's state fields hold at one moment. */
  datatype Screen = Screen(
    usedWords: seq<string>,
    rootWord: string,
    newWord: string,
    errorTitle: string,
    errorMessage: string,
    showingError: bool,
    score: int)

  /**
   * What submitting the text field does to the screen: the normalised answer
   * is judged by the four guards; a rejection raises the alert for the first
   * failing guard and leaves everything else as it was; an acceptance puts the
   * answer at the front of the used words, adds its points and clears the
   * text field.
   */
  function Submit(s: Screen, isReal: string -> bool): Screen {
    var answer := Normalised(s.newWord);
    match Check(answer, s.usedWords, s.rootWord, isReal)
    case Accepted =>
      s.(usedWords := [answer] + s.usedWords, score := s.score + Points(answer, s.rootWord), newWord := "")
    case Rejected(g) =>
      s.(errorTitle := Title(g), errorMessage := Message(g, s.rootWord), showingError := true)
  }

  /** The screen is consistent when its used words obey the round invariant and add up to its score. */
  predicate Consistent(s: Screen, isReal: string -> bool) {
    && RoundInvariant(s.usedWords, s.rootWord, isReal)
    && s.score == TotalScore(s.usedWords, s.rootWord)
  }

  /** Submitting keeps a consistent screen consistent. */
  lemma SubmitPreservesConsistency(s: Screen, isReal: string -> bool)
    requires Consistent(s, isReal)
    ensures Consistent(Submit(s, isReal), isReal)
  {
    var answer := Normalised(s.newWord);
    if Check(answer, s.usedWords, s.rootWord, isReal) == Accepted {
      NormalisedIsNormal(s.newWord);
      AcceptPreservesInvariant(answer, s.usedWords, s.rootWord, isReal);
      TotalScoreOfAccepted(answer, s.usedWords, s.rootWord);
    }
  }

  /**
   * A rejection changes nothing but the alert, which it raises with the title
   * of the first failing guard; an acceptance adds exactly one word, raises
   * the score and clears the text field. The root word never changes.
   */
  lemma SubmitEffect(s: Screen, isReal: string -> bool)
    ensures var t := Submit(s, isReal);
      var v := Check(Normalised(s.newWord), s.usedWords, s.rootWord, isReal);
      && t.rootWord == s.rootWord
      && (v.Rejected? ==>
            && t.usedWords == s.usedWords && t.score == s.score && t.newWord == s.newWord
            && t.showingError && t.errorTitle == Title(v.reason))
      && (v == Accepted ==>
            && |t.usedWords| == |s.usedWords| + 1 && t.usedWords[1..] == s.usedWords
            && t.score > s.score && t.newWord == "")
  {
  }

  /** Whatever else holds, a text whose normalised form has two characters or fewer is rejected as not long enough. */
  lemma ShortTextRejected(s: Screen, isReal: string -> bool)
    requires |Normalised(s.newWord)| <= 2
    ensures Submit(s, isReal) == s.(errorTitle := "Word not long enough",
                                    errorMessage := "It must have at least 3 letters",
                                    showingError := true)
  {
  }

  /**
   * Typing the text of an accepted word again and submitting it is rejected as
   * already used, and leaves the round as the acceptance left it.
   */
  lemma ResubmittedTextRejected(s: Screen, isReal: string -> bool)
    requires Check(Normalised(s.newWord), s.usedWords, s.rootWord, isReal) == Accepted
    ensures var t := Submit(s, isReal);
      var u := Submit(t.(newWord := s.newWord), isReal);
      && u.errorTitle == "Word already used" && u.showingError
      && u.usedWords == t.usedWords && u.score == t.score
  {
    var answer := Normalised(s.newWord);
    ResubmissionRejected(answer, s.usedWords, s.rootWord, isReal);
  }

  /**
   * In a consistent round, any text that normalises to a used word (the same
   * word in other letter case or with surrounding whitespace) is rejected as
   * already used, whatever the other guards would say.
   */
  lemma UsedTextRejected(s: Screen, isReal: string -> bool, text: string)
    requires Consistent(s, isReal)
    requires Normalised(text) in s.usedWords
    ensures Submit(s.(newWord := text), isReal) ==
      s.(newWord := text, errorTitle := "Word already used", errorMessage := "Be more original!", showingError := true)
  {
    RoundInvariantMeans(s.usedWords, s.rootWord, isReal);
  }

  class ContentView {
    var usedWords: seq<string>
    var rootWord: string
    var newWord: string

    var errorTitle: string
    var errorMessage: string
    var showingError: bool

    var score: int

    /** The dictionary lookup: whether a word is spelled correctly in English. */
    const isReal: string -> bool

    /** The current values of the state fields. */
    function Model(): Screen
      reads this
    {
      Screen(usedWords, rootWord, newWord, errorTitle, errorMessage, showingError, score)
    }

    /** The state every round keeps: the used words obey the rules of the round and add up to the score. */
    ghost predicate Valid()
      reads this
    {
      Consistent(Model(), isReal)
    }

    /** The screen as it first appears, before any round has started. */
    constructor (isReal: string -> bool)
      ensures Valid()
      ensures this.isReal == isReal
      ensures usedWords == [] && rootWord == "" && newWord == ""
      ensures errorTitle == "" && errorMessage == "" && !showingError
      ensures score == 0
    {
      this.isReal := isReal;
      usedWords := [];
      rootWord := "";
      newWord := "";
      errorTitle := "";
      errorMessage := "";
      showingError := false;
      score := 0;
    }

    /** The text field writes what the player types into `newWord`. */
    method EnterText(text: string)
      modifies this`newWord
      ensures newWord == text
    {
      newWord := text;
    }

    /**
     * A word is original when it is not among the words used this round: on a
     * list without duplicates, exactly when putting it in front keeps the list
     * free of duplicates.
     */
    function IsOriginal(word: string): (r: bool)
      reads this
      ensures NoDuplicates(usedWords) ==> (r <==> NoDuplicates([word] + usedWords))
    {
      var t := [word] + usedWords;
      assert forall i :: 0 <= i < |usedWords| ==> t[i + 1] == usedWords[i];
      if word in usedWords then
        var k :| 0 <= k < |usedWords| && usedWords[k] == word;
        assert t[0] == t[k + 1];
        false
      else
        true
    }

    /** The alert's OK button clears `showingError` through its binding. */
    method DismissError()
      modifies this`showingError
      ensures !showingError
    {
      showingError := false;
    }

    /**
     * Walks the word's letters, taking each one out of a working copy of the
     * root word at its first occurrence, and fails as soon as a letter is not
     * there. It succeeds exactly when the word's letters, counted with
     * repetition, are among the root's.
     */
    method IsPossible(word: string) returns (possible: bool)
      ensures possible <==> IsSpellableFrom(word, rootWord)
    {
      var tempWord := rootWord;
      for i := 0 to |word|
        invariant |tempWord| == |rootWord| - i
        invariant multiset(tempWord) + multiset(word[..i]) == multiset(rootWord)
      {
        var letter := word[i];
        assert word[..i + 1] == word[..i] + [letter];
        match FirstIndex(tempWord, letter)
        case Some(pos) =>
          tempWord := RemoveAt(tempWord, pos);
        case None =>
          assert word == word[..i + 1] + word[i + 1..];
          assert multiset(word[..i + 1])[letter] > multiset(rootWord)[letter];
          return false;
      }
      assert word[..|word|] == word;
      return true;
    }

    /** Shows the alert for a rejected word. */
    method WordError(title: string, message: string)
      modifies this`errorTitle, this`errorMessage, this`showingError
      ensures errorTitle == title && errorMessage == message && showingError
    {
      errorTitle := title;
      errorMessage := message;
      showingError := true;
    }

    /**
     * Submits the text field. The normalised answer goes through the four
     * guards in order; the first it fails shows its alert and changes nothing
     * else. An answer that passes all four goes to the front of the used
     * words, earns its points, and the text field is cleared.
     */
    method AddNewWord()
      requires Valid()
      modifies this
      ensures Valid()
      ensures Model() == Submit(old(Model()), isReal)
    {
      var answer := Normalised(newWord);
      ghost var verdict := Check(answer, usedWords, rootWord, isReal);
      SubmitPreservesConsistency(Model(), isReal);

      if |answer| <= 2 {
        assert verdict == Rejected(NotLongEnough);
        WordError("Word not long enough", "It must have at least 3 letters");
        return;
      }

      if !IsOriginal(answer) {
        assert verdict == Rejected(AlreadyUsed);
        WordError("Word already used", "Be more original!");
        return;
      }

      var possible := IsPossible(answer);
      if !possible {
        assert verdict == Rejected(NotPossible);
        WordError("Word not possible", "You can't spell that word from '" + rootWord + "'");
        return;
      }

      if !isReal(answer) {
        assert verdict == Rejected(NotRecognised);
        WordError("Word is not recognised", "That is not a real word!");
        return;
      }

      assert verdict == Accepted;
      Accept(answer);
    }

    /** Records an answer that passed every guard: it goes to the front of the used words, earns its points, and the text field is cleared. */
    method Accept(answer: string)
      modifies this`usedWords, this`score, this`newWord
      ensures usedWords == [answer] + old(usedWords)
      ensures score == old(score) + Points(answer, rootWord)
      ensures newWord == ""
    {
      usedWords := [answer] + usedWords;
      score := score + 1;
      score := score + |answer|;
      if |answer| == |rootWord| {
        score := score + 10;
      }
      newWord := "";
    }

    /**
     * Starts a new round: the score and the used words are reset first; then
     * the root word is one of the loaded lines, chosen freely, or "silkworm"
     * when there are none. A missing file keeps the old root word; an
     * unreadable one is fatal.
     */
    method StartGame(words: StartWords) returns (fatal: bool)
      modifies this`score, this`usedWords, this`rootWord
      ensures Valid()
      ensures score == 0 && usedWords == []
      ensures fatal <==> words.Unreadable?
      ensures words.Loaded? && words.allWords != [] ==> rootWord in words.allWords
      ensures words.Loaded? && words.allWords == [] ==> rootWord == "silkworm"
      ensures !words.Loaded? ==> rootWord == old(rootWord)
    {
      score := 0;
      usedWords := [];

      match words
      case Loaded(allWords) =>
        if allWords != [] {
          var k :| 0 <= k < |allWords|;
          rootWord := allWords[k];
        } else {
          rootWord := "silkworm";
        }
        return false;
      case Unreadable =>
        return true;
      case Missing =>
        return false;
    }
  }
}
