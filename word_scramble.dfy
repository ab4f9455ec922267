/**
 The answer-validation engine of the word-scramble game.

 A game shows a base word (the screen title) and collects the player's answers.
 An answer is accepted when it can be spelled from the base word's letters, has
 not been given before, and is a real word: at least three letters long, not
 the base word itself, and spelled correctly. Accepted answers are kept
 lowercase, most recent first.
 */
module WordScramble {
  import opened Wrappers
  import opened Letters
  import opened WordList

  /** The outcome of one submission: accepted, or the first check that failed. */
  datatype Verdict = Accepted | NotPossible | UsedAlready | NotRecognised

  /** The alert shown to the player after a rejected answer. */
  datatype Alert = Alert(heading: string, message: string)

  /** Shortest answer the game accepts. */
  const MinLength: nat := 3

  /* ---------------------------------------------------------------------
     The three checks and the decision procedure, on explicit state
     --------------------------------------------------------------------- */

  /**
   `isPossible`: the word can be spelled from the lowercased title; never,
   when there is no title.
   */
  predicate Possible(word: string, title: Option<string>)
    ensures Possible(word, title) ==> title.Some? && |word| <= |title.value|
  {
    title.Some? &&
    var base := Lowercase(title.value);
    DerivableLength(word, base);
    Derivable(word, base)
  }

  /** `isOriginal`: the word has not been accepted before. */
  predicate IsOriginal(word: string, usedWords: seq<string>)
    ensures IsOriginal(word, usedWords) <==>
      forall i :: 0 <= i < |usedWords| ==> usedWords[i] != word
  {
    word !in usedWords
  }

  /**
   `isReal`: too short a word, or the title itself (compared as the title is
   written, not lowercased), is never real; anything else is what the spelling
   checker says.
   */
  predicate IsReal(word: string, title: Option<string>, spelledCorrectly: string -> bool)
    ensures IsReal(word, title, spelledCorrectly) ==>
      |word| >= MinLength && title != Some(word) && spelledCorrectly(word)
  {
    if |word| < MinLength || title == Some(word) then false
    else spelledCorrectly(word)
  }

  /**
   `showErrorMessage`: the checks, in their fixed order, on the lowercased
   answer; the first that fails decides the verdict.
   */
  function Judge(text: string, title: Option<string>, usedWords: seq<string>,
                 spelledCorrectly: string -> bool): (v: Verdict)
    ensures v == NotPossible <==> !Possible(Lowercase(text), title)
    ensures v == UsedAlready <==>
      Possible(Lowercase(text), title) && Lowercase(text) in usedWords
    ensures v == NotRecognised <==>
      Possible(Lowercase(text), title) && Lowercase(text) !in usedWords &&
      !IsReal(Lowercase(text), title, spelledCorrectly)
    ensures v == Accepted <==>
      Possible(Lowercase(text), title) && Lowercase(text) !in usedWords &&
      IsReal(Lowercase(text), title, spelledCorrectly)
  {
    var answer := Lowercase(text);
    if !Possible(answer, title) then NotPossible
    else if !IsOriginal(answer, usedWords) then UsedAlready
    else if !IsReal(answer, title, spelledCorrectly) then NotRecognised
    else Accepted
  }

  /**
   The alert for a verdict. An accepted answer shows none; a "not possible"
   answer shows none either when there is no title to name in the message.
   */
  function AlertFor(v: Verdict, title: Option<string>): (a: Option<Alert>)
    ensures a.None? <==> v == Accepted || (v == NotPossible && title.None?)
  {
    match v
    case Accepted => None
    case NotPossible =>
      if title.None? then None
      else Some(Alert("Word not possibile", "You can't spell that word from " + Lowercase(title.value)))
    case UsedAlready => Some(Alert("Word used already", "Be more original!"))
    case NotRecognised => Some(Alert("Word not recognised", "You can't just make them up!"))
  }

  /* ---------------------------------------------------------------------
     The invariant of the accepted answers
     --------------------------------------------------------------------- */

  /** No answer is listed twice. */
  predicate NoDuplicates(s: seq<string>) {
    forall i, j :: 0 <= i < j < |s| ==> s[i] != s[j]
  }

  /**
   What every accepted answer satisfies for the title `base`: lowercase,
   spelled from the lowercased base word, long enough, not the base word, and
   spelled correctly.
   */
  predicate Answer(word: string, base: string, spelledCorrectly: string -> bool) {
    IsLowercase(word) && Derivable(word, Lowercase(base)) &&
    |word| >= MinLength && word != base && spelledCorrectly(word)
  }

  /**
   The accepted answers of a game with title `title`. Read from the most
   recent backwards, each answer was original when it was accepted: it is not
   among the answers accepted before it.
   */
  predicate History(usedWords: seq<string>, title: Option<string>, spelledCorrectly: string -> bool)
    ensures History(usedWords, title, spelledCorrectly) ==>
      forall i :: 0 <= i < |usedWords| ==> IsOriginal(usedWords[i], usedWords[i + 1..])
  {
    (usedWords != [] ==> title.Some?) &&
    NoDuplicates(usedWords) &&
    forall i :: 0 <= i < |usedWords| ==> Answer(usedWords[i], title.value, spelledCorrectly)
  }

  /** An accepted answer is exactly a new word that satisfies the answer rules. */
  lemma AcceptedIffAnswer(text: string, title: Option<string>,
      usedWords: seq<string>, spelledCorrectly: string -> bool)
    ensures Judge(text, title, usedWords, spelledCorrectly) == Accepted <==>
      title.Some? && Answer(Lowercase(text), title.value, spelledCorrectly) &&
      Lowercase(text) !in usedWords
  {
  }

  /** Accepting an answer, put at the front, keeps the answers valid. */
  lemma AcceptKeepsHistory(text: string, title: Option<string>,
      usedWords: seq<string>, spelledCorrectly: string -> bool)
    requires History(usedWords, title, spelledCorrectly)
    requires Judge(text, title, usedWords, spelledCorrectly) == Accepted
    ensures History([Lowercase(text)] + usedWords, title, spelledCorrectly)
  {
    AcceptedIffAnswer(text, title, usedWords, spelledCorrectly);
    var s := [Lowercase(text)] + usedWords;
    forall i | 0 <= i < |s| ensures Answer(s[i], title.value, spelledCorrectly) {
      if i > 0 {
        assert s[i] == usedWords[i - 1];
      }
    }
    forall i, j | 0 <= i < j < |s| ensures s[i] != s[j] {
      if i == 0 {
        assert s[j] == usedWords[j - 1];
      } else {
        assert s[i] == usedWords[i - 1] && s[j] == usedWords[j - 1];
      }
    }
  }

  /** Only a lowercase answer can be accepted, so its case does not matter. */
  lemma JudgeIgnoresCase(text: string, title: Option<string>,
      usedWords: seq<string>, spelledCorrectly: string -> bool)
    ensures Judge(text, title, usedWords, spelledCorrectly) ==
            Judge(Lowercase(text), title, usedWords, spelledCorrectly)
  {
    LowercaseIdempotent(text);
  }

  /** An answer submitted again right after it was accepted is reported as used. */
  lemma ResubmitIsUsedAlready(text: string, title: Option<string>,
      usedWords: seq<string>, spelledCorrectly: string -> bool)
    requires Judge(text, title, usedWords, spelledCorrectly) == Accepted
    ensures Judge(text, title, [Lowercase(text)] + usedWords, spelledCorrectly) == UsedAlready
  {
    assert Lowercase(text) == ([Lowercase(text)] + usedWords)[0];
  }

  /** Without a title nothing can be spelled; the empty word can be spelled from any title. */
  lemma PossibleEdgeCases(word: string, t: string)
    ensures !Possible(word, None)
    ensures Possible([], Some(t))
  {
  }

  /** Words shorter than three letters and the title itself are never real, whatever the checker says. */
  lemma IsRealOverridesChecker(word: string, title: Option<string>, spelledCorrectly: string -> bool)
    ensures |word| < MinLength ==> !IsReal(word, title, spelledCorrectly)
    ensures title == Some(word) ==> !IsReal(word, title, spelledCorrectly)
    ensures |word| >= MinLength && title != Some(word) ==>
      (IsReal(word, title, spelledCorrectly) <==> spelledCorrectly(word))
  {
  }

  /** The empty answer passes the letter check vacuously and is then not recognised. */
  lemma EmptyAnswerNotRecognised(t: string, usedWords: seq<string>,
      spelledCorrectly: string -> bool)
    requires [] !in usedWords
    ensures Judge([], Some(t), usedWords, spelledCorrectly) == NotRecognised
  {
    assert Lowercase([]) == [];
  }

  /* ---------------------------------------------------------------------
     Worked cases
     --------------------------------------------------------------------- */

  // Single facts about the literals below, kept apart so that each proof stays small.
  lemma ListenIsLowercase() ensures Lowercase("listen") == "listen" { }
  lemma TinLetters() ensures Derivable("tin", "listen") { }
  lemma TinnLetters() ensures !Derivable("tinn", "listen") {
    assert multiset("tinn")['n'] == 2;
  }
  lemma SilkwormLowercase()
    ensures Lowercase("Silkworm") == "silkworm" && Lowercase("silkworm") == "silkworm"
  {
    LowercaseCapitalised('S', "ilkworm");
    assert [Lower('S')] + "ilkworm" == "silkworm";
    assert ['S'] + "ilkworm" == "Silkworm";
  }

  /** Letters are counted: "tin" can be spelled from "listen"... */
  lemma TinFromListen()
    ensures Possible("tin", Some("listen"))
  {
    ListenIsLowercase();
    TinLetters();
  }

  /** ...but "tinn" cannot, "listen" having one n only. */
  lemma TinnNotFromListen()
    ensures !Possible("tinn", Some("listen"))
  {
    ListenIsLowercase();
    TinnLetters();
  }

  /** "Tin" and "tin" get the same verdict and, once accepted, the same stored form. */
  lemma TinInAnyCase(usedWords: seq<string>, spelledCorrectly: string -> bool)
    ensures Lowercase("Tin") == Lowercase("tin") == "tin"
    ensures Judge("Tin", Some("listen"), usedWords, spelledCorrectly) ==
            Judge("tin", Some("listen"), usedWords, spelledCorrectly)
  {
    LowercaseCapitalised('T', "in");
    assert [Lower('T')] + "in" == "tin";
    assert ['T'] + "in" == "Tin";
  }

  /** The base word is never accepted as an answer, even though it spells itself. */
  lemma BaseWordNotRecognised(spelledCorrectly: string -> bool)
    ensures Judge("listen", Some("listen"), [], spelledCorrectly) == NotRecognised
  {
  }

  /** A two-letter word is not recognised, even one spelled from the title. */
  lemma ShortWordNotRecognised(spelledCorrectly: string -> bool)
    ensures Judge("it", Some("kitten"), [], spelledCorrectly) == NotRecognised
  {
  }

  /**
   The base-word rule compares with the title as written: when the title has a
   capital letter, its lowercase form passes that rule and is accepted.
   */
  lemma CapitalisedTitleAdmitsItself(spelledCorrectly: string -> bool)
    requires spelledCorrectly("silkworm")
    ensures Judge("silkworm", Some("Silkworm"), [], spelledCorrectly) == Accepted
  {
    SilkwormLowercase();
  }

  /* ---------------------------------------------------------------------
     The game state and its operations
     --------------------------------------------------------------------- */

  /**
   The state the view controller keeps for a game: the pool of base words, the
   accepted answers (most recent first) and the title showing the current base
   word (nil before the first game, or when the pool is empty). The spelling
   checker is given from outside.
   */
  class ViewController {
    var allWords: seq<string>
    var usedWords: seq<string>
    var title: Option<string>
    const spelledCorrectly: string -> bool

    /** The accepted answers are valid for the current title. */
    ghost predicate Valid()
      reads this
    {
      History(usedWords, title, spelledCorrectly)
    }

    /** A controller before loading: an empty pool, no answers, no title. */
    constructor (spelledCorrectly: string -> bool)
      ensures Valid()
      ensures allWords == [] && usedWords == [] && title == None
      ensures this.spelledCorrectly == spelledCorrectly
    {
      allWords, usedWords, title := [], [], None;
      this.spelledCorrectly := spelledCorrectly;
    }

    /**
     The loading part of `viewDidLoad`: `startFile` is the start-word file's
     text, or nothing when it could not be found or read.
     */
    method LoadStartWords(startFile: Option<string>)
      modifies this`allWords
      ensures old(Valid()) ==> Valid()
      ensures allWords == StartWords(startFile, old(allWords))
      ensures allWords != []
    {
      if startFile.Some? {
        allWords := Split(startFile.value, Newline);
      }
      if allWords == [] {
        allWords := [FallbackWord];
      }
    }

    /**
     `startGame`: a base word chosen from the pool becomes the title (none when
     the pool is empty) and the answers are cleared.
     */
    method StartGame()
      modifies this`title, this`usedWords
      ensures Valid()
      ensures usedWords == []
      ensures title.Some? <==> allWords != []
      ensures title.Some? ==> title.value in allWords
    {
      if allWords == [] {
        title := None;
      } else {
        assert allWords[0] in allWords;
        var word :| word in allWords;
        title := Some(word);
      }
      usedWords := [];
    }

    /** The game part of `viewDidLoad`: load the pool, then start a game. */
    method ViewDidLoad(startFile: Option<string>)
      modifies this`allWords, this`title, this`usedWords
      ensures Valid()
      ensures allWords == StartWords(startFile, old(allWords))
      ensures title.Some? && title.value in allWords
      ensures usedWords == []
    {
      LoadStartWords(startFile);
      StartGame();
    }

    /**
     `isPossible`: uses up, letter by letter, the first matching letter of a
     copy of the lowercased title, and fails at the first letter with no match
     left.
     */
    method IsPossible(word: string) returns (ok: bool)
      ensures ok == Possible(word, title)
    {
      if title.None? {
        return false;
      }
      var tempWord := Lowercase(title.value);
      ghost var base := tempWord;
      for i := 0 to |word|
        invariant Derivable(word[..i], base)
        invariant multiset(tempWord) == multiset(base) - multiset(word[..i])
      {
        var letter := word[i];
        ConsumeLetter(base, word, i, tempWord);
        var position := FirstIndexOf(tempWord, letter);
        if position.Some? {
          tempWord := RemoveAt(tempWord, position.value);
        } else {
          return false;
        }
      }
      assert word[..|word|] == word;
      return true;
    }

    /**
     `showErrorMessage` (reached through `submit`): judge the answer and, when
     it is accepted, put its lowercase form in front of the accepted answers.
     Returns the verdict and the alert the player is shown.
     */
    method Submit(text: string) returns (verdict: Verdict, alert: Option<Alert>)
      requires Valid()
      modifies this`usedWords
      ensures Valid()
      ensures verdict == Judge(text, title, old(usedWords), spelledCorrectly)
      ensures usedWords == if verdict == Accepted then [Lowercase(text)] + old(usedWords)
                           else old(usedWords)
      ensures alert == AlertFor(verdict, title)
    {
      var lowerAnswer := Lowercase(text);
      var possible := IsPossible(lowerAnswer);
      if possible {
        if IsOriginal(lowerAnswer, usedWords) {
          if IsReal(lowerAnswer, title, spelledCorrectly) {
            AcceptKeepsHistory(text, title, usedWords, spelledCorrectly);
            usedWords := [Lowercase(text)] + usedWords;
            return Accepted, None;
          } else {
            verdict := NotRecognised;
            alert := Some(Alert("Word not recognised", "You can't just make them up!"));
          }
        } else {
          verdict := UsedAlready;
          alert := Some(Alert("Word used already", "Be more original!"));
        }
      } else {
        verdict := NotPossible;
        if title.None? {
          return verdict, None;
        }
        var lowerTitle := Lowercase(title.value);
        alert := Some(Alert("Word not possibile", "You can't spell that word from " + lowerTitle));
      }
    }
  }

  /* ---------------------------------------------------------------------
     Client scenarios
     --------------------------------------------------------------------- */

  /** Launching without a readable start-word file plays "silkworm". */
  method LaunchWithoutStartFile(spelledCorrectly: string -> bool) returns (game: ViewController)
    ensures game.Valid()
    ensures game.allWords == [FallbackWord] && game.title == Some(FallbackWord)
    ensures game.usedWords == []
  {
    game := new ViewController(spelledCorrectly);
    game.ViewDidLoad(None);
  }

  /** Submitting the same answer twice: once accepted at most, then reported as used. */
  method SubmitTwice(game: ViewController, text: string) returns (first: Verdict, second: Verdict)
    requires game.Valid()
    modifies game`usedWords
    ensures game.Valid()
    ensures first == Accepted ==> second == UsedAlready
    ensures first == Accepted ==> game.usedWords == [Lowercase(text)] + old(game.usedWords)
    ensures first != Accepted ==> second == first && game.usedWords == old(game.usedWords)
  {
    var before := game.usedWords;
    var alert;
    first, alert := game.Submit(text);
    if first == Accepted {
      ResubmitIsUsedAlready(text, game.title, before, game.spelledCorrectly);
    }
    second, alert := game.Submit(text);
  }
}
