# WordScramble answer-validation engine, in Dafny

A model of the logic of the WordScramble game's `ViewController`. The game shows a base word as the screen title. The player types answers, and the controller decides whether each one is accepted.

An answer is judged on its lowercase form by three checks, always in this order:

1. **possible**: its letters can be used up, one occurrence at a time, from the lowercased title;
2. **original**: it is not already among the accepted answers;
3. **real**: it has at least three characters, differs from the title, and the spelling checker finds no misspelling.

The first check that fails decides the alert: "Word not possibile" (spelled so in the game), "Word used already" or "Word not recognised". An accepted answer is stored lowercase at the front of `usedWords`. Starting a game picks a title from `allWords` and clears `usedWords`. Loading splits the start-word file on `"\n"` and falls back to `["silkworm"]` when the pool is still empty.

Files:

- `wrappers.dfy`: `Option`, standing for Swift's optionals (the title may be nil).
- `letters.dfy`: ASCII lowercasing, `firstIndex(of:)`, `remove(at:)`, and derivability as multiset inclusion (`Derivable`).
- `word_list.dfy`: `components(separatedBy:)` as `Split`, its inverse `Join`, and the pool after loading (`StartWords`).
- `word_scramble.dfy`: the three checks and the decision procedure on explicit values (`Possible`, `IsOriginal`, `IsReal`, `Judge`, `AlertFor`). It also holds the invariant of the accepted answers (`History`) and its lemmas. Last comes the class `ViewController` with fields `allWords`, `usedWords` and `title`. Its methods change those fields as the Swift code does. `IsPossible` is the letter-consuming loop, proved equal to multiset inclusion.

The class invariant `Valid()` says that `usedWords` has no duplicates and that every entry satisfies `Answer`: lowercase, derivable from the lowercased title, at least 3 long, different from the title, and spelled correctly. Every method keeps it.

Behaviours of the code worth knowing:

- The "not the base word" rule compares the lowercased answer with the title **as written**, not lowercased (line 98). `CapitalisedTitleAdmitsItself` shows the consequence: with title "Silkworm", the answer "silkworm" is accepted. This matters only when an entry of the start-word file has a capital letter.
- Lines of the start file are not trimmed.
- An empty but readable file gives `[""]`, not `[]`, so the fallback is used only when the file cannot be read (`LoadingExamples`).
- With no title, an answer is judged "not possible" and no alert is shown (line 137). This is modelled as a verdict, not as a precondition.

## Model

| member | source | states |
|---|---|---|
| `Letters.Lowercase` | Project5-WordScramble/Project5-WordScramble/ViewController.swift:113 | `lowercased()` keeps the length, leaves no capital letter, and returns a string without capitals unchanged |
| `Letters.LowercaseIdempotent` | Project5-WordScramble/Project5-WordScramble/ViewController.swift:113-120 | lowercasing twice equals lowercasing once, so an answer and its lowercase form get the same verdict |
| `Letters.LowercaseCapitalised` | Project5-WordScramble/Project5-WordScramble/ViewController.swift:113 | lowercasing a capitalised word lowers only its first letter |
| `Letters.FirstIndexOf` | Project5-WordScramble/Project5-WordScramble/ViewController.swift:75 | `firstIndex(of:)` finds nothing exactly when the letter is absent; otherwise it gives the leftmost position holding the letter |
| `Letters.RemoveAt` | Project5-WordScramble/Project5-WordScramble/ViewController.swift:76 | `remove(at:)` drops exactly one occurrence of the character at that position; the characters before stay in place and the ones after shift left by one |
| `Letters.DerivableByCounts` | Project5-WordScramble/Project5-WordScramble/ViewController.swift:71-83 | derivable means every letter occurs in the word at most as often as in the base word |
| `Letters.DerivableLength` | Project5-WordScramble/Project5-WordScramble/ViewController.swift:71-83 | a word spelled from the base word's letters is no longer than the base word |
| `Letters.ConsumeLetter` | Project5-WordScramble/Project5-WordScramble/ViewController.swift:74-79 | one loop step: the next letter is still in the remaining copy exactly when the letters so far plus this one are derivable; removing it keeps the copy equal to the base minus the letters used; if it is missing, the whole word is not derivable |
| `Letters.PrefixDerivable` | Project5-WordScramble/Project5-WordScramble/ViewController.swift:77-78 | if a prefix of the word is not derivable, the word is not derivable either, so returning false at the first missing letter is correct |
| `WordList.Split` | Project5-WordScramble/Project5-WordScramble/ViewController.swift:37 | `components(separatedBy:)` always yields at least one piece, and no piece holds the separator |
| `WordList.JoinSplit` | Project5-WordScramble/Project5-WordScramble/ViewController.swift:37 | splitting loses nothing: joining the pieces again with the separator gives back the file text |
| `WordList.SplitJoin` | Project5-WordScramble/Project5-WordScramble/ViewController.swift:37 | splitting is exact: a non-empty list of separator-free lines is recovered from its join |
| `WordList.StartWords` | Project5-WordScramble/Project5-WordScramble/ViewController.swift:35-43 | the pool after loading is never empty; a readable file gives exactly its lines (the fallback never fires then); an unreadable file keeps the old pool, or gives `["silkworm"]` if that was empty |
| `WordList.LoadingExamples` | Project5-WordScramble/Project5-WordScramble/ViewController.swift:37-43 | an empty file gives `[""]`, and so no fallback; a missing file on a fresh controller gives `["silkworm"]` |
| `WordScramble.Possible` | Project5-WordScramble/Project5-WordScramble/ViewController.swift:71-83 | what `isPossible` computes: false with a nil title, otherwise whether the word is a sub-multiset of the lowercased title; a possible word is never longer than the title |
| `WordScramble.IsOriginal` | Project5-WordScramble/Project5-WordScramble/ViewController.swift:86-88 | `isOriginal` holds exactly when no entry of `usedWords` equals the word |
| `WordScramble.IsReal` | Project5-WordScramble/Project5-WordScramble/ViewController.swift:91-103 | a word shorter than 3 or equal to the title as written is not real; otherwise the spelling checker decides; a real word is at least 3 long, differs from the title and is spelled correctly |
| `WordScramble.History` | Project5-WordScramble/Project5-WordScramble/ViewController.swift:118-122 | the `usedWords` invariant the guards protect: no duplicates, every entry lowercase, derivable from the lowercased title, at least 3 long, not the title and spelled correctly; read from the newest backwards, each entry is original with respect to the older ones |
| `WordScramble.Judge` | Project5-WordScramble/Project5-WordScramble/ViewController.swift:111-140 | on the lowercased answer, the checks run in order: not derivable gives NotPossible; derivable but used gives UsedAlready; derivable, new and not real gives NotRecognised; passing all three gives Accepted (each an if-and-only-if) |
| `WordScramble.AlertFor` | Project5-WordScramble/Project5-WordScramble/ViewController.swift:128-144 | an alert is shown exactly for a rejection, except "not possible" with a nil title, which returns without one |
| `WordScramble.AcceptedIffAnswer` | Project5-WordScramble/Project5-WordScramble/ViewController.swift:118-122 | an answer is accepted exactly when a title exists, the answer is new, and its lowercase form meets the answer rules (lowercase, derivable, at least 3 long, not the title, spelled correctly) |
| `WordScramble.AcceptKeepsHistory` | Project5-WordScramble/Project5-WordScramble/ViewController.swift:118-122 | inserting an accepted answer at index 0 keeps `usedWords` free of duplicates, with every entry valid for the title |
| `WordScramble.JudgeIgnoresCase` | Project5-WordScramble/Project5-WordScramble/ViewController.swift:113-120 | an answer and its lowercase form get the same verdict |
| `WordScramble.ResubmitIsUsedAlready` | Project5-WordScramble/Project5-WordScramble/ViewController.swift:118-135 | resubmitting an answer right after it was accepted gives UsedAlready |
| `WordScramble.PossibleEdgeCases` | Project5-WordScramble/Project5-WordScramble/ViewController.swift:72-82 | with a nil title nothing is possible; the empty word is possible for any title, because the loop body never runs |
| `WordScramble.IsRealOverridesChecker` | Project5-WordScramble/Project5-WordScramble/ViewController.swift:91-103 | a word shorter than 3, or one equal to the title, is never real, whatever the checker says; any other word is real exactly when the checker says so |
| `WordScramble.EmptyAnswerNotRecognised` | Project5-WordScramble/Project5-WordScramble/ViewController.swift:118-131 | when a title exists and the empty answer is not yet used, it is judged NotRecognised |
| `WordScramble.TinFromListen` | Project5-WordScramble/Project5-WordScramble/ViewController.swift:71-83 | "tin" can be spelled from the title "listen" |
| `WordScramble.TinnNotFromListen` | Project5-WordScramble/Project5-WordScramble/ViewController.swift:71-83 | "tinn" cannot be spelled from "listen", which has one n |
| `WordScramble.TinInAnyCase` | Project5-WordScramble/Project5-WordScramble/ViewController.swift:113-122 | "Tin" and "tin" get the same verdict and the same stored form "tin" |
| `WordScramble.BaseWordNotRecognised` | Project5-WordScramble/Project5-WordScramble/ViewController.swift:98-99 | with title "listen" and no answers yet, "listen" is NotRecognised |
| `WordScramble.ShortWordNotRecognised` | Project5-WordScramble/Project5-WordScramble/ViewController.swift:98-99 | with title "kitten", the derivable "it" is NotRecognised because it is too short |
| `WordScramble.CapitalisedTitleAdmitsItself` | Project5-WordScramble/Project5-WordScramble/ViewController.swift:98 | the base-word rule uses the title as written: with title "Silkworm", "silkworm" is accepted when spelled correctly |
| `WordScramble.ViewController.constructor` | Project5-WordScramble/Project5-WordScramble/ViewController.swift:13-14 | a new controller has empty `allWords` and `usedWords` and a nil title |
| `WordScramble.ViewController.LoadStartWords` | Project5-WordScramble/Project5-WordScramble/ViewController.swift:35-43 | `allWords` becomes `StartWords` of the file and the old pool, and is never empty; `Valid()` is kept |
| `WordScramble.ViewController.StartGame` | Project5-WordScramble/Project5-WordScramble/ViewController.swift:49-53 | `usedWords` is emptied; the title is an element of `allWords`, and nil exactly when `allWords` is empty |
| `WordScramble.ViewController.ViewDidLoad` | Project5-WordScramble/Project5-WordScramble/ViewController.swift:35-45 | after loading a game is active: there is a title, drawn from the non-empty pool, and no answers |
| `WordScramble.ViewController.IsPossible` | Project5-WordScramble/Project5-WordScramble/ViewController.swift:71-83 | the letter-consuming loop returns true exactly when a title exists and the word is a sub-multiset of the lowercased title |
| `WordScramble.ViewController.Submit` | Project5-WordScramble/Project5-WordScramble/ViewController.swift:106-145 | the verdict is `Judge` of the answer; on acceptance `usedWords` becomes the lowercase answer followed by the old list, otherwise it is unchanged; the title never changes; the alert is `AlertFor` the verdict; `Valid()` is kept |
| `WordScramble.LaunchWithoutStartFile` | Project5-WordScramble/Project5-WordScramble/ViewController.swift:41-45 | launching with no readable start file plays "silkworm" |
| `WordScramble.SubmitTwice` | Project5-WordScramble/Project5-WordScramble/ViewController.swift:118-135 | the same answer submitted twice is accepted at most once; after an acceptance the second verdict is UsedAlready, and after a rejection both verdicts are the same |

## Left out

- UIKit plumbing is not modelled. This covers the navigation bar adjustment, the background image, the bar button items, the table-view data source, `insertRows`, `reloadData`, `promptForAnswer` and presenting the alert with its "Ok" action. The model returns the alert's heading and message instead of showing them.
- The `[weak self, weak ac]` capture in the submit callback is not modelled. It decides only whether the callback runs at all.
- `UITextChecker.rangeOfMisspelledWord` is a call into the system dictionary. It becomes the function `spelledCorrectly`, fixed when the controller is built.
- `randomElement()` becomes a nondeterministic choice of an element of `allWords`. Its uniform distribution is not modelled.
- Finding and reading `start.txt` is file I/O. It becomes an `Option<string>` parameter: the file's text, or nothing when it cannot be found or read.
- `restartGame` only calls `startGame`, so `StartGame` models both.
- `Letters.Lowercase`: Swift's `lowercased()` is full Unicode lowercasing. The model lowers only the ASCII letters A-Z.
- Strings are sequences of `char`, not Swift `Character` grapheme clusters. So `|word|` counts Unicode scalar values, which is neither Swift's `word.count` of `Character`s (line 98) nor the `word.utf16.count` code units the spell-check range covers (line 94). A "\r\n" pair counts as two elements here, although Swift treats it as one `Character`. Swift's String `==` (line 98), `usedWords.contains` (line 87) and the `Character` match in `firstIndex(of:)` (line 75) compare by Unicode canonical equivalence; the model compares Unicode scalar values one by one.
