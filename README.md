# Vocabulary quiz: the answer engine and the topic search, in Dafny

This project models the logic of a browser vocabulary trainer. Two parts are covered.

- **The fill-in-the-blank quiz page.** The learner sees a word's meaning and types the word into one cell per character. Some cells are *locked* and filled in already: a space, the very first character, and a `?` in the last position. The page keeps an answer buffer, a focus index, the flags `isAnswered` and `showAnswer`, a feedback line, and the index of the current word in a shuffled word list. Its handlers are the reset for a new word, the key handler (letters and apostrophe, Backspace, ArrowLeft, ArrowRight, Enter), the check, "show answer", clicks on cells, next/previous word, and the Fisher–Yates shuffle of the topic's words.
- **The topic list.** A search term filters the topics by name or description, ignoring case. The matching topics are then grouped by level.

Files and modules:

- `types.dfy` (`Types`): the `Word` and `Topic` records.
- `text.dfy` (`Text`): ASCII lower-casing and the substring test behind `includes`.
- `shuffle.dfy` (`Shuffle`): the shuffle. It copies the list into a fresh array and swaps in place. It is proved equal to a functional specification and to be a permutation.
- `quiz_engine.dfy` (`QuizEngine`): the per-word state as a value (`Session`). It holds the locked-position predicate, the forward and backward focus scans (functions, plus the `while` loops proved equal to them), and one function per handler. Each function's contract gives its effect and keeps the invariant `WellFormed`. That invariant says the buffer has the word's length, every locked cell shows its lower-case character, and the focus is on an editable cell (or the word has none).
- `quiz_properties.dfy` (`QuizProperties`): properties that span several steps. An empty cell forces a wrong verdict. A full buffer is correct exactly when it matches cell by cell. "Show answer" followed by a check gives Correct. Typing the word along the auto-advancing focus after a reset gives Correct. The last three lemmas work through the word `a cat?` concretely.
- `quiz_page.dfy` (`VocabularyQuiz`): the page as a class. Its fields are the state cells. Each handler method is proved to leave the fields as the matching `QuizEngine` function says, and to keep `Valid()`.
- `topic_list.dfy` (`TopicList`): the search filter (a function) and the grouping `reduce` (a loop building a map of sequences). Their properties: the filter keeps exactly the matching topics, in order. An empty term keeps all. The groups are exactly the levels present. Each group holds the topics of its level in list order. The group sizes add up to the list length.

## Behaviour as coded

The model follows the code in these places, even where an idealised description of the quiz would say otherwise:

- The key handler has no `isAnswered` guard. After a verdict, only the buttons disappear. Keys still edit the buffer (`KeysStillEditAfterVerdict`).
- A wrong check does not write the correct word into the buffer. It only sets `showAnswer` and a `Wrong(word)` feedback (`CatTypedWrongly`).
- A correct check leaves `showAnswer` as it was.
- For the empty word, the reset leaves the focus at 1, because its scan starts at 1. For any other word without editable cells, the focus is `|word|`.
- Backspace and ArrowLeft never move the focus to 0, because position 0 is always locked.

## Model

| member | source | states |
|---|---|---|
| `Text.LowerChar` | src/components/VocabularyQuizPage.tsx:107 | ASCII lower-casing maps `A`-`Z` to `a`-`z`, keeps every other character, and never yields an upper-case letter |
| `Text.Lower` | src/components/VocabularyQuizPage.tsx:180-181 | lower-casing keeps the length and lower-cases each character (ASCII) |
| `Text.LowerIdempotent` | src/components/VocabularyQuizPage.tsx:198 | lower-casing an already lower-cased word changes nothing |
| `Text.Contains` | src/components/TopicList.tsx:45-46 | `includes` holds whenever the term is a prefix of the text, and never for a term longer than the text |
| `Text.ContainsIffOffset` | src/components/TopicList.tsx:45-46 | the `includes` test holds iff the term is a prefix of the text at some offset |
| `Shuffle.Swap` | src/components/VocabularyQuizPage.tsx:11 | the destructuring swap exchanges two positions, leaves the rest, and keeps the multiset |
| `Shuffle.ShuffleRounds` | src/components/VocabularyQuizPage.tsx:9-12 | any number of shuffle rounds keeps the length and the multiset of elements |
| `Shuffle.Shuffled` | src/components/VocabularyQuizPage.tsx:7-14 | the whole shuffle, rounds from the last index down to 1, keeps the length and the multiset of elements |
| `Shuffle.ShuffleArray` | src/components/VocabularyQuizPage.tsx:7-14 | the in-place loop over a copied array returns the specified shuffle, a permutation of the input |
| `QuizEngine.IsAnswerChar` | src/components/VocabularyQuizPage.tsx:105 | an accepted key character is never a space or `?`, and its lower case is a letter `a`-`z` or an apostrophe |
| `QuizEngine.ClassifyKey` | src/components/VocabularyQuizPage.tsx:105-174 | a key is a letter exactly when it is one character in `[a-zA-Z']`; it is Backspace, ArrowLeft, ArrowRight or Enter exactly when its name is that key's name; it is ignored exactly when it is none of the five handled keys |
| `QuizEngine.Locked` | src/components/VocabularyQuizPage.tsx:97-102 | position 0 is always locked; a locked position after 0 never holds a letter or apostrophe; an unlocked position never holds a space |
| `QuizEngine.Editable` | src/components/VocabularyQuizPage.tsx:113-116 | an editable position lies inside the word, is never 0, never a space, and a `?` there is not the last character |
| `QuizEngine.NextEditable` | src/components/VocabularyQuizPage.tsx:111-120 | the forward scan finds the least editable position at or after its start, with only locked positions skipped, or the end of the word |
| `QuizEngine.PrevEditable` | src/components/VocabularyQuizPage.tsx:130-139 | the backward scan finds the greatest editable position at or before its start, never 0, or -1 when there is none |
| `QuizEngine.ScanForward` | src/components/VocabularyQuizPage.tsx:158-167 | the `while` loop computes the forward scan |
| `QuizEngine.ScanBackward` | src/components/VocabularyQuizPage.tsx:144-153 | the `while` loop computes the backward scan |
| `QuizEngine.Join` | src/components/VocabularyQuizPage.tsx:180 | `join('')` is never longer than the buffer, and exactly as long when every cell is filled |
| `QuizEngine.Split` | src/components/VocabularyQuizPage.tsx:198 | `split('')` gives one filled cell per character, holding that character |
| `QuizEngine.ResetCell` | src/components/VocabularyQuizPage.tsx:67-75 | a reset cell is pre-filled exactly at a locked position, with the lower-case character of the word there; every other cell is empty |
| `QuizEngine.ResetAnswer` | src/components/VocabularyQuizPage.tsx:63-76 | the reset buffer has the word's length; locked cells hold the lower-case character, editable cells are empty |
| `QuizEngine.Reset` | src/components/VocabularyQuizPage.tsx:59-91 | reset gives a well-formed session: focus is the least editable position from 1 (or the end, or 1 for the empty word), never 0; flags and feedback are cleared |
| `QuizEngine.Check` | src/components/VocabularyQuizPage.tsx:177-191 | Correct iff the lower-cased joined buffer equals the lower-cased word; both outcomes set `isAnswered`, only Wrong sets `showAnswer`; buffer and focus are unchanged |
| `QuizEngine.ShowAnswer` | src/components/VocabularyQuizPage.tsx:193-201 | every cell becomes the lower-case character of the word; `isAnswered` and `showAnswer` are set; feedback names the word |
| `QuizEngine.Click` | src/components/VocabularyQuizPage.tsx:333-346 | a click moves the focus exactly when the cell is editable |
| `QuizEngine.KeyStep` | src/components/VocabularyQuizPage.tsx:93-175 | a locked cell or an unhandled key changes nothing; only cell `index` may change; a letter writes its lower case and moves focus forward; Backspace empties the cell and moves focus back; arrows move focus only; Enter checks; focus never lands on a locked cell; well-formedness is kept |
| `QuizProperties.JoinLength` | src/components/VocabularyQuizPage.tsx:180 | the joined answer is no longer than the buffer, and shorter when a cell is empty |
| `QuizProperties.JoinFilled` | src/components/VocabularyQuizPage.tsx:180 | a fully filled buffer joins to its characters, position by position |
| `QuizProperties.JoinSplit` | src/components/VocabularyQuizPage.tsx:180-198 | splitting a word into cells and joining them back gives the word |
| `QuizProperties.BlankCellIsWrong` | src/components/VocabularyQuizPage.tsx:180-190 | any empty cell makes the check Wrong and sets `showAnswer` |
| `QuizProperties.VerdictByCells` | src/components/VocabularyQuizPage.tsx:180-183 | with every cell filled, the check is Correct iff each cell matches the word at that position, ignoring case |
| `QuizProperties.SpelledAnswerIsCorrect` | src/components/VocabularyQuizPage.tsx:180-183 | a buffer holding the lower-cased word passes the check |
| `QuizProperties.ShowAnswerThenCheck` | src/components/VocabularyQuizPage.tsx:171-201 | after "show answer", a check (Enter) yields Correct |
| `QuizProperties.TypeAlong` | src/components/VocabularyQuizPage.tsx:105-123 | typing key after key into the focused cell keeps the session well-formed |
| `QuizProperties.TypeRestFills` | src/components/VocabularyQuizPage.tsx:105-123 | typing the remaining editable characters from an editable focus fills each of them correctly and leaves earlier cells alone |
| `QuizProperties.TypingTheWordSolves` | src/components/VocabularyQuizPage.tsx:59-191 | after reset, typing the word's editable characters along the auto-advancing focus and pressing Enter gives Correct, if they are letters or apostrophes |
| `QuizProperties.CatTypedCorrectly` | src/components/VocabularyQuizPage.tsx:59-191 | for `a cat?` the focus starts at 2 and typing `cat` gives Correct |
| `QuizProperties.CatTypedWrongly` | src/components/VocabularyQuizPage.tsx:177-191 | for `a cat?` typing `cxt` gives Wrong and the buffer keeps `a cxt?` |
| `QuizProperties.KeysStillEditAfterVerdict` | src/components/VocabularyQuizPage.tsx:93-107 | after a verdict, a typed letter still changes the buffer |
| `VocabularyQuiz.QuizPage.constructor` | src/components/VocabularyQuizPage.tsx:21-51 | opening the page shuffles the words (a permutation), selects index 0 and resets the first word, if there is one |
| `VocabularyQuiz.QuizPage.ResetWord` | src/components/VocabularyQuizPage.tsx:59-91 | the fill loop and the focus scan leave the state equal to `Reset` of the current word |
| `VocabularyQuiz.QuizPage.HandleKeyDown` | src/components/VocabularyQuizPage.tsx:93-175 | the handler leaves the state equal to `KeyStep` and keeps `Valid()` |
| `VocabularyQuiz.QuizPage.TypeLetter` | src/components/VocabularyQuizPage.tsx:105-123 | the letter branch (write, then forward scan loop) leaves the state equal to `KeyStep` |
| `VocabularyQuiz.QuizPage.Erase` | src/components/VocabularyQuizPage.tsx:124-142 | the Backspace branch (clear, then backward scan loop) leaves the state equal to `KeyStep` |
| `VocabularyQuiz.QuizPage.MoveLeft` | src/components/VocabularyQuizPage.tsx:143-156 | the ArrowLeft branch leaves the state equal to `KeyStep` |
| `VocabularyQuiz.QuizPage.MoveRight` | src/components/VocabularyQuizPage.tsx:157-170 | the ArrowRight branch leaves the state equal to `KeyStep` |
| `VocabularyQuiz.QuizPage.CheckAnswer` | src/components/VocabularyQuizPage.tsx:177-191 | leaves the state equal to `Check` |
| `VocabularyQuiz.QuizPage.HandleShowAnswer` | src/components/VocabularyQuizPage.tsx:193-201 | leaves the state equal to `ShowAnswer` |
| `VocabularyQuiz.QuizPage.HandleClick` | src/components/VocabularyQuizPage.tsx:346 | leaves the state equal to `Click` |
| `VocabularyQuiz.QuizPage.HandleNext` | src/components/VocabularyQuizPage.tsx:203-207 | the index advances unless at the last word, stays in range, and a changed index resets the new word; otherwise nothing changes |
| `VocabularyQuiz.QuizPage.HandlePrev` | src/components/VocabularyQuizPage.tsx:209-213 | the index goes back unless at 0, and a changed index resets the new word; otherwise nothing changes |
| `TopicList.Matches` | src/components/TopicList.tsx:44-47 | the filter callback accepts every topic for the empty term, and never one whose name and description are both shorter than the term |
| `TopicList.FilterTopics` | src/components/TopicList.tsx:44-47 | a topic is kept iff the lower-cased term occurs in its lower-cased name or description |
| `TopicList.FilterCount` | src/components/TopicList.tsx:44-47 | a matching topic is kept as often as it occurs, any other never |
| `TopicList.FilterIsSubsequence` | src/components/TopicList.tsx:44 | the filtered list is a subsequence of the topics, in their order |
| `TopicList.EmptyTermKeepsAll` | src/components/TopicList.tsx:44-47 | an empty search term keeps every topic |
| `TopicList.AddToGroup` | src/components/TopicList.tsx:49-54 | one `reduce` step adds the topic's level as a key, appends the topic to that level's list (a new list when missing), and leaves every other group unchanged |
| `TopicList.Group` | src/components/TopicList.tsx:49-55 | the `reduce` over the list never holds an empty group |
| `TopicList.LevelOrder` | src/components/TopicList.tsx:85 | the levels in order of group creation, as `Object.entries` lists them, name each level at most once and are no more than the topics |
| `TopicList.OfLevel` | src/components/TopicList.tsx:49-53 | the reference group of a level holds exactly the topics of that level |
| `TopicList.OfLevelCount` | src/components/TopicList.tsx:49-53 | the reference group keeps each topic of its level as often as it occurs |
| `TopicList.GroupIsByLevel` | src/components/TopicList.tsx:49-55 | the keys are exactly the levels present, and each group is the list's topics of that level in order |
| `TopicList.GroupLevels` | src/components/TopicList.tsx:49-53 | every topic in the group of level L has level L |
| `TopicList.GroupPartitions` | src/components/TopicList.tsx:49-55 | each topic is in its own level's group, as often as it occurs in the list, and in no other group |
| `TopicList.GroupKeepsOrder` | src/components/TopicList.tsx:53 | within a group, topics keep their relative order in the list |
| `TopicList.GroupSizesSum` | src/components/TopicList.tsx:49-55 | the groups in creation order are listed once each and their sizes add up to the list length |
| `TopicList.GroupTopics` | src/components/TopicList.tsx:49-55 | the reduce loop (create the level's list if missing, then push) builds the specified grouping |

## Left out

- Topic loading: the `fetch` of the index and the topic files, and passing the topic through `sessionStorage`, are I/O. The page is constructed from the topic's word list instead. The redirect home when no topic is stored is not modelled.
- The pronunciation lookup against the dictionary web service, audio preloading and playback, and speech synthesis are network and browser APIs.
- The DOM focus effect is modelled only as the value `focusIndex`. All rendering and styling is left out, including the upper-casing of the displayed letters.
- `Math.random`: each shuffle round's random index is a parameter `draws[i]`. It lies in `[0, i]`, as `Math.floor(Math.random() * (i + 1))` does.
- `toLowerCase` is modelled as ASCII lower-casing. Full Unicode case mapping can change a string's length; that is not modelled. `e.key.length` counts UTF-16 code units, while the model counts characters. This only matters for keys that the letter test rejects anyway.
- The word and its buffer are measured in Unicode scalar values, while the code measures `word.length`, indexes `word[i]` and splits with `split('')` in UTF-16 code units. For a word with a character outside the Basic Multilingual Plane, the code makes two cells for that character and the model makes one.
- The feedback strings are Vietnamese UI text. They are modelled as a tag: `NoFeedback`, `Correct`, `Wrong(word)` or `Shown(word)`.
- React scheduling: each handler runs to completion before the next event. The render in which `userAnswer` is still `[]` after the words load and before the reset effect runs is not modelled. The constructor runs the reset at once.
- VocabularyQuiz.QuizPage.HandleKeyDown and VocabularyQuiz.QuizPage.HandleClick: these require `index` to name a cell of the current word, because events only come from the rendered cells. Writing past the end of the buffer is not modelled.
- TopicList.GroupSizesSum: the rendering order of groups is modelled as the order of first occurrence. JavaScript lists integer-like keys first; levels are words, so this does not arise.
- TopicList.GroupTopics (and `TopicList.Group`, `TopicList.GroupIsByLevel`): the accumulator is a plain object, so a level that names an inherited `Object.prototype` property (`constructor`, `toString`, `__proto__` and so on) finds a non-array value already there and the code throws a TypeError at `push`. The model treats every level as a fresh key and builds a group for it.
- A guard against input after a verdict is not modelled or claimed, because the code has none.
- The source files `src/components/DictionaryFrame.tsx` (selection listeners, iframe messaging), `src/App.tsx` (routes) and `src/components/LearningPage.tsx` (speech and flashcard navigation) are not part of this model.
