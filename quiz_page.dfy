/**
 * The quiz page's state cells and handlers.  Each handler updates the
 * fields in place and is proved to leave them as the matching function of
 * module QuizEngine prescribes; `Valid` is the invariant all of them keep.
 */
module VocabularyQuiz {
  import opened Types
  import opened Text
  import opened QuizEngine
  import Shuffle

  class QuizPage {
    var words: seq<Word>       // the shuffled words of the topic
    var wordIndex: nat         // index of the current word
    var userAnswer: seq<Cell>  // the answer buffer
    var focusIndex: nat
    var isAnswered: bool
    var showAnswer: bool
    var feedback: Feedback

    /** There is a current word (the page shows a loading screen otherwise). */
    predicate HasWord()
      reads this
    {
      wordIndex < |words|
    }

    /** The string the learner must type. */
    function Target(): string
      reads this
      requires HasWord()
    {
      words[wordIndex].word
    }

    /** The per-word state as a value. */
    function State(): Session
      reads this
    {
      Session(userAnswer, focusIndex, isAnswered, showAnswer, feedback)
    }

    predicate IndexInRange()
      reads this
    {
      HasWord() || (|words| == 0 && wordIndex == 0)
    }

    ghost predicate Valid()
      reads this
    {
      IndexInRange() && (HasWord() ==> WellFormed(Target(), State()))
    }

    /**
     * Opening the page on a topic: its words are shuffled, the first one
     * becomes current and, when there is one, it is reset.
     */
    constructor (topicWords: seq<Word>, draws: seq<nat>)
      requires Shuffle.DrawsFit(draws, |topicWords|)
      ensures Valid()
      ensures words == Shuffle.Shuffled(topicWords, draws)
      ensures multiset(words) == multiset(topicWords)
      ensures wordIndex == 0
      ensures HasWord() ==> State() == Reset(Target())
      ensures !HasWord() ==> State() == Session([], 1, false, false, NoFeedback)
    {
      var shuffled := Shuffle.ShuffleArray(topicWords, draws);
      words := shuffled;
      wordIndex := 0;
      userAnswer := [];
      focusIndex := 1;
      isAnswered := false;
      showAnswer := false;
      feedback := NoFeedback;
      new;
      ResetWord();
    }

    /** `resetWord`: fresh buffer, focus on the first editable cell, flags cleared. */
    method ResetWord()
      requires IndexInRange()
      modifies this
      ensures Valid()
      ensures words == old(words) && wordIndex == old(wordIndex)
      ensures HasWord() ==> State() == Reset(Target())
      ensures !HasWord() ==> State() == old(State())
    {
      if !HasWord() {
        return;
      }
      var word := words[wordIndex].word;
      var newAnswer := new Cell[|word|](_ => Blank);
      for i := 0 to |word|
        modifies newAnswer
        invariant forall k :: 0 <= k < i ==> newAnswer[k] == ResetCell(word, k)
        invariant forall k :: i <= k < |word| ==> newAnswer[k] == Blank
      {
        if word[i] == ' ' {
          newAnswer[i] := Filled(' ');
        } else if word[i] == '?' && i == |word| - 1 {
          newAnswer[i] := Filled('?');
        } else if i == 0 {
          newAnswer[i] := Filled(LowerChar(word[i]));
        }
      }
      assert newAnswer[..] == ResetAnswer(word);
      userAnswer := newAnswer[..];
      isAnswered := false;
      showAnswer := false;
      feedback := NoFeedback;
      var firstEditable := ScanForward(word, 1);
      focusIndex := firstEditable;
    }

    /** `handleKeyDown` on the cell at `index`. */
    method HandleKeyDown(key: string, index: nat)
      requires Valid() && (HasWord() ==> index < |Target()|)
      modifies this
      ensures Valid()
      ensures words == old(words) && wordIndex == old(wordIndex)
      ensures HasWord() ==> State() == KeyStep(Target(), old(State()), key, index)
      ensures !HasWord() ==> State() == old(State())
    {
      if !HasWord() {
        return;
      }
      var word := words[wordIndex].word;
      var isSpace := word[index] == ' ';
      var isFirstLetter := index == 0;
      var isQuestionMark := word[index] == '?' && index == |word| - 1;
      if isSpace || isFirstLetter || isQuestionMark {
        return;
      }
      if |key| == 1 && IsAnswerChar(key[0]) {
        TypeLetter(key, index);
      } else if key == "Backspace" {
        Erase(key, index);
      } else if key == "ArrowLeft" {
        MoveLeft(key, index);
      } else if key == "ArrowRight" {
        MoveRight(key, index);
      } else if key == "Enter" {
        assert ClassifyKey(key) == Enter;
        CheckAnswer();
      } else {
        assert ClassifyKey(key) == OtherKey;
      }
    }

    /** A letter or apostrophe typed into the editable cell `index`. */
    method TypeLetter(key: string, index: nat)
      requires Valid() && HasWord() && Editable(Target(), index)
      requires |key| == 1 && IsAnswerChar(key[0])
      modifies this
      ensures Valid()
      ensures words == old(words) && wordIndex == old(wordIndex)
      ensures State() == KeyStep(Target(), old(State()), key, index)
    {
      var word := words[wordIndex].word;
      assert ClassifyKey(key) == Letter(key[0]);
      userAnswer := userAnswer[index := Filled(LowerChar(key[0]))];
      var nextIndex := ScanForward(word, index + 1);
      if nextIndex < |word| {
        focusIndex := nextIndex;
      }
    }

    /** Backspace on the editable cell `index`. */
    method Erase(key: string, index: nat)
      requires Valid() && HasWord() && Editable(Target(), index)
      requires key == "Backspace"
      modifies this
      ensures Valid()
      ensures words == old(words) && wordIndex == old(wordIndex)
      ensures State() == KeyStep(Target(), old(State()), key, index)
    {
      var word := words[wordIndex].word;
      assert ClassifyKey(key) == Backspace;
      userAnswer := userAnswer[index := Blank];
      var prevIndex := ScanBackward(word, index - 1);
      if prevIndex >= 0 {
        focusIndex := prevIndex;
      }
    }

    /** ArrowLeft on the editable cell `index`. */
    method MoveLeft(key: string, index: nat)
      requires Valid() && HasWord() && Editable(Target(), index)
      requires key == "ArrowLeft"
      modifies this
      ensures Valid()
      ensures words == old(words) && wordIndex == old(wordIndex)
      ensures State() == KeyStep(Target(), old(State()), key, index)
    {
      var word := words[wordIndex].word;
      assert ClassifyKey(key) == ArrowLeft;
      var prevIndex := ScanBackward(word, index - 1);
      if prevIndex >= 0 {
        focusIndex := prevIndex;
      }
    }

    /** ArrowRight on the editable cell `index`. */
    method MoveRight(key: string, index: nat)
      requires Valid() && HasWord() && Editable(Target(), index)
      requires key == "ArrowRight"
      modifies this
      ensures Valid()
      ensures words == old(words) && wordIndex == old(wordIndex)
      ensures State() == KeyStep(Target(), old(State()), key, index)
    {
      var word := words[wordIndex].word;
      assert ClassifyKey(key) == ArrowRight;
      var nextIndex := ScanForward(word, index + 1);
      if nextIndex < |word| {
        focusIndex := nextIndex;
      }
    }

    /** `checkAnswer`. */
    method CheckAnswer()
      requires Valid()
      modifies this
      ensures Valid()
      ensures words == old(words) && wordIndex == old(wordIndex)
      ensures HasWord() ==> State() == Check(Target(), old(State()))
      ensures !HasWord() ==> State() == old(State())
    {
      if !HasWord() {
        return;
      }
      var answer := Lower(Join(userAnswer));
      var correctAnswer := Lower(words[wordIndex].word);
      if answer == correctAnswer {
        feedback := Correct;
        isAnswered := true;
      } else {
        feedback := Wrong(words[wordIndex].word);
        isAnswered := true;
        showAnswer := true;
      }
    }

    /** `handleShowAnswer`. */
    method HandleShowAnswer()
      requires Valid()
      modifies this
      ensures Valid()
      ensures words == old(words) && wordIndex == old(wordIndex)
      ensures HasWord() ==> State() == ShowAnswer(Target(), old(State()))
      ensures !HasWord() ==> State() == old(State())
    {
      if !HasWord() {
        return;
      }
      showAnswer := true;
      feedback := Shown(words[wordIndex].word);
      userAnswer := Split(Lower(words[wordIndex].word));
      isAnswered := true;
    }

    /** A click on the cell at `index`. */
    method HandleClick(index: nat)
      requires Valid() && (HasWord() ==> index < |Target()|)
      modifies this
      ensures Valid()
      ensures words == old(words) && wordIndex == old(wordIndex)
      ensures HasWord() ==> State() == Click(Target(), old(State()), index)
      ensures !HasWord() ==> State() == old(State())
    {
      if !HasWord() {
        return;
      }
      var word := words[wordIndex].word;
      if word[index] == ' ' {
        return;  // space cells carry no click handler
      }
      var isFirstLetter := index == 0;
      var isQuestionMark := word[index] == '?' && index == |word| - 1;
      if !(isFirstLetter || isQuestionMark) {
        focusIndex := index;
      }
    }

    /** `handleNext`: advance unless at the last word; a new current word is reset. */
    method HandleNext()
      requires Valid()
      modifies this
      ensures Valid()
      ensures words == old(words)
      ensures wordIndex == if old(wordIndex) + 1 < |words| then old(wordIndex) + 1 else old(wordIndex)
      ensures wordIndex != old(wordIndex) ==> State() == Reset(Target())
      ensures wordIndex == old(wordIndex) ==> State() == old(State())
    {
      if wordIndex < |words| - 1 {
        wordIndex := wordIndex + 1;
        ResetWord();
      }
    }

    /** `handlePrev`: go back unless at the first word; a new current word is reset. */
    method HandlePrev()
      requires Valid()
      modifies this
      ensures Valid()
      ensures words == old(words)
      ensures wordIndex == if old(wordIndex) > 0 then old(wordIndex) - 1 else old(wordIndex)
      ensures wordIndex != old(wordIndex) ==> State() == Reset(Target())
      ensures wordIndex == old(wordIndex) ==> State() == old(State())
    {
      if wordIndex > 0 {
        wordIndex := wordIndex - 1;
        ResetWord();
      }
    }
  }
}
