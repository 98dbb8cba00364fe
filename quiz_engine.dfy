/**
 * The fill-in-the-blank answer engine of the quiz page, as values: the
 * answer buffer, the focus and the verdict flags form a `Session`, and
 * each handler of the page is a function from the old session to the new
 * one.  The page class in module QuizPage is proved against these.
 */
module QuizEngine {
  import opened Text

  /** One cell of the answer buffer: the empty string or one character. */
  datatype Cell = Blank | Filled(c: char)

  /** The feedback line shown under the cells. */
  datatype Feedback = NoFeedback | Correct | Wrong(expected: string) | Shown(expected: string)

  /** What the key handler makes of a key name. */
  datatype Key = Letter(c: char) | Backspace | ArrowLeft | ArrowRight | Enter | OtherKey

  /** The state the page keeps for the current word. */
  datatype Session = Session(
    answer: seq<Cell>,
    focus: nat,
    isAnswered: bool,
    showAnswer: bool,
    feedback: Feedback)

  // ---------------------------------------------------------------------
  // Keys and positions

  /** The characters `/^[a-zA-Z']$/` accepts. */
  predicate IsAnswerChar(c: char): (r: bool)
    ensures r ==> c != ' ' && c != '?'
    ensures r ==> 'a' <= LowerChar(c) <= 'z' || LowerChar(c) == '\''
  {
    'a' <= c <= 'z' || 'A' <= c <= 'Z' || c == '\''
  }

  function ClassifyKey(key: string): (k: Key)
    ensures k.Letter? <==> |key| == 1 && IsAnswerChar(key[0])
    ensures k.Letter? ==> k.c == key[0]
    ensures k == Backspace <==> key == "Backspace"
    ensures k == ArrowLeft <==> key == "ArrowLeft"
    ensures k == ArrowRight <==> key == "ArrowRight"
    ensures k == Enter <==> key == "Enter"
    ensures k == OtherKey <==>
      !(|key| == 1 && IsAnswerChar(key[0])) &&
      key != "Backspace" && key != "ArrowLeft" && key != "ArrowRight" && key != "Enter"
  {
    if |key| == 1 && IsAnswerChar(key[0]) then Letter(key[0])
    else if key == "Backspace" then Backspace
    else if key == "ArrowLeft" then ArrowLeft
    else if key == "ArrowRight" then ArrowRight
    else if key == "Enter" then Enter
    else OtherKey
  }

  /**
   * A position the learner cannot edit: a space, the very first character,
   * or a question mark in the last position.
   */
  predicate Locked(word: string, i: int): (r: bool)
    ensures i == 0 ==> r
    ensures r && 0 < i < |word| ==> !IsAnswerChar(word[i])
    ensures !r && 0 <= i < |word| ==> word[i] != ' '
  {
    (0 <= i < |word| && word[i] == ' ') || i == 0 || (0 <= i && i == |word| - 1 && word[i] == '?')
  }

  predicate Editable(word: string, i: int): (r: bool)
    ensures r ==> 0 < i < |word| && word[i] != ' '
    ensures r && word[i] == '?' ==> i < |word| - 1
  {
    0 <= i < |word| && !Locked(word, i)
  }

  /**
   * The forward scan: the least position `>= start` that is editable,
   * `|word|` when there is none, or `start` itself when the scan does not
   * begin inside the word.
   */
  function NextEditable(word: string, start: nat): (r: nat)
    ensures start <= r
    ensures r < |word| ==> Editable(word, r)
    ensures r <= |word| || r == start
    ensures forall k :: start <= k < r ==> Locked(word, k)
    decreases |word| - start
  {
    if start >= |word| then start
    else if !Locked(word, start) then start
    else NextEditable(word, start + 1)
  }

  /**
   * The backward scan: the greatest position `<= from` that is editable,
   * or -1 when there is none.  It never yields 0, which is always locked.
   */
  function PrevEditable(word: string, from: int): (r: int)
    requires -1 <= from < |word|
    ensures -1 <= r <= from
    ensures r >= 0 ==> Editable(word, r) && r != 0
    ensures forall k :: r < k <= from ==> Locked(word, k)
    decreases from + 1
  {
    if from < 0 then -1
    else if !Locked(word, from) then from
    else PrevEditable(word, from - 1)
  }

  /** The forward scan loop of the key handler and of `resetWord`. */
  method ScanForward(word: string, start: nat) returns (r: nat)
    ensures r == NextEditable(word, start)
    ensures start <= r && (r <= |word| || r == start)
    ensures r < |word| ==> Editable(word, r)
    ensures forall k :: start <= k < r ==> Locked(word, k)
  {
    r := start;
    while r < |word| && Locked(word, r)
      invariant start <= r
      invariant NextEditable(word, r) == NextEditable(word, start)
      decreases |word| - r
    {
      r := r + 1;
    }
  }

  /** The backward scan loop of Backspace and ArrowLeft. */
  method ScanBackward(word: string, from: int) returns (r: int)
    requires -1 <= from < |word|
    ensures r == PrevEditable(word, from)
    ensures -1 <= r <= from
    ensures r >= 0 ==> Editable(word, r)
    ensures forall k :: r < k <= from ==> Locked(word, k)
  {
    r := from;
    while r >= 0 && Locked(word, r)
      invariant -1 <= r <= from
      invariant PrevEditable(word, r) == PrevEditable(word, from)
      decreases r + 1
    {
      r := r - 1;
    }
  }

  /** Focus moved forward from `i`: to the next editable position, or not at all when none follows. */
  predicate ForwardMove(word: string, i: int, focus: nat, focus': nat)
  {
    (i < focus' < |word| && Editable(word, focus') && forall k :: i < k < focus' ==> Locked(word, k)) ||
    (focus' == focus && forall k :: i < k < |word| ==> Locked(word, k))
  }

  /** Focus moved back from `i`: to the previous editable position, or not at all when none precedes. */
  predicate BackwardMove(word: string, i: int, focus: nat, focus': nat)
  {
    (0 < focus' < i && Editable(word, focus') && forall k :: focus' < k < i ==> Locked(word, k)) ||
    (focus' == focus && forall k :: 0 <= k < i ==> Locked(word, k))
  }

  // ---------------------------------------------------------------------
  // The buffer

  /** What a cell contributes to `join('')`. */
  function CellText(c: Cell): string
  {
    match c
    case Blank => ""
    case Filled(ch) => [ch]
  }

  /** `userAnswer.join('')`. */
  function Join(cells: seq<Cell>): (r: string)
    ensures |r| <= |cells|
    ensures (forall i :: 0 <= i < |cells| ==> cells[i].Filled?) ==> |r| == |cells|
  {
    if cells == [] then "" else CellText(cells[0]) + Join(cells[1..])
  }

  /** `s.split('')`, one filled cell per character. */
  function Split(s: string): (r: seq<Cell>)
    ensures |r| == |s| && forall i :: 0 <= i < |s| ==> r[i] == Filled(s[i])
  {
    seq(|s|, i requires 0 <= i < |s| => Filled(s[i]))
  }

  /** The verdict of `checkAnswer`. */
  predicate IsCorrect(word: string, answer: seq<Cell>)
  {
    Lower(Join(answer)) == Lower(word)
  }

  /** Every locked cell shows the lower-case character of the word there. */
  predicate LockedCellsShown(word: string, answer: seq<Cell>)
    requires |answer| == |word|
  {
    forall i :: 0 <= i < |word| && Locked(word, i) ==> answer[i] == Filled(LowerChar(word[i]))
  }

  /**
   * The focus is on an editable position, or the word has none and the
   * focus is where the reset left it.
   */
  predicate FocusSound(word: string, focus: nat)
  {
    Editable(word, focus) ||
    (focus == NextEditable(word, 1) && forall i :: 0 <= i < |word| ==> Locked(word, i))
  }

  /** The invariant every handler keeps for the current word. */
  predicate WellFormed(word: string, s: Session)
  {
    |s.answer| == |word| && LockedCellsShown(word, s.answer) && FocusSound(word, s.focus)
  }

  // ---------------------------------------------------------------------
  // Handlers

  /** One cell of the reset buffer: pre-filled exactly at a locked position. */
  function ResetCell(word: string, i: nat): (r: Cell)
    requires i < |word|
    ensures r.Filled? <==> Locked(word, i)
    ensures r.Filled? ==> r.c == LowerChar(word[i])
  {
    if word[i] == ' ' then Filled(' ')
    else if word[i] == '?' && i == |word| - 1 then Filled('?')
    else if i == 0 then Filled(LowerChar(word[i]))
    else Blank
  }

  /** The buffer `resetWord` builds: locked cells pre-filled, all others empty. */
  function ResetAnswer(word: string): (r: seq<Cell>)
    ensures |r| == |word|
    ensures forall i :: 0 <= i < |word| ==>
      r[i] == if Locked(word, i) then Filled(LowerChar(word[i])) else Blank
  {
    seq(|word|, i requires 0 <= i < |word| => ResetCell(word, i))
  }

  /** `resetWord`. */
  function Reset(word: string): (s: Session)
    ensures WellFormed(word, s)
    ensures forall i :: 0 <= i < |word| ==>
      s.answer[i] == if Locked(word, i) then Filled(LowerChar(word[i])) else Blank
    ensures 1 <= s.focus
    ensures s.focus < |word| ==> Editable(word, s.focus)
    ensures forall k :: 1 <= k < s.focus && k < |word| ==> Locked(word, k)
    ensures s.focus >= |word| ==> s.focus == if |word| == 0 then 1 else |word|
    ensures !s.isAnswered && !s.showAnswer && s.feedback == NoFeedback
  {
    Session(ResetAnswer(word), NextEditable(word, 1), false, false, NoFeedback)
  }

  /** `checkAnswer`: a verdict, and the buffer left as it is. */
  function Check(word: string, s: Session): (r: Session)
    ensures r.answer == s.answer && r.focus == s.focus && r.isAnswered
    ensures r.feedback == Correct <==> IsCorrect(word, s.answer)
    ensures r.feedback == Correct ==> r.showAnswer == s.showAnswer
    ensures r.feedback != Correct ==> r.feedback == Wrong(word) && r.showAnswer
    ensures WellFormed(word, s) ==> WellFormed(word, r)
  {
    if Lower(Join(s.answer)) == Lower(word) then
      s.(feedback := Correct, isAnswered := true)
    else
      s.(feedback := Wrong(word), isAnswered := true, showAnswer := true)
  }

  /** `handleShowAnswer`: the buffer becomes the lower-cased word. */
  function ShowAnswer(word: string, s: Session): (r: Session)
    ensures |r.answer| == |word|
    ensures forall i :: 0 <= i < |word| ==> r.answer[i] == Filled(LowerChar(word[i]))
    ensures r.focus == s.focus && r.isAnswered && r.showAnswer && r.feedback == Shown(word)
    ensures WellFormed(word, s) ==> WellFormed(word, r)
  {
    s.(showAnswer := true, feedback := Shown(word), answer := Split(Lower(word)), isAnswered := true)
  }

  /**
   * A click on cell `index`: only editable cells take the focus (space
   * cells have no click handler; the first and a trailing `?` ignore it).
   */
  function Click(word: string, s: Session, index: nat): (r: Session)
    requires index < |word|
    ensures r.focus == if Editable(word, index) then index else s.focus
    ensures r.answer == s.answer && r.isAnswered == s.isAnswered
    ensures r.showAnswer == s.showAnswer && r.feedback == s.feedback
    ensures WellFormed(word, s) ==> WellFormed(word, r)
  {
    if word[index] == ' ' then s
    else if index == 0 || (word[index] == '?' && index == |word| - 1) then s
    else s.(focus := index)
  }

  /** `handleKeyDown` for the cell at `index`. */
  function KeyStep(word: string, s: Session, key: string, index: nat): (r: Session)
    requires WellFormed(word, s) && index < |word|
    ensures WellFormed(word, r)
    ensures Locked(word, index) || ClassifyKey(key) == OtherKey ==> r == s
    ensures |r.answer| == |s.answer|
    ensures forall j :: 0 <= j < |s.answer| && j != index ==> r.answer[j] == s.answer[j]
    ensures !ClassifyKey(key).Enter? ==>
      r.isAnswered == s.isAnswered && r.showAnswer == s.showAnswer && r.feedback == s.feedback
    ensures Editable(word, index) && ClassifyKey(key).Letter? ==>
      r.answer[index] == Filled(LowerChar(key[0])) && ForwardMove(word, index, s.focus, r.focus)
    ensures Editable(word, index) && ClassifyKey(key) == Backspace ==>
      r.answer[index] == Blank && BackwardMove(word, index, s.focus, r.focus)
    ensures Editable(word, index) && ClassifyKey(key) == ArrowLeft ==>
      r.answer == s.answer && BackwardMove(word, index, s.focus, r.focus)
    ensures Editable(word, index) && ClassifyKey(key) == ArrowRight ==>
      r.answer == s.answer && ForwardMove(word, index, s.focus, r.focus)
    ensures Editable(word, index) && ClassifyKey(key) == Enter ==> r == Check(word, s)
    ensures r.focus == s.focus || Editable(word, r.focus)
  {
    if Locked(word, index) then s
    else
      match ClassifyKey(key)
      case Letter(c) =>
        var n := NextEditable(word, index + 1);
        s.(answer := s.answer[index := Filled(LowerChar(c))], focus := if n < |word| then n else s.focus)
      case Backspace =>
        var p := PrevEditable(word, index - 1);
        s.(answer := s.answer[index := Blank], focus := if p >= 0 then p else s.focus)
      case ArrowLeft =>
        var p := PrevEditable(word, index - 1);
        s.(focus := if p >= 0 then p else s.focus)
      case ArrowRight =>
        var n := NextEditable(word, index + 1);
        s.(focus := if n < |word| then n else s.focus)
      case Enter => Check(word, s)
      case OtherKey => s
  }
}
