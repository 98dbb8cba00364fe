/**
 * What the answer engine guarantees across several steps: how the verdict
 * depends on the cells, that revealing the answer makes it correct, and
 * that typing the word along the auto-advancing focus solves it.
 */
module QuizProperties {
  import opened Text
  import opened QuizEngine

  /** Joining at most adds one character per cell, and a blank cell adds none. */
  lemma {:induction false} JoinLength(cells: seq<Cell>)
    ensures |Join(cells)| <= |cells|
    ensures (exists i :: 0 <= i < |cells| && cells[i] == Blank) ==> |Join(cells)| < |cells|
  {
    if cells != [] {
      JoinLength(cells[1..]);
      if exists i :: 0 <= i < |cells| && cells[i] == Blank {
        var i :| 0 <= i < |cells| && cells[i] == Blank;
        if i > 0 {
          assert cells[1..][i - 1] == Blank;
        }
      }
    }
  }

  /** When every cell is filled, the joined answer spells the cells' characters. */
  lemma {:induction false} JoinFilled(cells: seq<Cell>)
    requires forall i :: 0 <= i < |cells| ==> cells[i].Filled?
    ensures |Join(cells)| == |cells|
    ensures forall i :: 0 <= i < |cells| ==> Join(cells)[i] == cells[i].c
  {
    if cells != [] {
      JoinFilled(cells[1..]);
      forall i | 0 <= i < |cells| ensures Join(cells)[i] == cells[i].c {
        if i > 0 {
          assert Join(cells)[i] == Join(cells[1..])[i - 1];
        }
      }
    }
  }

  /** Splitting a word into cells and joining them back gives the word. */
  lemma JoinSplit(s: string)
    ensures Join(Split(s)) == s
  {
    JoinFilled(Split(s));
  }

  /** Any empty cell makes the check fail, and the answer is then revealed. */
  lemma BlankCellIsWrong(word: string, s: Session, i: nat)
    requires |s.answer| == |word| && i < |word| && s.answer[i] == Blank
    ensures Check(word, s).feedback == Wrong(word)
    ensures Check(word, s).showAnswer && Check(word, s).isAnswered
  {
    JoinLength(s.answer);
    assert |Lower(Join(s.answer))| < |Lower(word)|;
  }

  /**
   * With every cell filled, the check succeeds exactly when each cell
   * agrees with the word at that position, ignoring letter case.
   */
  lemma VerdictByCells(word: string, answer: seq<Cell>)
    requires |answer| == |word|
    requires forall i :: 0 <= i < |answer| ==> answer[i].Filled?
    ensures IsCorrect(word, answer) <==>
      forall i :: 0 <= i < |word| ==> LowerChar(answer[i].c) == LowerChar(word[i])
  {
    JoinFilled(answer);
    if forall i :: 0 <= i < |word| ==> LowerChar(answer[i].c) == LowerChar(word[i]) {
      assert Lower(Join(answer)) == Lower(word);
    }
    if IsCorrect(word, answer) {
      forall i | 0 <= i < |word| ensures LowerChar(answer[i].c) == LowerChar(word[i]) {
        assert Lower(Join(answer))[i] == Lower(word)[i];
      }
    }
  }

  /** A buffer holding the lower-cased word, cell by cell, passes the check. */
  lemma SpelledAnswerIsCorrect(word: string, answer: seq<Cell>)
    requires |answer| == |word|
    requires forall i :: 0 <= i < |word| ==> answer[i] == Filled(LowerChar(word[i]))
    ensures IsCorrect(word, answer)
  {
    forall i | 0 <= i < |word| ensures LowerChar(answer[i].c) == LowerChar(word[i]) {
      LowerCharIdempotent(word[i]);
    }
    VerdictByCells(word, answer);
  }

  /** After "show answer", a check (by Enter) yields Correct. */
  lemma ShowAnswerThenCheck(word: string, s: Session)
    ensures Check(word, ShowAnswer(word, s)).feedback == Correct
  {
    SpelledAnswerIsCorrect(word, ShowAnswer(word, s).answer);
  }

  // ---------------------------------------------------------------------
  // Typing along the focus

  /** The characters of the word at its editable positions `>= from`, in order. */
  function EditableText(word: string, from: nat): string
    decreases |word| - from
  {
    if from >= |word| then ""
    else (if Editable(word, from) then [word[from]] else "") + EditableText(word, from + 1)
  }

  /**
   * The learner types `text` one key at a time into whichever cell has the
   * focus, as the page's auto-advance invites; typing stops when the focus
   * is outside the word.
   */
  function TypeAlong(word: string, s: Session, text: string): (r: Session)
    requires WellFormed(word, s)
    ensures WellFormed(word, r)
    decreases |text|
  {
    if text == [] || s.focus >= |word| then s
    else TypeAlong(word, KeyStep(word, s, [text[0]], s.focus), text[1..])
  }

  /** Locked positions contribute nothing to the editable text. */
  lemma {:induction false} EditableTextSkipsLocked(word: string, a: nat, b: nat)
    requires a <= b <= |word|
    requires forall k :: a <= k < b ==> Locked(word, k)
    ensures EditableText(word, a) == EditableText(word, b)
    decreases b - a
  {
    if a < b {
      EditableTextSkipsLocked(word, a + 1, b);
    }
  }

  /**
   * Typing the remaining editable characters from an editable focus `f`
   * fills each editable cell from `f` on with its lower-case character and
   * leaves the cells before `f` alone.
   */
  lemma {:induction false} TypeRestFills(word: string, s: Session, f: nat)
    requires WellFormed(word, s) && s.focus == f && Editable(word, f)
    requires forall i :: 0 <= i < |word| && Editable(word, i) ==> IsAnswerChar(word[i])
    ensures |TypeAlong(word, s, EditableText(word, f)).answer| == |word|
    ensures forall j :: 0 <= j < f ==>
      TypeAlong(word, s, EditableText(word, f)).answer[j] == s.answer[j]
    ensures forall j :: f <= j < |word| && Editable(word, j) ==>
      TypeAlong(word, s, EditableText(word, f)).answer[j] == Filled(LowerChar(word[j]))
    decreases |word| - f
  {
    var key := [word[f]];
    assert ClassifyKey(key) == Letter(word[f]);
    var s1 := KeyStep(word, s, key, f);
    var n := NextEditable(word, f + 1);
    EditableTextSkipsLocked(word, f + 1, if n < |word| then n else |word|);
    var rest := EditableText(word, n);
    assert EditableText(word, f) == key + rest;
    assert (key + rest)[1..] == rest;
    assert TypeAlong(word, s, key + rest) == TypeAlong(word, s1, rest);
    if n < |word| {
      TypeRestFills(word, s1, n);
    } else {
      assert rest == "";
    }
  }

  /**
   * The round trip of the quiz: after the reset, typing the word's
   * editable characters along the auto-advancing focus and pressing Enter
   * yields Correct, provided each of them is a letter or an apostrophe.
   */
  lemma TypingTheWordSolves(word: string)
    requires forall i :: 0 <= i < |word| && Editable(word, i) ==> IsAnswerChar(word[i])
    ensures Check(word, TypeAlong(word, Reset(word), EditableText(word, 0))).feedback == Correct
  {
    var s0 := Reset(word);
    var text := EditableText(word, 0);
    var r := TypeAlong(word, s0, text);
    if s0.focus < |word| {
      EditableTextSkipsLocked(word, 0, s0.focus);
      TypeRestFills(word, s0, s0.focus);
    } else {
      assert r == s0;
    }
    forall j | 0 <= j < |word| ensures r.answer[j] == Filled(LowerChar(word[j])) {
      if Editable(word, j) {
        assert 1 <= s0.focus <= j;
      } else {
        assert LockedCellsShown(word, r.answer);
      }
    }
    SpelledAnswerIsCorrect(word, r.answer);
  }

  // ---------------------------------------------------------------------
  // The word "a cat?": positions 0, 1 and 5 are locked, 2 to 4 editable

  /** Typing "cat" along the focus from the reset state solves "a cat?". */
  lemma CatTypedCorrectly()
    ensures Reset("a cat?").focus == 2
    ensures Check("a cat?", TypeAlong("a cat?", Reset("a cat?"), "cat")).feedback == Correct
  {
    var w := "a cat?";
    assert Locked(w, 1) && !Locked(w, 2);
    assert EditableText(w, 0) == "cat" by {
      assert EditableText(w, 6) == "";
      assert EditableText(w, 5) == "";
      assert EditableText(w, 4) == "t";
      assert EditableText(w, 3) == "at";
      assert EditableText(w, 2) == "cat";
    }
    TypingTheWordSolves(w);
  }

  /**
   * Typing "cxt" gives Wrong, and the buffer keeps what was typed: a
   * wrong check reveals the word only in the feedback, not in the cells.
   */
  lemma CatTypedWrongly()
    ensures var s := Check("a cat?", TypeAlong("a cat?", Reset("a cat?"), "cxt"));
      s.feedback == Wrong("a cat?") && s.showAnswer &&
      s.answer == [Filled('a'), Filled(' '), Filled('c'), Filled('x'), Filled('t'), Filled('?')]
  {
    var w := "a cat?";
    var s0 := Reset(w);
    assert s0.focus == 2 by {
      assert Locked(w, 1) && !Locked(w, 2);
    }
    assert ClassifyKey("c") == Letter('c') && ClassifyKey("x") == Letter('x') && ClassifyKey("t") == Letter('t');
    var s1 := KeyStep(w, s0, "c", 2);
    assert s1.focus == 3;
    var s2 := KeyStep(w, s1, "x", 3);
    assert s2.focus == 4 by {
      assert !Locked(w, 4);
    }
    var s3 := KeyStep(w, s2, "t", 4);
    assert s3.focus == 4 by {
      assert Locked(w, 5);
    }
    assert "cxt"[1..] == "xt" && "xt"[1..] == "t" && "t"[1..] == "";
    assert TypeAlong(w, s0, "cxt") == s3;
    assert s3.answer == [Filled('a'), Filled(' '), Filled('c'), Filled('x'), Filled('t'), Filled('?')];
    VerdictByCells(w, s3.answer);
    assert LowerChar(s3.answer[3].c) != LowerChar(w[3]);
  }

  /**
   * Keys still edit the buffer after a verdict: the handler has no guard
   * on `isAnswered` (only the buttons disappear).
   */
  lemma KeysStillEditAfterVerdict()
    ensures var s := Check("a cat?", TypeAlong("a cat?", Reset("a cat?"), "cxt"));
      s.isAnswered && KeyStep("a cat?", s, "a", 3).answer[3] == Filled('a') && s.answer[3] == Filled('x')
  {
    CatTypedWrongly();
    var s := Check("a cat?", TypeAlong("a cat?", Reset("a cat?"), "cxt"));
    assert ClassifyKey("a") == Letter('a');
    assert Editable("a cat?", 3);
  }
}
