/** The quiz grading shared by both revisions of the course state machine
    (`gradeQuizQuestions`): an answer is correct when the lower-cased,
    sorted list of chosen answers equals the lower-cased, sorted list of
    correct answers; the grade is the points of the correct questions out
    of the points of all of them, or -1 when the latter is not positive.
    Point values are exact reals. */
module Grading {
  import opened Text

  // ---------------------------------------------------------------------
  // the default order of `Array.prototype.sort` on strings, `CodeUnitLe`

  lemma {:induction false} CodeUnitLeTotal(a: string, b: string)
    ensures CodeUnitLe(a, b) || CodeUnitLe(b, a)
  {
    if |a| > 0 && |b| > 0 && a[0] == b[0] {
      CodeUnitLeTotal(a[1..], b[1..]);
    }
  }

  lemma {:induction false} CodeUnitLeAntisymmetric(a: string, b: string)
    requires CodeUnitLe(a, b) && CodeUnitLe(b, a)
    ensures a == b
  {
    if |a| > 0 && |b| > 0 {
      CodeUnitLeAntisymmetric(a[1..], b[1..]);
      assert a == [a[0]] + a[1..] && b == [b[0]] + b[1..];
    }
  }

  lemma {:induction false} CodeUnitLeReflexive(a: string)
    ensures CodeUnitLe(a, a)
  {
    if |a| > 0 {
      CodeUnitLeReflexive(a[1..]);
    }
  }

  lemma {:induction false} CodeUnitLeTransitive(a: string, b: string, c: string)
    requires CodeUnitLe(a, b) && CodeUnitLe(b, c)
    ensures CodeUnitLe(a, c)
  {
    if |a| > 0 && |b| > 0 && |c| > 0 && a[0] == b[0] && b[0] == c[0] {
      CodeUnitLeTransitive(a[1..], b[1..], c[1..]);
    }
  }

  // ---------------------------------------------------------------------
  // sorting

  /** Each string sorts no later than the next one. */
  predicate Sorted(s: seq<string>)
  {
    forall i :: 0 <= i < |s| - 1 ==> CodeUnitLe(s[i], s[i + 1])
  }

  lemma SortedTail(s: seq<string>)
    requires Sorted(s) && |s| > 0
    ensures Sorted(s[1..])
  {
    forall i | 0 <= i < |s[1..]| - 1
      ensures CodeUnitLe(s[1..][i], s[1..][i + 1])
    {
      assert s[1..][i] == s[i + 1] && s[1..][i + 1] == s[i + 2];
    }
  }

  /** Puts `x` before the first element it sorts no later than. */
  function Insert(x: string, s: seq<string>): (r: seq<string>)
    ensures |r| == |s| + 1
    ensures r[0] == x || (|s| > 0 && r[0] == s[0])
  {
    if |s| == 0 then [x]
    else if CodeUnitLe(x, s[0]) then [x] + s
    else [s[0]] + Insert(x, s[1..])
  }

  /** Insertion sort; for a total order its result is the one `sort`
      gives. */
  function Sort(s: seq<string>): (r: seq<string>)
    ensures |r| == |s|
  {
    if |s| == 0 then [] else Insert(s[0], Sort(s[1..]))
  }

  lemma {:induction false} InsertPermutes(x: string, s: seq<string>)
    ensures multiset(Insert(x, s)) == multiset(s) + multiset{x}
  {
    if |s| > 0 && !CodeUnitLe(x, s[0]) {
      InsertPermutes(x, s[1..]);
      assert s == [s[0]] + s[1..];
    }
  }

  lemma {:induction false} InsertSorted(x: string, s: seq<string>)
    requires Sorted(s)
    ensures Sorted(Insert(x, s))
  {
    if |s| > 0 && !CodeUnitLe(x, s[0]) {
      CodeUnitLeTotal(x, s[0]);
      SortedTail(s);
      InsertSorted(x, s[1..]);
      var t := Insert(x, s[1..]);
      assert CodeUnitLe(s[0], t[0]);
      assert Insert(x, s) == [s[0]] + t;
    }
  }

  /** `Sort` returns the same strings, in order. */
  lemma {:induction false} SortSpec(s: seq<string>)
    ensures Sorted(Sort(s))
    ensures multiset(Sort(s)) == multiset(s)
  {
    if |s| > 0 {
      SortSpec(s[1..]);
      InsertSorted(s[0], Sort(s[1..]));
      InsertPermutes(s[0], Sort(s[1..]));
      assert s == [s[0]] + s[1..];
    }
  }

  lemma {:induction false} SortedBelowAll(s: seq<string>, j: nat)
    requires Sorted(s) && j < |s|
    ensures CodeUnitLe(s[0], s[j])
  {
    if j == 0 {
      CodeUnitLeReflexive(s[0]);
    } else {
      SortedBelowAll(s, j - 1);
      assert CodeUnitLe(s[j - 1], s[j]);
      CodeUnitLeTransitive(s[0], s[j - 1], s[j]);
    }
  }

  /** Sorted lists holding the same strings start with the same one. */
  lemma SameHead(a: seq<string>, b: seq<string>)
    requires Sorted(a) && Sorted(b) && |a| > 0 && |b| > 0
    requires multiset(a) == multiset(b)
    ensures a[0] == b[0]
  {
    assert a[0] in multiset(b);
    var j :| 0 <= j < |b| && b[j] == a[0];
    assert b[0] in multiset(a);
    var i :| 0 <= i < |a| && a[i] == b[0];
    SortedBelowAll(a, i);
    SortedBelowAll(b, j);
    CodeUnitLeAntisymmetric(a[0], b[0]);
  }

  lemma TailMultiset(a: seq<string>)
    requires |a| > 0
    ensures multiset(a[1..]) == multiset(a) - multiset{a[0]}
  {
    assert a == [a[0]] + a[1..];
  }

  /** Two sorted lists holding the same strings are equal: the sorted
      arrangement is unique. */
  lemma {:induction false} SortedUnique(a: seq<string>, b: seq<string>)
    requires Sorted(a) && Sorted(b)
    requires multiset(a) == multiset(b)
    ensures a == b
  {
    if |a| == 0 || |b| == 0 {
      assert |a| == |multiset(a)| && |b| == |multiset(b)|;
    } else {
      SameHead(a, b);
      TailMultiset(a);
      TailMultiset(b);
      SortedTail(a);
      SortedTail(b);
      SortedUnique(a[1..], b[1..]);
      assert a == [a[0]] + a[1..] && b == [b[0]] + b[1..];
    }
  }

  // ---------------------------------------------------------------------
  // one question

  datatype Question = Question(
    id: nat,                     // index into the responses
    correctAnswers: seq<string>, // a missing list reads as []
    pointValue: real)

  /** `responses[q.id] || []`: a question with no response chose nothing. */
  function Choices(q: Question, responses: seq<seq<string>>): seq<string>
  {
    if q.id < |responses| then responses[q.id] else []
  }

  function LowerAll(arr: seq<string>): (r: seq<string>)
    ensures |r| == |arr|
    ensures forall i :: 0 <= i < |arr| ==> r[i] == Lower(arr[i])
  {
    if |arr| == 0 then [] else [Lower(arr[0])] + LowerAll(arr[1..])
  }

  /** `sortAndLower`. */
  function SortAndLower(arr: seq<string>): seq<string>
  {
    Sort(LowerAll(arr))
  }

  /** `isCorrect`: same length and equal position by position. */
  predicate IsCorrect(q: Question, choices: seq<string>)
  {
    var a := SortAndLower(q.correctAnswers);
    var r := SortAndLower(choices);
    |a| == |r| && forall i :: 0 <= i < |a| ==> a[i] == r[i]
  }

  /** The position-by-position comparison is list equality. */
  lemma CorrectIffEqualLists(q: Question, choices: seq<string>)
    ensures IsCorrect(q, choices) <==> SortAndLower(q.correctAnswers) == SortAndLower(choices)
  {
  }

  /** Sorted lists are equal exactly when they hold the same strings. */
  lemma SortEqualIffSameMultiset(a: seq<string>, b: seq<string>)
    ensures Sort(a) == Sort(b) <==> multiset(a) == multiset(b)
  {
    SortSpec(a);
    SortSpec(b);
    if multiset(a) == multiset(b) {
      SortedUnique(Sort(a), Sort(b));
    }
  }

  /** A question is answered correctly exactly when the chosen answers,
      lower-cased, are the correct answers, lower-cased, counted with
      multiplicity and in any order. */
  lemma CorrectIffSameAnswers(q: Question, choices: seq<string>)
    ensures IsCorrect(q, choices) <==> multiset(LowerAll(q.correctAnswers)) == multiset(LowerAll(choices))
  {
    CorrectIffEqualLists(q, choices);
    SortEqualIffSameMultiset(LowerAll(q.correctAnswers), LowerAll(choices));
  }

  // ---------------------------------------------------------------------
  // the quiz

  /** `score`: the points of the correctly answered questions. */
  function Earned(qs: seq<Question>, responses: seq<seq<string>>): real
  {
    if |qs| == 0 then 0.0
    else (if IsCorrect(qs[0], Choices(qs[0], responses)) then qs[0].pointValue else 0.0)
         + Earned(qs[1..], responses)
  }

  /** `maxScore`: the points of all questions. */
  function Possible(qs: seq<Question>): real
  {
    if |qs| == 0 then 0.0 else qs[0].pointValue + Possible(qs[1..])
  }

  /** The object `{score, maxScore}`, or the number -1. */
  datatype Grade = Graded(score: real, maxScore: real) | MaxScoreTooLow

  /** `gradeQuizQuestions(questions, responses)`. */
  function GradeQuiz(qs: seq<Question>, responses: seq<seq<string>>): (g: Grade)
    ensures g.MaxScoreTooLow? <==> Possible(qs) <= 0.0
    ensures g.Graded? ==> g.maxScore > 0.0
  {
    var score := Earned(qs, responses);
    var maxScore := Possible(qs);
    if maxScore <= 0.0 then MaxScoreTooLow else Graded(score, maxScore)
  }

  predicate NonNegativePoints(qs: seq<Question>)
  {
    forall i :: 0 <= i < |qs| ==> qs[i].pointValue >= 0.0
  }

  /** With non-negative point values the score lies between 0 and the
      maximum, and reaches the maximum when every question is correct. */
  lemma {:induction false} EarnedBounds(qs: seq<Question>, responses: seq<seq<string>>)
    requires NonNegativePoints(qs)
    ensures 0.0 <= Earned(qs, responses) <= Possible(qs)
    ensures (forall i :: 0 <= i < |qs| ==> IsCorrect(qs[i], Choices(qs[i], responses)))
            ==> Earned(qs, responses) == Possible(qs)
  {
    if |qs| > 0 {
      EarnedBounds(qs[1..], responses);
      if forall i :: 0 <= i < |qs| ==> IsCorrect(qs[i], Choices(qs[i], responses)) {
        assert forall i :: 0 <= i < |qs[1..]| ==> qs[1..][i] == qs[i + 1];
      }
    }
  }

  /** A quiz with no correct answer earns nothing. */
  lemma {:induction false} NothingCorrect(qs: seq<Question>, responses: seq<seq<string>>)
    requires forall i :: 0 <= i < |qs| ==> !IsCorrect(qs[i], Choices(qs[i], responses))
    ensures Earned(qs, responses) == 0.0
  {
    if |qs| > 0 {
      assert forall i :: 0 <= i < |qs[1..]| ==> qs[1..][i] == qs[i + 1];
      NothingCorrect(qs[1..], responses);
    }
  }

  /** The grade depends on the responses only through each question's
      multiset of lower-cased choices. */
  lemma {:induction false} GradeIgnoresOrderAndCase(qs: seq<Question>, r1: seq<seq<string>>, r2: seq<seq<string>>)
    requires forall i :: 0 <= i < |qs| ==>
               multiset(LowerAll(Choices(qs[i], r1))) == multiset(LowerAll(Choices(qs[i], r2)))
    ensures GradeQuiz(qs, r1) == GradeQuiz(qs, r2)
  {
    EarnedIgnoresOrderAndCase(qs, r1, r2);
  }

  lemma {:induction false} EarnedIgnoresOrderAndCase(qs: seq<Question>, r1: seq<seq<string>>, r2: seq<seq<string>>)
    requires forall i :: 0 <= i < |qs| ==>
               multiset(LowerAll(Choices(qs[i], r1))) == multiset(LowerAll(Choices(qs[i], r2)))
    ensures Earned(qs, r1) == Earned(qs, r2)
  {
    if |qs| > 0 {
      CorrectIffSameAnswers(qs[0], Choices(qs[0], r1));
      CorrectIffSameAnswers(qs[0], Choices(qs[0], r2));
      assert forall i :: 0 <= i < |qs[1..]| ==> qs[1..][i] == qs[i + 1];
      EarnedIgnoresOrderAndCase(qs[1..], r1, r2);
    }
  }

  // ---------------------------------------------------------------------
  // the two worked examples

  const TwoAnswers: Question := Question(0, ["a", "b"], 1.0)

  lemma LowerLetters()
    ensures LowerAll(["B", "A"]) == ["b", "a"]
    ensures LowerAll(["a", "b"]) == ["a", "b"]
    ensures LowerAll(["A"]) == ["a"]
  {
    assert Lower("B") == "b" && Lower("A") == "a";
    assert Lower("a") == "a" && Lower("b") == "b";
  }

  lemma ReversedUpperCaseIsCorrect()
    ensures IsCorrect(TwoAnswers, ["B", "A"])
  {
    LowerLetters();
    assert multiset(["b", "a"]) == multiset(["a", "b"]);
    CorrectIffSameAnswers(TwoAnswers, ["B", "A"]);
  }

  lemma PartialAnswerIsWrong()
    ensures !IsCorrect(TwoAnswers, ["A"])
  {
    LowerLetters();
    assert |multiset(["a"])| == 1 && |multiset(["a", "b"])| == 2;
    CorrectIffSameAnswers(TwoAnswers, ["A"]);
  }

  /** Answering "B" and "A" to a question whose answers are "a" and "b"
      earns full credit. */
  lemma ReversedUpperCaseEarnsFullCredit()
    ensures GradeQuiz([TwoAnswers], [["B", "A"]]) == Graded(1.0, 1.0)
  {
    var qs := [TwoAnswers];
    ReversedUpperCaseIsCorrect();
    assert Choices(TwoAnswers, [["B", "A"]]) == ["B", "A"];
    assert qs[1..] == [];
    assert Possible(qs) == 1.0;
    assert Earned(qs, [["B", "A"]]) == 1.0;
  }

  /** Answering only "A" to the same question earns nothing. */
  lemma PartialAnswerEarnsNothing()
    ensures GradeQuiz([TwoAnswers], [["A"]]) == Graded(0.0, 1.0)
  {
    var qs := [TwoAnswers];
    PartialAnswerIsWrong();
    assert Choices(TwoAnswers, [["A"]]) == ["A"];
    assert qs[1..] == [];
    assert Possible(qs) == 1.0;
    assert Earned(qs, [["A"]]) == 0.0;
  }
}
