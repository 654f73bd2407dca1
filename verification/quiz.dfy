/**
 * The question table of the quiz (type Exam in ex1-quiz-game/main.go) and
 * the two routines that drive it: building the shuffled table from the CSV
 * records, and the loop that grades one answer line per question.
 *
 * Go's panics end the process; here each one is an Outcome the operation
 * returns, and the state it leaves is stated too.
 */
module Quiz {
  import opened Strings
  import opened Swaps
  import opened Questions

  /** The conditions under which the program panics. */
  datatype Panic =
    | IndexOutOfRange   // a slice index outside the table, or a first CSV record with fewer than two fields
    | RecordMismatch    // the CSV reader's error for a record whose field count differs from the first's
    | AlreadyEvaluated  // evaluateAnswer on a record whose evaluated is not "NO"
    | ReadFailed        // the answer input ended before the next line

  datatype Outcome = Completed | Panicked(reason: Panic)

  /** The float64 totalScore returns: a percentage, or NaN (0.0 / 0.0) when
      the table is empty. */
  datatype Score = Percent(value: real) | NaN

  class Exam {
    var questions: seq<Question>

    /** Every record is in a state `add` and `evaluateAnswer` can produce. */
    ghost predicate Valid()
      reads this
    {
      forall i :: 0 <= i < |questions| ==> WellFormed(questions[i])
    }

    /** new(Exam): an empty table. */
    constructor ()
      ensures questions == [] && Valid()
    {
      questions := [];
    }

    /** Appends one fresh record: not evaluated, no answer, not correct. */
    method Add(questionText: string, answer: string)
      modifies this
      ensures questions == old(questions) + [NewQuestion(questionText, answer)]
      ensures var q := questions[|questions| - 1];
        && q.questionText == questionText && q.correctAnswer == answer
        && q.evaluated == EvaluatedNo && q.studentAnswer == "" && q.answeredCorrectly == CorrectNo
      ensures old(Valid()) ==> Valid()
    {
      questions := questions + [NewQuestion(questionText, answer)];
    }

    /** Grades record `index` with `answer`, once: a record already evaluated,
        or an index outside the table, is a panic that changes nothing. */
    method EvaluateAnswer(index: int, answer: string) returns (outcome: Outcome)
      modifies this
      ensures !(0 <= index < |old(questions)|) ==>
        outcome == Panicked(IndexOutOfRange) && questions == old(questions)
      ensures 0 <= index < |old(questions)| && old(questions)[index].evaluated != EvaluatedNo ==>
        outcome == Panicked(AlreadyEvaluated) && questions == old(questions)
      ensures 0 <= index < |old(questions)| && old(questions)[index].evaluated == EvaluatedNo ==>
        outcome == Completed && questions == old(questions)[index := Grade(old(questions)[index], answer)]
      ensures old(Valid()) ==> Valid()
    {
      if !(0 <= index < |questions|) {
        return Panicked(IndexOutOfRange);
      }
      if questions[index].evaluated == EvaluatedNo {
        questions := questions[index := Grade(questions[index], answer)];
        outcome := Completed;
      } else {
        outcome := Panicked(AlreadyEvaluated);
      }
    }

    /** 100 * (records answered correctly) / (all records). */
    method TotalScore() returns (score: Score)
      ensures score == NaN <==> |questions| == 0
      ensures score.Percent? ==>
        score.value == 100.0 * (CountCorrect(questions) as real) / (|questions| as real)
      ensures score.Percent? ==> 0.0 <= score.value <= 100.0
    {
      var correctCount := 0;
      for i := 0 to |questions|
        invariant correctCount == CountCorrect(questions[..i])
      {
        assert questions[..i + 1][..i] == questions[..i];
        if questions[i].answeredCorrectly == CorrectYes {
          correctCount := correctCount + 1;
        }
      }
      assert questions[..|questions|] == questions;
      if |questions| == 0 {
        score := NaN;
      } else {
        PercentBounds(correctCount, |questions|);
        score := Percent(100.0 * (correctCount as real) / (|questions| as real));
      }
    }

    /** The callback the shuffle passes to rand.Shuffle: exchange two records. */
    method Swap(i: int, j: int)
      requires 0 <= i < |questions| && 0 <= j < |questions|
      modifies this
      ensures questions == Swapped(old(questions), i, j)
      ensures old(Valid()) ==> Valid()
    {
      questions := questions[i := questions[j]][j := questions[i]];
    }

    /** rand.Shuffle over the table, with the index pairs it would pass to
        the callback given as `swaps`. */
    method Shuffle(swaps: seq<(int, int)>)
      requires InRange(|questions|, swaps)
      modifies this
      ensures questions == ApplySwaps(old(questions), swaps)
      ensures |questions| == |old(questions)| && multiset(questions) == multiset(old(questions))
      ensures old(Valid()) ==> Valid()
    {
      for k := 0 to |swaps|
        invariant questions == ApplySwaps(old(questions), swaps[..k])
        invariant old(Valid()) ==> Valid()
      {
        assert swaps[..k + 1][..k] == swaps[..k];
        Swap(swaps[k].0, swaps[k].1);
      }
      assert swaps[..|swaps|] == swaps;
    }
  }

  /** A share of at most the whole is a percentage between 0 and 100. */
  lemma PercentBounds(c: nat, n: nat)
    requires c <= n && n > 0
    ensures 0.0 <= 100.0 * (c as real) / (n as real) <= 100.0
  {
    var x, y := c as real, n as real;
    var v := 100.0 * x / y;
    assert v * y == 100.0 * x;
  }

  /** The table the CSV records describe, before shuffling: one fresh record
      per row, from its first two fields with white space trimmed. */
  function Loaded(records: seq<seq<string>>): seq<Question>
    requires forall r :: 0 <= r < |records| ==> |records[r]| >= 2
  {
    seq(|records|, i requires 0 <= i < |records| =>
      NewQuestion(TrimSpace(records[i][0]), TrimSpace(records[i][1])))
  }

  /** Loading one more record appends its fresh record. */
  lemma LoadedNext(records: seq<seq<string>>, r: nat)
    requires r < |records| && forall k :: 0 <= k <= r ==> |records[k]| >= 2
    ensures Loaded(records[..r + 1]) ==
      Loaded(records[..r]) + [NewQuestion(TrimSpace(records[r][0]), TrimSpace(records[r][1]))]
  {
    assert forall k :: 0 <= k < r ==> records[..r + 1][k] == records[..r][k];
  }

  /** The rows csv.Reader returns without error: with FieldsPerRecord left at
      0 the first record fixes the field count, and every later record must
      have the same count. */
  predicate SameFieldCount(records: seq<seq<string>>) {
    forall r :: 0 <= r < |records| ==> |records[r]| == |records[0]|
  }

  /** createExamObject without opening the file: `records` are the rows of
      the CSV file as the reader splits them, before it checks their field
      counts, and `swaps` the pairs rand.Shuffle passes. A first row with
      fewer than two fields is an index panic at `line[1]`; a later row whose
      field count differs from the first's is the reader's error, on which
      the program panics. */
  method CreateExamObject(records: seq<seq<string>>, swaps: seq<(int, int)>) returns (outcome: Outcome, exam: Exam)
    requires InRange(|records|, swaps)
    ensures fresh(exam) && exam.Valid()
    ensures outcome == Completed <==>
      (|records| == 0 || |records[0]| >= 2) && SameFieldCount(records)
    ensures outcome == Panicked(IndexOutOfRange) <==> |records| > 0 && |records[0]| < 2
    ensures outcome == Panicked(RecordMismatch) <==>
      |records| > 0 && |records[0]| >= 2 && !SameFieldCount(records)
    ensures outcome == Completed ==>
      && exam.questions == ApplySwaps(Loaded(records), swaps)
      && multiset(exam.questions) == multiset(Loaded(records))
      && CountCorrect(exam.questions) == 0
    ensures forall i :: 0 <= i < |exam.questions| ==> !IsEvaluated(exam.questions[i])
  {
    exam := new Exam();
    for r := 0 to |records|
      invariant fresh(exam) && exam.Valid()
      invariant r > 0 ==> |records[0]| >= 2
      invariant forall k :: 0 <= k < r ==> |records[k]| == |records[0]|
      invariant exam.questions == Loaded(records[..r])
      invariant forall i :: 0 <= i < |exam.questions| ==> !IsEvaluated(exam.questions[i])
    {
      if r > 0 && |records[r]| != |records[0]| {
        outcome := Panicked(RecordMismatch);
        return;
      }
      if |records[r]| < 2 {
        outcome := Panicked(IndexOutOfRange);
        return;
      }
      LoadedNext(records, r);
      exam.Add(TrimSpace(records[r][0]), TrimSpace(records[r][1]));
    }
    assert records[..|records|] == records;
    ghost var loaded := exam.questions;
    exam.Shuffle(swaps);
    UngradedPermutation(loaded, exam.questions);
    outcome := Completed;
  }

  /** startExam's grading loop: question `index` is graded with the trimmed
      line `input[index]`, in table order. `graded` is the number of
      questions graded before the loop completed or panicked. Each element of
      `input` is one line as ReadString returns it, with or without its line
      break. */
  method StartExam(exam: Exam, input: seq<string>) returns (outcome: Outcome, ghost graded: nat)
    modifies exam
    ensures |exam.questions| == |old(exam.questions)|
    ensures graded <= |exam.questions| && graded <= |input|
    ensures forall i :: 0 <= i < graded ==>
      && old(exam.questions)[i].evaluated == EvaluatedNo
      && exam.questions[i] == Grade(old(exam.questions)[i], TrimSpace(input[i]))
    ensures forall i :: graded <= i < |exam.questions| ==> exam.questions[i] == old(exam.questions)[i]
    ensures outcome == Completed <==> graded == |exam.questions|
    ensures outcome == Panicked(ReadFailed) ==> graded == |input| < |exam.questions|
    ensures outcome == Panicked(AlreadyEvaluated) ==>
      graded < |input| && old(exam.questions)[graded].evaluated != EvaluatedNo
    ensures outcome in {Completed, Panicked(ReadFailed), Panicked(AlreadyEvaluated)}
    ensures old(exam.Valid()) ==> exam.Valid()
    // From an untouched table with a line for every question: no panic and
    // everything evaluated; if the table was also well formed, each record is
    // correct exactly when its trimmed line is its correct answer.
    ensures
      && (forall i :: 0 <= i < |old(exam.questions)| ==> old(exam.questions)[i].evaluated == EvaluatedNo)
      && |input| >= |old(exam.questions)|
      ==>
      && outcome == Completed
      && forall i :: 0 <= i < |exam.questions| ==> IsEvaluated(exam.questions[i])
    ensures old(exam.Valid()) && outcome == Completed ==>
      forall i :: 0 <= i < |exam.questions| ==>
        (IsCorrect(exam.questions[i]) <==> TrimSpace(input[i]) == exam.questions[i].correctAnswer)
  {
    var n := |exam.questions|;
    for index := 0 to n
      invariant |exam.questions| == n
      invariant index <= |input|
      invariant forall i :: 0 <= i < index ==>
        && old(exam.questions)[i].evaluated == EvaluatedNo
        && exam.questions[i] == Grade(old(exam.questions)[i], TrimSpace(input[i]))
      invariant forall i :: index <= i < n ==> exam.questions[i] == old(exam.questions)[i]
      invariant old(exam.Valid()) ==> exam.Valid()
    {
      if index >= |input| {
        outcome, graded := Panicked(ReadFailed), index;
        return;
      }
      var o := exam.EvaluateAnswer(index, TrimSpace(input[index]));
      if o != Completed {
        outcome, graded := o, index;
        return;
      }
    }
    GradedInOrder(old(exam.questions), exam.questions, input);
    outcome, graded := Completed, n;
  }

  /** A table whose records were all untouched and were then graded, each
      with the trimmed line at its position, is fully evaluated; if it was
      well formed, each record is correct exactly when its trimmed line is
      its correct answer. */
  lemma GradedInOrder(before: seq<Question>, after: seq<Question>, input: seq<string>)
    requires |after| == |before| <= |input|
    requires forall i :: 0 <= i < |before| ==>
      && before[i].evaluated == EvaluatedNo
      && after[i] == Grade(before[i], TrimSpace(input[i]))
    ensures forall i :: 0 <= i < |after| ==> IsEvaluated(after[i])
    ensures (forall i :: 0 <= i < |before| ==> WellFormed(before[i])) ==>
      forall i :: 0 <= i < |after| ==> (IsCorrect(after[i]) <==> TrimSpace(input[i]) == after[i].correctAnswer)
  {
  }

  /** Grading the same record twice panics the second time, whatever either
      answer is. */
  method GradeTwice(questionText: string, correctAnswer: string, first: string, second: string)
    returns (firstOutcome: Outcome, secondOutcome: Outcome)
    ensures firstOutcome == Completed && secondOutcome == Panicked(AlreadyEvaluated)
  {
    var exam := new Exam();
    exam.Add(questionText, correctAnswer);
    firstOutcome := exam.EvaluateAnswer(0, first);
    secondOutcome := exam.EvaluateAnswer(0, second);
  }

  /** The white space around an answer line goes: " Paris " followed by a
      line break trims to "Paris". */
  lemma PaddedLineTrims()
    ensures TrimSpace(" Paris \n") == "Paris"
  {
    assert " Paris \n" == " " + "Paris" + " \n";
    TrimSpaceOfPadded(" ", "Paris", " \n");
  }

  /** The answer line is trimmed before grading, and the comparison is exact:
      " Paris " followed by a line break grades correct against "Paris",
      "paris" does not. */
  lemma PaddedAnswerGrading()
    ensures IsCorrect(Grade(NewQuestion("Capital of France?", "Paris"), TrimSpace(" Paris \n")))
    ensures !IsCorrect(Grade(NewQuestion("Capital of France?", "Paris"), TrimSpace("paris")))
  {
    PaddedLineTrims();
  }
}
