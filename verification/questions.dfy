/**
 * One row of the quiz's question table. The Go program stores each row as a
 * map from the five keys questionText, correctAnswer, evaluated,
 * studentAnswer and answeredCorrectly to strings; here it is a record with
 * those five string fields. The flags keep the program's spellings:
 * `evaluated` is "NO" or "YES", `answeredCorrectly` starts as "No" (not
 * "NO") and becomes "YES"; only the exact string "YES" counts as set.
 */
module Questions {

  const EvaluatedYes := "YES"
  const EvaluatedNo := "NO"
  const CorrectYes := "YES"
  /** The initial value of answeredCorrectly, spelled differently from "NO". */
  const CorrectNo := "No"

  datatype Question = Question(
    questionText: string,
    correctAnswer: string,
    evaluated: string,
    studentAnswer: string,
    answeredCorrectly: string)

  predicate IsEvaluated(q: Question) {
    q.evaluated == EvaluatedYes
  }

  predicate IsCorrect(q: Question) {
    q.answeredCorrectly == CorrectYes
  }

  /** The states a record can reach through `add` and `evaluateAnswer`:
      either untouched, or graded with the flag telling whether the stored
      answer is the correct one. */
  predicate WellFormed(q: Question)
    ensures WellFormed(q) && IsCorrect(q) ==> IsEvaluated(q)
  {
    if q.evaluated == EvaluatedNo then
      q.studentAnswer == "" && q.answeredCorrectly == CorrectNo
    else
      && q.evaluated == EvaluatedYes
      && q.answeredCorrectly == if q.studentAnswer == q.correctAnswer then CorrectYes else CorrectNo
  }

  /** The record `add` builds for a question and its answer. */
  function NewQuestion(questionText: string, answer: string): (q: Question)
    ensures q.questionText == questionText && q.correctAnswer == answer
    ensures WellFormed(q) && !IsEvaluated(q) && !IsCorrect(q)
  {
    Question(questionText, answer, EvaluatedNo, "", CorrectNo)
  }

  /** What `evaluateAnswer` does to a record whose `evaluated` is "NO": store
      the answer, mark it evaluated, and set answeredCorrectly to "YES" when
      the answer is exactly the correct one (otherwise leave it as it was). */
  function Grade(q: Question, answer: string): (r: Question)
    ensures r.questionText == q.questionText && r.correctAnswer == q.correctAnswer
    ensures IsEvaluated(r) && r.studentAnswer == answer
    ensures IsCorrect(r) <==> answer == q.correctAnswer || IsCorrect(q)
    ensures WellFormed(q) && !IsEvaluated(q) ==> WellFormed(r) && (IsCorrect(r) <==> answer == q.correctAnswer)
  {
    q.(studentAnswer := answer,
       evaluated := EvaluatedYes,
       answeredCorrectly := if q.correctAnswer == answer then CorrectYes else q.answeredCorrectly)
  }

  /** The number of records whose answeredCorrectly is "YES". */
  function CountCorrect(qs: seq<Question>): (c: nat)
    ensures c <= |qs|
  {
    if qs == [] then 0
    else CountCorrect(qs[..|qs| - 1]) + (if IsCorrect(qs[|qs| - 1]) then 1 else 0)
  }

  /** The positions of the records whose answeredCorrectly is "YES". */
  function CorrectIndices(qs: seq<Question>): set<int> {
    set i | 0 <= i < |qs| && IsCorrect(qs[i])
  }

  /** The count is the number of correctly answered positions. */
  lemma {:induction false} CountCorrectIsCardinality(qs: seq<Question>)
    ensures CountCorrect(qs) == |CorrectIndices(qs)|
  {
    if qs != [] {
      var n := |qs|;
      var init := qs[..n - 1];
      CountCorrectIsCardinality(init);
      if IsCorrect(qs[n - 1]) {
        assert CorrectIndices(qs) == CorrectIndices(init) + {n - 1};
      } else {
        assert CorrectIndices(qs) == CorrectIndices(init);
      }
    }
  }

  /** No record is correct exactly when the count is 0, and every record is
      correct exactly when the count is the table size. */
  lemma {:induction false} CountCorrectExtremes(qs: seq<Question>)
    ensures CountCorrect(qs) == 0 <==> forall i :: 0 <= i < |qs| ==> !IsCorrect(qs[i])
    ensures CountCorrect(qs) == |qs| <==> forall i :: 0 <= i < |qs| ==> IsCorrect(qs[i])
  {
    if qs != [] {
      var n := |qs|;
      var init := qs[..n - 1];
      CountCorrectExtremes(init);
      assert forall i :: 0 <= i < n - 1 ==> qs[i] == init[i];
    }
  }

  /** A table of records nobody has answered yet counts 0. */
  lemma UngradedCountsZero(qs: seq<Question>)
    requires forall i :: 0 <= i < |qs| ==> WellFormed(qs[i]) && !IsEvaluated(qs[i])
    ensures CountCorrect(qs) == 0
  {
    CountCorrectExtremes(qs);
  }

  /** Rearranging a table of records nobody has answered yet leaves such a
      table, which still counts 0. */
  lemma UngradedPermutation(a: seq<Question>, b: seq<Question>)
    requires multiset(a) == multiset(b)
    requires forall i :: 0 <= i < |a| ==> WellFormed(a[i]) && !IsEvaluated(a[i])
    ensures forall i :: 0 <= i < |b| ==> WellFormed(b[i]) && !IsEvaluated(b[i])
    ensures CountCorrect(b) == 0
  {
    forall i | 0 <= i < |b|
      ensures WellFormed(b[i]) && !IsEvaluated(b[i])
    {
      assert b[i] in multiset(a);
    }
    UngradedCountsZero(b);
  }

  /** Counting distributes over concatenation. */
  lemma {:induction false} CountCorrectAppend(a: seq<Question>, b: seq<Question>)
    ensures CountCorrect(a + b) == CountCorrect(a) + CountCorrect(b)
    decreases |b|
  {
    if b == [] {
      assert a + b == a;
    } else {
      assert (a + b)[..|a + b| - 1] == a + b[..|b| - 1];
      CountCorrectAppend(a, b[..|b| - 1]);
    }
  }

  /** Removing one record lowers the count by that record's contribution. */
  lemma CountCorrectRemove(front: seq<Question>, x: Question, back: seq<Question>)
    ensures CountCorrect(front + [x] + back) == CountCorrect(front + back) + (if IsCorrect(x) then 1 else 0)
  {
    CountCorrectAppend(front + [x], back);
    CountCorrectAppend(front, back);
    assert (front + [x])[..|front|] == front;
  }

  /** Taking out the record at `j` lowers the count by that record's
      contribution and removes exactly that record from the multiset. */
  lemma RemoveAt(b: seq<Question>, j: int)
    requires 0 <= j < |b|
    ensures CountCorrect(b) == CountCorrect(b[..j] + b[j + 1..]) + (if IsCorrect(b[j]) then 1 else 0)
    ensures multiset(b[..j] + b[j + 1..]) == multiset(b) - multiset{b[j]}
  {
    SplitAt(b, j);
    CountCorrectRemove(b[..j], b[j], b[j + 1..]);
  }

  /** A sequence is what lies before `j`, the element at `j`, and what
      lies after it. */
  lemma SplitAt<T>(b: seq<T>, j: int)
    requires 0 <= j < |b|
    ensures b == b[..j] + [b[j]] + b[j + 1..]
  {
  }

  /** The count depends only on the multiset of records, not on their order:
      shuffling the table does not change the score. */
  lemma {:induction false} CountCorrectPermutation(a: seq<Question>, b: seq<Question>)
    requires multiset(a) == multiset(b)
    ensures CountCorrect(a) == CountCorrect(b)
    decreases |a|
  {
    assert |a| == |b| by {
      assert |a| == |multiset(a)| == |multiset(b)| == |b|;
    }
    if a != [] {
      var n := |a|;
      var x := a[n - 1];
      assert exists j :: 0 <= j < n && b[j] == x by {
        assert x in multiset(a);
      }
      var j :| 0 <= j < n && b[j] == x;
      RemoveAt(b, j);
      assert multiset(a[..n - 1]) == multiset(a) - multiset{x} by {
        assert a == a[..n - 1] + [x];
      }
      CountCorrectPermutation(a[..n - 1], b[..j] + b[j + 1..]);
    }
  }
}
