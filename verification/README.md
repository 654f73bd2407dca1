# Quiz game question table, modelled in Dafny

The quiz game (ex1-quiz-game/main.go) loads question/answer pairs from a CSV
file into an `Exam`. An `Exam` is a table of question records, one per pair.
The loader trims white space from both fields and then shuffles the table with
`rand.Shuffle`. The answer loop then reads one line per question, trims it,
and grades the question with it. Each record can be graded once, and a second
attempt panics. The report's score is the share of records whose
`answeredCorrectly` flag is `"YES"`, as a percentage.

The project has four modules:

- `Strings` (strings.dfy): `strings.TrimSpace` over `unicode.IsSpace`. It
  finds the first non-space character, then the end of the text after it.
- `Swaps` (swaps.dfy): the shuffle as a sequence of index swaps. Each pair is
  one call of the swap callback that `rand.Shuffle` makes.
- `Questions` (questions.dfy): the question record, one grading step, and the
  count of correctly answered records.
- `Quiz` (quiz.dfy): class `Exam`, whose methods update its `questions` field
  in place. It also holds `createExamObject` and the grading loop of
  `startExam`.

Go's panics are modelled as an `Outcome` that the operation returns, next to
the state it leaves. The shuffle's random pairs and the answer lines are
parameters.

Points of main.go's behaviour the model keeps:

- the flags are strings. `evaluated` is `"NO"` or `"YES"`.
  `answeredCorrectly` starts as `"No"` and becomes `"YES"` only on an exact
  match; otherwise it keeps its value;
- an empty question file is accepted, and the score of an empty table is
  NaN (0.0 / 0.0);
- the answer is trimmed by the grading loop before `evaluateAnswer` sees it;
  `evaluateAnswer` itself compares and stores the string it is given;
- the CSV reader takes its field count from the first record and rejects a
  later record with a different count, and the program panics on that
  error (lines 79-81). A first record with fewer than two fields passes
  the reader and panics at `line[1]` (line 83).

## Model

| member | source | states |
|---|---|---|
| Strings.TrimSpace | ex1-quiz-game/main.go:104 | the result begins and ends with a non-space character (or is empty), and is the slice of the input between a white-space prefix and a white-space suffix |
| Strings.TrimSpaceOfPadded | ex1-quiz-game/main.go:83 | for any white-space prefix, trimmed middle and white-space suffix, TrimSpace returns exactly the middle, so TrimSpace is fully determined by its contract |
| Strings.TrimSpaceIdempotent | ex1-quiz-game/main.go:104 | trimming an already trimmed field or answer changes nothing |
| Swaps.Swapped | ex1-quiz-game/main.go:88 | the swap callback exchanges the two records, leaves every other position alone, and keeps length and multiset |
| Swaps.ApplySwaps | ex1-quiz-game/main.go:87-89 | any sequence of in-range swaps preserves the length and the multiset of the table |
| Swaps.EveryPermutationReachable | ex1-quiz-game/main.go:87-89 | for every rearrangement of the table there are index pairs in the order rand.Shuffle draws them, (n-1, j) down to (1, j'') with each j at most its i, whose swaps produce it |
| Questions.WellFormed | ex1-quiz-game/main.go:22-34 | in every state that add and evaluateAnswer can produce, a record whose answeredCorrectly is "YES" has evaluated "YES" |
| Questions.NewQuestion | ex1-quiz-game/main.go:19-24 | a new record keeps its text and answer, is not evaluated, has no student answer and is not correct |
| Questions.Grade | ex1-quiz-game/main.go:29-34 | grading keeps text and answer, stores the student answer and sets evaluated to "YES"; it is correct iff the answer equals the correct answer or was correct before; from an ungraded record it is correct iff the answer matches |
| Questions.CountCorrect | ex1-quiz-game/main.go:55-60 | the correct-count is never more than the number of records |
| Questions.CountCorrectIsCardinality | ex1-quiz-game/main.go:55-60 | the count equals the number of positions whose answeredCorrectly is "YES" |
| Questions.CountCorrectExtremes | ex1-quiz-game/main.go:55-60 | the count is 0 iff no record is correct, and equals the table size iff every record is |
| Questions.UngradedCountsZero | ex1-quiz-game/main.go:22-24 | a table of freshly added records counts 0 |
| Questions.UngradedPermutation | ex1-quiz-game/main.go:87-89 | shuffling a table of fresh records leaves only fresh records, so the count is still 0 |
| Questions.CountCorrectPermutation | ex1-quiz-game/main.go:87-89 | the count depends only on the multiset of records, so no shuffle changes the score |
| Quiz.Exam.constructor | ex1-quiz-game/main.go:65 | new(Exam) has an empty table, which is well formed |
| Quiz.Exam.Add | ex1-quiz-game/main.go:18-26 | the table grows by exactly one fresh record at the end, earlier records are unchanged, and well-formedness is kept |
| Quiz.Exam.EvaluateAnswer | ex1-quiz-game/main.go:28-38 | an index outside the table panics; a record already evaluated panics (second attempt) and nothing changes; otherwise only that record is replaced by its graded form; well-formedness is kept |
| Quiz.Exam.TotalScore | ex1-quiz-game/main.go:54-62 | NaN exactly when the table is empty, otherwise 100 times the correct-count over the table size, between 0 and 100 |
| Quiz.Exam.Swap | ex1-quiz-game/main.go:88 | the table after the callback is the table with the two records exchanged |
| Quiz.Exam.Shuffle | ex1-quiz-game/main.go:87-89 | the table after rand.Shuffle is the table with the given swaps applied: same length, same multiset, still well formed |
| Quiz.LoadedNext | ex1-quiz-game/main.go:74-84 | loading one more CSV row appends the fresh record built from its two trimmed fields |
| Quiz.CreateExamObject | ex1-quiz-game/main.go:64-91 | it completes iff the first row has at least two fields and every row has as many fields as the first; a short first row is an index panic and a row with a different field count is the reader's error panic; on completion the table is the loaded records with the swaps applied, a rearrangement of them, all unevaluated, and counts 0 |
| Quiz.StartExam | ex1-quiz-game/main.go:93-105 | record i is graded with the trimmed i-th line, in order, and the rest are untouched; it stops at a missing line (read panic) or an already evaluated record; it ends only as completed, with a read panic or with an already-evaluated panic; from an untouched table with enough lines it completes with every record evaluated, and from a well-formed untouched table each record is then correct iff its trimmed line is its answer |
| Quiz.GradedInOrder | ex1-quiz-game/main.go:95-105 | a table whose untouched records were all graded in order is fully evaluated, and (if it was well formed) each record is correct exactly when its trimmed line is its correct answer |
| Quiz.GradeTwice | ex1-quiz-game/main.go:28-37 | grading the same record twice succeeds once and panics the second time, whatever the answers |
| Quiz.PaddedLineTrims | ex1-quiz-game/main.go:100-104 | the answer line " Paris " followed by its line break trims to "Paris" |
| Quiz.PaddedAnswerGrading | ex1-quiz-game/main.go:104 | that padded line grades correct against "Paris", and "paris" grades incorrect: the comparison is exact and case-sensitive |

## Left out

- The timer goroutine, the channel and the main loop (lines 109-132) are left out: they are concurrency and wall-clock time. So is the "DONE" message that startExam sends (line 106). The model does not capture the race between the timer and the answer loop.
- showReport and the prompts that startExam prints are output only.
- Opening problems.csv and the CSV reader's parsing (quoting, delimiters, I/O errors) are left out (lines 67-82). The rows as the reader splits them are a parameter. The reader's field-count check and the panic on it are modelled, and so is a first row with fewer than two fields.
- bufio's ReadString is modelled as a sequence of complete lines. A final line with no line break is a read error in Go, but here it counts as a line.
- Quiz.Exam.TotalScore: the score is an exact real, not a float64 with its rounding.
- math/rand is left out: the index pairs that rand.Shuffle passes to the swap callback are a parameter. Swaps.EveryPermutationReachable shows that every order can be produced, but the model does not state that the orders are uniformly distributed.
- Strings.TrimSpace works on characters, not on UTF-8 bytes, so invalid UTF-8 input is not modelled.
- A panic ends the Go process. Here the operation returns a `Panicked` outcome and the state it reached, and the caller is expected to stop.
- Go stores each record as a map, which is a reference. Every `add` creates a new map and the shuffle only permutes the slice, so no two slots share a map. Modelling the records as values therefore loses no aliasing.
