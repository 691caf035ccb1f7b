# Grade book

A model of a small console grade book, written in C++ (`gradebook.cpp`), with proofs about it.

## What the grade book does

The program reads a text file of student records into parallel arrays. Each record is a name followed by `NUM_TESTS` (5) integer scores, and the arrays hold at most `MAX_STUDENTS` (100) students. From the arrays the program:
- averages each student's scores;
- grades each average on the 90/80/70/60 scale;
- prints a report with three left-justified columns (20, 10 and 8 characters wide), with each average in fixed notation with two decimals.

A file that cannot be opened ends the program with status 1.

## How the model is built

The model follows the program's four functions and `main`, one module each:

| module | file | what it holds |
|---|---|---|
| `GradeBook` | `gradebook.dfy` | the two constants, the input token, the stored record, the result row, and the rows of the score table |
| `Loader` | `loader.dfy` | `readStudentData` |
| `Aggregator` | `aggregator.dfy` | `calculateAverages` |
| `Grader` | `grader.dfy` | `getLetterGrade` |
| `Reporter` | `reporter.dfy` | `printReport` |
| `Pipeline` | `pipeline.dfy` | `main` |

**Input.** The file is given as a parameter: `None` when it cannot be opened, otherwise its whitespace-separated tokens. A token either is an integer (`Num`: its text and its value) or is not (`Word`). Reading a name accepts any token. Reading a score succeeds only on a `Num`. On a `Word` it fails and stores 0, as C++11 extraction does; at the end of the input it fails and stores nothing.

**State.** The program's arrays stay arrays:
- `names` is an `array<string>`;
- `scores` is an `array2<int>` with `NUM_TESTS` columns;
- `averages` and `letterGrades` are arrays of `real` and `char`.

The methods that fill them work in place, like the source, and are proved against specification functions on values:
- `Load(tokens)` is the records loading keeps.
- `NamesAfter` and `ScoresAfter` are the full array contents after reading, including the slot of a dropped incomplete record.
- `Average` is a student's average.
- `LetterGrade` is the letter grade.
- `ReportLines` is the printed lines.
- `GradeBookRun(file)` is the exit status and report of the whole program.

**Output.** The report is the sequence of its lines, each without the newline.

**Numbers.** An average is the exact rational `sum / 5`. Its two-decimal text is built from the nearest hundredth of its magnitude, with halves rounded away from zero, and then written out digit by digit, after a minus sign when the value is negative.

**Properties proved.** Beyond each method's contract, the lemmas show:
- what loading yields, as a characterisation;
- that loading is unique, is a round trip, and respects capacity;
- the grade bands, their monotonicity, and their agreement with a grading-scale table;
- that the fixed-notation text keeps the sign and reads back as the rounded value;
- the report's layout;
- a worked example: Alice with five scores, then Bob with three.

## Model

| member | source | states |
|---|---|---|
| Loader.ReadStudentData | gradebook.cpp:71-110 | A file that cannot be opened gives false, keeps the count and leaves both arrays untouched. An opened file gives true, even with no records. The count is then the number of records `Load` takes, and the arrays become `NamesAfter` / `ScoresAfter` of their old contents. |
| Loader.ReadRecords | gradebook.cpp:82-101 | The reading loop stops at capacity, at the end of the tokens, or at the first incomplete record. The count it returns is the number of loaded records, and the arrays end as `NamesAfter` / `ScoresAfter` describe. |
| Loader.ReadStep | gradebook.cpp:84-100 | One loop pass with room and tokens left. If the record at the cursor is complete, the loop state has advanced by exactly one loaded record. Otherwise reading is over and the arrays hold their final contents. |
| Loader.ReadRecord | gradebook.cpp:84-98 | Reading one record writes the name token into the slot, then writes the integer tokens that follow, at most `NUM_TESTS` of them, into the row. When a token that is not an integer stops the record, 0 is written in the slot after them; when the input ends first, nothing more is written. No other slot or row changes. The record is complete exactly when `NUM_TESTS` integers follow, and the cursor ends after what was read. |
| Loader.CompleteRun | gradebook.cpp:86-92 | The inner loop's completeness test (an unbroken run of `NUM_TESTS` integer reads) agrees with the definition of a complete record, in both directions. |
| Loader.LoadSpec | gradebook.cpp:84-101 | At most `MAX_STUDENTS` records are loaded, within the file's tokens. Record i is the name token at position 6·i followed by its five integer tokens, in file order. Below capacity, the tokens after the last loaded record do not form a complete record. |
| Loader.LoadFromShape | gradebook.cpp:84-101 | Each loaded record is the complete record at its position. Loading with room left stopped at a record that is not complete. |
| Loader.LoadFromAt | gradebook.cpp:84-100 | For any single index below the load count, the record at that index is complete and is the one stored. |
| Loader.LoadFromStops | gradebook.cpp:94-97 | Below capacity, the tokens after the loaded records are not a complete record. |
| Loader.LoadFromUnique | gradebook.cpp:84-101 | Any run of complete records from the start of the file that stops exactly as the loop does equals the loaded result. Together with `LoadFromShape`, this characterises loading both ways. |
| Loader.LoadSpelled | gradebook.cpp:84-101 | Round trip: the tokens of up to `MAX_STUDENTS` records, followed by anything that is not a complete record, load back as exactly those records, in order. |
| Loader.LoadOverCapacity | gradebook.cpp:84 | A file with more than `MAX_STUDENTS` records loads as its first `MAX_STUDENTS`; everything after them is ignored. |
| Loader.NextRecord | gradebook.cpp:84-100 | A complete record at the cursor, with room left, is the next record loaded. |
| Loader.StopAtIncomplete | gradebook.cpp:94-97 | An incomplete record at the cursor ends loading at the current count, and it is the record that gets dropped. |
| Loader.StopAtEnd | gradebook.cpp:84 | Reaching capacity or the end of the tokens ends loading with nothing dropped. |
| Loader.NamesAfterSpec | gradebook.cpp:84-97 | After reading, slot i below the count holds record i's name. The next slot holds the dropped record's name if a record was dropped. Every other slot keeps its value. |
| Loader.ScoresAfterSpec | gradebook.cpp:87-92 | After reading, row i below the count holds record i's scores. If a record was dropped, its row holds the integers read for it, fewer than `NUM_TESTS`. If a token that is not an integer followed them, the next slot holds 0. The remaining slots keep their old values. Every other row is unchanged. |
| Loader.ReadBackRecord | gradebook.cpp:84-92 | The tokens of one record, followed by anything, read back as a complete record equal to it, and reading goes on after them. |
| Aggregator.CalculateAverages | gradebook.cpp:114-125 | For each student below the count, averages[i] is the `Average` of row i of the scores. Every other entry keeps its value. |
| Aggregator.Average | gradebook.cpp:119-123 | The average times `NUM_TESTS` is the sum of the scores. |
| Aggregator.SumBounds | gradebook.cpp:119-122 | Scores between lo and hi sum to between lo·n and hi·n. |
| Aggregator.AverageBounds | gradebook.cpp:118-124 | A student's average lies between the lowest and the highest admissible score. |
| Aggregator.SumAppend | gradebook.cpp:120-122 | The running sum splits over concatenation. |
| Aggregator.AverageConstant | gradebook.cpp:123 | Equal scores average to that score. |
| Grader.LetterGrade | gradebook.cpp:128-135 | The result is always one of A, B, C, D or F. |
| Grader.LetterGradeFollowsScale | gradebook.cpp:130-134 | The chain of threshold tests is the lookup of the first met threshold in the table A 90, B 80, C 70, D 60, with F when none is met. |
| Grader.ScaleDescending | gradebook.cpp:130-133 | The four thresholds of the grading table strictly decrease. |
| Grader.GradeBands | gradebook.cpp:130-134 | Each letter is given exactly on its band of averages, in both directions: A from 90 up, B in [80, 90), C in [70, 80), D in [60, 70), F below 60. |
| Grader.GradeMonotone | gradebook.cpp:130-134 | A higher average never earns a lower letter. |
| Grader.GradeOfAverage | gradebook.cpp:130-133 | Grading an average of five integer scores is grading their sum against 450, 400, 350 and 300. |
| Grader.GradeBoundaries | gradebook.cpp:130-134 | Checks the grade at each threshold and just below it. |
| Reporter.PadRight | gradebook.cpp:148-150 | A left-justified field: the whole text followed by spaces up to the width. It is never shorter than the width, and longer text is not truncated. |
| Reporter.PadRightWide | gradebook.cpp:156 | Text that fills its field is written unchanged. |
| Reporter.HeaderText | gradebook.cpp:148-150 | The header is "Student", "Average" and "Grade" padded to 20, 10 and 8 characters, 38 in all. |
| Reporter.Separator | gradebook.cpp:152 | The separator is 38 dashes, the total of the three column widths. |
| Reporter.NatTextValue | gradebook.cpp:154-157 | The decimal digits written for a number read back as that number. |
| Reporter.NatTextDigits | gradebook.cpp:157 | A number below 10^k is written with at most k digits. |
| Reporter.Hundredths | gradebook.cpp:154 | The hundredth chosen for two-decimal output is the nearest one to the value. |
| Reporter.UnsignedValue | gradebook.cpp:154-157 | The text of a non-negative count of hundredths has no sign, and its digits without the point denote the count. |
| Reporter.Fixed2Value | gradebook.cpp:154-157 | The two-decimal text of a value starts with a minus sign exactly when the value is negative. It reads back as the value's magnitude rounded to the nearest hundredth, with that sign, so it lies within half a hundredth of the value and nothing but the rounding is lost. |
| Reporter.NegativeZero | gradebook.cpp:154-157 | A negative value whose magnitude rounds to zero is written `-0.00`, keeping its sign as fixed notation does. |
| Reporter.RowLayout | gradebook.cpp:156-159 | A row starts with the whole name and is at least 38 wide. When the name fits its column, the average text starts at column 20. When the average also fits, the row is exactly 38 wide with the letter at column 30. |
| Reporter.ReportLayout | gradebook.cpp:148-161 | The report is the header, the separator, one row per student in index order, and a final empty line. |
| Reporter.EmptyReport | gradebook.cpp:148-161 | With no students, only the header, the separator and the empty line are printed. |
| Reporter.PrintReport | gradebook.cpp:139-162 | The lines printed are `ReportLines` of the first `studentCount` entries of the three arrays, and none when the count is not positive. |
| Pipeline.ResultOf | gradebook.cpp:50-55 | A loaded record's row keeps its name. The row's average times 5 is its sum, and its letter is the sum's grade. |
| Pipeline.AssignGrades | gradebook.cpp:53-55 | letterGrades[i] is the grade of averages[i] for every i below the count. The other entries are unchanged. |
| Pipeline.TableOfRecords | gradebook.cpp:44-58 | After reading, averaging and grading, the arrays below the count hold exactly the result rows of the loaded records. |
| Pipeline.RunGradeBook | gradebook.cpp:32-61 | `main`'s exit status and printed report are those of `GradeBookRun`: 1 and nothing for a file that cannot be opened, otherwise 0 and the report of the loaded records. |
| Pipeline.UnreadableFile | gradebook.cpp:44-47 | A file that cannot be opened gives status 1 and no report. |
| Pipeline.ReportOfFile | gradebook.cpp:44-60 | An opened file gives status 0 and has `MAX_STUDENTS` + 3 lines at most. Row i is the row of loaded record i and shows the name token at position 6·i. |
| Pipeline.EmptyFile | gradebook.cpp:44-60 | An empty file still gives status 0, with the header, the separator and the empty line. |
| Pipeline.AverageHundredths | gradebook.cpp:123 | An average of five integers is exactly 20·sum hundredths, so its two-decimal text involves no rounding. |
| Pipeline.RowFits | gradebook.cpp:144-159 | With scores in [0, 100] and a name of at most 20 characters, a row is exactly as wide as the header, with the letter at column 30. |
| Pipeline.AliceAndBobLoad | gradebook.cpp:84-101 | "Alice 90 85 77 92 88 Bob 70 65 80" loads only Alice's record: Bob's has three scores. |
| Pipeline.AliceAndBobReport | gradebook.cpp:32-61 | The report of that file is the header, the separator, "Alice               86.40     B       " and the empty line. |

## Left out

- Console and error output: the start-up banners (lines 41-42), the error and warning messages (45, 78, 95-96, 106) and closing the file (103). None of them affects the arrays, the count, the exit status or the report.
- File handling: the file name (line 34) and opening the file are replaced by the `file` parameter.
- Tokenisation: the `operator>>` rules are abstracted into the token type, so the model does not cover:
  - a numeric prefix followed by letters (such as `85abc`);
  - integers outside the 32-bit range, for which extraction fails;
  - stream fail and eof bits beyond "the read succeeded or did not".
- Loader.ScoresAfterSpec: a score token outside the 32-bit range is a `Num` here, so it is stored with its exact value and the record goes on. Under C++11 the extraction fails, stores `INT_MAX` or `INT_MIN`, and the record is dropped. The 0 stored for a token that is not an integer is modelled. The dropped row is never read again by the program.
- Aggregator.CalculateAverages: the sum is an unbounded integer, so the 32-bit overflow for totals beyond 2^31 - 1 is not modelled.
- Aggregator.Average: the average is the exact rational `sum / 5`, not the binary double. Because an average is a whole number of fifths, its two-decimal text is the same.
- Reporter.Hundredths: rounding follows the exact magnitude, with halves rounded away from zero. The `printf`-style rounding of a binary double at a tie is not modelled; a tie cannot arise for averages, which are whole numbers of fifths.
- Uninitialised arrays: in `main`, only `names` starts defined (as empty strings). The model's `RunGradeBook` starts every array with a fixed value. `ReadStudentData`, `CalculateAverages`, `AssignGrades` and `PrintReport` are proved for any initial contents, and the report does not depend on them.
- Capacity: the code stops at `MAX_STUDENTS` records without any message, and so does the model.
- Empty file: the code prints the header, the separator and, after the (absent) rows, the closing empty line; the model does the same (`Pipeline.EmptyFile`).
