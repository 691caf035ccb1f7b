/**
 getLetterGrade: the letter for a numeric average, from thresholds checked
 highest first, each band closed at its bottom.
 */
module Grader {
  import opened GradeBook
  import opened Aggregator

  /** The letter grade of an average: 90 and up A, 80 B, 70 C, 60 D, below F. */
  function LetterGrade(average: real): (g: char)
    ensures g in "ABCDF"
  {
    if average >= 90.0 then 'A'
    else if average >= 80.0 then 'B'
    else if average >= 70.0 then 'C'
    else if average >= 60.0 then 'D'
    else 'F'
  }

  /** The grading scale as a table: each letter with the lowest average that earns it. */
  const SCALE: seq<(real, char)> := [(90.0, 'A'), (80.0, 'B'), (70.0, 'C'), (60.0, 'D')]

  /** The letter for which no threshold of the scale is met. */
  const FAILING: char := 'F'

  /** The letter of the first scale entry whose threshold the average meets. */
  function GradeOnScale(scale: seq<(real, char)>, average: real): (g: char)
    ensures g == FAILING || exists k :: 0 <= k < |scale| && scale[k].1 == g && average >= scale[k].0
  {
    if |scale| == 0 then FAILING
    else if average >= scale[0].0 then scale[0].1
    else GradeOnScale(scale[1..], average)
  }

  /** The four thresholds of the scale strictly decrease. */
  lemma ScaleDescending()
    ensures forall j, k :: 0 <= j < k < |SCALE| ==> SCALE[j].0 > SCALE[k].0
  {
  }

  /** getLetterGrade is the table lookup on the scale. */
  lemma LetterGradeFollowsScale(average: real)
    ensures LetterGrade(average) == GradeOnScale(SCALE, average)
  {
    var s1, s2, s3 := SCALE[1..], SCALE[2..], SCALE[3..];
    assert s1[1..] == s2 && s2[1..] == s3 && s3[1..] == [];
    assert GradeOnScale(s3, average) == if average >= 60.0 then 'D' else 'F';
    assert GradeOnScale(s2, average) == if average >= 70.0 then 'C' else GradeOnScale(s3, average);
    assert GradeOnScale(s1, average) == if average >= 80.0 then 'B' else GradeOnScale(s2, average);
  }

  /** Each letter is given exactly on its band of averages. */
  lemma GradeBands(average: real)
    ensures LetterGrade(average) == 'A' <==> 90.0 <= average
    ensures LetterGrade(average) == 'B' <==> 80.0 <= average < 90.0
    ensures LetterGrade(average) == 'C' <==> 70.0 <= average < 80.0
    ensures LetterGrade(average) == 'D' <==> 60.0 <= average < 70.0
    ensures LetterGrade(average) == 'F' <==> average < 60.0
  {
  }

  /** A letter's rank: A highest, F lowest. */
  function Rank(g: char): (n: nat)
    ensures n <= 4
    ensures g in "ABCDF" ==> (n == 4 <==> g == 'A') && (n == 0 <==> g == 'F')
  {
    match g
    case 'A' => 4
    case 'B' => 3
    case 'C' => 2
    case 'D' => 1
    case _ => 0
  }

  /** A higher average never earns a lower letter. */
  lemma GradeMonotone(a: real, b: real)
    requires a <= b
    ensures Rank(LetterGrade(a)) <= Rank(LetterGrade(b))
  {
  }

  /** The letter for a score total, from the totals the thresholds correspond to. */
  function GradeForSum(sum: int): (g: char)
    ensures g in "ABCDF"
  {
    if sum >= 450 then 'A'
    else if sum >= 400 then 'B'
    else if sum >= 350 then 'C'
    else if sum >= 300 then 'D'
    else 'F'
  }

  /** Grading an average is grading the integer total: every comparison is one on the sum. */
  lemma GradeOfAverage(scores: seq<int>)
    requires |scores| == NUM_TESTS
    ensures LetterGrade(Average(scores)) == GradeForSum(Sum(scores))
  {
    var s := Sum(scores);
    assert Average(scores) == s as real / 5.0;
    assert Average(scores) >= 90.0 <==> s >= 450;
    assert Average(scores) >= 80.0 <==> s >= 400;
    assert Average(scores) >= 70.0 <==> s >= 350;
    assert Average(scores) >= 60.0 <==> s >= 300;
  }

  /** The grades at and just below each threshold. */
  lemma GradeBoundaries()
    ensures LetterGrade(100.0) == 'A' && LetterGrade(90.0) == 'A' && LetterGrade(89.99) == 'B'
    ensures LetterGrade(80.0) == 'B' && LetterGrade(79.99) == 'C'
    ensures LetterGrade(70.0) == 'C' && LetterGrade(69.99) == 'D'
    ensures LetterGrade(60.0) == 'D' && LetterGrade(59.99) == 'F'
    ensures LetterGrade(0.0) == 'F' && LetterGrade(-5.0) == 'F'
  {
  }
}
