/**
 The constants and value types shared by every stage of the grade book:
 the input tokens, a student's parsed record and a student's derived result.
 */
module GradeBook {

  /** Number of test scores every student record carries. */
  const NUM_TESTS: nat := 5

  /** Capacity of the student arrays: at most this many records are loaded. */
  const MAX_STUDENTS: nat := 100

  datatype Option<+T> = None | Some(value: T)

  /**
   A whitespace-delimited token of the input file. Reading a name accepts any
   token and keeps its text; reading a score succeeds only on a token that is
   an integer, whose value it yields, and fails on any other token, storing 0.
   */
  datatype Token = Num(text: string, value: int) | Word(text: string)

  /** One student's name and scores, as the loader stores them. */
  datatype StudentRecord = StudentRecord(name: string, scores: seq<int>)

  /** One student's name, numeric average and letter grade, as the report shows them. */
  datatype StudentResult = StudentResult(name: string, average: real, letterGrade: char)

  /** The rows of the score table, a two-dimensional array, as sequences. */
  ghost function Rows(a: array2<int>): (rows: seq<seq<int>>)
    reads a
    ensures |rows| == a.Length0
    ensures forall i :: 0 <= i < a.Length0 ==> |rows[i]| == a.Length1
  {
    seq(a.Length0, i requires 0 <= i < a.Length0 reads a =>
      seq(a.Length1, j requires 0 <= j < a.Length1 reads a => a[i, j]))
  }
}
