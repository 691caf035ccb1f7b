/**
 main: load the records, average them, grade each average and print the
 report; a file that cannot be opened ends the program with status 1 and no
 report.
 */
module Pipeline {
  import opened GradeBook
  import opened Loader
  import opened Aggregator
  import opened Grader
  import opened Reporter

  /** A loaded student's row of the report. */
  function ResultOf(r: StudentRecord): (res: StudentResult)
    requires |r.scores| == NUM_TESTS
    ensures res.name == r.name
    ensures res.average * 5.0 == Sum(r.scores) as real
    ensures res.letterGrade == GradeForSum(Sum(r.scores))
  {
    GradeOfAverage(r.scores);
    StudentResult(r.name, Average(r.scores), LetterGrade(Average(r.scores)))
  }

  /** The report rows of the loaded records, in load order. */
  function Results(rs: seq<StudentRecord>): (res: seq<StudentResult>)
    requires forall i :: 0 <= i < |rs| ==> |rs[i].scores| == NUM_TESTS
    ensures |res| == |rs|
    ensures forall i :: 0 <= i < |rs| ==> res[i] == ResultOf(rs[i])
  {
    seq(|rs|, i requires 0 <= i < |rs| => ResultOf(rs[i]))
  }

  /** What the program does with a file: its exit status and the report lines it prints. */
  function GradeBookRun(file: Option<seq<Token>>): (int, seq<string>)
  {
    match file
    case None => (1, [])
    case Some(tokens) => (0, ReportLines(Results(Load(tokens))))
  }

  /** main's grading loop: the letter of each of the first `studentCount` averages. */
  method AssignGrades(averages: array<real>, letterGrades: array<char>, studentCount: int)
    requires studentCount <= averages.Length && studentCount <= letterGrades.Length
    modifies letterGrades
    ensures forall k :: 0 <= k < studentCount ==> letterGrades[k] == LetterGrade(averages[k])
    ensures forall k :: 0 <= k < letterGrades.Length && !(0 <= k < studentCount) ==>
              letterGrades[k] == old(letterGrades[k])
  {
    var i := 0;
    while i < studentCount
      invariant 0 <= i && (i <= studentCount || i == 0)
      invariant forall k :: 0 <= k < i ==> letterGrades[k] == LetterGrade(averages[k])
      invariant forall k :: i <= k < letterGrades.Length ==> letterGrades[k] == old(letterGrades[k])
    {
      letterGrades[i] := LetterGrade(averages[i]);
      i := i + 1;
    }
  }

  /** The parallel arrays after the three stages hold, below the count, the rows of the loaded records. */
  lemma TableOfRecords(tokens: seq<Token>, names: seq<string>, rows: seq<seq<int>>, averages: seq<real>,
                       grades: seq<char>, names0: seq<string>, rows0: seq<seq<int>>)
    requires Fits(names0, rows0)
    requires names == NamesAfter(tokens, names0) && rows == ScoresAfter(tokens, rows0)
    requires |Load(tokens)| <= |averages| && |Load(tokens)| <= |grades|
    requires forall k :: 0 <= k < |Load(tokens)| ==> averages[k] == Average(rows[k])
    requires forall k :: 0 <= k < |Load(tokens)| ==> grades[k] == LetterGrade(averages[k])
    ensures var n := |Load(tokens)|;
            n <= |names| && Tabulate(names[..n], averages[..n], grades[..n]) == Results(Load(tokens))
  {
    var rs := Load(tokens);
    var n := |rs|;
    NamesAfterSpec(tokens, names0);
    ScoresAfterSpec(tokens, rows0);
    var table := Tabulate(names[..n], averages[..n], grades[..n]);
    forall k | 0 <= k < n
      ensures table[k] == Results(rs)[k]
    {
      assert names[k] == rs[k].name && rows[k] == rs[k].scores;
    }
  }

  /**
   main, with the input file as a parameter: allocates the parallel arrays,
   reads the data, computes the averages, grades each average and builds the
   report.
   */
  method RunGradeBook(file: Option<seq<Token>>) returns (exitCode: int, report: seq<string>)
    ensures (exitCode, report) == GradeBookRun(file)
  {
    var names := new string[MAX_STUDENTS](_ => "");
    var scores := new int[MAX_STUDENTS, NUM_TESTS]((_, _) => 0);
    var averages := new real[MAX_STUDENTS](_ => 0.0);
    var letterGrades := new char[MAX_STUDENTS](_ => ' ');
    var studentCount := 0;
    ghost var names0 := names[..];
    ghost var rows0 := Rows(scores);
    var ok;
    ok, studentCount := ReadStudentData(file, names, scores, studentCount);
    if !ok {
      return 1, [];
    }
    CalculateAverages(scores, averages, studentCount);
    AssignGrades(averages, letterGrades, studentCount);
    report := PrintReport(names, averages, letterGrades, studentCount);
    exitCode := 0;
    TableOfRecords(file.value, names[..], Rows(scores), averages[..], letterGrades[..], names0, rows0);
  }

  /** A file that cannot be opened gives status 1 and no report. */
  lemma UnreadableFile()
    ensures GradeBookRun(None) == (1, [])
  {
  }

  /**
   An opened file gives status 0 and a report with one row per loaded record,
   in file order: row i shows the name token at RECORD_WIDTH * i and the
   letter its five integer tokens earn.
   */
  lemma ReportOfFile(tokens: seq<Token>)
    ensures GradeBookRun(Some(tokens)).0 == 0
    ensures |GradeBookRun(Some(tokens)).1| == |Load(tokens)| + 3 <= MAX_STUDENTS + 3
    ensures forall i :: 0 <= i < |Load(tokens)| ==>
              GradeBookRun(Some(tokens)).1[2 + i] == RowText(ResultOf(Load(tokens)[i])) &&
              ResultOf(Load(tokens)[i]).name == tokens[RECORD_WIDTH * i].text
  {
    LoadSpec(tokens);
    ReportLayout(Results(Load(tokens)));
  }

  /** An empty file still prints the header, the separator and the empty line. */
  lemma EmptyFile()
    ensures GradeBookRun(Some([])) == (0, [Header(), Separator(), ""])
  {
    assert Load([]) == [];
    assert Results([]) == [];
    EmptyReport();
  }

  /** Averages are whole multiples of a fifth, so the two-decimal text is exact: 20 hundredths per point of total. */
  lemma AverageHundredths(scores: seq<int>)
    requires |scores| == NUM_TESTS
    ensures Hundredths(Average(scores)) == 20 * Sum(scores)
  {
    assert Average(scores) * 100.0 == (20 * Sum(scores)) as real;
  }

  /**
   With scores from 0 to 100 and a name that fits its column, a student's
   row is exactly as wide as the header, with the letter at column 30.
   */
  lemma RowFits(r: StudentRecord)
    requires |r.scores| == NUM_TESTS && |r.name| <= NAME_WIDTH
    requires forall t :: 0 <= t < NUM_TESTS ==> 0 <= r.scores[t] <= 100
    ensures |RowText(ResultOf(r))| == LINE_WIDTH
    ensures RowText(ResultOf(r))[NAME_WIDTH + AVG_WIDTH] == ResultOf(r).letterGrade
  {
    SumBounds(r.scores, 0, 100);
    AverageHundredths(r.scores);
    var h := Hundredths(ResultOf(r).average);
    assert 0 <= h <= 10000;
    NatTextDigits(h, 5);
    RowLayout(ResultOf(r));
  }

  /** The sum of the first example student's scores. */
  lemma AliceSum()
    ensures Sum([90, 85, 77, 92, 88]) == 432
  {
    assert [90, 85][..1] == [90];
    assert Sum([90, 85]) == 175;
    assert [90, 85, 77][..2] == [90, 85];
    assert Sum([90, 85, 77]) == 252;
    assert [90, 85, 77, 92][..3] == [90, 85, 77];
    assert Sum([90, 85, 77, 92]) == 344;
    assert [90, 85, 77, 92, 88][..4] == [90, 85, 77, 92];
  }

  /** The example's input: Alice with five scores, then Bob with three. */
  function AliceAndBob(): seq<Token>
  {
    [Word("Alice"), Num("90", 90), Num("85", 85), Num("77", 77), Num("92", 92), Num("88", 88),
     Word("Bob"), Num("70", 70), Num("65", 65), Num("80", 80)]
  }

  /** Bob's record, three scores long, is not complete. */
  lemma BobIncomplete()
    ensures !Complete(AliceAndBob()[RECORD_WIDTH..])
  {
    var bob := AliceAndBob()[RECORD_WIDTH..][1..];
    assert bob == [Num("70", 70), Num("65", 65), Num("80", 80)];
    assert IntRun(bob[3..]) == 0;
  }

  /** Alice's record is complete and holds her five scores. */
  lemma AliceComplete()
    ensures Complete(AliceAndBob())
    ensures FirstRecord(AliceAndBob()) == StudentRecord("Alice", [90, 85, 77, 92, 88])
  {
    var scores := AliceAndBob()[1..][..NUM_TESTS];
    assert scores == [Num("90", 90), Num("85", 85), Num("77", 77), Num("92", 92), Num("88", 88)];
    assert Values(scores) == [90, 85, 77, 92, 88];
  }

  /** Two students, the second with only three scores: only the first is loaded. */
  lemma AliceAndBobLoad()
    ensures Load(AliceAndBob()) == [StudentRecord("Alice", [90, 85, 77, 92, 88])]
  {
    AliceComplete();
    BobIncomplete();
  }

  /** The example's average text: 86.4 is written 86.40. */
  lemma AliceAverageText()
    ensures Fixed2(86.4) == "86.40"
  {
    assert Hundredths(86.4) == 8640;
    assert NatText(8640) == "8640";
    assert ZeroPad("8640", 3) == "8640";
  }

  /** The row of that example, spelled out. */
  lemma AliceRow()
    ensures RowText(StudentResult("Alice", 86.4, 'B')) == "Alice               86.40     B       "
  {
    AliceAverageText();
    AliceFields();
    assert RowText(StudentResult("Alice", 86.4, 'B')) ==
           PadRight("Alice", NAME_WIDTH) + PadRight("86.40", AVG_WIDTH) + PadRight("B", GRADE_WIDTH);
  }

  /** The example row's three fields, each padded to its column. */
  lemma AliceFields()
    ensures PadRight("Alice", NAME_WIDTH) == "Alice               "
    ensures PadRight("86.40", AVG_WIDTH) == "86.40     "
    ensures PadRight("B", GRADE_WIDTH) == "B       "
  {
    assert PadRight("Alice", NAME_WIDTH) == "Alice" + Repeat(' ', 15);
    assert PadRight("86.40", AVG_WIDTH) == "86.40" + Repeat(' ', 5);
    assert PadRight("B", GRADE_WIDTH) == "B" + Repeat(' ', 7);
  }

  /** The report of that example: its one row is Alice's, with average 86.4 and grade B. */
  lemma AliceAndBobReport()
    ensures GradeBookRun(Some(AliceAndBob())).1 == [Header(), Separator(), "Alice               86.40     B       ", ""]
  {
    AliceAndBobLoad();
    AliceResult();
    AliceRow();
    var alice := StudentResult("Alice", 86.4, 'B');
    assert GradeBookRun(Some(AliceAndBob())).1 == ReportLines([alice]);
    ReportLayout([alice]);
  }

  /** Alice's row values: average 86.4, grade B. */
  lemma AliceResult()
    ensures Results([StudentRecord("Alice", [90, 85, 77, 92, 88])]) == [StudentResult("Alice", 86.4, 'B')]
  {
    AliceSum();
    assert ResultOf(StudentRecord("Alice", [90, 85, 77, 92, 88])) == StudentResult("Alice", 86.4, 'B');
  }
}
