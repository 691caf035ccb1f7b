/**
 printReport: a header, a dashed separator, one row per student in index
 order and a closing empty line. Fields are left-justified into columns of
 20, 10 and 8 characters and never truncated; the average is written in
 fixed notation with two decimals. The report is the sequence of its lines,
 each without its newline.
 */
module Reporter {
  import opened GradeBook

  const NAME_WIDTH: nat := 20
  const AVG_WIDTH: nat := 10
  const GRADE_WIDTH: nat := 8

  /** The width of a full row, and of the separator. */
  const LINE_WIDTH: nat := NAME_WIDTH + AVG_WIDTH + GRADE_WIDTH

  /** `n` copies of `c`. */
  function Repeat(c: char, n: nat): (s: string)
    ensures |s| == n && forall k :: 0 <= k < n ==> s[k] == c
  {
    seq(n, _ => c)
  }

  /**
   A field written left-justified in width `w`: the text itself, followed by
   spaces up to `w` characters; text longer than `w` is kept whole.
   */
  function PadRight(s: string, w: nat): (r: string)
    ensures |r| == if |s| < w then w else |s|
    ensures r[..|s|] == s
    ensures forall k :: |s| <= k < |r| ==> r[k] == ' '
  {
    if |s| < w then s + Repeat(' ', w - |s|) else s
  }

  /** Padding text that already fills its field changes nothing. */
  lemma PadRightWide(s: string, w: nat)
    requires |s| >= w
    ensures PadRight(s, w) == s
  {
  }

  /** The column titles. */
  function Header(): string
  {
    PadRight("Student", NAME_WIDTH) + PadRight("Average", AVG_WIDTH) + PadRight("Grade", GRADE_WIDTH)
  }

  /** The header spelled out: each title padded to its column. */
  lemma HeaderText()
    ensures Header() == "Student             Average   Grade   "
    ensures |Header()| == LINE_WIDTH
  {
    assert PadRight("Student", NAME_WIDTH) == "Student             ";
    assert PadRight("Average", AVG_WIDTH) == "Average   ";
    assert PadRight("Grade", GRADE_WIDTH) == "Grade   ";
  }

  /** The line under the header: as many dashes as the three columns are wide. */
  function Separator(): (line: string)
    ensures |line| == 38
    ensures forall k :: 0 <= k < |line| ==> line[k] == '-'
  {
    Repeat('-', LINE_WIDTH)
  }

  // Fixed notation with two decimals.

  function Digit(d: nat): (c: char)
    requires d < 10
    ensures '0' <= c <= '9'
  {
    (48 + d) as char
  }

  function DigitValue(c: char): int
  {
    c as int - 48
  }

  /** The decimal digits of n, most significant first, without leading zeros. */
  function NatText(n: nat): (s: string)
    ensures |s| >= 1
    ensures forall k :: 0 <= k < |s| ==> '0' <= s[k] <= '9'
    ensures |s| > 1 ==> s[0] != '0'
    decreases n
  {
    if n < 10 then [Digit(n)] else NatText(n / 10) + [Digit(n % 10)]
  }

  /** The number a string of decimal digits denotes. */
  function DigitsValue(s: string): int
  {
    if |s| == 0 then 0 else 10 * DigitsValue(s[..|s| - 1]) + DigitValue(s[|s| - 1])
  }

  /** Reading back the digits of n gives n. */
  lemma {:induction false} NatTextValue(n: nat)
    ensures DigitsValue(NatText(n)) == n
    decreases n
  {
    if n >= 10 {
      var s := NatText(n);
      assert s[..|s| - 1] == NatText(n / 10);
      NatTextValue(n / 10);
    }
  }

  /** Ten to the power `k`. */
  function Pow10(k: nat): (p: nat)
    ensures p >= 1
  {
    if k == 0 then 1 else 10 * Pow10(k - 1)
  }

  /** A number below ten to the `k` is written with at most `k` digits. */
  lemma {:induction false} NatTextDigits(n: nat, k: nat)
    requires 1 <= k && n < Pow10(k)
    ensures |NatText(n)| <= k
    decreases k
  {
    if n >= 10 {
      NatTextDigits(n / 10, k - 1);
    }
  }

  /** The value rounded to the nearest hundredth, counted in hundredths; halves round up. */
  function Hundredths(r: real): (h: int)
    ensures h as real - 0.5 <= r * 100.0 < h as real + 0.5
  {
    (r * 100.0 + 0.5).Floor
  }

  /** Digits left-padded with zeros to at least `w` characters. */
  function ZeroPad(s: string, w: nat): (r: string)
    ensures |r| == if |s| < w then w else |s|
  {
    if |s| < w then Repeat('0', w - |s|) + s else s
  }

  /**
   A count of hundredths in fixed notation: its digits, padded with zeros to
   at least three, with the point before the last two.
   */
  function Unsigned(h: nat): (s: string)
    ensures |s| >= 4 && s[|s| - 3] == '.'
  {
    var d := ZeroPad(NatText(h), 3);
    d[..|d| - 2] + "." + d[|d| - 2..]
  }

  /**
   A value in fixed notation with two decimals: its magnitude rounded to the
   nearest hundredth and written out, after a minus sign when the value is
   negative, even when that magnitude rounds to zero.
   */
  function Fixed2(r: real): (s: string)
    ensures |s| >= 4 && s[|s| - 3] == '.'
  {
    if r < 0.0 then "-" + Unsigned(Hundredths(-r)) else Unsigned(Hundredths(r))
  }

  /** The count of hundredths an unsigned fixed-notation text denotes: its digits without the point. */
  function PointValue(s: string): int
    requires |s| >= 3
  {
    DigitsValue(s[..|s| - 3] + s[|s| - 2..])
  }

  /** The count of hundredths a fixed-notation text denotes, negated after a minus sign. */
  function FixedValue(s: string): int
    requires |s| >= 4
  {
    if s[0] == '-' then -PointValue(s[1..]) else PointValue(s)
  }

  /** Leading zeros do not change the value of a digit string. */
  lemma {:induction false} LeadingZeros(k: nat, s: string)
    ensures DigitsValue(Repeat('0', k) + s) == DigitsValue(s)
    decreases |s|, k
  {
    var z := Repeat('0', k);
    if |s| == 0 {
      assert z + s == z;
      if k > 0 {
        assert z[..k - 1] == Repeat('0', k - 1) + [];
        LeadingZeros(k - 1, []);
      }
    } else {
      assert (z + s)[..|z + s| - 1] == z + s[..|s| - 1];
      LeadingZeros(k, s[..|s| - 1]);
    }
  }

  lemma UnsignedValue(h: nat)
    ensures Unsigned(h)[0] != '-'
    ensures PointValue(Unsigned(h)) == h
  {
    var n := NatText(h);
    var d := ZeroPad(n, 3);
    var s := Unsigned(h);
    assert s[..|s| - 3] + s[|s| - 2..] == d;
    NatTextValue(h);
    if |n| < 3 {
      LeadingZeros(3 - |n|, n);
    }
  }

  /**
   Reading back the text of a value: it starts with a minus sign exactly when
   the value is negative, and it denotes the value's signed magnitude rounded
   to the nearest hundredth, so it lies within half a hundredth of the value.
   */
  lemma Fixed2Value(r: real)
    ensures Fixed2(r)[0] == '-' <==> r < 0.0
    ensures FixedValue(Fixed2(r)) == if r < 0.0 then -Hundredths(-r) else Hundredths(r)
    ensures var v := FixedValue(Fixed2(r)) as real; v - 0.5 <= r * 100.0 <= v + 0.5
  {
    if r < 0.0 {
      UnsignedValue(Hundredths(-r));
      assert Fixed2(r)[1..] == Unsigned(Hundredths(-r));
    } else {
      UnsignedValue(Hundredths(r));
    }
  }

  /** A negative value whose magnitude rounds to zero keeps its minus sign. */
  lemma NegativeZero()
    ensures Fixed2(-0.001) == "-0.00"
  {
    assert Hundredths(0.001) == 0;
    assert NatText(0) == "0";
    assert ZeroPad("0", 3) == "000";
  }

  // The rows.

  /** One student's row: name, average and letter, each in its column. */
  function RowText(r: StudentResult): string
  {
    PadRight(r.name, NAME_WIDTH) + PadRight(Fixed2(r.average), AVG_WIDTH) + PadRight([r.letterGrade], GRADE_WIDTH)
  }

  /**
   A row starts with the whole name and is at least as wide as the header;
   when the name and the average fit their columns, the average starts at
   column 20, the letter stands at column 30, and the row is exactly 38
   characters wide.
   */
  lemma RowLayout(r: StudentResult)
    ensures RowText(r)[..|r.name|] == r.name
    ensures |RowText(r)| >= LINE_WIDTH
    ensures |r.name| <= NAME_WIDTH ==> RowText(r)[NAME_WIDTH..NAME_WIDTH + |Fixed2(r.average)|] == Fixed2(r.average)
    ensures |r.name| <= NAME_WIDTH && |Fixed2(r.average)| <= AVG_WIDTH ==>
              |RowText(r)| == LINE_WIDTH && RowText(r)[NAME_WIDTH + AVG_WIDTH] == r.letterGrade
  {
    var a, b, c := PadRight(r.name, NAME_WIDTH), PadRight(Fixed2(r.average), AVG_WIDTH), PadRight([r.letterGrade], GRADE_WIDTH);
    assert RowText(r) == a + b + c;
    assert (a + b + c)[..|r.name|] == a[..|r.name|];
    if |r.name| <= NAME_WIDTH {
      assert (a + b + c)[NAME_WIDTH..NAME_WIDTH + |Fixed2(r.average)|] == b[..|Fixed2(r.average)|];
      if |Fixed2(r.average)| <= AVG_WIDTH {
        assert (a + b + c)[NAME_WIDTH + AVG_WIDTH] == c[0];
      }
    }
  }

  /** The parallel arrays' first entries, student by student. */
  function Tabulate(names: seq<string>, averages: seq<real>, grades: seq<char>): (rs: seq<StudentResult>)
    requires |names| == |averages| == |grades|
    ensures |rs| == |names|
    ensures forall i :: 0 <= i < |rs| ==> rs[i] == StudentResult(names[i], averages[i], grades[i])
  {
    seq(|names|, i requires 0 <= i < |names| => StudentResult(names[i], averages[i], grades[i]))
  }

  /** `f` applied to each element, in order. */
  function Map<T, U>(f: T -> U, xs: seq<T>): (ys: seq<U>)
    ensures |ys| == |xs|
    ensures forall i :: 0 <= i < |xs| ==> ys[i] == f(xs[i])
  {
    seq(|xs|, i requires 0 <= i < |xs| => f(xs[i]))
  }

  /** Mapping one more element appends its image. */
  lemma MapPush<T, U>(f: T -> U, xs: seq<T>, i: nat)
    requires i < |xs|
    ensures Map(f, xs[..i + 1]) == Map(f, xs[..i]) + [f(xs[i])]
  {
    var a, b := Map(f, xs[..i + 1]), Map(f, xs[..i]) + [f(xs[i])];
    forall k | 0 <= k < |a|
      ensures a[k] == b[k]
    {
      if k < i {
        assert xs[..i + 1][k] == xs[..i][k];
      }
    }
  }

  /** The row lines of the students, in order. */
  function RowLines(rs: seq<StudentResult>): seq<string>
  {
    Map(RowText, rs)
  }

  /** One more student adds that student's row. */
  lemma RowLinesPush(rs: seq<StudentResult>, i: nat, r: StudentResult)
    requires i < |rs| && rs[i] == r
    ensures RowLines(rs[..i + 1]) == RowLines(rs[..i]) + [RowText(r)]
  {
    MapPush(RowText, rs, i);
  }

  /** The whole report. */
  function ReportLines(rs: seq<StudentResult>): seq<string>
  {
    [Header(), Separator()] + RowLines(rs) + [""]
  }

  /** Header, separator, rows and an empty line: where each line of such a frame stands. */
  lemma FrameLayout(head: string, sep: string, rows: seq<string>)
    ensures var lines := [head, sep] + rows + [""];
            |lines| == |rows| + 3 && lines[0] == head && lines[1] == sep && lines[|rows| + 2] == "" &&
            forall i :: 0 <= i < |rows| ==> lines[2 + i] == rows[i]
  {
    var framed := [head, sep] + rows;
    assert [head, sep] + rows + [""] == framed + [""];
    forall i | 0 <= i < |rows|
      ensures framed[2 + i] == rows[i]
    {
    }
  }

  /**
   The report has the header, the separator, exactly one row per student in
   index order, and a final empty line.
   */
  lemma ReportLayout(rs: seq<StudentResult>)
    ensures |ReportLines(rs)| == |rs| + 3
    ensures ReportLines(rs)[0] == Header() && ReportLines(rs)[1] == Separator()
    ensures forall i :: 0 <= i < |rs| ==> ReportLines(rs)[2 + i] == RowText(rs[i])
    ensures ReportLines(rs)[|rs| + 2] == ""
  {
    FrameLayout(Header(), Separator(), Map(RowText, rs));
  }

  /** The report of no students is the header, the separator and the empty line. */
  lemma EmptyReport()
    ensures ReportLines([]) == [Header(), Separator(), ""]
  {
    assert Map(RowText, []) == [];
  }

  /**
   printReport: the lines written for the first `studentCount` entries of the
   parallel arrays (none when the count is not positive).
   */
  method PrintReport(names: array<string>, averages: array<real>, letterGrades: array<char>, studentCount: int)
    returns (lines: seq<string>)
    requires studentCount <= names.Length && studentCount <= averages.Length && studentCount <= letterGrades.Length
    ensures var n := if studentCount < 0 then 0 else studentCount;
            lines == ReportLines(Tabulate(names[..n], averages[..n], letterGrades[..n]))
  {
    var n := if studentCount < 0 then 0 else studentCount;
    ghost var rs := Tabulate(names[..n], averages[..n], letterGrades[..n]);
    lines := [Header(), Separator()];
    var i := 0;
    while i < studentCount
      invariant 0 <= i <= n
      invariant lines == [Header(), Separator()] + RowLines(rs[..i])
    {
      RowLinesPush(rs, i, StudentResult(names[i], averages[i], letterGrades[i]));
      lines := lines + [RowText(StudentResult(names[i], averages[i], letterGrades[i]))];
      i := i + 1;
    }
    assert rs[..n] == rs;
    lines := lines + [""];
  }
}
