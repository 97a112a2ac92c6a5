/**
 * The download name of the generated PDF (generatePdfFileName):
 * `DDMMYYYY-<class>-<students>.pdf`, where every character outside
 * [A-Za-z0-9] becomes `-` and the student part is cut to 20 characters.
 */
module PdfFileName {
  import opened FormText

  /** The calendar fields of the current date, as `Date` reports them (the month counts from 0). */
  datatype Date = Date(day: nat, monthIndex: nat, year: nat)

  predicate ValidDate(d: Date) {
    1 <= d.day <= 31 && d.monthIndex <= 11
  }

  /** Characters the regular expression [a-zA-Z0-9] keeps. */
  predicate IsAsciiAlnum(c: char) {
    ('a' <= c <= 'z') || ('A' <= c <= 'Z') || ('0' <= c <= '9')
  }

  /** Characters that may appear in the name part of the file name. */
  predicate IsSafe(c: char) {
    IsAsciiAlnum(c) || c == '-'
  }

  predicate IsDigit(c: char) {
    '0' <= c <= '9'
  }

  function DigitChar(d: nat): (c: char)
    requires d < 10
    ensures IsDigit(c) && (c as int) - ('0' as int) == d
  {
    ['0', '1', '2', '3', '4', '5', '6', '7', '8', '9'][d]
  }

  /** `String(n)`: the decimal digits of `n`, without leading zeros. */
  function DecimalString(n: nat): (r: string)
    ensures |r| >= 1
    ensures forall i :: 0 <= i < |r| ==> IsDigit(r[i])
    ensures n < 10 <==> |r| == 1
    ensures 10 <= n < 100 ==> |r| == 2
    ensures 100 <= n < 1000 ==> |r| == 3
    ensures 1000 <= n < 10000 ==> |r| == 4
    ensures n > 0 ==> r[0] != '0'
    decreases n
  {
    if n < 10 then [DigitChar(n)] else DecimalString(n / 10) + [DigitChar(n % 10)]
  }

  function DigitValue(c: char): nat
    requires IsDigit(c)
  {
    (c as int) - ('0' as int)
  }

  /** The value of a string of decimal digits. */
  function DecimalValue(s: string): nat
    requires forall i :: 0 <= i < |s| ==> IsDigit(s[i])
  {
    if s == [] then 0 else 10 * DecimalValue(s[..|s| - 1]) + DigitValue(s[|s| - 1])
  }

  /** `s` is a string of decimal digits whose value is `n`. */
  predicate ReadsAs(s: string, n: nat) {
    (forall i :: 0 <= i < |s| ==> IsDigit(s[i])) && DecimalValue(s) == n
  }

  /** Reading back the decimal digits of `n` gives `n`. */
  lemma {:induction false} DecimalRoundTrip(n: nat)
    ensures DecimalValue(DecimalString(n)) == n
    decreases n
  {
    if n >= 10 {
      DecimalRoundTrip(n / 10);
      var s := DecimalString(n);
      assert s[..|s| - 1] == DecimalString(n / 10);
    }
  }

  /** `padStart(2, '0')`: a one-character string gets a leading zero. */
  function PadTwo(s: string): (r: string)
    ensures |s| >= 2 ==> r == s
    ensures |s| < 2 ==> |r| == 2 && r[2 - |s|..] == s && forall i :: 0 <= i < 2 - |s| ==> r[i] == '0'
  {
    if |s| >= 2 then s else if |s| == 1 then ['0'] + s else "00"
  }

  /** A leading zero does not change the value of a decimal string. */
  lemma {:induction false} LeadingZero(s: string)
    requires forall i :: 0 <= i < |s| ==> IsDigit(s[i])
    ensures DecimalValue(['0'] + s) == DecimalValue(s)
  {
    if s != [] {
      LeadingZero(s[..|s| - 1]);
      assert (['0'] + s)[..|['0'] + s| - 1] == ['0'] + s[..|s| - 1];
    }
  }

  /** A day or month field: `String(n).padStart(2, '0')`, two digits reading as `n` when `n` is below 100. */
  function TwoDigits(n: nat): (r: string)
    ensures forall i :: 0 <= i < |r| ==> IsDigit(r[i])
    ensures n < 100 ==> |r| == 2 && DecimalValue(r) == n
  {
    var s := DecimalString(n);
    DecimalRoundTrip(n);
    LeadingZero(s);
    PadTwo(s)
  }

  /** `replace(/[^a-zA-Z0-9]/g, '-')`. */
  function Sanitize(s: string): (r: string)
    ensures |r| == |s|
    ensures forall i :: 0 <= i < |r| ==> IsSafe(r[i])
    ensures forall i :: 0 <= i < |s| && IsAsciiAlnum(s[i]) ==> r[i] == s[i]
    ensures forall i :: 0 <= i < |s| && !IsAsciiAlnum(s[i]) ==> r[i] == '-'
  {
    if s == [] then [] else [if IsAsciiAlnum(s[0]) then s[0] else '-'] + Sanitize(s[1..])
  }

  /** Sanitising a sanitised string changes nothing. */
  lemma SanitizeIdempotent(s: string)
    ensures Sanitize(Sanitize(s)) == Sanitize(s)
  {
    var r := Sanitize(s);
    assert forall i :: 0 <= i < |r| ==> Sanitize(r)[i] == r[i];
  }

  /** `substring(0, 20)`. */
  function Prefix(s: string, n: nat): (r: string)
    ensures |r| == if |s| <= n then |s| else n
    ensures r == s[..|r|]
  {
    if |s| <= n then s else s[..n]
  }

  const StudentPartLength: nat := 20

  /** The file name from its five parts. */
  function Assemble(day: string, month: string, year: string, turma: string, students: string): string
  {
    day + month + year + "-" + turma + "-" + students + ".pdf"
  }

  /** The file name, from the date and the raw contents of the class and student fields. */
  function FileName(date: Date, turmaInput: string, studentInputs: seq<string>): string
  {
    Assemble(TwoDigits(date.day), TwoDigits(date.monthIndex + 1), DecimalString(date.year),
             Sanitize(Trim(turmaInput)), Sanitize(Prefix(StudentNames(studentInputs), StudentPartLength)))
  }

  /** Where each part of an assembled name sits. */
  lemma AssembleLayout(day: string, month: string, year: string, turma: string, students: string)
    requires |day| == 2 && |month| == 2
    ensures var r := Assemble(day, month, year, turma, students);
            && |r| == 4 + |year| + 1 + |turma| + 1 + |students| + 4
            && r[..2] == day && r[2..4] == month
            && r[|r| - 4..] == ".pdf"
            && r[..|r| - 4] == day + month + year + "-" + turma + "-" + students
  {
    var r := Assemble(day, month, year, turma, students);
    var body := day + month + year + "-" + turma + "-" + students;
    assert r == body + ".pdf";
    assert r[..4] == day + month;
  }

  /** Where the year and the two dashes sit in an assembled name. */
  lemma AssembleYear(day: string, month: string, year: string, turma: string, students: string)
    requires |day| == 2 && |month| == 2
    ensures var r := Assemble(day, month, year, turma, students);
            && |r| == 10 + |year| + |turma| + |students|
            && r[4..4 + |year|] == year
            && r[4 + |year|] == '-' && r[5 + |year| + |turma|] == '-'
  {
    var r := Assemble(day, month, year, turma, students);
    assert r == (day + month) + year + ("-" + turma + "-" + students + ".pdf");
    assert r[4 + |year|..] == "-" + turma + "-" + students + ".pdf";
    assert r[5 + |year|..] == turma + "-" + students + ".pdf";
  }

  /**
   * After the day and month, the file name holds the year, read back as `date.year`, and a dash on each
   * side of the class part; the student part adds at most 20 characters.
   */
  lemma FileNameYear(date: Date, turmaInput: string, studentInputs: seq<string>)
    requires ValidDate(date)
    ensures var r := FileName(date, turmaInput, studentInputs);
            var y := |DecimalString(date.year)|;
            && 10 + y + |Trim(turmaInput)| <= |r| <= 10 + y + |Trim(turmaInput)| + StudentPartLength
            && ReadsAs(r[4..4 + y], date.year)
            && r[4 + y] == '-' && r[5 + y + |Trim(turmaInput)|] == '-'
  {
    var dd, mm, year := TwoDigits(date.day), TwoDigits(date.monthIndex + 1), DecimalString(date.year);
    var turma := Sanitize(Trim(turmaInput));
    var students := Sanitize(Prefix(StudentNames(studentInputs), StudentPartLength));
    assert FileName(date, turmaInput, studentInputs) == Assemble(dd, mm, year, turma, students);
    assert |turma| == |Trim(turmaInput)| && |students| <= StudentPartLength;
    AssembleYear(dd, mm, year, turma, students);
    DecimalRoundTrip(date.year);
    assert ReadsAs(year, date.year);
  }

  /** The first four characters of an assembled name give back its day and month. */
  lemma AssembleDate(day: nat, month: nat, year: string, turma: string, students: string)
    requires day < 100 && month < 100
    ensures var r := Assemble(TwoDigits(day), TwoDigits(month), year, turma, students);
            && |r| >= 4 && ReadsAs(r[..2], day) && ReadsAs(r[2..4], month)
  {
    var dd, mm := TwoDigits(day), TwoDigits(month);
    AssembleLayout(dd, mm, year, turma, students);
  }

  /** The first four characters of the file name give back the day and the month, counted from 1. */
  lemma FileNameDate(date: Date, turmaInput: string, studentInputs: seq<string>)
    requires ValidDate(date)
    ensures var r := FileName(date, turmaInput, studentInputs);
            && |r| >= 4 && ReadsAs(r[..2], date.day) && ReadsAs(r[2..4], date.monthIndex + 1)
  {
    AssembleDate(date.day, date.monthIndex + 1, DecimalString(date.year),
                 Sanitize(Trim(turmaInput)), Sanitize(Prefix(StudentNames(studentInputs), StudentPartLength)));
  }

  /** Everything before the `.pdf` extension is made of letters, digits and dashes. */
  lemma FileNameSafe(date: Date, turmaInput: string, studentInputs: seq<string>)
    ensures var r := FileName(date, turmaInput, studentInputs);
            && |r| >= 4 && r[|r| - 4..] == ".pdf"
            && forall i :: 0 <= i < |r| - 4 ==> IsSafe(r[i])
  {
    AssembleSafe(TwoDigits(date.day), TwoDigits(date.monthIndex + 1), DecimalString(date.year),
                 Sanitize(Trim(turmaInput)), Sanitize(Prefix(StudentNames(studentInputs), StudentPartLength)));
  }

  /** An assembled name of safe parts is safe up to its extension. */
  lemma AssembleSafe(day: string, month: string, year: string, turma: string, students: string)
    requires forall i :: 0 <= i < |day| ==> IsSafe(day[i])
    requires forall i :: 0 <= i < |month| ==> IsSafe(month[i])
    requires forall i :: 0 <= i < |year| ==> IsSafe(year[i])
    requires forall i :: 0 <= i < |turma| ==> IsSafe(turma[i])
    requires forall i :: 0 <= i < |students| ==> IsSafe(students[i])
    ensures var r := Assemble(day, month, year, turma, students);
            && |r| >= 4 && r[|r| - 4..] == ".pdf"
            && forall i :: 0 <= i < |r| - 4 ==> IsSafe(r[i])
  {
    var r := Assemble(day, month, year, turma, students);
    var body := day + month + year + "-" + turma + "-" + students;
    assert r == body + ".pdf";
    forall i | 0 <= i < |r| - 4 ensures IsSafe(r[i]) {
      assert r[i] == body[i];
    }
  }

  /** Accented letters are ASCII-unsafe: "Maçã" becomes "Ma--". */
  lemma AccentsBecomeDashes()
    ensures Sanitize("Maçã") == "Ma--"
  {
  }
}
