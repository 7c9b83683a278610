/**
 * A loan and its record line `isbn|memberId|issueDate|dueDate|returned`.
 * Dates are epoch days; the line carries them as ISO_LOCAL_DATE text.
 */
module Loans {
  import opened Text
  import opened Decimal
  import opened Escaping
  import opened Calendar

  /** A loan: foreign keys into books and members, the two dates, and the one-way returned flag. */
  datatype Loan = Loan(isbn: string, memberId: string, issueDate: int, dueDate: int, returned: bool)

  /**
   * What fromFileString can do with a line: return null, return a loan, or
   * throw DateTimeParseException out of LocalDate.parse.
   */
  datatype Decoded = NoRecord | Decoded(loan: Loan) | DateError

  /** setReturned: the same loan with a new flag. */
  function SetReturned(l: Loan, returned: bool): (r: Loan)
    ensures r.returned == returned
    ensures r.isbn == l.isbn && r.memberId == l.memberId
    ensures r.issueDate == l.issueDate && r.dueDate == l.dueDate
  {
    l.(returned := returned)
  }

  /** String concatenation of a boolean. */
  function BoolText(b: bool): (t: string)
    ensures |t| == if b then 4 else 5
    ensures t[0] == if b then 't' else 'f'
    ensures NoBar(t) && OneLine(t)
  {
    if b then
      assert forall i :: 0 <= i < 4 ==> "true"[i] != Bar && !IsLineBreak("true"[i]);
      "true"
    else
      assert forall i :: 0 <= i < 5 ==> "false"[i] != Bar && !IsLineBreak("false"[i]);
      "false"
  }

  /** Boolean.parseBoolean: true exactly for "true" in any mix of cases. */
  predicate ParseBoolean(s: string)
    ensures ParseBoolean(s) ==> |s| == 4
    ensures s == "true" ==> ParseBoolean(s)
  {
    EqualsIgnoreCase(s, "true")
  }

  /** The conditions under which a loan line round-trips: bar-free keys, four-digit years. */
  predicate Writable(l: Loan)
  {
    NoBar(l.isbn) && NoBar(l.memberId)
    && 0 <= YearOf(l.issueDate) <= 9999 && 0 <= YearOf(l.dueDate) <= 9999
  }

  /** No terminator in either key: the condition under which the line survives the file. */
  predicate BreakFree(l: Loan)
  {
    OneLine(l.isbn) && OneLine(l.memberId)
  }

  lemma DateTextNoBar(z: int)
    ensures NoBar(FormatDate(z)) && OneLine(FormatDate(z))
  {
    DateCharsPlain(FormatDate(z));
  }

  lemma DateCharsPlain(t: string)
    requires DateChars(t)
    ensures NoBar(t) && OneLine(t)
  {
    assert forall i :: 0 <= i < |t| ==> t[i] != Bar && !IsLineBreak(t[i]);
  }

  /** The five fields of a loan line, in order. */
  function Fields(l: Loan): seq<string>
  {
    [Escape(l.isbn), Escape(l.memberId), FormatDate(l.issueDate), FormatDate(l.dueDate), BoolText(l.returned)]
  }

  lemma FieldsJoin(l: Loan)
    ensures Bar in Join(Fields(l)) && !IsBlank(Join(Fields(l)))
    ensures NoBar(l.isbn) && NoBar(l.memberId) ==> Split(Join(Fields(l))) == Fields(l)
    ensures BreakFree(l) ==> OneLine(Join(Fields(l)))
  {
    var fields := Fields(l);
    JoinCons(fields[0], fields[1..]);
    assert Join(fields)[|fields[0]|] == Bar;
    if BreakFree(l) {
      DateTextNoBar(l.issueDate);
      DateTextNoBar(l.dueDate);
      OneLineJoinFive(fields[0], fields[1], fields[2], fields[3], fields[4]);
    }
    if NoBar(l.isbn) && NoBar(l.memberId) {
      EscapeNoBar(l.isbn);
      EscapeNoBar(l.memberId);
      DateTextNoBar(l.issueDate);
      DateTextNoBar(l.dueDate);
      SplitJoinFive(fields[0], fields[1], fields[2], fields[3], fields[4]);
    }
  }

  /** toFileString: escaped isbn and memberId, both dates as YYYY-MM-DD, then true or false. */
  function ToFileString(l: Loan): (line: string)
    ensures Bar in line && !IsBlank(line)
    ensures BreakFree(l) ==> OneLine(line)
  {
    FieldsJoin(l);
    Join(Fields(l))
  }

  /**
   * fromFileString: null when the line has fewer than five fields; otherwise
   * the third and fourth fields must parse as dates, or the call throws; the
   * keys are unescaped, the flag read by Boolean.parseBoolean, further fields
   * ignored.
   */
  function FromFileString(line: string): (r: Decoded)
    ensures r.NoRecord? <==> BarCount(line) < 4
    ensures r.DateError? <==>
      BarCount(line) >= 4 && (ParseDate(Split(line)[2]).None? || ParseDate(Split(line)[3]).None?)
    ensures r.Decoded? ==> (r.loan.returned <==> ParseBoolean(Split(line)[4]))
  {
    var parts := Split(line);
    if |parts| < 5 then NoRecord
    else
      var issue, due := ParseDate(parts[2]), ParseDate(parts[3]);
      if issue.None? || due.None? then DateError
      else Decoded(Loan(Unescape(parts[0]), Unescape(parts[1]), issue.value, due.value, ParseBoolean(parts[4])))
  }

  /**
   * How the split sees the line of any loan: the escaped isbn and memberId,
   * each cut at every bar it holds, then the two dates and the flag.
   */
  lemma LineFields(l: Loan)
    ensures Split(ToFileString(l))
            == Split(Escape(l.isbn)) + (Split(Escape(l.memberId))
               + [FormatDate(l.issueDate), FormatDate(l.dueDate), BoolText(l.returned)])
  {
    var c, d, e := FormatDate(l.issueDate), FormatDate(l.dueDate), BoolText(l.returned);
    assert ToFileString(l) == Join([Escape(l.isbn), Escape(l.memberId), c, d, e]);
    SplitJoinedFive(Escape(l.isbn), Escape(l.memberId), c, d, e);
    DateTextNoBar(l.issueDate);
    DateTextNoBar(l.dueDate);
    TailPieces(c, d, e);
  }

  /** The split of the three bar-free tail fields. */
  lemma TailPieces(c: string, d: string, e: string)
    requires NoBar(c) && NoBar(d) && NoBar(e)
    ensures Split(c) + (Split(d) + Split(e)) == [c, d, e]
  {
    SplitNoBar(c);
    SplitNoBar(d);
    SplitNoBar(e);
  }

  /** Fields after the fifth are ignored. */
  lemma ExtraFieldsIgnored(line: string, extra: string)
    requires BarCount(line) >= 4
    ensures FromFileString(line + [Bar] + extra) == FromFileString(line)
  {
    SplitAppendBar(line, extra);
  }

  lemma ParseBooleanText(b: bool)
    ensures ParseBoolean(BoolText(b)) == b
  {
    if b {
      assert ToLower("true") == "true" by {
        assert forall i :: 0 <= i < 4 ==> Fold("true"[i]) == "true"[i];
      }
    } else {
      assert |ToLower("false")| == 5;
    }
  }

  /** A loan with bar-free keys and four-digit years is read back exactly as it was written. */
  lemma RoundTrip(l: Loan)
    requires Writable(l)
    ensures FromFileString(ToFileString(l)) == Decoded(l)
  {
    var a, b, c, d, e := Escape(l.isbn), Escape(l.memberId), FormatDate(l.issueDate), FormatDate(l.dueDate), BoolText(l.returned);
    assert ToFileString(l) == Join([a, b, c, d, e]);
    EscapeNoBar(l.isbn);
    EscapeNoBar(l.memberId);
    DateTextNoBar(l.issueDate);
    DateTextNoBar(l.dueDate);
    ParseFormatDate(l.issueDate);
    ParseFormatDate(l.dueDate);
    FromFields(a, b, c, d, e);
    UnescapeEscape(l.isbn);
    UnescapeEscape(l.memberId);
    ParseBooleanText(l.returned);
  }

  /** What fromFileString makes of five delimiter-free fields whose dates parse. */
  lemma FromFields(a: string, b: string, c: string, d: string, e: string)
    requires NoBar(a) && NoBar(b) && NoBar(c) && NoBar(d) && NoBar(e)
    requires ParseDate(c).Some? && ParseDate(d).Some?
    ensures FromFileString(Join([a, b, c, d, e])) ==
      Decoded(Loan(Unescape(a), Unescape(b), ParseDate(c).value, ParseDate(d).value, ParseBoolean(e)))
  {
    SplitJoinFive(a, b, c, d, e);
  }

  /** A line with five fields whose date field is not a date makes the decoder throw rather than skip it. */
  lemma BadDateThrows(isbn: string, memberId: string, due: string, flag: string)
    requires NoBar(isbn) && NoBar(memberId) && NoBar(due) && NoBar(flag)
    ensures FromFileString(Join([isbn, memberId, "soon", due, flag])) == DateError
  {
    SplitJoin([isbn, memberId, "soon", due, flag]);
  }
}
