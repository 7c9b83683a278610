/**
 * Whole-collection persistence: one text file per entity kind, one record
 * line per entity. A file is its text, or None when it does not exist;
 * saving overwrites it with each line followed by a line terminator,
 * loading reads it back line by line through the codec.
 */
module Storage {
  import opened Wrappers
  import opened Text
  import Books
  import Members
  import Loans
  import opened Decimal
  import opened Escaping

  /** books.txt, members.txt and loans.txt. */
  class DataFiles {
    var books: Option<string>
    var members: Option<string>
    var loans: Option<string>

    constructor(books: Option<string>, members: Option<string>, loans: Option<string>)
      ensures this.books == books && this.members == members && this.loans == loans
    {
      this.books := books;
      this.members := members;
      this.loans := loans;
    }
  }

  // ----- the text of a file, line by line -----

  /** Where the first line of t ends: the index of its first terminator, or |t| when it has none. */
  function LineEnd(t: string): (k: nat)
    ensures k <= |t|
    ensures k < |t| ==> IsLineBreak(t[k])
    ensures OneLine(t[..k])
  {
    if t == [] || IsLineBreak(t[0]) then 0
    else
      var k := 1 + LineEnd(t[1..]);
      assert t[..k] == [t[0]] + t[1..][..k - 1];
      k
  }

  /** What readLine leaves after a line ending at k: one terminator is consumed, "\r\n" counting as one. */
  function AfterBreak(t: string, k: nat): (rest: string)
    requires k < |t|
    ensures |rest| < |t| - k
  {
    if t[k] == '\r' && k + 1 < |t| && t[k + 1] == '\n' then t[k + 2..] else t[k + 1..]
  }

  /**
   * The successive results of BufferedReader.readLine until it returns null:
   * a line ends at '\n', '\r' or "\r\n", the last line need not be
   * terminated, and a terminator at the very end opens no further line.
   */
  function ReadAll(t: string): (lines: seq<string>)
    ensures forall i :: 0 <= i < |lines| ==> OneLine(lines[i])
    decreases |t|
  {
    if t == [] then []
    else
      var k := LineEnd(t);
      if k == |t| then [t]
      else [t[..k]] + ReadAll(AfterBreak(t, k))
  }

  /** The text writeLines produces: every line followed by a terminator, newLine() taken as "\n". */
  function Written(lines: seq<string>): (t: string)
    ensures |t| >= |lines|
  {
    if lines == [] then [] else lines[0] + "\n" + Written(lines[1..])
  }

  lemma {:induction false} WrittenSnoc(lines: seq<string>, line: string)
    ensures Written(lines + [line]) == Written(lines) + line + "\n"
  {
    if lines == [] {
      assert lines + [line] == [line];
    } else {
      assert (lines + [line])[1..] == lines[1..] + [line];
      WrittenSnoc(lines[1..], line);
    }
  }

  /** A terminator after a one-line prefix ends the first line exactly there. */
  lemma {:induction false} LineEndAt(a: string, c: char, b: string)
    requires OneLine(a) && IsLineBreak(c)
    ensures LineEnd(a + [c] + b) == |a|
  {
    if a != [] {
      assert (a + [c] + b)[1..] == a[1..] + [c] + b;
      LineEndAt(a[1..], c, b);
    }
  }

  /** Reading the written text gives back the lines, as long as none of them holds a terminator. */
  lemma {:induction false} ReadWritten(lines: seq<string>)
    requires forall i :: 0 <= i < |lines| ==> OneLine(lines[i])
    ensures ReadAll(Written(lines)) == lines
  {
    if lines != [] {
      var l, rest := lines[0], Written(lines[1..]);
      var t := l + "\n" + rest;
      assert t == l + ['\n'] + rest;
      LineEndAt(l, '\n', rest);
      assert t[..|l|] == l;
      assert t[|l|] == '\n';
      assert t[|l| + 1..] == rest;
      ReadWritten(lines[1..]);
      assert [l] + lines[1..] == lines;
    }
  }

  /** A field holding a terminator splits its record line in two when the file is read back. */
  lemma BreakSplitsLine(a: string, b: string)
    requires OneLine(a) && OneLine(b)
    ensures ReadAll(Written([a + "\n" + b])) == [a, b]
  {
    assert Written([a + "\n" + b]) == Written([a, b]) by {
      assert [a, b][1..] == [b];
      assert [b][1..] == [];
    }
    ReadWritten([a, b]);
  }

  /** The lines readLines keeps: all but the whitespace-only ones, verbatim and in order. */
  function NonBlank(lines: seq<string>): (kept: seq<string>)
    ensures |kept| <= |lines|
    ensures forall l {:trigger l in kept} :: l in kept <==> l in lines && !IsBlank(l)
  {
    if lines == [] then []
    else
      var last := lines[|lines| - 1];
      var init := NonBlank(lines[..|lines| - 1]);
      assert lines == lines[..|lines| - 1] + [last];
      if IsBlank(last) then init else init + [last]
  }

  /** Filtering distributes over concatenation. */
  lemma {:induction false} NonBlankAppend(a: seq<string>, b: seq<string>)
    ensures NonBlank(a + b) == NonBlank(a) + NonBlank(b)
    decreases |b|
  {
    if b == [] {
      assert a + b == a;
    } else {
      var b' := b[..|b| - 1];
      assert (a + b)[..|a + b| - 1] == a + b';
      assert (a + b)[|a + b| - 1] == b[|b| - 1];
      NonBlankAppend(a, b');
    }
  }

  /** readLines: a missing file reads as no lines; an existing one as its non-blank lines. */
  function LinesOf(file: Option<string>): (lines: seq<string>)
    ensures file.None? ==> lines == []
    ensures file.Some? ==> lines == NonBlank(ReadAll(file.value))
    ensures forall i :: 0 <= i < |lines| ==> OneLine(lines[i]) && !IsBlank(lines[i])
  {
    match file
    case None => []
    case Some(t) =>
      var kept := NonBlank(ReadAll(t));
      assert forall i :: 0 <= i < |kept| ==> kept[i] in kept;
      kept
  }

  /** The entities of the lines that decode to non-null, in line order. */
  function Decoded<T>(lines: seq<string>, decode: string -> Option<T>): (xs: seq<T>)
    ensures |xs| <= |lines|
  {
    if lines == [] then []
    else
      var init := Decoded(lines[..|lines| - 1], decode);
      match decode(lines[|lines| - 1])
      case Some(x) => init + [x]
      case None => init
  }

  /** One line per entity, in collection order. */
  function Encoded<T>(xs: seq<T>, encode: T -> string): (lines: seq<string>)
    ensures |lines| == |xs|
    ensures forall i :: 0 <= i < |xs| ==> lines[i] == encode(xs[i])
  {
    seq(|xs|, i requires 0 <= i < |xs| => encode(xs[i]))
  }

  /**
   * The loans of the lines, in line order, or None when some line makes the
   * decoder throw: one bad date fails the whole load.
   */
  function DecodedLoans(lines: seq<string>): (r: Option<seq<Loans.Loan>>)
    ensures r.None? <==> exists i :: 0 <= i < |lines| && Loans.FromFileString(lines[i]).DateError?
    ensures r.Some? ==> |r.value| <= |lines|
  {
    if lines == [] then Some([])
    else
      var init := lines[..|lines| - 1];
      var last := lines[|lines| - 1];
      assert forall i :: 0 <= i < |init| ==> init[i] == lines[i];
      match DecodedLoans(init)
      case None => None
      case Some(ls) =>
        match Loans.FromFileString(last)
        case NoRecord => Some(ls)
        case Decoded(l) => Some(ls + [l])
        case DateError => None
  }

  /** Decoding is a filter-map: it distributes over concatenation of line sequences. */
  lemma {:induction false} DecodedAppend<T>(a: seq<string>, b: seq<string>, decode: string -> Option<T>)
    ensures Decoded(a + b, decode) == Decoded(a, decode) + Decoded(b, decode)
    decreases |b|
  {
    if b == [] {
      assert a + b == a;
    } else {
      var b' := b[..|b| - 1];
      assert (a + b)[..|a + b| - 1] == a + b';
      assert (a + b)[|a + b| - 1] == b[|b| - 1];
      DecodedAppend(a, b', decode);
    }
  }

  /** Saving then loading gives back every entity whose line decodes to itself and is not blank. */
  lemma {:induction false} LoadSaved<T>(xs: seq<T>, encode: T -> string, decode: string -> Option<T>)
    requires forall i :: 0 <= i < |xs| ==> decode(encode(xs[i])) == Some(xs[i]) && !IsBlank(encode(xs[i]))
    ensures Decoded(NonBlank(Encoded(xs, encode)), decode) == xs
  {
    if xs != [] {
      var init := xs[..|xs| - 1];
      var last := xs[|xs| - 1];
      assert xs == init + [last];
      LoadSaved(init, encode, decode);
      EncodedSnoc(init, last, encode);
      NonBlankSnoc(Encoded(init, encode), encode(last));
      DecodedAppend(NonBlank(Encoded(init, encode)), [encode(last)], decode);
      assert [encode(last)][..0] == [];
    }
  }

  /** Reading back the text of saved lines gives the lines that are not blank. */
  lemma ReadSaved<T>(xs: seq<T>, encode: T -> string)
    requires forall i :: 0 <= i < |xs| ==> OneLine(encode(xs[i]))
    ensures LinesOf(Some(Written(Encoded(xs, encode)))) == NonBlank(Encoded(xs, encode))
  {
    ReadWritten(Encoded(xs, encode));
  }

  /**
   * loadBooks(saveBooks(bs)) == bs when no string field of any book holds
   * '|' or a line terminator.
   */
  lemma BooksRoundTrip(bs: seq<Books.Book>)
    requires forall i :: 0 <= i < |bs| ==> Books.BarFree(bs[i]) && Books.BreakFree(bs[i])
    ensures Decoded(LinesOf(Some(Written(Encoded(bs, Books.ToFileString)))), Books.FromFileString) == bs
  {
    forall i | 0 <= i < |bs|
      ensures Books.FromFileString(Books.ToFileString(bs[i])) == Some(bs[i])
    {
      Books.RoundTrip(bs[i]);
    }
    ReadSaved(bs, Books.ToFileString);
    LoadSaved(bs, Books.ToFileString, Books.FromFileString);
  }

  /**
   * loadMembers(saveMembers(ms)) == ms when no field of any member holds '|'
   * or a line terminator.
   */
  lemma MembersRoundTrip(ms: seq<Members.Member>)
    requires forall i :: 0 <= i < |ms| ==> Members.BarFree(ms[i]) && Members.BreakFree(ms[i])
    ensures Decoded(LinesOf(Some(Written(Encoded(ms, Members.ToFileString)))), Members.FromFileString) == ms
  {
    forall i | 0 <= i < |ms|
      ensures Members.FromFileString(Members.ToFileString(ms[i])) == Some(ms[i])
    {
      Members.RoundTrip(ms[i]);
    }
    ReadSaved(ms, Members.ToFileString);
    LoadSaved(ms, Members.ToFileString, Members.FromFileString);
  }

  /**
   * A title `a` + newline + `b` loses the whole book: the saved record comes
   * back as the two lines `isbn|a` and `b|author|quantity`, and neither has
   * the four fields a book line needs.
   */
  lemma BreakInTitleDropsBook(isbn: string, a: string, b: string, author: string, quantity: Int32)
    requires NoBar(isbn) && NoBar(a) && NoBar(b) && NoBar(author)
    requires OneLine(isbn) && OneLine(a) && OneLine(b) && OneLine(author)
    ensures Decoded(LinesOf(Some(Written(Encoded([Books.Book(isbn, a + "\n" + b, author, quantity)], Books.ToFileString)))),
                    Books.FromFileString) == []
  {
    var book := Books.Book(isbn, a + "\n" + b, author, quantity);
    var x, y := TitleBreakLines(isbn, a, b, author, quantity);
    assert Encoded([book], Books.ToFileString) == [x + "\n" + y];
    BreakSplitsLine(x, y);
    NoBookInEither(x, y);
  }

  lemma NoBookInEither(x: string, y: string)
    requires !IsBlank(x) && !IsBlank(y)
    requires Books.FromFileString(x).None? && Books.FromFileString(y).None?
    ensures Decoded(NonBlank([x, y]), Books.FromFileString) == []
  {
    assert [x, y][..1] == [x];
    assert [x][..0] == [];
    assert NonBlank([x, y]) == [x, y];
  }

  /** The two lines the record of a book with a line break in its title becomes. */
  lemma TitleBreakLines(isbn: string, a: string, b: string, author: string, quantity: Int32)
    returns (x: string, y: string)
    requires NoBar(isbn) && NoBar(a) && NoBar(b) && NoBar(author)
    requires OneLine(isbn) && OneLine(a) && OneLine(b) && OneLine(author)
    ensures Books.ToFileString(Books.Book(isbn, a + "\n" + b, author, quantity)) == x + "\n" + y
    ensures OneLine(x) && OneLine(y) && !IsBlank(x) && !IsBlank(y)
    ensures Books.FromFileString(x).None? && Books.FromFileString(y).None?
  {
    var ei, ea, eb, eu, q := Escape(isbn), Escape(a), Escape(b), Escape(author), IntToString(quantity);
    TitleBreakText(isbn, a, b, author, quantity);
    x := ei + [Bar] + ea;
    y := eb + [Bar] + (eu + [Bar] + q);
    assert OneLine(q);
    EscapeNoBar(isbn);
    EscapeNoBar(a);
    EscapeNoBar(b);
    EscapeNoBar(author);
    TwoFieldsShort(ei, ea);
    ThreeFieldsShort(eb, eu, q);
  }

  lemma TitleBreakText(isbn: string, a: string, b: string, author: string, quantity: Int32)
    ensures var ei, ea, eb, eu, q := Escape(isbn), Escape(a), Escape(b), Escape(author), IntToString(quantity);
      Books.ToFileString(Books.Book(isbn, a + "\n" + b, author, quantity))
      == (ei + [Bar] + ea) + "\n" + (eb + [Bar] + (eu + [Bar] + q))
  {
    var ei, ea, eb, eu, q := Escape(isbn), Escape(a), Escape(b), Escape(author), IntToString(quantity);
    EscapeBreak(a, b);
    assert Books.ToFileString(Books.Book(isbn, a + "\n" + b, author, quantity))
        == Join([ei, ea + ("\n" + eb), eu, q]);
    JoinBreak(ei, ea, eb, eu, q);
  }

  /** Escaping leaves a line break where it is. */
  lemma EscapeBreak(a: string, b: string)
    ensures Escape(a + "\n" + b) == Escape(a) + ("\n" + Escape(b))
  {
    EscapeCons('\n', b);
    assert "\n" + b == ['\n'] + b;
    EscapeAppend(a, "\n" + b);
    assert a + "\n" + b == a + ("\n" + b);
  }

  /** The joined line of four fields, the second of which holds a line break, cut at that break. */
  lemma JoinBreak(w: string, x: string, y: string, z: string, q: string)
    ensures Join([w, x + ("\n" + y), z, q]) == (w + [Bar] + x) + "\n" + (y + [Bar] + (z + [Bar] + q))
  {
    JoinFour(w, x + ("\n" + y), z, q);
    Regroup(w + [Bar], x, "\n", y, [Bar] + (z + [Bar] + q));
  }

  /** Moving the parentheses of a five-part concatenation. */
  lemma Regroup(p: string, a: string, n: string, b: string, r: string)
    ensures p + (a + n + b + r) == (p + a) + n + (b + r)
  {
  }

  /** A line of two fields is no book. */
  lemma TwoFieldsShort(u: string, v: string)
    requires NoBar(u) && NoBar(v)
    ensures Books.FromFileString(u + [Bar] + v).None?
  {
    SplitAtBar(u, v);
    SplitNoBar(v);
  }

  /** A line of three fields is no book either. */
  lemma ThreeFieldsShort(u: string, v: string, w: string)
    requires NoBar(u) && NoBar(v) && NoBar(w)
    ensures Books.FromFileString(u + [Bar] + (v + [Bar] + w)).None?
  {
    SplitAtBar(u, v + [Bar] + w);
    SplitAtBar(v, w);
    SplitNoBar(w);
  }

  lemma EncodedSnoc<T>(xs: seq<T>, x: T, encode: T -> string)
    ensures Encoded(xs + [x], encode) == Encoded(xs, encode) + [encode(x)]
  {
    assert (xs + [x])[..|xs|] == xs;
  }

  lemma NonBlankSnoc(lines: seq<string>, line: string)
    requires !IsBlank(line)
    ensures NonBlank(lines + [line]) == NonBlank(lines) + [line]
  {
    assert (lines + [line])[..|lines|] == lines;
  }

  lemma DecodedLoansSnoc(lines: seq<string>, line: string, acc: seq<Loans.Loan>, l: Loans.Loan)
    requires DecodedLoans(lines) == Some(acc) && Loans.FromFileString(line) == Loans.Decoded(l)
    ensures DecodedLoans(lines + [line]) == Some(acc + [l])
  {
    assert (lines + [line])[..|lines|] == lines;
  }

  /**
   * loadLoans(saveLoans(ls)) == ls when every loan has keys free of '|' and
   * of line terminators, and four-digit years.
   */
  lemma LoansRoundTrip(ls: seq<Loans.Loan>)
    requires forall i :: 0 <= i < |ls| ==> Loans.Writable(ls[i]) && Loans.BreakFree(ls[i])
    ensures DecodedLoans(LinesOf(Some(Written(Encoded(ls, Loans.ToFileString))))) == Some(ls)
  {
    ReadSaved(ls, Loans.ToFileString);
    LoadSavedLoans(ls);
  }

  /** The loans of the saved lines are the saved loans. */
  lemma {:induction false} LoadSavedLoans(ls: seq<Loans.Loan>)
    requires forall i :: 0 <= i < |ls| ==> Loans.Writable(ls[i])
    ensures DecodedLoans(NonBlank(Encoded(ls, Loans.ToFileString))) == Some(ls)
  {
    if ls != [] {
      var init := ls[..|ls| - 1];
      var last := ls[|ls| - 1];
      assert ls == init + [last];
      LoadSavedLoans(init);
      var line := Loans.ToFileString(last);
      EncodedSnoc(init, last, Loans.ToFileString);
      NonBlankSnoc(Encoded(init, Loans.ToFileString), line);
      Loans.RoundTrip(last);
      DecodedLoansSnoc(NonBlank(Encoded(init, Loans.ToFileString)), line, init, last);
    }
  }

  /** One readLine: the first line, then the lines of what follows its terminator. */
  lemma ReadStep(rest: string)
    requires rest != []
    ensures var k := LineEnd(rest);
      var later := NonBlank(ReadAll(if k == |rest| then [] else AfterBreak(rest, k)));
      NonBlank(ReadAll(rest)) == if IsBlank(rest[..k]) then later else [rest[..k]] + later
  {
    var k := LineEnd(rest);
    var next := if k == |rest| then [] else AfterBreak(rest, k);
    if k == |rest| {
      assert rest[..k] == rest;
      assert ReadAll(next) == [];
      assert ReadAll(rest) == [rest[..k]] + ReadAll(next);
    } else {
      assert ReadAll(rest) == [rest[..k]] + ReadAll(next);
    }
    NonBlankAppend([rest[..k]], ReadAll(next));
    assert [rest[..k]][..0] == [];
    if IsBlank(rest[..k]) {
      assert NonBlank([rest[..k]]) == [];
    }
  }

  /**
   * The invariant of the readLines loop: the lines kept so far, followed by
   * the non-blank lines of the text not yet read, are those of the whole file.
   */
  predicate ReadSoFar(t: string, lines: seq<string>, rest: string)
  {
    lines + NonBlank(ReadAll(rest)) == NonBlank(ReadAll(t))
  }

  /** One readLine keeps the invariant: a blank line is skipped... */
  lemma SkipBlankLine(t: string, lines: seq<string>, rest: string)
    requires rest != [] && ReadSoFar(t, lines, rest) && IsBlank(rest[..LineEnd(rest)])
    ensures ReadSoFar(t, lines, if LineEnd(rest) == |rest| then [] else AfterBreak(rest, LineEnd(rest)))
  {
    ReadStep(rest);
  }

  /** ...and any other line is kept. */
  lemma KeepLine(t: string, lines: seq<string>, rest: string)
    requires rest != [] && ReadSoFar(t, lines, rest) && !IsBlank(rest[..LineEnd(rest)])
    ensures ReadSoFar(t, lines + [rest[..LineEnd(rest)]],
                      if LineEnd(rest) == |rest| then [] else AfterBreak(rest, LineEnd(rest)))
  {
    var k := LineEnd(rest);
    ReadStep(rest);
    AppendAssoc(lines, [rest[..k]], NonBlank(ReadAll(if k == |rest| then [] else AfterBreak(rest, k))));
  }

  lemma AppendAssoc<T>(a: seq<T>, b: seq<T>, c: seq<T>)
    ensures a + (b + c) == a + b + c
  {
  }

  /** readLines over an existing or missing file: readLine until null, blank lines skipped. */
  method ReadLines(file: Option<string>) returns (lines: seq<string>)
    ensures lines == LinesOf(file)
  {
    lines := [];
    if file.None? {
      return;
    }
    var rest := file.value;
    while rest != []
      invariant ReadSoFar(file.value, lines, rest)
      decreases |rest|
    {
      var k := LineEnd(rest);
      var line := rest[..k];
      var next := if k == |rest| then [] else AfterBreak(rest, k);
      if IsBlank(line) {
        SkipBlankLine(file.value, lines, rest);
      } else {
        KeepLine(file.value, lines, rest);
        lines := lines + [line];
      }
      rest := next;
    }
  }

  method LoadBooks(files: DataFiles) returns (books: seq<Books.Book>)
    ensures books == Decoded(LinesOf(files.books), Books.FromFileString)
  {
    var lines := ReadLines(files.books);
    books := [];
    var i := 0;
    while i < |lines|
      invariant 0 <= i <= |lines|
      invariant books == Decoded(lines[..i], Books.FromFileString)
    {
      assert lines[..i + 1][..i] == lines[..i];
      var b := Books.FromFileString(lines[i]);
      if b.Some? {
        books := books + [b.value];
      }
      i := i + 1;
    }
    assert lines[..i] == lines;
  }

  method LoadMembers(files: DataFiles) returns (members: seq<Members.Member>)
    ensures members == Decoded(LinesOf(files.members), Members.FromFileString)
  {
    var lines := ReadLines(files.members);
    members := [];
    var i := 0;
    while i < |lines|
      invariant 0 <= i <= |lines|
      invariant members == Decoded(lines[..i], Members.FromFileString)
    {
      assert lines[..i + 1][..i] == lines[..i];
      var m := Members.FromFileString(lines[i]);
      if m.Some? {
        members := members + [m.value];
      }
      i := i + 1;
    }
    assert lines[..i] == lines;
  }

  /** loadLoans: None when a line's date makes the decoder throw, which aborts the whole load. */
  method LoadLoans(files: DataFiles) returns (loans: Option<seq<Loans.Loan>>)
    ensures loans == DecodedLoans(LinesOf(files.loans))
  {
    var lines := ReadLines(files.loans);
    var acc := [];
    var i := 0;
    while i < |lines|
      invariant 0 <= i <= |lines|
      invariant DecodedLoans(lines[..i]) == Some(acc)
    {
      assert lines[..i + 1][..i] == lines[..i];
      var l := Loans.FromFileString(lines[i]);
      if l.DateError? {
        assert lines[..i + 1][i] == lines[i];
        loans := None;
        assert DecodedLoans(lines[..i + 1]).None?;
        DecodedLoansPrefix(lines, i + 1);
        return;
      }
      if l.Decoded? {
        acc := acc + [l.loan];
      }
      i := i + 1;
    }
    assert lines[..i] == lines;
    loans := Some(acc);
  }

  /** Once a prefix of the lines fails, so do all the lines. */
  lemma DecodedLoansPrefix(lines: seq<string>, n: nat)
    requires n <= |lines| && DecodedLoans(lines[..n]).None?
    ensures DecodedLoans(lines).None?
  {
    var i :| 0 <= i < n && Loans.FromFileString(lines[..n][i]).DateError?;
    assert lines[..n][i] == lines[i];
  }

  /** writeLines: each line written, then newLine(). */
  method WriteLines(lines: seq<string>) returns (text: string)
    ensures text == Written(lines)
  {
    text := [];
    for i := 0 to |lines|
      invariant text == Written(lines[..i])
    {
      WrittenSnoc(lines[..i], lines[i]);
      assert lines[..i + 1] == lines[..i] + [lines[i]];
      text := text + lines[i] + "\n";
    }
    assert lines[..|lines|] == lines;
  }

  /** The loop of toBookLines, toMemberLines and toLoanLines: one line per entity, appended in order. */
  method EncodeAll<T>(xs: seq<T>, encode: T -> string) returns (lines: seq<string>)
    ensures lines == Encoded(xs, encode)
  {
    lines := [];
    for i := 0 to |xs|
      invariant lines == Encoded(xs[..i], encode)
    {
      assert xs[..i + 1][..i] == xs[..i];
      lines := lines + [encode(xs[i])];
    }
    assert xs[..|xs|] == xs;
  }

  method ToBookLines(books: seq<Books.Book>) returns (lines: seq<string>)
    ensures lines == Encoded(books, Books.ToFileString)
  {
    lines := EncodeAll(books, Books.ToFileString);
  }

  method ToMemberLines(members: seq<Members.Member>) returns (lines: seq<string>)
    ensures lines == Encoded(members, Members.ToFileString)
  {
    lines := EncodeAll(members, Members.ToFileString);
  }

  method ToLoanLines(loans: seq<Loans.Loan>) returns (lines: seq<string>)
    ensures lines == Encoded(loans, Loans.ToFileString)
  {
    lines := EncodeAll(loans, Loans.ToFileString);
  }

  /** saveBooks: books.txt is overwritten with one terminated line per book. */
  method SaveBooks(files: DataFiles, books: seq<Books.Book>)
    modifies files`books
    ensures files.books == Some(Written(Encoded(books, Books.ToFileString)))
  {
    var lines := ToBookLines(books);
    var text := WriteLines(lines);
    files.books := Some(text);
  }

  method SaveMembers(files: DataFiles, members: seq<Members.Member>)
    modifies files`members
    ensures files.members == Some(Written(Encoded(members, Members.ToFileString)))
  {
    var lines := ToMemberLines(members);
    var text := WriteLines(lines);
    files.members := Some(text);
  }

  method SaveLoans(files: DataFiles, loans: seq<Loans.Loan>)
    modifies files`loans
    ensures files.loans == Some(Written(Encoded(loans, Loans.ToFileString)))
  {
    var lines := ToLoanLines(loans);
    var text := WriteLines(lines);
    files.loans := Some(text);
  }
}
