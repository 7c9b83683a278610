/**
 * A catalog entry and its record line `isbn|title|author|quantity`.
 */
module Books {
  import opened Wrappers
  import opened Text
  import opened Decimal
  import opened Escaping

  /** A book: key isbn (compared ignoring case by the service), and the owned total of copies. */
  datatype Book = Book(isbn: string, title: string, author: string, quantity: Int32)

  /** setQuantity: the same book with a new total. */
  function SetQuantity(b: Book, quantity: Int32): (r: Book)
    ensures r.quantity == quantity
    ensures r.isbn == b.isbn && r.title == b.title && r.author == b.author
  {
    b.(quantity := quantity)
  }

  /** No string field holds the delimiter: the condition under which a book line round-trips. */
  predicate BarFree(b: Book)
  {
    NoBar(b.isbn) && NoBar(b.title) && NoBar(b.author)
  }

  /** No string field holds a line terminator: the condition under which the line survives the file. */
  predicate BreakFree(b: Book)
  {
    OneLine(b.isbn) && OneLine(b.title) && OneLine(b.author)
  }

  /** toFileString: the escaped string fields and the decimal quantity, joined by '|'. */
  function ToFileString(b: Book): (line: string)
    ensures Bar in line && !IsBlank(line)
    ensures BreakFree(b) ==> OneLine(line)
    ensures BarFree(b) ==>
      Split(line) == [Escape(b.isbn), Escape(b.title), Escape(b.author), IntToString(b.quantity)]
  {
    FieldsOneLine(b);
    var fields := [Escape(b.isbn), Escape(b.title), Escape(b.author), IntToString(b.quantity)];
    JoinCons(fields[0], fields[1..]);
    assert Join(fields)[|fields[0]|] == Bar;
    if BarFree(b) then
      EscapeNoBar(b.isbn);
      EscapeNoBar(b.title);
      EscapeNoBar(b.author);
      SplitJoin(fields);
      Join(fields)
    else
      Join(fields)
  }

  /** Escaping and the decimal quantity add no line terminator. */
  lemma FieldsOneLine(b: Book)
    ensures BreakFree(b) ==> OneLine(Join([Escape(b.isbn), Escape(b.title), Escape(b.author), IntToString(b.quantity)]))
  {
    if BreakFree(b) {
      var q := IntToString(b.quantity);
      assert OneLine(q);
      OneLineJoinFour(Escape(b.isbn), Escape(b.title), Escape(b.author), q);
    }
  }

  /** Integer.parseInt of the quantity field, with NumberFormatException caught as 0. */
  function QuantityField(s: string): (q: Int32)
    ensures ParseInt(s).None? ==> q == 0
    ensures ParseInt(s).Some? ==> q == ParseInt(s).value
  {
    match ParseInt(s)
    case Some(v) => v
    case None => 0
  }

  /**
   * fromFileString: None (null) when the line has fewer than four fields;
   * otherwise the first three fields unescaped and the fourth parsed, fields
   * beyond the fourth ignored. The split is not escape-aware.
   */
  function FromFileString(line: string): (r: Option<Book>)
    ensures r.None? <==> BarCount(line) < 3
  {
    var parts := Split(line);
    if |parts| < 4 then None
    else Some(Book(Unescape(parts[0]), Unescape(parts[1]), Unescape(parts[2]), QuantityField(parts[3])))
  }

  /**
   * How the split sees the line of any book: the escaped isbn, title and
   * author each cut at every bar they hold, then the quantity.
   */
  lemma LineFields(b: Book)
    ensures Split(ToFileString(b))
            == Split(Escape(b.isbn)) + (Split(Escape(b.title)) + (Split(Escape(b.author)) + [IntToString(b.quantity)]))
  {
    var ei, et, ea, q := Escape(b.isbn), Escape(b.title), Escape(b.author), IntToString(b.quantity);
    assert ToFileString(b) == Join([ei, et, ea, q]);
    SplitJoinedFour(ei, et, ea, q);
    assert NoBar(q);
    SplitNoBar(q);
  }

  /** Fields after the fourth are ignored. */
  lemma ExtraFieldsIgnored(line: string, extra: string)
    requires BarCount(line) >= 3
    ensures FromFileString(line + [Bar] + extra) == FromFileString(line)
  {
    SplitAppendBar(line, extra);
  }

  /** A book none of whose string fields holds '|' is read back exactly as it was written. */
  lemma RoundTrip(b: Book)
    requires BarFree(b)
    ensures FromFileString(ToFileString(b)) == Some(b)
  {
    UnescapeEscape(b.isbn);
    UnescapeEscape(b.title);
    UnescapeEscape(b.author);
    ParseIntToString(b.quantity);
  }

  /**
   * A title `a|b` does not survive: the split cuts between the escaping
   * backslash and the bar, unescape drops that stray backslash, the title
   * comes back as `a`, the author as `b`, and the quantity is read from the
   * escaped author, which is 0 unless that text happens to be a number.
   */
  lemma BarInTitleIsLost(isbn: string, a: string, b: string, author: string, quantity: Int32)
    requires NoBar(isbn) && NoBar(a) && NoBar(b) && NoBar(author)
    ensures FromFileString(ToFileString(Book(isbn, a + [Bar] + b, author, quantity)))
            == Some(Book(isbn, a, b, QuantityField(Escape(author))))
  {
    TitleWithBarSplits(isbn, a, b, author, quantity);
    UnescapeEscape(isbn);
    UnescapeTrailingBackslash(a);
    UnescapeEscape(b);
  }

  /** The pieces the split sees when the title is `a|b`. */
  lemma TitleWithBarSplits(isbn: string, a: string, b: string, author: string, quantity: Int32)
    requires NoBar(isbn) && NoBar(a) && NoBar(b) && NoBar(author)
    ensures Split(ToFileString(Book(isbn, a + [Bar] + b, author, quantity)))
            == [Escape(isbn), Escape(a) + [Backslash], Escape(b), Escape(author), IntToString(quantity)]
  {
    LineFields(Book(isbn, a + [Bar] + b, author, quantity));
    EscapeNoBar(isbn);
    EscapeNoBar(a);
    EscapeNoBar(b);
    EscapeNoBar(author);
    EscapeWithBar(a, b);
    PiecesWithOneBar(Escape(isbn), Escape(a) + [Backslash], Escape(b), Escape(author), IntToString(quantity));
  }

  /** The split of four fields the second of which holds one bar. */
  lemma PiecesWithOneBar(w: string, x: string, y: string, z: string, q: string)
    requires NoBar(w) && NoBar(x) && NoBar(y) && NoBar(z)
    ensures Split(w) + (Split(x + [Bar] + y) + (Split(z) + [q])) == [w, x, y, z, q]
  {
    SplitNoBar(w);
    SplitNoBar(z);
    SplitAtBar(x, y);
    SplitNoBar(y);
  }

  /** In particular an author that does not start like a number leaves the book with quantity 0. */
  lemma NonNumericQuantityIsZero(s: string)
    requires s != [] && !IsDigit(s[0]) && s[0] != '-' && s[0] != '+'
    ensures QuantityField(Escape(s)) == 0
  {
    EscapeCons(s[0], s[1..]);
    assert s == [s[0]] + s[1..];
  }
}
