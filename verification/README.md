# Library catalog: record codec, flat-file storage and loan service

This project is a Dafny model of the core of a small library-management
program written in Java. The program keeps three lists in memory: the
books of the catalog, the registered members and the loans. It loads each
list from its own text file when the service starts and writes the whole
list back after every change. The model covers three parts.

- **The line codec of each entity.** `Book`, `Member` and `Loan` each turn
  themselves into one line of `|`-separated fields and back. String fields
  are escaped: a backslash is doubled and `|` becomes `\|`. Decoding splits
  on every `|` and unescapes each field. A line with too few fields gives no
  record. A book quantity that is not a number reads as 0. A loan date that
  is not an ISO date makes the decoder throw.
- **The storage layer (`FileStorage`).** Saving writes one line per record,
  in list order, each followed by a line terminator. Reading a file splits
  its text into lines as `readLine` does, skips blank lines and treats a
  missing file as empty. Loading decodes every line and keeps the records
  that decode.
- **The service (`LibraryService`).** It adds books, merging copies that share
  an ISBN ignoring case. It adds members, refusing a duplicate id. It finds
  books and members, searches titles and authors, issues a book when a copy
  is free, and returns a book with its late fine.

Values that the Java objects only carry (`Book`, `Member`, `Loan`) are Dafny
datatypes. `setQuantity` and `setReturned` become functions that build the
updated value. `LibraryService` is a class whose three list fields its
methods update in place. The data files are the fields of a `DataFiles`
object: `None` stands for a missing file, `Some(text)` for a file's text.
`FileStorage.load*` read those fields and `save*` assign them. Dates are
epoch days, and the codec writes them as ISO `YYYY-MM-DD` text. Java `int`
arithmetic in the quantity sum wraps around explicitly (`Decimal.Wrap32`).

Escaping `|` as `\|` only helps if the split skips escaped bars. The code
splits with `split("\\|", -1)`, which cuts at every bar, escaped or not,
and the model follows the code. The round trips are therefore proved for
fields without `|` (`Books.RoundTrip`, `Members.RoundTrip`,
`Loans.RoundTrip`). For any record, `Books.LineFields`,
`Members.LineFields` and `Loans.LineFields` state how the split cuts its
line: each escaped field is cut at every bar it holds. The lemmas
`Books.BarInTitleIsLost` and `Members.BarInNameIsLost` work out the case of
one bar in a title or a name.

The file level adds a second condition. `writeLines` writes a record line
as it is, and `readLine` ends a line at every `\n`, `\r` or `\r\n`. A field
holding a line break therefore splits its record in two when the file is
read back. The storage round trips (`Storage.BooksRoundTrip` and the
others) require fields free of line breaks as well as of bars, and
`Storage.BreakInTitleDropsBook` shows a book with a line break in its
title disappearing from the loaded list.

Modules, one file each:
- `Wrappers` (`wrappers.dfy`): Option.
- `Text` (`text.dfy`): case folding, `contains`, blank test, split and join.
- `Decimal` (`decimal.dfy`): `int` text and `Integer.parseInt`.
- `Escaping` (`escaping.dfy`): escape and unescape.
- `Calendar` (`calendar.dfy`): ISO local dates.
- `Books`, `Members`, `Loans` (`book.dfy`, `member.dfy`, `loan.dfy`): the three record codecs.
- `Storage` (`file_storage.dfy`): the storage layer.
- `Catalog` (`catalog.dfy`): the specification functions of the service, and the lemmas about them.
- `Library` (`library_service.dfy`): the service class.

## Model

| member | source | states |
|---|---|---|
| Escaping.UnescapeField | Book.java:66-82 | The one-flag unescape loop yields exactly the reference reading `Unescape`: each backslash gives the character after it, and a lone trailing backslash is dropped. Its invariant is `Pending`: the text built so far, followed by the reading of the rest with the pending backslash, is the reading of the whole field. |
| Escaping.PendingStep | Book.java:70-79 | Each iteration of the unescape loop keeps that invariant, in each of its three branches. |
| Escaping.Escape | Book.java:61-64 | Escaping adds no line terminator to a field that has none. |
| Escaping.Unescape | Book.java:66-82 | Unescaping never lengthens a field. |
| Escaping.UnescapePlain | Book.java:66-82 | A field with no backslash unescapes to itself. |
| Escaping.ReplaceChar | Book.java:63 | `String.replace` of one character leaves none of it when the replacement has none. |
| Escaping.ReplaceCharAbsent | Book.java:63 | `String.replace` brings in no character that neither the input nor the replacement has. |
| Escaping.UnescapeEscape | Book.java:61-82 | Unescaping an escaped string gives the string back, for every string. |
| Escaping.UnescapeTrailingBackslash | Book.java:66-82 | An escaped string followed by one stray backslash unescapes to the original string: the trailing backslash is dropped. |
| Escaping.EscapeNoBar | Book.java:61-64 | An escaped field contains no `\|` exactly when the raw field contains none. |
| Escaping.EscapeWithBar | Book.java:61-64 | Escaping `a\|b` gives escape(a), a backslash, the bar, then escape(b). |
| Escaping.EscapeAppend | Book.java:61-64 | Escaping distributes over concatenation. |
| Escaping.EscapeCons | Book.java:61-64 | The two whole-string replacements, in their order, act character by character. |
| Escaping.ReplaceCharAppend | Book.java:63 | `String.replace` of one character distributes over concatenation. |
| Escaping.UnescapeStep | Member.java:47-63 | Unescape consumes a backslash pair, or one plain character, at a time. |
| Text.Split | Book.java:46 | Splitting on the delimiter with limit -1 gives one more piece than the line has bars, and no piece contains a bar. |
| Text.SplitJoin | Book.java:40-47 | Splitting the join of bar-free pieces gives the pieces back. |
| Text.JoinSplit | Book.java:46 | Joining the pieces of any line with bars gives the line back. |
| Text.SplitAppendBar | Book.java:46 | A bar anywhere in a line cuts it into the pieces of either side, whether or not a backslash precedes it. |
| Text.SplitAtBar | Book.java:46 | A bar after a bar-free prefix cuts the line exactly there. |
| Text.SplitNoBar | Book.java:46 | A line without a bar is a single piece. |
| Text.SplitJoinFive | Loan.java:29-35 | A five-field loan line of bar-free fields splits back into its five fields. |
| Text.Join | Book.java:40 | A line joined from two or more fields contains a bar and has at least one character per delimiter. |
| Text.JoinThree | Member.java:28 | The joined line of three fields is the fields with a bar between each two. |
| Text.JoinFour | Book.java:40 | The joined line of four fields is the fields with a bar between each two. |
| Text.JoinFive | Loan.java:30 | The joined line of five fields is the fields with a bar between each two. |
| Text.OneLineJoinThree | Member.java:28 | Joining three one-line fields gives one line: the delimiter is no line terminator. |
| Text.OneLineJoinFour | Book.java:40 | Joining four one-line fields gives one line. |
| Text.OneLineJoinFive | Loan.java:30 | Joining five one-line fields gives one line. |
| Text.SplitJoinedCons | Book.java:46 | The split of a joined line is the split of its first field followed by the split of the join of the rest. |
| Text.SplitJoinedThree | Member.java:34 | The split of a joined three-field line is the splits of its fields, one after another, whatever bars they hold. |
| Text.SplitJoinedFour | Book.java:46 | The split of a joined four-field line is the splits of its fields, one after another. |
| Text.SplitJoinedFive | Loan.java:35 | The split of a joined five-field line is the splits of its fields, one after another. |
| Text.EqualsIgnoreCase | LibraryService.java:39 | Strings equal ignoring case have the same length, and equal strings are equal ignoring case. |
| Text.Contains | LibraryService.java:47 | A string contains each of its prefixes, the empty one included, and no part longer than itself. |
| Text.IsBlank | FileStorage.java:89 | The empty line is blank, and a blank line holds no delimiter. |
| Text.JoinCons | Book.java:40 | The joined line is the first field, a bar, then the join of the rest. |
| Text.ToLower | LibraryService.java:44-52 | `toLowerCase` keeps the length of the string. |
| Decimal.Wrap32 | LibraryService.java:30 | The Java `int` sum: an in-range value is unchanged, and any value is congruent to its wrapped form modulo 2^32. |
| Decimal.NatToDigits | Book.java:40 | The decimal digits of a natural number: non-empty, all digits, no leading zero, and their value is the number. |
| Decimal.NatToDigitsLength | Loan.java:12 | A number below 10^k has at most k digits. |
| Decimal.ZeroPad | Loan.java:12 | Left zero-padding keeps the digits and their value and reaches the requested width. |
| Decimal.LeadingZero | Loan.java:12 | A leading zero does not change a digit string's value. |
| Decimal.DigitChar | Book.java:40 | A value 0-9 becomes a digit character. |
| Decimal.IntToString | Book.java:40 | The quantity text is non-empty and consists of digits with at most a leading minus sign. |
| Decimal.ParseInt | Book.java:51-56 | `Integer.parseInt` accepts only an optional sign followed by digits; out-of-range values are rejected. |
| Decimal.ParseIntToString | Book.java:40-56 | Every `int` quantity written by toFileString parses back to the same value. |
| Calendar.YearStartStep | Loan.java:12 | Consecutive years start one year length apart. |
| Calendar.DaysBeforeMonthStep | Loan.java:12 | Consecutive months start one month length apart, and the months fill the year. |
| Calendar.YearUpFrom | Loan.java:12 | Searching upwards finds the year whose span contains the day. |
| Calendar.YearDownFrom | Loan.java:12 | Searching downwards finds the year whose span contains the day. |
| Calendar.YearOf | Loan.java:12 | Every epoch day lies in the span of the year computed for it. |
| Calendar.MonthFrom | Loan.java:12 | The month found is the one whose days contain the given day of the year. |
| Calendar.DateOf | Loan.java:12 | Every epoch day is a valid proleptic Gregorian date, and that date maps back to the same epoch day. |
| Calendar.YearText | Loan.java:12 | The year text uses only digits and sign characters. |
| Calendar.DateCharsAppend | Loan.java:12 | Joining two texts made only of digits and signs gives such a text again. |
| Calendar.FormatDate | Loan.java:29-31 | ISO_LOCAL_DATE formatting yields only digits, signs and dashes, so never the delimiter. |
| Calendar.ParseDate | Loan.java:39-40 | A date accepted by the parser has the `YYYY-MM-DD` shape: ten characters with dashes at positions 4 and 7. |
| Calendar.ZeroPadWidth | Loan.java:12 | A number below 10^w padded to width w has exactly w characters. |
| Calendar.ParseFormatDate | Loan.java:12-40 | Every date with a year in 0000-9999 is parsed back from its formatted text to the same day. |
| Calendar.DateSlices | Loan.java:12 | A four-digit year, a two-digit month and a two-digit day joined by dashes make ten characters, with the dashes at positions 4 and 7 and each group back at its place. |
| Calendar.ParseDigitGroups | Loan.java:39-40 | Three digit groups of the right widths that name a valid date parse to that date's epoch day. |
| Books.SetQuantity | Book.java:33-35 | setQuantity changes the quantity and nothing else. |
| Books.ToFileString | Book.java:38-41 | A book line always has a bar and is never blank. With no line break in its fields it is one line. For a book without `\|` in its fields, the line splits into exactly the escaped isbn, title and author and the decimal quantity. |
| Books.FieldsOneLine | Book.java:38-41 | Escaping and the decimal quantity add no line terminator. |
| Books.LineFields | Book.java:40-46 | For any book, the split of its line is the escaped isbn, title and author, each cut at every bar it holds, then the quantity. |
| Books.QuantityField | Book.java:51-56 | A quantity that does not parse becomes 0; otherwise it is the parsed value. |
| Books.FromFileString | Book.java:44-58 | A line yields no book exactly when it has fewer than four fields. |
| Books.ExtraFieldsIgnored | Book.java:46-50 | Fields after the fourth do not change the decoded book. |
| Books.RoundTrip | Book.java:38-58 | A book without `\|` in its fields is read back equal to itself. |
| Books.TitleWithBarSplits | Book.java:40-47 | A title `a\|b` makes the line split into five pieces. The stray backslash stays on the `a` piece. |
| Books.BarInTitleIsLost | Book.java:38-58 | A book whose title is `a\|b` comes back with title `a`, author `b`, and the quantity read from the escaped author. |
| Books.NonNumericQuantityIsZero | Book.java:51-56 | A quantity field that does not start like a number decodes to 0, and the book is still returned. |
| Members.ToFileString | Member.java:27-30 | A member line always has a bar and is never blank. With no line break in its fields it is one line. Without `\|` in the fields, it splits into exactly the escaped id, name and contact. |
| Members.FieldsOneLine | Member.java:27-30 | Escaping adds no line terminator. |
| Members.LineFields | Member.java:27-34 | For any member, the split of its line is the escaped id, name and contact, each cut at every bar it holds. |
| Members.FromFileString | Member.java:32-40 | A line yields no member exactly when it has fewer than three fields. |
| Members.ExtraFieldsIgnored | Member.java:34-39 | Fields after the third do not change the decoded member. |
| Members.RoundTrip | Member.java:27-40 | A member without `\|` in its fields is read back equal to itself. |
| Members.NameWithBarSplits | Member.java:27-34 | A name `a\|b` makes the line split into four pieces. |
| Members.BarInNameIsLost | Member.java:27-40 | A member whose name is `a\|b` comes back with name `a` and contact `b`. |
| Loans.SetReturned | Loan.java:27 | setReturned changes the flag and nothing else. |
| Loans.DateTextNoBar | Loan.java:29-31 | A formatted date never contains the delimiter or a line terminator. |
| Loans.DateCharsPlain | Loan.java:30 | Text made only of digits, signs and dashes holds no delimiter and no line terminator. |
| Loans.BoolText | Loan.java:30 | The flag text is `true` (four characters, starting with `t`) or `false` (five, starting with `f`). Neither holds the delimiter or a line terminator. |
| Loans.ParseBoolean | Loan.java:41 | Only a four-character field can parse as true, and `true` does. |
| Loans.FieldsJoin | Loan.java:29-31 | A loan line has a bar and is not blank. With bar-free keys, it splits into the escaped keys, the two date texts and the flag text. With keys free of line breaks, it is one line. |
| Loans.ToFileString | Loan.java:29-31 | A loan line always has a bar and is never blank, so loading never skips it as blank. With keys free of line breaks, it is one line. |
| Loans.LineFields | Loan.java:29-35 | For any loan, the split of its line is the escaped isbn and member id, each cut at every bar it holds, then the two dates and the flag. |
| Loans.FromFileString | Loan.java:33-43 | A line gives no record exactly when it has fewer than five fields. It throws exactly when it has five fields and a date field fails to parse. The returned flag is `Boolean.parseBoolean` of the fifth field. |
| Loans.ExtraFieldsIgnored | Loan.java:35-42 | Fields after the fifth do not change the decoded loan. |
| Loans.ParseBooleanText | Loan.java:29-41 | The written flag text parses back to the same boolean. |
| Loans.FromFields | Loan.java:33-43 | Five bar-free fields with parseable dates decode to the loan of the unescaped keys, the two dates and the parsed flag. |
| Loans.RoundTrip | Loan.java:29-43 | A loan with bar-free keys and four-digit years is read back equal to itself. |
| Loans.BadDateThrows | Loan.java:39-40 | A five-field line whose issue date is not a date makes the decoder throw. It does not skip the line. |
| Storage.DataFiles.constructor | FileStorage.java:12-14 | The three data files, each missing or the file's text. |
| Storage.LineEnd | FileStorage.java:88 | The first line of a text ends at its first terminator, or at the end of the text, and holds no terminator. |
| Storage.AfterBreak | FileStorage.java:88 | After a line, one terminator is consumed (`\r\n` counting as one), so the rest is strictly shorter. |
| Storage.ReadAll | FileStorage.java:86-91 | No line that `readLine` returns holds a line terminator. |
| Storage.Written | FileStorage.java:98-108 | The written text has at least one character, its terminator, per line. |
| Storage.WrittenSnoc | FileStorage.java:101-104 | Writing one more line appends that line and a terminator. |
| Storage.LineEndAt | FileStorage.java:88 | A terminator after a prefix without one ends the first line exactly there. |
| Storage.ReadWritten | FileStorage.java:86-104 | Reading back the written text gives exactly the lines written, when none of them holds a line terminator. |
| Storage.BreakSplitsLine | FileStorage.java:86-104 | A written line holding a line break is read back as two lines. |
| Storage.NonBlank | FileStorage.java:88-91 | The blank-line filter keeps exactly the non-blank lines and never adds one. |
| Storage.NonBlankAppend | FileStorage.java:88-91 | Filtering blank lines distributes over concatenation. |
| Storage.LinesOf | FileStorage.java:80-96 | A missing file reads as no lines. An existing file reads as the non-blank lines of its text, each free of line terminators. |
| Storage.ReadStep | FileStorage.java:88-90 | One `readLine`: the file's non-blank lines are the first line, unless it is blank, then the non-blank lines after its terminator. |
| Storage.SkipBlankLine | FileStorage.java:89 | A blank line read keeps the loop invariant `ReadSoFar` without being added. |
| Storage.KeepLine | FileStorage.java:90 | A non-blank line read keeps the loop invariant once it is appended. |
| Storage.ReadLines | FileStorage.java:80-96 | The read loop returns exactly `LinesOf` of the file, in order. |
| Storage.WriteLines | FileStorage.java:98-108 | The write loop produces exactly `Written` of the lines. |
| Storage.Decoded | FileStorage.java:21-29 | Decoding keeps at most one record per line. |
| Storage.DecodedAppend | FileStorage.java:21-29 | Decoding the concatenation of two line lists gives the concatenation of their records, in order. |
| Storage.Encoded | FileStorage.java:62-66 | One line per record, the i-th line encoding the i-th record. |
| Storage.EncodeAll | FileStorage.java:62-78 | The shared to*Lines loop produces exactly `Encoded` of the list. |
| Storage.ToBookLines | FileStorage.java:62-66 | The book lines are the encoded books, in list order. |
| Storage.ToMemberLines | FileStorage.java:68-72 | The member lines are the encoded members, in list order. |
| Storage.ToLoanLines | FileStorage.java:74-78 | The loan lines are the encoded loans, in list order. |
| Storage.LoadBooks | FileStorage.java:21-29 | The loaded books are exactly the decoded non-blank lines of the books file, in order. A missing file gives none. |
| Storage.LoadMembers | FileStorage.java:36-44 | The loaded members are exactly the decoded non-blank lines of the members file, in order. |
| Storage.DecodedLoans | FileStorage.java:51-59 | Loading loans fails exactly when some non-blank line throws a date error. Otherwise it keeps at most one loan per line. |
| Storage.LoadLoans | FileStorage.java:51-59 | The load loop returns exactly `DecodedLoans` of the file's lines. It stops at the first line that throws. |
| Storage.DecodedLoansPrefix | FileStorage.java:51-59 | A throwing line in a prefix makes the whole load throw. |
| Storage.DecodedLoansSnoc | FileStorage.java:51-59 | A successfully decoded line extends the loaded list by its loan. |
| Storage.SaveBooks | FileStorage.java:17-19 | The books file now holds exactly the written text of one encoded line per book, in order. |
| Storage.SaveMembers | FileStorage.java:32-34 | The members file now holds exactly the written text of one encoded line per member, in order. |
| Storage.SaveLoans | FileStorage.java:47-49 | The loans file now holds exactly the written text of one encoded line per loan, in order. |
| Storage.EncodedSnoc | FileStorage.java:62-66 | Encoding a list with one more record adds that record's line at the end. |
| Storage.NonBlankSnoc | FileStorage.java:88-91 | A non-blank line read last is kept last. |
| Storage.LoadSaved | FileStorage.java:17-29 | For any codec whose lines are non-blank and decode back, loading what was saved gives the list back. |
| Storage.ReadSaved | FileStorage.java:17-29 | Reading back the text of saved one-line records gives the non-blank encoded lines. |
| Storage.BooksRoundTrip | FileStorage.java:17-29 | Saving and then loading a list of books whose fields hold neither a bar nor a line break gives the same list. |
| Storage.MembersRoundTrip | FileStorage.java:32-44 | Saving and then loading a list of members whose fields hold neither a bar nor a line break gives the same list. |
| Storage.LoansRoundTrip | FileStorage.java:47-59 | Saving and then loading writable loans whose keys hold no line break gives the same list, without a date error. |
| Storage.LoadSavedLoans | FileStorage.java:51-59 | Decoding the saved lines of writable loans gives the loans back. |
| Storage.BreakInTitleDropsBook | FileStorage.java:17-29 | Saving and loading a single book whose title holds a line break gives an empty list: the book is lost. |
| Storage.TitleBreakLines | Book.java:38-58 | The line of such a book reads back as two non-blank lines, neither of which decodes to a book. |
| Storage.TitleBreakText | Book.java:38-41 | The line of such a book is `isbn\|a`, the line break, then `b\|author\|quantity`, all escaped. |
| Storage.EscapeBreak | Book.java:61-64 | Escaping leaves a line break where it is. |
| Storage.TwoFieldsShort | Book.java:46-47 | A line of two fields decodes to no book. |
| Storage.ThreeFieldsShort | Book.java:46-47 | A line of three fields decodes to no book. |
| Storage.NoBookInEither | FileStorage.java:21-29 | Two non-blank lines that decode to no book load as no books. |
| Catalog.BookIndex | LibraryService.java:37-42 | The first book whose ISBN equals the key ignoring case. None exactly when no book matches. |
| Catalog.MemberIndex | LibraryService.java:77-82 | The first member whose id equals the key ignoring case. None exactly when no member matches. |
| Catalog.ActiveLoanIndex | LibraryService.java:120-121 | The first unreturned loan of this book and member, ignoring case. None exactly when there is none. |
| Catalog.ActiveCount | LibraryService.java:93-99 | The number of unreturned loans of the ISBN is at most the number of loans, and is zero exactly when no such loan exists. |
| Catalog.Available | LibraryService.java:89-102 | A book is available only if the catalog has it. |
| Catalog.AddedBook | LibraryService.java:26-35 | addBook keeps the list length exactly when the ISBN is already present, and otherwise appends the book. It never alters an existing ISBN, title or author. |
| Catalog.AddedMember | LibraryService.java:69-75 | addMember leaves the list unchanged exactly when the id is already present, and otherwise appends. Afterwards the id is always found. |
| Catalog.NewLoan | LibraryService.java:110-112 | The new loan is unreturned, issued today and due `days` later, for the given book and member. |
| Catalog.Returned | LibraryService.java:122 | Only the chosen loan changes, and it becomes returned. |
| Catalog.Matches | LibraryService.java:47-57 | The empty query matches every book, and a match needs a query no longer than the field. |
| Catalog.Search | LibraryService.java:44-62 | A search result holds exactly the books whose field contains the query ignoring case, and never more books than the catalog. |
| Catalog.LateFine | LibraryService.java:125-131 | The fine is never negative. It is positive exactly when today is after the due date, and it equals 2 per day late. |
| Catalog.SameKeySameBook | LibraryService.java:37-42 | Keys equal ignoring case find the same book. |
| Catalog.SameKeySameCount | LibraryService.java:93-99 | Keys equal ignoring case count the same loans. |
| Catalog.SameKeySameAvailability | LibraryService.java:89-102 | Keys equal ignoring case have the same availability. |
| Catalog.BookIndexKeysOnly | LibraryService.java:37-42 | The lookup depends only on the ISBNs, so changing a quantity does not move it. |
| Catalog.BookIndexSnoc | LibraryService.java:37-42 | Appending a book does not move an earlier match, and it is found when nothing earlier matches. |
| Catalog.UniqueLookup | LibraryService.java:37-42 | With unique ISBNs, a matching book is the one found. |
| Catalog.AddBookMerges | LibraryService.java:26-35 | Adding a known ISBN adds the quantity, with int wrap-around, to the first matching book, and changes nothing else. |
| Catalog.AddBookAppends | LibraryService.java:26-35 | Adding a new ISBN appends the book, which is then found at the end. |
| Catalog.AddBookTwice | LibraryService.java:26-35 | Adding two books with the same ISBN makes one entry with the summed quantity. |
| Catalog.AddBookKeepsUnique | LibraryService.java:26-35 | addBook keeps ISBNs unique ignoring case. |
| Catalog.AddMemberKeepsUnique | LibraryService.java:69-75 | addMember keeps member ids unique ignoring case. |
| Catalog.ActiveCountSnoc | LibraryService.java:93-99 | Appending a loan raises the count by one exactly when that loan is an open loan of the ISBN. |
| Catalog.ActiveCountReturned | LibraryService.java:118-124 | Returning a loan lowers the count of its ISBN by one when it was open, and changes no other count. |
| Catalog.AvailableWhenStocked | LibraryService.java:89-102 | When no book is over-lent, a book is available exactly when it exists and fewer copies are out than it owns. |
| Catalog.IssueKeepsStock | LibraryService.java:104-116 | Issuing an available book never lends more copies than a book owns. |
| Catalog.ReturnKeepsStock | LibraryService.java:118-135 | Returning any loan keeps every book within its stock. |
| Catalog.AddBookKeepsStock | LibraryService.java:26-35 | Adding copies without overflow keeps every book within its stock. |
| Catalog.SearchAppend | LibraryService.java:44-62 | The search of a concatenation is the concatenation of the searches, in order. |
| Catalog.SearchEmptyQuery | LibraryService.java:44-62 | The empty query matches every book, so the result is the whole catalog. |
| Catalog.SearchAllMatch | LibraryService.java:44-62 | A query that every book matches returns the whole list, in order. |
| Library.LibraryService.Loaded | LibraryService.java:11-13 | A service holding the given lists and files. |
| Library.LibraryService.Open | LibraryService.java:18-23 | Start-up loads the three lists from their files. It fails exactly when the loans file has a line that throws. |
| Library.LibraryService.AddBook | LibraryService.java:26-35 | The book list becomes `AddedBook` of the old list, and the books file then holds the encoded new list. |
| Library.LibraryService.FindBookByIsbn | LibraryService.java:37-42 | The scan returns the position `BookIndex` specifies, or None. |
| Library.LibraryService.SearchBooksByTitle | LibraryService.java:44-52 | The scan returns exactly the title search of the catalog, in catalog order. |
| Library.LibraryService.SearchBooksByAuthor | LibraryService.java:54-62 | The scan returns exactly the author search of the catalog, in catalog order. |
| Library.LibraryService.GetAllBooks | LibraryService.java:64-66 | The whole book list. |
| Library.LibraryService.AddMember | LibraryService.java:69-75 | The member list becomes `AddedMember` of the old list. The members file is rewritten only when a member was appended, and is untouched otherwise. |
| Library.LibraryService.FindMemberById | LibraryService.java:77-82 | The scan returns the position `MemberIndex` specifies, or None. |
| Library.LibraryService.GetAllMembers | LibraryService.java:84-86 | The whole member list. |
| Library.LibraryService.IsBookAvailable | LibraryService.java:89-102 | The counting loop answers exactly `Available`: the book exists and its quantity minus its open loans, in int arithmetic, is positive. |
| Library.LibraryService.IssueBook | LibraryService.java:104-116 | It answers true exactly when the book and the member exist and a copy is free. Then it appends the new loan and saves. Otherwise neither the loans nor the file change. |
| Library.LibraryService.ReturnBook | LibraryService.java:118-135 | It answers -1 exactly when there is no open loan of this book and member, and then changes nothing. Otherwise it marks the first such loan returned, saves, and answers the late fine. |
| Library.LibraryService.GetAllLoans | LibraryService.java:137 | The whole loan list. |

## Left out

- Null references are not modelled: a null line, a null field (`escape(null)` gives the empty string) and a null search key are outside the datatypes.
- Real file I/O is not modelled. That covers the file names and the charset. A file is its text, or absent. `IOException` on reading or writing, and its console message, are left out. A read therefore never stops part-way, and a write always succeeds.
- Storage.Written: `newLine()` writes the platform's line separator. The model writes `\n`. Since `readLine` ends a line at `\n`, `\r` or `\r\n` alike, the lines read back are the same with either separator.
- Calendar.ParseDate: years above 9999 are not accepted. ISO_LOCAL_DATE writes such a year with a leading `+` and five or more digits, for example when `issueBook` is given a very large `days`, and `LocalDate.parse` reads that text back. The model's parser accepts only four-digit years. On such a line `Loans.FromFileString` reports a date error, so `Storage.LoadLoans` and `Library.LibraryService.Open` fail where the Java program loads the loan.
- `LocalDate.now()` is a parameter `today` of `IssueBook` and `ReturnBook`.
- Catalog.NewLoan: the exception `LocalDate.plusDays` throws beyond year ±999999999 is not modelled. Epoch days are unbounded integers.
- Calendar.ParseFormatDate: the round trip is proved for years 0000-9999 only. ISO_LOCAL_DATE writes other years with a sign or more than four digits, and `ParseDate` accepts only the four-digit form. So `Loans.RoundTrip` and `Storage.LoansRoundTrip` require four-digit years.
- Library.LibraryService.ReturnBook: the Java method returns a `double`. The model returns the same value as an `int`, since the days late times 2.0 is always a whole number.
- Text.ToLower: `toLowerCase` and `equalsIgnoreCase` are modelled for ASCII letters only. Unicode case mappings are left out.
- Decimal.ParseInt: only ASCII digits are accepted. `Integer.parseInt` also takes digits from other Unicode scripts.
- Library.LibraryService.FindBookByIsbn: the Java method returns the `Book` object itself, and callers can change it through that alias. The model returns the book's position. `GetAllBooks`, `GetAllMembers` and `GetAllLoans` return the list value rather than the live list.
- Library.LibraryService.IsBookAvailable: the `borrowedCount` counter is an unbounded integer. It never exceeds the list length, so it cannot overflow a Java `int` for any list that fits in memory.
- `toString`, `equals` and `hashCode` of the entities (Book.java:84-100, Member.java:65-68, Loan.java:68-71) are not modelled. Only the presentation layers use them.
- Library.LibraryService.AddBook: no-over-lending (`Catalog.Stocked`) is stated by the lemmas `IssueKeepsStock`, `ReturnKeepsStock` and `AddBookKeepsStock` about the specification functions the methods are proved against. It is not repeated in the method contracts. The same holds for `IssueBook` and `ReturnBook`.
- Loans.ToFileString: the split of a loan line into its five fields is stated by `Loans.FieldsJoin`, not in this function's own contract.
- The text-menu and windowed front ends (LibraryApp.java, LibraryGUI.java) are not part of this model.
