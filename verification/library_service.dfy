/**
 * The catalog service: three in-memory lists loaded from the data files when
 * the service starts, updated in place by the operations, and written back
 * to their file after every change. The current date is a parameter of the
 * operations that need it.
 */
module Library {
  import opened Wrappers
  import opened Text
  import opened Decimal
  import opened Books
  import opened Members
  import opened Loans
  import opened Storage
  import opened Catalog

  class LibraryService {
    var books: seq<Book>
    var members: seq<Member>
    var loans: seq<Loan>
    /** The files FileStorage reads and writes. */
    const files: DataFiles

    constructor Loaded(files: DataFiles, books: seq<Book>, members: seq<Member>, loans: seq<Loan>)
      ensures this.files == files
      ensures this.books == books && this.members == members && this.loans == loans
    {
      this.files := files;
      this.books := books;
      this.members := members;
      this.loans := loans;
    }

    /**
     * new LibraryService(): load the three lists; None when loading the loans
     * throws, which the constructor lets escape.
     */
    static method Open(files: DataFiles) returns (r: Option<LibraryService>)
      ensures r.None? <==> DecodedLoans(LinesOf(files.loans)).None?
      ensures r.Some? ==> fresh(r.value) && r.value.files == files
      ensures r.Some? ==> r.value.books == Storage.Decoded(LinesOf(files.books), Books.FromFileString)
      ensures r.Some? ==> r.value.members == Storage.Decoded(LinesOf(files.members), Members.FromFileString)
      ensures r.Some? ==> Some(r.value.loans) == DecodedLoans(LinesOf(files.loans))
    {
      var bs := LoadBooks(files);
      var ms := LoadMembers(files);
      var ls := LoadLoans(files);
      if ls.None? {
        return None;
      }
      var s := new LibraryService.Loaded(files, bs, ms, ls.value);
      return Some(s);
    }

    // ----- books -----

    /** addBook: merge into the first book with the same isbn ignoring case, or append; then save. */
    method AddBook(b: Book)
      modifies this`books, files`books
      ensures books == AddedBook(old(books), b)
      ensures files.books == Some(Written(Encoded(books, Books.ToFileString)))
    {
      var existing := FindBookByIsbn(b.isbn);
      if existing.Some? {
        var i := existing.value;
        books := books[i := SetQuantity(books[i], Wrap32(books[i].quantity + b.quantity))];
      } else {
        books := books + [b];
      }
      assert books == AddedBook(old(books), b);
      SaveBooks(files, books);
    }

    /** findBookByIsbn: the position of the book returned, None for null. */
    method FindBookByIsbn(isbn: string) returns (r: Option<nat>)
      ensures r == BookIndex(books, isbn)
    {
      var i := 0;
      while i < |books|
        invariant 0 <= i <= |books|
        invariant forall j :: 0 <= j < i ==> !EqualsIgnoreCase(books[j].isbn, isbn)
      {
        if EqualsIgnoreCase(books[i].isbn, isbn) {
          return Some(i);
        }
        i := i + 1;
      }
      return None;
    }

    method SearchBooksByTitle(titlePart: string) returns (result: seq<Book>)
      ensures result == Search(books, ByTitle, titlePart)
    {
      result := [];
      for i := 0 to |books|
        invariant result == Search(books[..i], ByTitle, titlePart)
      {
        assert books[..i + 1][..i] == books[..i];
        if Contains(ToLower(books[i].title), ToLower(titlePart)) {
          result := result + [books[i]];
        }
      }
      assert books[..|books|] == books;
    }

    method SearchBooksByAuthor(authorPart: string) returns (result: seq<Book>)
      ensures result == Search(books, ByAuthor, authorPart)
    {
      result := [];
      for i := 0 to |books|
        invariant result == Search(books[..i], ByAuthor, authorPart)
      {
        assert books[..i + 1][..i] == books[..i];
        if Contains(ToLower(books[i].author), ToLower(authorPart)) {
          result := result + [books[i]];
        }
      }
      assert books[..|books|] == books;
    }

    method GetAllBooks() returns (r: seq<Book>)
      ensures r == books
    {
      return books;
    }

    // ----- members -----

    /** addMember: append and save unless the id is already present ignoring case. */
    method AddMember(m: Member)
      modifies this`members, files`members
      ensures members == AddedMember(old(members), m)
      ensures MemberIndex(old(members), m.memberId).None? ==>
        files.members == Some(Written(Encoded(members, Members.ToFileString)))
      ensures MemberIndex(old(members), m.memberId).Some? ==> files.members == old(files.members)
    {
      var existing := FindMemberById(m.memberId);
      if existing.None? {
        members := members + [m];
        SaveMembers(files, members);
      }
    }

    /** findMemberById: the position of the member returned, None for null. */
    method FindMemberById(id: string) returns (r: Option<nat>)
      ensures r == MemberIndex(members, id)
    {
      var i := 0;
      while i < |members|
        invariant 0 <= i <= |members|
        invariant forall j :: 0 <= j < i ==> !EqualsIgnoreCase(members[j].memberId, id)
      {
        if EqualsIgnoreCase(members[i].memberId, id) {
          return Some(i);
        }
        i := i + 1;
      }
      return None;
    }

    method GetAllMembers() returns (r: seq<Member>)
      ensures r == members
    {
      return members;
    }

    // ----- loans -----

    /** isBookAvailable: the book exists and more copies are owned than are out. */
    method IsBookAvailable(isbn: string) returns (available: bool)
      ensures available == Available(books, loans, isbn)
    {
      var book := FindBookByIsbn(isbn);
      if book.None? {
        return false;
      }
      var borrowedCount := 0;
      for i := 0 to |loans|
        invariant borrowedCount == ActiveCount(loans[..i], isbn)
      {
        assert loans[..i + 1][..i] == loans[..i];
        if !loans[i].returned && EqualsIgnoreCase(loans[i].isbn, isbn) {
          borrowedCount := borrowedCount + 1;
        }
      }
      assert loans[..|loans|] == loans;
      available := Wrap32(books[book.value].quantity - borrowedCount) > 0;
    }

    /**
     * issueBook: with an existing book, an existing member and a free copy,
     * record a loan issued today and due `days` later, save, and answer true;
     * otherwise answer false and change nothing.
     */
    method IssueBook(isbn: string, memberId: string, days: Int32, today: int) returns (ok: bool)
      modifies this`loans, files`loans
      ensures ok <==> BookIndex(books, isbn).Some? && MemberIndex(members, memberId).Some?
                      && Available(books, old(loans), isbn)
      ensures ok ==> loans == old(loans) + [NewLoan(isbn, memberId, days, today)]
      ensures ok ==> files.loans == Some(Written(Encoded(loans, Loans.ToFileString)))
      ensures !ok ==> loans == old(loans) && files.loans == old(files.loans)
    {
      var book := FindBookByIsbn(isbn);
      var member := FindMemberById(memberId);
      if book.None? || member.None? {
        return false;
      }
      var available := IsBookAvailable(isbn);
      assert available == Available(books, old(loans), isbn);
      if !available {
        return false;
      }
      var loan := NewLoan(isbn, memberId, days, today);
      assert BookIndex(books, isbn).Some? && MemberIndex(members, memberId).Some? && Available(books, loans, isbn);
      loans := loans + [loan];
      SaveLoans(files, loans);
      return true;
    }

    /**
     * returnBook: close the first open loan of this book and member, save,
     * and answer the late fine; answer -1, changing nothing, when there is
     * no such loan.
     */
    method ReturnBook(isbn: string, memberId: string, today: int) returns (fine: int)
      modifies this`loans, files`loans
      ensures fine == -1 <==> ActiveLoanIndex(old(loans), isbn, memberId).None?
      ensures ActiveLoanIndex(old(loans), isbn, memberId).None? ==>
        loans == old(loans) && files.loans == old(files.loans)
      ensures ActiveLoanIndex(old(loans), isbn, memberId).Some? ==>
        var i := ActiveLoanIndex(old(loans), isbn, memberId).value;
        loans == Returned(old(loans), i)
        && files.loans == Some(Written(Encoded(loans, Loans.ToFileString)))
        && fine == LateFine(old(loans)[i].dueDate, today)
    {
      var i := 0;
      while i < |loans|
        invariant 0 <= i <= |loans|
        invariant loans == old(loans) && files.loans == old(files.loans)
        invariant forall j :: 0 <= j < i ==> !ActiveForPair(loans[j], isbn, memberId)
      {
        var l := loans[i];
        if !l.returned && EqualsIgnoreCase(l.isbn, isbn) && EqualsIgnoreCase(l.memberId, memberId) {
          assert ActiveLoanIndex(old(loans), isbn, memberId) == Some(i);
          loans := loans[i := SetReturned(l, true)];
          assert loans == Returned(old(loans), i);
          SaveLoans(files, loans);
          if today > l.dueDate {
            var lateDays := today - l.dueDate;
            return lateDays * FinePerDay;
          } else {
            return 0;
          }
        }
        i := i + 1;
      }
      return -1;
    }

    method GetAllLoans() returns (r: seq<Loan>)
      ensures r == loans
    {
      return loans;
    }
  }
}
