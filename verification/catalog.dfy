/**
 * The rules of the catalog service, stated over its three lists: lookup of
 * the first entry whose key equals a given key ignoring case, substring
 * search, the number of copies out on loan, availability, the list each
 * updating operation leaves behind, and the late fine. The service class
 * computes these with loops and is proved to agree with them.
 */
module Catalog {
  import opened Wrappers
  import opened Text
  import opened Decimal
  import opened Books
  import opened Members
  import opened Loans

  // ----- lookup -----

  /** findBookByIsbn: the position of the first book whose isbn equals `isbn` ignoring case. */
  function BookIndex(bs: seq<Book>, isbn: string): (r: Option<nat>)
    ensures r.Some? ==> r.value < |bs| && EqualsIgnoreCase(bs[r.value].isbn, isbn)
    ensures r.Some? ==> forall j :: 0 <= j < r.value ==> !EqualsIgnoreCase(bs[j].isbn, isbn)
    ensures r.None? <==> forall j :: 0 <= j < |bs| ==> !EqualsIgnoreCase(bs[j].isbn, isbn)
  {
    if bs == [] then None
    else if EqualsIgnoreCase(bs[0].isbn, isbn) then Some(0)
    else
      match BookIndex(bs[1..], isbn)
      case None => None
      case Some(k) => Some(k + 1)
  }

  /** findMemberById: the position of the first member whose id equals `id` ignoring case. */
  function MemberIndex(ms: seq<Member>, id: string): (r: Option<nat>)
    ensures r.Some? ==> r.value < |ms| && EqualsIgnoreCase(ms[r.value].memberId, id)
    ensures r.Some? ==> forall j :: 0 <= j < r.value ==> !EqualsIgnoreCase(ms[j].memberId, id)
    ensures r.None? <==> forall j :: 0 <= j < |ms| ==> !EqualsIgnoreCase(ms[j].memberId, id)
  {
    if ms == [] then None
    else if EqualsIgnoreCase(ms[0].memberId, id) then Some(0)
    else
      match MemberIndex(ms[1..], id)
      case None => None
      case Some(k) => Some(k + 1)
  }

  /** A loan not yet returned whose isbn equals `isbn` ignoring case: one copy out. */
  predicate ActiveFor(l: Loan, isbn: string)
  {
    !l.returned && EqualsIgnoreCase(l.isbn, isbn)
  }

  /** The loan returnBook looks for: not returned, and both keys equal ignoring case. */
  predicate ActiveForPair(l: Loan, isbn: string, memberId: string)
  {
    ActiveFor(l, isbn) && EqualsIgnoreCase(l.memberId, memberId)
  }

  /** The position of the first loan returnBook would close. */
  function ActiveLoanIndex(ls: seq<Loan>, isbn: string, memberId: string): (r: Option<nat>)
    ensures r.Some? ==> r.value < |ls| && ActiveForPair(ls[r.value], isbn, memberId)
    ensures r.Some? ==> forall j :: 0 <= j < r.value ==> !ActiveForPair(ls[j], isbn, memberId)
    ensures r.None? <==> forall j :: 0 <= j < |ls| ==> !ActiveForPair(ls[j], isbn, memberId)
  {
    if ls == [] then None
    else if ActiveForPair(ls[0], isbn, memberId) then Some(0)
    else
      match ActiveLoanIndex(ls[1..], isbn, memberId)
      case None => None
      case Some(k) => Some(k + 1)
  }

  // ----- availability -----

  /** borrowedCount of isBookAvailable: the loans of `isbn` not yet returned. */
  function ActiveCount(ls: seq<Loan>, isbn: string): (n: nat)
    ensures n <= |ls|
    ensures n == 0 <==> forall j :: 0 <= j < |ls| ==> !ActiveFor(ls[j], isbn)
  {
    if ls == [] then 0
    else
      var init := ls[..|ls| - 1];
      assert forall j :: 0 <= j < |init| ==> init[j] == ls[j];
      ActiveCount(init, isbn) + (if ActiveFor(ls[|ls| - 1], isbn) then 1 else 0)
  }

  /**
   * isBookAvailable: the book exists and its quantity minus the copies out,
   * an int subtraction, is positive.
   */
  predicate Available(bs: seq<Book>, ls: seq<Loan>, isbn: string)
    ensures Available(bs, ls, isbn) ==> BookIndex(bs, isbn).Some?
  {
    match BookIndex(bs, isbn)
    case None => false
    case Some(i) => Wrap32(bs[i].quantity - ActiveCount(ls, isbn)) > 0
  }

  /**
   * Every book has at least as many copies as are out on loan under its isbn:
   * the stock invariant issueBook is guarded to keep.
   */
  ghost predicate Stocked(bs: seq<Book>, ls: seq<Loan>)
  {
    forall isbn :: StockedFor(bs, ls, isbn)
  }

  /** The stock invariant at one isbn: when it names a book, that book owns at least the copies out. */
  ghost predicate StockedFor(bs: seq<Book>, ls: seq<Loan>, isbn: string)
  {
    BookIndex(bs, isbn).Some? ==> ActiveCount(ls, isbn) <= bs[BookIndex(bs, isbn).value].quantity
  }

  /** No two books share an isbn ignoring case. */
  predicate UniqueIsbns(bs: seq<Book>)
  {
    forall i, j :: 0 <= i < j < |bs| ==> !EqualsIgnoreCase(bs[i].isbn, bs[j].isbn)
  }

  /** No two members share an id ignoring case. */
  predicate UniqueIds(ms: seq<Member>)
  {
    forall i, j :: 0 <= i < j < |ms| ==> !EqualsIgnoreCase(ms[i].memberId, ms[j].memberId)
  }

  // ----- the lists left behind by the updating operations -----

  /**
   * addBook: a book whose isbn is already present (ignoring case) adds its
   * quantity, with int wrap-around, to the first such book; any other book
   * is appended.
   */
  function AddedBook(bs: seq<Book>, b: Book): (r: seq<Book>)
    ensures |r| == |bs| <==> BookIndex(bs, b.isbn).Some?
    ensures |r| == |bs| || r == bs + [b]
    ensures forall j :: 0 <= j < |bs| ==> r[j].isbn == bs[j].isbn && r[j].title == bs[j].title && r[j].author == bs[j].author
  {
    match BookIndex(bs, b.isbn)
    case Some(i) => bs[i := SetQuantity(bs[i], Wrap32(bs[i].quantity + b.quantity))]
    case None =>
      assert (bs + [b])[|bs|] == b;
      bs + [b]
  }

  /** addMember: a member whose id is already present (ignoring case) is dropped; any other is appended. */
  function AddedMember(ms: seq<Member>, m: Member): (r: seq<Member>)
    ensures r == ms <==> MemberIndex(ms, m.memberId).Some?
    ensures r == ms || r == ms + [m]
    ensures MemberIndex(r, m.memberId).Some?
  {
    if MemberIndex(ms, m.memberId).Some? then ms
    else
      assert (ms + [m])[|ms|] == m;
      ms + [m]
  }

  /** The loan issueBook records: issued today, due `days` later, not returned. */
  function NewLoan(isbn: string, memberId: string, days: Int32, today: int): (l: Loan)
    ensures l.dueDate - l.issueDate == days && l.issueDate == today
    ensures !l.returned && l.isbn == isbn && l.memberId == memberId
  {
    Loan(isbn, memberId, today, today + days, false)
  }

  /** The loan list after returnBook closes the loan at position i. */
  function Returned(ls: seq<Loan>, i: nat): (r: seq<Loan>)
    requires i < |ls|
    ensures |r| == |ls| && r[i].returned
    ensures forall j :: 0 <= j < |ls| && j != i ==> r[j] == ls[j]
    ensures r[i] == SetReturned(ls[i], true)
  {
    ls[i := SetReturned(ls[i], true)]
  }

  // ----- search -----

  /** The two book fields the service searches. */
  datatype SearchField = ByTitle | ByAuthor

  function FieldText(b: Book, f: SearchField): string
  {
    match f
    case ByTitle => b.title
    case ByAuthor => b.author
  }

  /** The searched field, lower-cased, contains the lower-cased query. */
  predicate Matches(b: Book, f: SearchField, part: string)
    ensures part == [] ==> Matches(b, f, part)
    ensures Matches(b, f, part) ==> |part| <= |FieldText(b, f)|
  {
    Contains(ToLower(FieldText(b, f)), ToLower(part))
  }

  /** searchBooksByTitle / searchBooksByAuthor: the matching books, in list order. */
  function Search(bs: seq<Book>, f: SearchField, part: string): (r: seq<Book>)
    ensures |r| <= |bs|
    ensures forall b {:trigger b in r} :: b in r <==> b in bs && Matches(b, f, part)
  {
    if bs == [] then []
    else
      var init := bs[..|bs| - 1];
      var last := bs[|bs| - 1];
      assert bs == init + [last];
      if Matches(last, f, part) then Search(init, f, part) + [last] else Search(init, f, part)
  }

  // ----- fines -----

  /** FINE_PER_DAY, a whole number of currency units. */
  const FinePerDay: int := 2

  /** The fine returnBook computes: FINE_PER_DAY for each day past the due date. */
  function LateFine(due: int, today: int): (fine: int)
    ensures fine >= 0
    ensures fine > 0 <==> today > due
    ensures fine % FinePerDay == 0 && fine / FinePerDay == if today > due then today - due else 0
  {
    if today > due then (today - due) * FinePerDay else 0
  }

  // ----- lemmas: lookup -----

  /** Keys equal ignoring case find the same book, count the same loans, and agree on availability. */
  lemma {:induction false} SameKeySameBook(bs: seq<Book>, a: string, b: string)
    requires EqualsIgnoreCase(a, b)
    ensures BookIndex(bs, a) == BookIndex(bs, b)
  {
    if bs != [] {
      SameKeySameBook(bs[1..], a, b);
    }
  }

  lemma {:induction false} SameKeySameCount(ls: seq<Loan>, a: string, b: string)
    requires EqualsIgnoreCase(a, b)
    ensures ActiveCount(ls, a) == ActiveCount(ls, b)
  {
    if ls != [] {
      SameKeySameCount(ls[..|ls| - 1], a, b);
    }
  }

  lemma SameKeySameAvailability(bs: seq<Book>, ls: seq<Loan>, a: string, b: string)
    requires EqualsIgnoreCase(a, b)
    ensures Available(bs, ls, a) == Available(bs, ls, b)
  {
    SameKeySameBook(bs, a, b);
    SameKeySameCount(ls, a, b);
  }

  /** Lookup only looks at the keys: lists with the same isbns in the same order answer alike. */
  lemma {:induction false} BookIndexKeysOnly(bs: seq<Book>, cs: seq<Book>, isbn: string)
    requires |bs| == |cs| && forall j :: 0 <= j < |bs| ==> bs[j].isbn == cs[j].isbn
    ensures BookIndex(bs, isbn) == BookIndex(cs, isbn)
  {
    if bs != [] {
      BookIndexKeysOnly(bs[1..], cs[1..], isbn);
    }
  }

  /** Appending a book leaves every earlier answer alone and makes its own key findable at the end. */
  lemma {:induction false} BookIndexSnoc(bs: seq<Book>, b: Book, isbn: string)
    ensures BookIndex(bs + [b], isbn) ==
      if BookIndex(bs, isbn).Some? then BookIndex(bs, isbn)
      else if EqualsIgnoreCase(b.isbn, isbn) then Some(|bs|)
      else None
  {
    if bs != [] {
      assert (bs + [b])[1..] == bs[1..] + [b];
      BookIndexSnoc(bs[1..], b, isbn);
    }
  }

  /** With unique isbns the lookup finds the one book that matches. */
  lemma UniqueLookup(bs: seq<Book>, j: nat, isbn: string)
    requires UniqueIsbns(bs) && j < |bs| && EqualsIgnoreCase(bs[j].isbn, isbn)
    ensures BookIndex(bs, isbn) == Some(j)
  {
    var r := BookIndex(bs, isbn);
    if r.value < j {
      assert EqualsIgnoreCase(bs[r.value].isbn, bs[j].isbn);
    }
  }

  // ----- lemmas: addBook and addMember -----

  /** An isbn already present: the first match gains the quantity and nothing else changes. */
  lemma AddBookMerges(bs: seq<Book>, b: Book, i: nat)
    requires i < |bs| && EqualsIgnoreCase(bs[i].isbn, b.isbn)
    requires forall j :: 0 <= j < i ==> !EqualsIgnoreCase(bs[j].isbn, b.isbn)
    ensures |AddedBook(bs, b)| == |bs|
    ensures AddedBook(bs, b)[i] == Book(bs[i].isbn, bs[i].title, bs[i].author, Wrap32(bs[i].quantity + b.quantity))
    ensures forall j :: 0 <= j < |bs| && j != i ==> AddedBook(bs, b)[j] == bs[j]
  {
    assert BookIndex(bs, b.isbn) == Some(i);
  }

  /** An unseen isbn: the book goes at the end, earlier entries untouched. */
  lemma AddBookAppends(bs: seq<Book>, b: Book)
    requires forall j :: 0 <= j < |bs| ==> !EqualsIgnoreCase(bs[j].isbn, b.isbn)
    ensures AddedBook(bs, b) == bs + [b]
    ensures BookIndex(AddedBook(bs, b), b.isbn) == Some(|bs|)
  {
    BookIndexSnoc(bs, b, b.isbn);
  }

  /** Two adds of the same new isbn leave one book holding the sum of the two quantities. */
  lemma AddBookTwice(bs: seq<Book>, b1: Book, b2: Book)
    requires BookIndex(bs, b1.isbn).None? && EqualsIgnoreCase(b1.isbn, b2.isbn)
    ensures AddedBook(AddedBook(bs, b1), b2) == bs + [SetQuantity(b1, Wrap32(b1.quantity + b2.quantity))]
  {
    BookIndexSnoc(bs, b1, b2.isbn);
    SameKeySameBook(bs, b1.isbn, b2.isbn);
    assert BookIndex(bs + [b1], b2.isbn) == Some(|bs|);
  }

  lemma AddBookKeepsUnique(bs: seq<Book>, b: Book)
    requires UniqueIsbns(bs)
    ensures UniqueIsbns(AddedBook(bs, b))
  {
    if BookIndex(bs, b.isbn).None? {
      var r := bs + [b];
      forall i, j | 0 <= i < j < |r| ensures !EqualsIgnoreCase(r[i].isbn, r[j].isbn) {
        if j == |bs| {
          assert !EqualsIgnoreCase(bs[i].isbn, b.isbn);
        }
      }
    }
  }

  lemma AddMemberKeepsUnique(ms: seq<Member>, m: Member)
    requires UniqueIds(ms)
    ensures UniqueIds(AddedMember(ms, m))
  {
    if MemberIndex(ms, m.memberId).None? {
      var r := ms + [m];
      forall i, j | 0 <= i < j < |r| ensures !EqualsIgnoreCase(r[i].memberId, r[j].memberId) {
        if j == |ms| {
          assert !EqualsIgnoreCase(ms[i].memberId, m.memberId);
        }
      }
    }
  }

  // ----- lemmas: the stock invariant -----

  lemma ActiveCountSnoc(ls: seq<Loan>, l: Loan, isbn: string)
    ensures ActiveCount(ls + [l], isbn) == ActiveCount(ls, isbn) + (if ActiveFor(l, isbn) then 1 else 0)
  {
    assert (ls + [l])[..|ls|] == ls;
  }

  /** Closing an open loan of `isbn` puts exactly one copy back; other isbns keep their count. */
  lemma {:induction false} ActiveCountReturned(ls: seq<Loan>, i: nat, isbn: string)
    requires i < |ls|
    ensures ActiveCount(Returned(ls, i), isbn) == ActiveCount(ls, isbn) - (if ActiveFor(ls[i], isbn) then 1 else 0)
  {
    var r := Returned(ls, i);
    var n := |ls| - 1;
    if i == n {
      assert r[..n] == ls[..n];
    } else {
      assert r[..n] == Returned(ls[..n], i);
      ActiveCountReturned(ls[..n], i, isbn);
    }
  }

  /** Under the stock invariant, availability is plainly "fewer copies out than owned". */
  lemma AvailableWhenStocked(bs: seq<Book>, ls: seq<Loan>, isbn: string)
    requires Stocked(bs, ls)
    ensures Available(bs, ls, isbn) <==>
      BookIndex(bs, isbn).Some? && ActiveCount(ls, isbn) < bs[BookIndex(bs, isbn).value].quantity
  {
    assert StockedFor(bs, ls, isbn);
  }

  /** issueBook only records a loan when a copy is free, so the invariant survives. */
  lemma IssueKeepsStock(bs: seq<Book>, ls: seq<Loan>, isbn: string, l: Loan)
    requires Stocked(bs, ls) && Available(bs, ls, isbn) && l.isbn == isbn && !l.returned
    ensures Stocked(bs, ls + [l])
  {
    AvailableWhenStocked(bs, ls, isbn);
    forall s
      ensures StockedFor(bs, ls + [l], s)
    {
      assert StockedFor(bs, ls, s);
      ActiveCountSnoc(ls, l, s);
      if ActiveFor(l, s) {
        SameKeySameBook(bs, isbn, s);
        SameKeySameCount(ls, isbn, s);
      }
    }
  }

  /** returnBook only ever lowers a count, so the invariant survives. */
  lemma ReturnKeepsStock(bs: seq<Book>, ls: seq<Loan>, i: nat)
    requires Stocked(bs, ls) && i < |ls|
    ensures Stocked(bs, Returned(ls, i))
  {
    forall s
      ensures StockedFor(bs, Returned(ls, i), s)
    {
      assert StockedFor(bs, ls, s);
      ActiveCountReturned(ls, i, s);
    }
  }

  /**
   * addBook keeps the invariant when it adds copies without overflow, and a
   * new isbn brings at least as many copies as are already out under it.
   */
  lemma AddBookKeepsStock(bs: seq<Book>, ls: seq<Loan>, b: Book)
    requires Stocked(bs, ls) && 0 <= b.quantity
    requires BookIndex(bs, b.isbn).Some? ==> bs[BookIndex(bs, b.isbn).value].quantity + b.quantity <= MaxInt32
    requires BookIndex(bs, b.isbn).None? ==> ActiveCount(ls, b.isbn) <= b.quantity
    ensures Stocked(AddedBook(bs, b), ls)
  {
    var r := AddedBook(bs, b);
    forall s
      ensures StockedFor(r, ls, s)
    {
      assert StockedFor(bs, ls, s);
      if BookIndex(bs, b.isbn).Some? {
        BookIndexKeysOnly(bs, r, s);
      } else {
        BookIndexSnoc(bs, b, s);
        if BookIndex(bs, s).None? && EqualsIgnoreCase(b.isbn, s) {
          SameKeySameCount(ls, b.isbn, s);
        }
      }
    }
  }

  // ----- lemmas: search -----

  /** Search keeps list order: it distributes over concatenation. */
  lemma {:induction false} SearchAppend(a: seq<Book>, b: seq<Book>, f: SearchField, part: string)
    ensures Search(a + b, f, part) == Search(a, f, part) + Search(b, f, part)
    decreases |b|
  {
    if b == [] {
      assert a + b == a;
    } else {
      var b' := b[..|b| - 1];
      assert (a + b)[..|a + b| - 1] == a + b';
      assert (a + b)[|a + b| - 1] == b[|b| - 1];
      SearchAppend(a, b', f, part);
    }
  }

  /** The empty query is contained in every field: it returns the whole list. */
  lemma SearchEmptyQuery(bs: seq<Book>, f: SearchField)
    ensures Search(bs, f, "") == bs
  {
    SearchAllMatch(bs, f, "");
  }

  /** A query every book matches returns the whole list, in order. */
  lemma {:induction false} SearchAllMatch(bs: seq<Book>, f: SearchField, part: string)
    requires forall i :: 0 <= i < |bs| ==> Matches(bs[i], f, part)
    ensures Search(bs, f, part) == bs
  {
    if bs != [] {
      var init, last := bs[..|bs| - 1], bs[|bs| - 1];
      forall i | 0 <= i < |init|
        ensures Matches(init[i], f, part)
      {
        assert init[i] == bs[i];
      }
      SearchAllMatch(init, f, part);
      assert Matches(last, f, part);
      assert init + [last] == bs;
    }
  }
}
