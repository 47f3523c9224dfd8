/** services/library_service.go: the `Library`, which owns the book and member maps. */
module LibraryService {
  import opened Results
  import opened Books
  import opened Members
  import MapListing

  /** The distinct failures of the library operations. */
  datatype LibraryError =
    | DuplicateId                  // AddBook: the ID is already a key of availableBooks
    | NotRemovable                 // RemoveBook: the ID is not a key of availableBooks
    | BookNotFound                 // BorrowBook: the ID is not a key of availableBooks
    | BookNotAvailable             // BorrowBook: the book's status is not "available"
    | MemberNotFound               // BorrowBook, ReturnBook: unknown member ID
    | BookNotBorrowed              // ReturnBook: the ID is not a key of borrowedBooks
    | Refused(cause: MemberError)  // the error of Member.Borrow or Member.Return, passed on

  /** `if err != nil { return err }` after a call into the member. */
  function Propagate(e: Outcome<MemberError>): (r: Outcome<LibraryError>)
    ensures r.Pass? <==> e.Pass?
    ensures e.Fail? ==> r == Fail(Refused(e.error))
  {
    match e
    case Pass => Pass
    case Fail(err) => Fail(Refused(err))
  }

  class Library {
    var availableBooks: map<int, Book>
    var borrowedBooks: map<int, Book>
    var members: map<int, Member>

    /**
     * Each map is keyed by the IDs of what it holds. Nothing more is kept: `AddBook` checks
     * only `availableBooks`, so an ID may be in both book maps and a book's status need not
     * match the map it is in.
     */
    ghost predicate Valid()
      reads this, members.Values
    {
      && KeyedById(availableBooks)
      && KeyedById(borrowedBooks)
      && (forall k :: k in members ==> members[k].id == k && members[k].Valid())
    }

    /** `NewLibrary`: three empty maps. */
    constructor ()
      ensures Valid()
      ensures availableBooks == map[] && borrowedBooks == map[] && members == map[]
    {
      availableBooks, borrowedBooks, members := map[], map[], map[];
    }

    /**
     * A library whose members map starts as `initial`. The Go code has no operation that
     * registers members; this constructor stands in for one.
     */
    constructor WithMembers(initial: map<int, Member>)
      requires forall k :: k in initial ==> initial[k].id == k && initial[k].Valid()
      ensures Valid()
      ensures availableBooks == map[] && borrowedBooks == map[] && members == initial
    {
      availableBooks, borrowedBooks, members := map[], map[], initial;
    }

    /** The available book stored under `bookID`, if any: what `BorrowBook` may write. */
    function AvailableAt(bookID: int): set<Book>
      reads this
    {
      if bookID in availableBooks then {availableBooks[bookID]} else {}
    }

    /** The borrowed book stored under `bookID`, if any: what `ReturnBook` may write. */
    function BorrowedAt(bookID: int): set<Book>
      reads this
    {
      if bookID in borrowedBooks then {borrowedBooks[bookID]} else {}
    }

    function MemberAt(memberID: int): set<Member>
      reads this
    {
      if memberID in members then {members[memberID]} else {}
    }

    /** `AddBook`: refused exactly when the ID is already available; otherwise inserted there. */
    method AddBook(book: Book) returns (r: Outcome<LibraryError>)
      requires Valid()
      modifies this
      ensures Valid()
      ensures r == if book.id in old(availableBooks) then Fail(DuplicateId) else Pass
      ensures availableBooks == if r.Pass? then old(availableBooks)[book.id := book] else old(availableBooks)
      ensures borrowedBooks == old(borrowedBooks) && members == old(members)
    {
      if book.ID() in availableBooks {
        return Fail(DuplicateId);
      }
      availableBooks := availableBooks[book.ID() := book];
      r := Pass;
    }

    /** `RemoveBook`: refused exactly when the ID is not available (unknown or borrowed alike). */
    method RemoveBook(bookID: int) returns (r: Outcome<LibraryError>)
      requires Valid()
      modifies this
      ensures Valid()
      ensures r == if bookID in old(availableBooks) then Pass else Fail(NotRemovable)
      ensures availableBooks == if r.Pass? then old(availableBooks) - {bookID} else old(availableBooks)
      ensures borrowedBooks == old(borrowedBooks) && members == old(members)
    {
      if bookID !in availableBooks {
        return Fail(NotRemovable);
      }
      availableBooks := availableBooks - {bookID};
      r := Pass;
    }

    /**
     * `BorrowBook`. The checks come in the order: the book is available, its status is
     * "available", the member exists, `Member.Borrow` succeeds. The last can never fail after
     * the second has passed. Nothing changes on failure.
     */
    method BorrowBook(bookID: int, memberID: int) returns (r: Outcome<LibraryError>)
      requires Valid()
      modifies this, AvailableAt(bookID), MemberAt(memberID)
      ensures Valid()
      ensures r == (
        if bookID !in old(availableBooks) then Fail(BookNotFound)
        else if old(availableBooks[bookID].status) != StatusAvailable then Fail(BookNotAvailable)
        else if memberID !in old(members) then Fail(MemberNotFound)
        else Pass)
      ensures r.Fail? ==> unchanged(this) && unchanged(AvailableAt(bookID), MemberAt(memberID))
      ensures r.Pass? ==>
        var book, member := old(availableBooks[bookID]), old(members[memberID]);
        && availableBooks == old(availableBooks) - {bookID}
        && borrowedBooks == old(borrowedBooks)[bookID := book]
        && members == old(members)
        && book.status == StatusBorrowed
        && member.borrowedBooks == old(member.borrowedBooks)[bookID := book]
    {
      if bookID !in availableBooks {
        return Fail(BookNotFound);
      }
      var book := availableBooks[bookID];
      if book.Status() != StatusAvailable {
        return Fail(BookNotAvailable);
      }
      if memberID !in members {
        return Fail(MemberNotFound);
      }
      var member := members[memberID];
      var e := member.Borrow(book);
      r := Propagate(e);
      if r.Fail? {
        return;
      }
      availableBooks := availableBooks - {bookID};
      borrowedBooks := borrowedBooks[book.ID() := book];
    }

    /**
     * `ReturnBook`. The checks come in the order: the member exists, the book is borrowed,
     * `Member.Return` succeeds (the member holds that ID). Nothing changes on failure.
     */
    method ReturnBook(bookID: int, memberID: int) returns (r: Outcome<LibraryError>)
      requires Valid()
      modifies this, BorrowedAt(bookID), MemberAt(memberID)
      ensures Valid()
      ensures r == (
        if memberID !in old(members) then Fail(MemberNotFound)
        else if bookID !in old(borrowedBooks) then Fail(BookNotBorrowed)
        else if bookID !in old(members[memberID].borrowedBooks) then Fail(Refused(BorrowedByOther))
        else Pass)
      ensures r.Fail? ==> unchanged(this) && unchanged(BorrowedAt(bookID), MemberAt(memberID))
      ensures r.Pass? ==>
        var book, member := old(borrowedBooks[bookID]), old(members[memberID]);
        && borrowedBooks == old(borrowedBooks) - {bookID}
        && availableBooks == old(availableBooks)[bookID := book]
        && members == old(members)
        && book.status == StatusAvailable
        && member.borrowedBooks == old(member.borrowedBooks) - {bookID}
    {
      if memberID !in members {
        return Fail(MemberNotFound);
      }
      var member := members[memberID];
      if bookID !in borrowedBooks {
        return Fail(BookNotBorrowed);
      }
      var book := borrowedBooks[bookID];
      var e := member.Return(book);
      r := Propagate(e);
      if r.Fail? {
        return;
      }
      borrowedBooks := borrowedBooks - {bookID};
      availableBooks := availableBooks[book.ID() := book];
    }

    /** `ListAvailableBooks`: each available book once, in an unspecified order. */
    method ListAvailableBooks() returns (books: seq<Book>, ghost ids: seq<int>)
      ensures MapListing.Enumerates(books, ids, availableBooks)
      ensures |books| == |availableBooks|
      ensures forall b :: b in books <==> b in availableBooks.Values
    {
      books, ids := MapListing.Values(availableBooks);
    }

    /** `ListBorrowedBooks`: the member's books, or nothing (not an error) for an unknown member. */
    method ListBorrowedBooks(memberID: int) returns (books: seq<Book>, ghost ids: seq<int>)
      ensures memberID !in members ==> books == []
      ensures memberID in members ==>
        && MapListing.Enumerates(books, ids, members[memberID].borrowedBooks)
        && |books| == |members[memberID].borrowedBooks|
    {
      if memberID !in members {
        return [], [];
      }
      books, ids := members[memberID].BorrowedBooks();
    }
  }

  /**
   * A successful `BorrowBook` followed by `ReturnBook` of the same book by the same member
   * puts back both book maps, the book's status and the member's map, provided the ID was
   * neither in `borrowedBooks` nor held by the member beforehand. A failed `BorrowBook` changes
   * nothing and makes the `ReturnBook` fail too.
   */
  method BorrowThenReturn(lib: Library, bookID: int, memberID: int)
    returns (r1: Outcome<LibraryError>, r2: Outcome<LibraryError>)
    requires lib.Valid()
    requires bookID !in lib.borrowedBooks
    requires memberID in lib.members ==> bookID !in lib.members[memberID].borrowedBooks
    modifies lib, lib.AvailableAt(bookID), lib.MemberAt(memberID)
    ensures lib.Valid()
    ensures r2.Pass? <==> r1.Pass?
    ensures lib.availableBooks == old(lib.availableBooks)
    ensures lib.borrowedBooks == old(lib.borrowedBooks)
    ensures lib.members == old(lib.members)
    ensures bookID in old(lib.availableBooks) ==>
      old(lib.availableBooks[bookID]).status == old(lib.availableBooks[bookID].status)
    ensures memberID in old(lib.members) ==>
      old(lib.members[memberID]).borrowedBooks == old(lib.members[memberID].borrowedBooks)
  {
    r1 := lib.BorrowBook(bookID, memberID);
    r2 := lib.ReturnBook(bookID, memberID);
  }

  /** A successful `AddBook` is undone by `RemoveBook` of the same ID. */
  method AddThenRemove(lib: Library, book: Book) returns (r1: Outcome<LibraryError>, r2: Outcome<LibraryError>)
    requires lib.Valid()
    modifies lib
    ensures lib.Valid()
    ensures r1.Pass? <==> book.id !in old(lib.availableBooks)
    ensures r2.Pass?
    ensures r1.Pass? ==> lib.availableBooks == old(lib.availableBooks)
    ensures r1.Fail? ==> lib.availableBooks == old(lib.availableBooks) - {book.id}
    ensures lib.borrowedBooks == old(lib.borrowedBooks) && lib.members == old(lib.members)
  {
    r1 := lib.AddBook(book);
    r2 := lib.RemoveBook(book.id);
  }
}
