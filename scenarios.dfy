/** Client runs of the library, stated with assertions on what the contracts let a caller know. */
module Scenarios {
  import opened Results
  import opened Books
  import opened Members
  import opened LibraryService

  /**
   * Book 1 ("Dune", "Herbert", available) is added to a library whose one member is member 1,
   * who borrows it and returns it, with the listings taken after each step; the book cannot be
   * removed while it is out, and can be once it is back.
   */
  method DuneRun(book: Book, alice: Member)
    requires book.Data() == BookData(1, "Dune", "Herbert", "available")
    requires alice.id == 1 && alice.borrowedBooks == map[]
    modifies book, alice
  {
    var lib := new Library.WithMembers(map[1 := alice]);
    var r := lib.AddBook(book);
    assert r == Pass;

    r := lib.BorrowBook(1, 1);
    assert r == Pass;
    var available, order := lib.ListAvailableBooks();
    assert available == [];
    var held, heldOrder := lib.ListBorrowedBooks(1);
    assert book in held && |held| == 1;
    assert book.status == StatusBorrowed;

    r := lib.RemoveBook(1);
    assert r == Fail(NotRemovable);

    r := lib.ReturnBook(1, 1);
    assert r == Pass;
    available, order := lib.ListAvailableBooks();
    assert book in available && |available| == 1;
    held, heldOrder := lib.ListBorrowedBooks(1);
    assert held == [];
    assert book.status == StatusAvailable;

    r := lib.RemoveBook(1);
    assert r == Pass;
  }

  /** Unknown books and members are reported and change nothing; an unknown member lists nothing. */
  method UnknownIds(lib: Library)
    requires lib.Valid()
    requires 99 !in lib.availableBooks && 1 in lib.members && 7 !in lib.members
    modifies lib, lib.AvailableAt(99), lib.MemberAt(1)
  {
    var r := lib.BorrowBook(99, 1);
    assert r == Fail(BookNotFound);
    assert unchanged(lib);
    var none, noneOrder := lib.ListBorrowedBooks(7);
    assert none == [];
  }

  /** A member that does not hold a borrowed book cannot return it, and nothing changes. */
  method ReturnByOtherMember(lib: Library, bookID: int, memberID: int)
    requires lib.Valid()
    requires memberID in lib.members && bookID in lib.borrowedBooks
    requires bookID !in lib.members[memberID].borrowedBooks
    modifies lib, lib.BorrowedAt(bookID), lib.MemberAt(memberID)
  {
    var member := lib.members[memberID];
    var held := member.borrowedBooks;
    var r := lib.ReturnBook(bookID, memberID);
    assert r == Fail(Refused(BorrowedByOther));
    assert unchanged(lib) && member.borrowedBooks == held;
  }

  /**
   * `AddBook` looks only at the available books, so a second book with the ID of a borrowed
   * one is accepted, and the ID then sits in both maps.
   */
  method DuplicateIdWhileBorrowed(first: Book, second: Book, member: Member)
    requires first.id == 1 && second.id == 1 && first != second
    requires first.status == StatusAvailable && member.id == 1 && member.Valid()
    modifies first, member
  {
    var lib := new Library.WithMembers(map[1 := member]);
    var r := lib.AddBook(first);
    r := lib.BorrowBook(1, 1);
    assert r == Pass;
    r := lib.AddBook(second);
    assert r == Pass;
    assert 1 in lib.availableBooks && 1 in lib.borrowedBooks;
    assert lib.availableBooks[1] == second && lib.borrowedBooks[1] == first;
  }
}
