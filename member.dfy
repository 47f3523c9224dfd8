/** models/member.go: a member and the books they hold, keyed by book ID. */
module Members {
  import opened Results
  import opened Trimming
  import opened Books
  import MapListing

  /** The distinct `fmt.Errorf` failures of member.go. */
  datatype MemberError =
    | EmptyName         // NewMember: the trimmed name is empty
    | NotAvailable      // Borrow: the book's status is not "available"
    | BorrowedByOther   // Return: the book's ID is not in this member's map

  /** Every key of `m` is the ID of the book stored under it. */
  ghost predicate KeyedById(m: map<int, Book>) {
    forall k :: k in m ==> m[k].id == k
  }

  /** The decision `NewMember` makes: the name is trimmed and must not end up empty. */
  function CheckName(name: string): (r: Result<string, MemberError>)
    ensures r.Failure? <==> AllSpaces(name)
    ensures r.Failure? ==> r.error == EmptyName
    ensures r.Success? ==> r.value != [] && NoOuterSpace(r.value) && CutFrom(name, r.value)
  {
    var n := Trim(name);
    if n == "" then Failure(EmptyName) else Success(n)
  }

  /** Validating a trimmed, non-empty name gives back that name. */
  lemma CheckNameKeepsTrimmed(name: string)
    requires name != [] && NoOuterSpace(name)
    ensures CheckName(name) == Success(name)
  {
    TrimKeeps(name);
  }

  /** A member. `id` and `name` are never written after construction, so they are `const`. */
  class Member {
    const id: int
    const name: string
    var borrowedBooks: map<int, Book>

    ghost predicate Valid()
      reads this
    {
      KeyedById(borrowedBooks)
    }

    /** The struct literal `&Member{...}` with an empty map. */
    constructor (id: int, name: string)
      ensures this.id == id && this.name == name && borrowedBooks == map[]
      ensures Valid()
    {
      this.id, this.name, borrowedBooks := id, name, map[];
    }

    function ID(): (r: int)
      ensures r == id
    {
      id
    }

    function Name(): (r: string)
      ensures r == name
    {
      name
    }

    /** `BorrowedBooks`: each held book once, in an unspecified order. */
    method BorrowedBooks() returns (books: seq<Book>, ghost ids: seq<int>)
      ensures MapListing.Enumerates(books, ids, borrowedBooks)
      ensures |books| == |borrowedBooks|
      ensures forall b :: b in books <==> b in borrowedBooks.Values
    {
      books, ids := MapListing.Values(borrowedBooks);
    }

    /**
     * `Return`: legal only when the book's ID is a key of this member's map (whichever book
     * object is stored there); then the book becomes available and the key is deleted.
     */
    method Return(book: Book) returns (r: Outcome<MemberError>)
      modifies this, book
      ensures r == if book.id in old(borrowedBooks) then Pass else Fail(BorrowedByOther)
      ensures r.Fail? ==> unchanged(this, book)
      ensures r.Pass? ==>
        && book.status == StatusAvailable
        && borrowedBooks == old(borrowedBooks) - {book.id}
      ensures old(Valid()) ==> Valid()
      ensures old(book.WellFormed()) ==> book.WellFormed()
    {
      if book.ID() !in borrowedBooks {
        return Fail(BorrowedByOther);
      }
      book.status := StatusAvailable;
      borrowedBooks := borrowedBooks - {book.ID()};
      r := Pass;
    }

    /**
     * `Borrow`: legal only when the book is available; then the book becomes borrowed and is
     * stored under its ID (replacing whatever this member held under that ID).
     */
    method Borrow(book: Book) returns (r: Outcome<MemberError>)
      modifies this, book
      ensures r == if old(book.status) == StatusAvailable then Pass else Fail(NotAvailable)
      ensures r.Fail? ==> unchanged(this, book)
      ensures r.Pass? ==>
        && book.status == StatusBorrowed
        && borrowedBooks == old(borrowedBooks)[book.id := book]
      ensures old(Valid()) ==> Valid()
      ensures old(book.WellFormed()) ==> book.WellFormed()
    {
      if book.Status() != StatusAvailable {
        return Fail(NotAvailable);
      }
      book.status := StatusBorrowed;
      borrowedBooks := borrowedBooks[book.ID() := book];
      r := Pass;
    }
  }

  /** `NewMember`: a fresh member with the trimmed name and nothing borrowed. */
  method NewMember(id: int, name: string) returns (r: Result<Member, MemberError>)
    ensures CheckName(name).Failure? ==> r == Failure(EmptyName)
    ensures CheckName(name).Success? ==>
      && r.Success? && fresh(r.value) && r.value.Valid()
      && r.value.id == id && r.value.name == CheckName(name).value && r.value.borrowedBooks == map[]
  {
    match CheckName(name)
    case Failure(e) =>
      r := Failure(e);
    case Success(n) =>
      var m := new Member(id, n);
      r := Success(m);
  }

  /**
   * Borrowing and then returning the same book, when this member did not hold its ID before,
   * restores the member's map and the book's status.
   */
  method BorrowThenReturn(m: Member, book: Book) returns (r1: Outcome<MemberError>, r2: Outcome<MemberError>)
    requires book.id !in m.borrowedBooks
    modifies m, book
    ensures r1.Pass? <==> old(book.status) == StatusAvailable
    ensures r2.Pass? <==> r1.Pass?
    ensures m.borrowedBooks == old(m.borrowedBooks)
    ensures book.status == old(book.status)
  {
    r1 := m.Borrow(book);
    r2 := m.Return(book);
  }
}
