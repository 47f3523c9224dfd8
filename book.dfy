/** models/book.go: the validated `Book` entity. */
module Books {
  import opened Results
  import opened Trimming

  const StatusAvailable: string := "available"
  const StatusBorrowed: string := "borrowed"

  predicate IsStatus(s: string) {
    s == StatusAvailable || s == StatusBorrowed
  }

  /** The three distinct `fmt.Errorf` failures of `NewBook`. */
  datatype BookError = EmptyTitle | EmptyAuthor | InvalidStatus

  /** The field values a `Book` is built from. */
  datatype BookData = BookData(id: int, title: string, author: string, status: string) {
    /** What every book built by `NewBook` satisfies. */
    ghost predicate WellFormed() {
      && title != [] && author != []
      && IsStatus(status)
      && NoOuterSpace(title) && NoOuterSpace(author) && NoOuterSpace(status)
    }
  }

  /** `validateStatus`: only the two status constants are accepted. */
  function ValidateStatus(status: string): (r: Outcome<BookError>)
    ensures r == Pass <==> status == "available" || status == "borrowed"
    ensures r != Pass ==> r == Fail(InvalidStatus)
  {
    if status != StatusAvailable && status != StatusBorrowed then Fail(InvalidStatus) else Pass
  }

  /**
   * The decision `NewBook` makes: all three strings are trimmed first, then the title, the
   * author and the status are checked, in that order.
   */
  function CheckBook(id: int, title: string, author: string, status: string): (r: Result<BookData, BookError>)
    ensures AllSpaces(title) ==> r == Failure(EmptyTitle)
    ensures !AllSpaces(title) && AllSpaces(author) ==> r == Failure(EmptyAuthor)
    ensures !AllSpaces(title) && !AllSpaces(author) ==>
      (r == Failure(InvalidStatus) <==> !IsStatus(Trim(status)))
    ensures r.Success? <==> !AllSpaces(title) && !AllSpaces(author) && IsStatus(Trim(status))
    ensures r.Success? ==> r.value.WellFormed()
    ensures r.Success? ==>
      && r.value.id == id
      && CutFrom(title, r.value.title) && CutFrom(author, r.value.author) && CutFrom(status, r.value.status)
  {
    var t, a, s := Trim(title), Trim(author), Trim(status);
    if t == "" then Failure(EmptyTitle)
    else if a == "" then Failure(EmptyAuthor)
    else match ValidateStatus(s)
      case Fail(e) => Failure(e)
      case Pass => Success(BookData(id, t, a, s))
  }

  /** Validating the fields of a well-formed book gives back exactly those fields. */
  lemma CheckBookKeepsWellFormed(d: BookData)
    requires d.WellFormed()
    ensures CheckBook(d.id, d.title, d.author, d.status) == Success(d)
  {
    TrimKeeps(d.title);
    TrimKeeps(d.author);
    TrimKeeps(d.status);
  }

  /**
   * A book. `id`, `title` and `author` are unexported in Go and only read after construction,
   * so they are `const` here; `status` is written by `Member.Borrow` and `Member.Return`.
   */
  class Book {
    const id: int
    const title: string
    const author: string
    var status: string

    /** The struct literal `&Book{...}`. */
    constructor (d: BookData)
      ensures Data() == d
    {
      id, title, author, status := d.id, d.title, d.author, d.status;
    }

    function Data(): BookData
      reads this
    {
      BookData(id, title, author, status)
    }

    ghost predicate WellFormed()
      reads this
    {
      Data().WellFormed()
    }

    function ID(): (r: int)
      ensures r == id
    {
      id
    }

    function Title(): (r: string)
      ensures r == title
    {
      title
    }

    function Author(): (r: string)
      ensures r == author
    {
      author
    }

    function Status(): (r: string)
      reads this
      ensures r == status
    {
      status
    }
  }

  /** `NewBook`: a fresh book holding the trimmed strings, or the first validation failure. */
  method NewBook(id: int, title: string, author: string, status: string) returns (r: Result<Book, BookError>)
    ensures CheckBook(id, title, author, status).Failure? ==>
      r == Failure(CheckBook(id, title, author, status).error)
    ensures CheckBook(id, title, author, status).Success? ==>
      r.Success? && fresh(r.value) && r.value.Data() == CheckBook(id, title, author, status).value
    ensures r.Success? ==> r.value.WellFormed()
  {
    match CheckBook(id, title, author, status)
    case Failure(e) =>
      r := Failure(e);
    case Success(d) =>
      var b := new Book(d);
      r := Success(b);
  }
}
