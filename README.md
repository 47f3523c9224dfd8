# Library lending core, modelled in Dafny

This project models the in-memory lending core of a small Go console library manager:

- the validated `Book` entity (`models/book.go`);
- the `Member` entity and the map of books it holds (`models/member.go`);
- the `Library` service, which owns the `availableBooks`, `borrowedBooks` and `members` maps and coordinates borrowing and returning (`services/library_service.go`).

Each Go file is mirrored by one module:

| file | module | form |
|---|---|---|
| `results.dfy` | `Results` | `Outcome` (a Go `error`) and `Result` (a Go `(*T, error)` pair) |
| `trim.dfy` | `Trimming` | `strings.Trim(s, " ")` as functions, with its characterisation |
| `map_listing.dfy` | `MapListing` | the `for _, v := range m { append }` loop, as a method |
| `book.dfy` | `Books` | status constants, `validateStatus`, the `Book` class, `NewBook` |
| `member.dfy` | `Members` | the `Member` class with `Borrow`/`Return`/`BorrowedBooks`, `NewMember` |
| `library_service.dfy` | `LibraryService` | the `Library` class and its six operations |
| `scenarios.dfy` | `Scenarios` | client runs checked only by assertions |

Design points:

- **Objects and aliasing.** `Book`, `Member` and `Library` are classes. One `Book` object sits in a `Library` map and in a `Member` map at the same time. `Member.Borrow` and `Member.Return` write its `status` field. The library methods therefore list, in their `modifies` clauses, exactly the book stored under the given ID and the member stored under the given ID.
- **Immutable fields.** `Book.id`, `Book.title`, `Book.author`, `Member.id` and `Member.name` are `const` fields. Nothing can write them after construction, so "Borrow and Return never change the member's id or name" and "only `status` is written" are guaranteed by the language. `status` and `borrowedBooks` are `var` fields.
- **Validation.** `NewBook` and `NewMember` are split in two. `Books.CheckBook` and `Members.CheckName` make the decision: trimming, the checks and their order. The methods `NewBook` and `NewMember` then allocate the object.
- **Errors.** Each `fmt.Errorf` site is a distinct constructor of `BookError`, `MemberError` or `LibraryError`. The message text is not modelled. `LibraryError.Refused` carries a member error that `BorrowBook`/`ReturnBook` pass on unchanged.
- **Unordered listings.** Go's map iteration order is unspecified. `MapListing.Values` picks each next key by an arbitrary choice (`:|`). It returns the order it used as a ghost key sequence. Its contract says the list holds each value of the map once per key, whatever the order.
- **Invariant.** `Library.Valid()` requires only that every map is keyed by the ID of what it holds; each member's own map must be keyed the same way. `AddBook` checks only `availableBooks`, and it accepts a book whose status is `"borrowed"`. So the model does not claim that the two book maps are disjoint, or that a book's status matches its map. `Scenarios.DuplicateIdWhileBorrowed` shows an ID ending up in both maps.
- **Members.** The source never inserts into `members`. `NewLibrary` starts it empty, and there is no registration operation. `Library.constructor` models `NewLibrary` exactly. `Library.WithMembers` is a modelling device: it starts the library with a given members map, so that borrowing can be exercised. It is not an operation of the source.
- **Where the description and the code differ, the model follows the code.** A design description of this system states that book IDs are in at most one of the two maps, that status matches the map, and that a borrowed book is held by exactly one member. The code does not maintain any of these, so the model does not either. Two more points follow from the code:
  - `Member.Return` checks only that the book's ID is a key of the member's map. It does not check that the same book object is stored there.
  - `Member.Borrow` overwrites an entry already stored under the same ID.

  For these reasons the borrow/return round trip (`LibraryService.BorrowThenReturn`, `Members.BorrowThenReturn`) requires that the ID was not already in `borrowedBooks` or in the member's map.

## Model

| member | source | states |
|---|---|---|
| `Trimming.Trim` | models/book.go:25-27 | the result has no leading or trailing space, it is what remains of the input after a run of spaces is cut from each end, and it is empty exactly when the input is all spaces (tabs are not removed) |
| `Trimming.TrimUnique` | models/book.go:25-27 | any way of cutting spaces from both ends that leaves no outer space gives exactly `Trim`'s result, so `Trim` is determined by that description |
| `Trimming.TrimIdempotent` | models/member.go:18 | trimming a trimmed string changes nothing |
| `Books.ValidateStatus` | models/book.go:44-49 | passes exactly for `"available"` and `"borrowed"`, and otherwise fails with the invalid-status error |
| `Books.CheckBook` | models/book.go:24-40 | title, author and status are trimmed first. Validation fails with empty title when the title is all spaces. Otherwise it fails with empty author when the author is all spaces. Otherwise it fails with invalid status exactly when the trimmed status is neither constant. It succeeds exactly when none of these apply, and then yields the given id and the trimmed strings: non-empty title and author, a valid status, no outer spaces |
| `Books.CheckBookKeepsWellFormed` | models/book.go:24-40 | validating the fields of any well-formed book gives back exactly those fields |
| `Books.NewBook` | models/book.go:24-40 | fails with the error `CheckBook` gives; otherwise returns a fresh book whose fields are `CheckBook`'s values, so it is well formed |
| `Books.Book.constructor` | models/book.go:39 | the new book's id, title, author and status are the given ones |
| `Books.Book.ID` | models/book.go:52-54 | returns the stored id (a `const`, never written after construction) |
| `Books.Book.Title` | models/book.go:57-59 | returns the stored title (a `const`) |
| `Books.Book.Author` | models/book.go:62-64 | returns the stored author (a `const`) |
| `Books.Book.Status` | models/book.go:67-69 | returns the current status without changing anything |
| `Members.CheckName` | models/member.go:17-25 | fails, with the empty-name error, exactly when the name is all spaces; otherwise yields the trimmed, non-empty name |
| `Members.CheckNameKeepsTrimmed` | models/member.go:17-25 | a non-empty name with no outer space is accepted unchanged |
| `Members.NewMember` | models/member.go:17-25 | fails exactly when `CheckName` fails; otherwise returns a fresh member with the given id, the trimmed name and an empty borrowed map |
| `Members.Member.constructor` | models/member.go:24 | the new member has the given id and name and holds nothing |
| `Members.Member.ID` | models/member.go:28-30 | returns the stored id (a `const`) |
| `Members.Member.Name` | models/member.go:33-35 | returns the stored name (a `const`) |
| `Members.Member.BorrowedBooks` | models/member.go:38-44 | lists each held book once per key of the map, in some order; the list is as long as the map and holds exactly its values; the member is not modified |
| `Members.Member.Borrow` | models/member.go:60-67 | fails exactly when the book's status is not `"available"`, and then neither the book nor the member changes; otherwise the status becomes `"borrowed"` and the map gains (or overwrites) that ID with that book, all other entries unchanged; the map stays keyed by ID |
| `Members.Member.Return` | models/member.go:47-56 | fails exactly when the book's ID is not a key of this member's map, and then nothing changes; otherwise the status becomes `"available"` and only that ID is deleted from the map |
| `Members.BorrowThenReturn` | models/member.go:47-67 | borrowing and then returning one book, when the member did not hold its ID, restores the member's map and the book's status; the return succeeds exactly when the borrow did |
| `MapListing.Values` | services/library_service.go:95-100 | the loop yields every value of the map exactly once per key, so its length is the map's size and its elements are exactly the map's values |
| `MapListing.EnumerationSize` | models/member.go:38-44 | any listing of a map's values along distinct keys covering the map has the map's size and holds exactly its values |
| `LibraryService.Propagate` | services/library_service.go:62-65 | a member failure is passed on as that same failure, and success as success |
| `LibraryService.Library.constructor` | services/library_service.go:21-27 | all three maps start empty |
| `LibraryService.Library.WithMembers` | services/library_service.go:21-27 | starts with no books and the given members (a modelling device; the source has no way to add members) |
| `LibraryService.Library.AddBook` | services/library_service.go:30-36 | fails exactly when the book's ID is already a key of `availableBooks`, and then nothing changes; otherwise `availableBooks` gains only that key mapped to the book; `borrowedBooks` and `members` never change |
| `LibraryService.Library.RemoveBook` | services/library_service.go:39-46 | fails exactly when the ID is not a key of `availableBooks` (unknown and borrowed books alike); otherwise only that key is deleted; nothing else changes |
| `LibraryService.Library.BorrowBook` | services/library_service.go:49-70 | the error is, in this order: book not in `availableBooks`, status not `"available"`, member unknown; the member's own refusal can then never occur. On any error no map, book or member changes. On success the ID leaves `availableBooks`, `borrowedBooks` maps it to that same book, the book is `"borrowed"` and the member's map holds it |
| `LibraryService.Library.ReturnBook` | services/library_service.go:73-92 | the error is, in this order: member unknown, ID not in `borrowedBooks`, member does not hold that ID; on any error nothing changes; on success the book moves from `borrowedBooks` back to `availableBooks`, becomes `"available"` and leaves the member's map |
| `LibraryService.Library.ListAvailableBooks` | services/library_service.go:95-101 | each available book exactly once, in some order; length equals the size of `availableBooks`; nothing is modified |
| `LibraryService.Library.ListBorrowedBooks` | services/library_service.go:104-110 | empty (not an error) for an unknown member; otherwise exactly that member's held books, each once |
| `LibraryService.BorrowThenReturn` | services/library_service.go:49-92 | a `BorrowBook` followed by a `ReturnBook` of the same IDs restores both book maps, the members map, the book's status and the member's map. This holds when the ID was not already in `borrowedBooks` or in the member's map. The return succeeds exactly when the borrow did |
| `LibraryService.AddThenRemove` | services/library_service.go:30-46 | after `AddBook`, `RemoveBook` of the same ID always succeeds. It restores `availableBooks` when the add succeeded. When the add failed, it deletes the entry that was already there |

## Left out

- The console controller (`controllers/library_controller.go`), `main.go` and the `LibraryManager` interface (`common/library_manger.go`) are not part of this model: they are input/output glue and a declaration without logic.
- The text of the error messages is not modelled: each failure is a distinct error constructor.
- The order of listed books is not modelled, because Go's map iteration order is unspecified. Listings are specified up to the order of the keys.
- Go's `nil`: the model's references are non-null, so `AddBook(nil)` or `Borrow(nil)`, which would panic in Go, have no counterpart. `ListBorrowedBooks` returns a nil slice for an unknown member; the model returns the empty sequence.
- `strings.Trim` works on Unicode code points. The model works on Dafny `char`s and removes only `' '`, as the cutset `" "` does.
- Only the zero value of Go's `Book{}` could produce a book that `NewBook` would reject. The library operations do not assume their books are well formed, so `Library.Valid()` does not demand it.
- Go's `int` is 64 bits wide; IDs here are unbounded integers. No operation does arithmetic on them, so no behaviour depends on the width.
