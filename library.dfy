/**
 * The library service: a store of books and members in which every
 * operation is one critical section under the store's lock, modelled here
 * as one atomic method of class `Library`.
 */
module Services {
  import opened Models

  /** The error values the service reports, one per message it can return. */
  datatype Error =
    | BookNotFound
    | BookAlreadyBorrowed
    | ReservedByAnotherMember
    | MemberNotFound
    | BookAlreadyReserved

  /** The text each error carries. */
  function Message(e: Error): string
  {
    match e
    case BookNotFound => "book not found"
    case BookAlreadyBorrowed => "book already borrowed"
    case ReservedByAnotherMember => "book reserved by another member"
    case MemberNotFound => "member not found"
    case BookAlreadyReserved => "book already reserved"
  }

  /** Different errors carry different texts, so a caller can tell them apart by their message alone. */
  lemma MessagesAreDistinct(e1: Error, e2: Error)
    ensures Message(e1) == Message(e2) <==> e1 == e2
  {
  }

  /** What an operation returns: no error, or the first check that failed. */
  datatype Outcome = Success | Failure(error: Error)

  /** The store invariant, for one book: a borrowed book carries no reservation. */
  predicate NotBorrowedWhileReserved(b: Book)
  {
    b.status == BORROWED ==> b.reservedBy == NO_RESERVATION
  }

  /** The store invariant, for every book in the catalogue. */
  predicate Coherent(books: map<int, Book>)
  {
    forall id :: id in books ==> NotBorrowedWhileReserved(books[id])
  }

  /** The selection the service uses when it lists available books. */
  predicate Listed(b: Book)
  {
    b.status == AVAILABLE && b.reservedBy == NO_RESERVATION
  }

  /** The keys of the books the available-books listing reports. */
  function ListedKeys(books: map<int, Book>): set<int>
  {
    set id | id in books && Listed(books[id])
  }

  /** A book after a successful borrow: lent out, and any reservation converted. */
  function MarkBorrowed(b: Book): Book
  {
    b.(status := BORROWED, reservedBy := NO_RESERVATION)
  }

  /** A book after a return: back on the shelf, reservation untouched. */
  function MarkReturned(b: Book): Book
  {
    b.(status := AVAILABLE)
  }

  /** A book after a successful reservation by `memberID`. */
  function ReservedFor(b: Book, memberID: int): Book
  {
    b.(reservedBy := memberID)
  }

  /**
   * A book after the expiry of a reservation made by `memberID`: the
   * reservation is dropped only if that member still holds it and the book
   * has not been borrowed in the meantime.
   */
  function AfterExpiry(b: Book, memberID: int): Book
  {
    if b.reservedBy == memberID && b.status != BORROWED then b.(reservedBy := NO_RESERVATION) else b
  }

  lemma ExpiryIsIdempotent(b: Book, memberID: int)
    ensures AfterExpiry(AfterExpiry(b, memberID), memberID) == AfterExpiry(b, memberID)
  {
  }

  /** A reservation its holder converted into a borrow survives the expiry. */
  lemma BorrowSurvivesExpiry(b: Book, memberID: int)
    ensures AfterExpiry(MarkBorrowed(b), memberID) == MarkBorrowed(b)
  {
  }

  /** An expiry releases a reservation still held by its member on a book not lent out. */
  lemma ExpiryReleasesOwnReservation(b: Book, memberID: int)
    requires b.reservedBy == memberID && b.status != BORROWED
    ensures AfterExpiry(b, memberID) == b.(reservedBy := NO_RESERVATION)
  {
  }

  /** An expiry never touches a book whose reservation is held by someone else, or by nobody. */
  lemma ExpiryLeavesOthersAlone(b: Book, memberID: int)
    requires b.reservedBy != memberID
    ensures AfterExpiry(b, memberID) == b
  {
  }

  /** Every per-book transition of the service keeps the invariant. */
  lemma TransitionsKeepInvariant(b: Book, memberID: int)
    ensures NotBorrowedWhileReserved(MarkBorrowed(b))
    ensures NotBorrowedWhileReserved(b) ==> NotBorrowedWhileReserved(MarkReturned(b))
    ensures b.status != BORROWED ==> NotBorrowedWhileReserved(ReservedFor(b, memberID))
    ensures NotBorrowedWhileReserved(b) ==> NotBorrowedWhileReserved(AfterExpiry(b, memberID))
  {
  }

  /**
   * The book's own availability flag and the service's listing disagree in
   * both directions: neither implies the other.
   */
  lemma AvailabilityDisagreesWithListing()
    ensures exists b: Book :: IsAvailable(b) && !Listed(b)
    ensures exists b: Book :: Listed(b) && !IsAvailable(b)
  {
    var lent := Book(1, "", "", BORROWED, true, NO_RESERVATION);
    assert IsAvailable(lent) && !Listed(lent);
    var shelved := Book(2, "", "", AVAILABLE, false, NO_RESERVATION);
    assert Listed(shelved) && !IsAvailable(shelved);
  }

  /** Whether `books` holds an entry for book `id`. */
  predicate HasBook(books: seq<Book>, id: int)
  {
    exists k :: 0 <= k < |books| && books[k].id == id
  }

  /** `books` without its first entry for book `id`; unchanged when there is none. */
  function RemoveFirst(books: seq<Book>, id: int): seq<Book>
  {
    if books == [] then []
    else if books[0].id == id then books[1..]
    else [books[0]] + RemoveFirst(books[1..], id)
  }

  /** Removing drops exactly one entry when there is a match, and none otherwise. */
  lemma {:induction false} RemoveFirstLength(books: seq<Book>, id: int)
    ensures HasBook(books, id) ==> |RemoveFirst(books, id)| == |books| - 1
    ensures !HasBook(books, id) ==> RemoveFirst(books, id) == books
  {
    if books != [] && books[0].id != id {
      RemoveFirstLength(books[1..], id);
      assert HasBook(books, id) ==> HasBook(books[1..], id) by {
        if HasBook(books, id) {
          var k :| 0 <= k < |books| && books[k].id == id;
          assert books[1..][k - 1].id == id;
        }
      }
      assert HasBook(books[1..], id) ==> HasBook(books, id) by {
        if HasBook(books[1..], id) {
          var k :| 0 <= k < |books[1..]| && books[1..][k].id == id;
          assert books[k + 1].id == id;
        }
      }
    } else if books != [] {
      assert books[0].id == id;
      assert HasBook(books, id);
    }
  }

  /** What is removed is the first matching entry: the seq is spliced at that index. */
  lemma {:induction false} RemoveFirstAt(books: seq<Book>, id: int, i: int)
    requires 0 <= i < |books| && books[i].id == id
    requires forall k :: 0 <= k < i ==> books[k].id != id
    ensures RemoveFirst(books, id) == books[..i] + books[i + 1..]
  {
    if i > 0 {
      RemoveFirstAt(books[1..], id, i - 1);
      assert books[1..][..i - 1] == books[1..i];
      assert books[1..][i..] == books[i + 1..];
      assert [books[0]] + books[1..i] == books[..i];
    }
  }

  /**
   * The library. `books` is keyed by book id and `members` by member id;
   * they are the only state any operation reads or writes.
   */
  class Library {
    var books: map<int, Book>
    var members: map<int, Member>

    /** A library with an empty catalogue and no members. */
    constructor ()
      ensures books == map[] && members == map[]
    {
      books := map[];
      members := map[];
    }

    /** Stores `book` under its own id, replacing any earlier entry. */
    method AddBook(book: Book)
      modifies this
      ensures books == old(books)[book.id := book]
      ensures members == old(members)
      ensures Coherent(old(books)) && NotBorrowedWhileReserved(book) ==> Coherent(books)
    {
      books := books[book.id := book];
    }

    /** Deletes the entry for `bookID`, if any, whatever its status or reservation. */
    method RemoveBook(bookID: int)
      modifies this
      ensures books == old(books) - {bookID}
      ensures members == old(members)
      ensures Coherent(old(books)) ==> Coherent(books)
    {
      books := books - {bookID};
    }

    /**
     * Lends book `bookID` to member `memberID`. The checks run in this
     * order and the first that fails is reported: the book exists, it is
     * not lent out, it is not reserved by another member, the member exists.
     */
    method BorrowBook(bookID: int, memberID: int) returns (outcome: Outcome)
      modifies this
      ensures bookID !in old(books) ==> outcome == Failure(BookNotFound)
      ensures bookID in old(books) && old(books)[bookID].status == BORROWED ==>
        outcome == Failure(BookAlreadyBorrowed)
      ensures (bookID in old(books) && old(books)[bookID].status != BORROWED
               && old(books)[bookID].reservedBy != NO_RESERVATION && old(books)[bookID].reservedBy != memberID) ==>
        outcome == Failure(ReservedByAnotherMember)
      ensures (bookID in old(books) && old(books)[bookID].status != BORROWED
               && (old(books)[bookID].reservedBy == NO_RESERVATION || old(books)[bookID].reservedBy == memberID)
               && memberID !in old(members)) ==>
        outcome == Failure(MemberNotFound)
      ensures outcome == Success <==>
        bookID in old(books) && old(books)[bookID].status != BORROWED
        && (old(books)[bookID].reservedBy == NO_RESERVATION || old(books)[bookID].reservedBy == memberID)
        && memberID in old(members)
      ensures outcome.Failure? ==> books == old(books) && members == old(members)
      ensures outcome == Success ==>
        && books == old(books)[bookID := MarkBorrowed(old(books)[bookID])]
        && members == old(members)[memberID :=
             old(members)[memberID].(borrowedBooks := old(members)[memberID].borrowedBooks + [books[bookID]])]
      ensures Coherent(old(books)) ==> Coherent(books)
    {
      if bookID !in books {
        return Failure(BookNotFound);
      }
      var book := books[bookID];
      if book.status == BORROWED {
        return Failure(BookAlreadyBorrowed);
      }
      if book.reservedBy != NO_RESERVATION && book.reservedBy != memberID {
        return Failure(ReservedByAnotherMember);
      }
      if memberID !in members {
        return Failure(MemberNotFound);
      }
      var member := members[memberID];
      book := book.(status := BORROWED, reservedBy := NO_RESERVATION);
      books := books[bookID := book];
      member := member.(borrowedBooks := member.borrowedBooks + [book]);
      members := members[memberID := member];
      outcome := Success;
    }

    /**
     * Takes book `bookID` back from member `memberID`. Only the existence of
     * the book and then of the member are checked; the book becomes
     * available and the member's first entry for it, if any, is removed.
     */
    method ReturnBook(bookID: int, memberID: int) returns (outcome: Outcome)
      modifies this
      ensures bookID !in old(books) ==> outcome == Failure(BookNotFound)
      ensures bookID in old(books) && memberID !in old(members) ==> outcome == Failure(MemberNotFound)
      ensures outcome == Success <==> bookID in old(books) && memberID in old(members)
      ensures outcome.Failure? ==> books == old(books) && members == old(members)
      ensures outcome == Success ==>
        && books == old(books)[bookID := MarkReturned(old(books)[bookID])]
        && members == old(members)[memberID :=
             old(members)[memberID].(borrowedBooks := RemoveFirst(old(members)[memberID].borrowedBooks, bookID))]
      ensures Coherent(old(books)) ==> Coherent(books)
    {
      if bookID !in books {
        return Failure(BookNotFound);
      }
      if memberID !in members {
        return Failure(MemberNotFound);
      }
      var book := books[bookID];
      var member := members[memberID];
      book := book.(status := AVAILABLE);
      books := books[bookID := book];

      ghost var held := member.borrowedBooks;
      var borrowed := member.borrowedBooks;
      var i := 0;
      while i < |borrowed|
        invariant 0 <= i <= |borrowed|
        invariant borrowed == held
        invariant forall k :: 0 <= k < i ==> borrowed[k].id != bookID
      {
        if borrowed[i].id == bookID {
          RemoveFirstAt(borrowed, bookID, i);
          borrowed := borrowed[..i] + borrowed[i + 1..];
          break;
        }
        i := i + 1;
      }
      RemoveFirstLength(held, bookID);
      assert borrowed == RemoveFirst(held, bookID);
      members := members[memberID := member.(borrowedBooks := borrowed)];
      outcome := Success;
    }

    /**
     * The books that are shelved and unreserved, in the order the catalogue
     * happens to be visited; `order` gives the key each entry was read from,
     * and every listed key is read exactly once.
     */
    method ListAvailableBooks() returns (list: seq<Book>, ghost order: seq<int>)
      ensures |order| == |list|
      ensures forall i :: 0 <= i < |list| ==> order[i] in books && list[i] == books[order[i]]
      ensures forall id :: id in ListedKeys(books) <==> id in order
      ensures forall i, j :: 0 <= i < j < |order| ==> order[i] != order[j]
      ensures forall i :: 0 <= i < |list| ==> Listed(list[i])
    {
      list, order := [], [];
      var pending := books.Keys;
      while pending != {}
        invariant pending <= books.Keys
        invariant |order| == |list|
        invariant forall i :: 0 <= i < |list| ==> order[i] in books && list[i] == books[order[i]]
        invariant forall i :: 0 <= i < |order| ==> order[i] !in pending
        invariant forall id :: id in ListedKeys(books) && id !in pending <==> id in order
        invariant forall i, j :: 0 <= i < j < |order| ==> order[i] != order[j]
        invariant forall i :: 0 <= i < |list| ==> Listed(list[i])
        decreases pending
      {
        if forall k :: k !in pending {
          assert false;  // pending is not empty
        }
        var id :| id in pending;
        var b := books[id];
        if b.status == AVAILABLE && b.reservedBy == NO_RESERVATION {
          list, order := list + [b], order + [id];
        }
        pending := pending - {id};
      }
    }

    /** The borrowed-book snapshots of member `memberID`; nothing for an unknown member. */
    method ListBorrowedBooks(memberID: int) returns (list: seq<Book>)
      ensures memberID in members ==> list == members[memberID].borrowedBooks
      ensures memberID !in members ==> list == []
    {
      if memberID in members {
        return members[memberID].borrowedBooks;
      }
      return [];
    }

    /**
     * One reservation request as a worker serves it under the lock: the
     * book must exist, not be lent out and carry no reservation at all,
     * even one by the requesting member. Members are never consulted.
     */
    method Reserve(bookID: int, memberID: int) returns (outcome: Outcome)
      modifies this
      ensures bookID !in old(books) ==> outcome == Failure(BookNotFound)
      ensures bookID in old(books) && old(books)[bookID].status == BORROWED ==>
        outcome == Failure(BookAlreadyBorrowed)
      ensures (bookID in old(books) && old(books)[bookID].status != BORROWED
               && old(books)[bookID].reservedBy != NO_RESERVATION) ==>
        outcome == Failure(BookAlreadyReserved)
      ensures outcome == Success <==>
        bookID in old(books) && old(books)[bookID].status != BORROWED
        && old(books)[bookID].reservedBy == NO_RESERVATION
      ensures outcome.Failure? ==> books == old(books)
      ensures outcome == Success ==> books == old(books)[bookID := ReservedFor(old(books)[bookID], memberID)]
      ensures outcome == Success && memberID == NO_RESERVATION ==> books == old(books)
      ensures members == old(members)
      ensures Coherent(old(books)) ==> Coherent(books)
    {
      if bookID !in books {
        return Failure(BookNotFound);
      }
      var book := books[bookID];
      if book.status == BORROWED {
        return Failure(BookAlreadyBorrowed);
      }
      if book.reservedBy != NO_RESERVATION {
        return Failure(BookAlreadyReserved);
      }
      book := book.(reservedBy := memberID);
      books := books[bookID := book];
      outcome := Success;
    }

    /**
     * The expiry of a reservation made by `memberID`: re-reads the book
     * and clears the reservation only if that member still holds it and
     * the book is not lent out; anything else is left as it is.
     */
    method AutoCancelReservation(bookID: int, memberID: int)
      modifies this
      ensures bookID !in old(books) ==> books == old(books)
      ensures bookID in old(books) ==> books == old(books)[bookID := AfterExpiry(old(books)[bookID], memberID)]
      ensures members == old(members)
      ensures Coherent(old(books)) ==> Coherent(books)
    {
      if bookID !in books {
        return;
      }
      var book := books[bookID];
      if book.reservedBy == memberID && book.status != BORROWED {
        book := book.(reservedBy := NO_RESERVATION);
        books := books[bookID := book];
      }
    }
  }

  /** Whether a reservation request for `bookID` succeeds against `books`. */
  predicate Reservable(books: map<int, Book>, bookID: int)
  {
    bookID in books && books[bookID].status != BORROWED && books[bookID].reservedBy == NO_RESERVATION
  }

  /**
   * The index of the first request made by an actual member rather than
   * the "nobody" id, or `|requesters|` when there is none.
   */
  function FirstMember(requesters: seq<int>): (k: nat)
    ensures k <= |requesters|
    ensures forall j :: 0 <= j < k ==> requesters[j] == NO_RESERVATION
    ensures k < |requesters| ==> requesters[k] != NO_RESERVATION
  {
    if requesters == [] || requesters[0] != NO_RESERVATION then 0
    else 1 + FirstMember(requesters[1..])
  }

  /**
   * The reservation requests for one book served back to back under the
   * lock, in the order given, with no other operation in between. If the
   * book can be reserved, every request up to and including the first one
   * by an actual member succeeds (requests by the "nobody" id reserve
   * nothing) and that member ends up holding the book; every later request
   * is told the book is already reserved. If it cannot be reserved, every
   * request gets the same error and nothing changes.
   */
  method ServeReservations(lib: Library, bookID: int, requesters: seq<int>) returns (outcomes: seq<Outcome>)
    modifies lib
    ensures |outcomes| == |requesters|
    ensures (forall k :: 0 <= k < |requesters| ==> requesters[k] != NO_RESERVATION) ==>
      forall i, j :: 0 <= i < j < |outcomes| && outcomes[i] == Success ==> outcomes[j] != Success
    ensures Reservable(old(lib.books), bookID) ==>
      && (forall j :: 0 <= j < |outcomes| && j <= FirstMember(requesters) ==> outcomes[j] == Success)
      && (forall j :: FirstMember(requesters) < j < |outcomes| ==> outcomes[j] == Failure(BookAlreadyReserved))
    ensures Reservable(old(lib.books), bookID) && FirstMember(requesters) < |requesters| ==>
      lib.books == old(lib.books)[bookID := ReservedFor(old(lib.books)[bookID], requesters[FirstMember(requesters)])]
    ensures Reservable(old(lib.books), bookID) && FirstMember(requesters) == |requesters| ==>
      lib.books == old(lib.books)
    ensures bookID !in old(lib.books) ==>
      forall j :: 0 <= j < |outcomes| ==> outcomes[j] == Failure(BookNotFound)
    ensures bookID in old(lib.books) && old(lib.books)[bookID].status == BORROWED ==>
      forall j :: 0 <= j < |outcomes| ==> outcomes[j] == Failure(BookAlreadyBorrowed)
    ensures (bookID in old(lib.books) && old(lib.books)[bookID].status != BORROWED
             && old(lib.books)[bookID].reservedBy != NO_RESERVATION) ==>
      forall j :: 0 <= j < |outcomes| ==> outcomes[j] == Failure(BookAlreadyReserved)
    ensures !Reservable(old(lib.books), bookID) ==> lib.books == old(lib.books)
    ensures (bookID in lib.books <==> bookID in old(lib.books)) && lib.books - {bookID} == old(lib.books) - {bookID}
    ensures lib.members == old(lib.members)
    ensures Coherent(old(lib.books)) ==> Coherent(lib.books)
  {
    ghost var k := FirstMember(requesters);
    ghost var reservable := Reservable(lib.books, bookID);
    outcomes := [];
    for i := 0 to |requesters|
      invariant |outcomes| == i
      invariant lib.members == old(lib.members)
      invariant Coherent(old(lib.books)) ==> Coherent(lib.books)
      invariant (bookID in lib.books <==> bookID in old(lib.books)) && lib.books - {bookID} == old(lib.books) - {bookID}
      invariant !reservable ==> lib.books == old(lib.books)
      invariant bookID !in old(lib.books) ==> forall j :: 0 <= j < i ==> outcomes[j] == Failure(BookNotFound)
      invariant bookID in old(lib.books) && old(lib.books)[bookID].status == BORROWED ==>
        forall j :: 0 <= j < i ==> outcomes[j] == Failure(BookAlreadyBorrowed)
      invariant (bookID in old(lib.books) && old(lib.books)[bookID].status != BORROWED
                 && old(lib.books)[bookID].reservedBy != NO_RESERVATION) ==>
        forall j :: 0 <= j < i ==> outcomes[j] == Failure(BookAlreadyReserved)
      invariant reservable ==> forall j :: 0 <= j < i && j <= k ==> outcomes[j] == Success
      invariant reservable ==> forall j :: k < j < i ==> outcomes[j] == Failure(BookAlreadyReserved)
      invariant reservable && i <= k ==> lib.books == old(lib.books)
      invariant reservable && k < i ==>
        lib.books == old(lib.books)[bookID := ReservedFor(old(lib.books)[bookID], requesters[k])]
    {
      var outcome := lib.Reserve(bookID, requesters[i]);
      outcomes := outcomes + [outcome];
    }
  }

  /**
   * A book is reserved, borrowed and returned by the same member: every step
   * succeeds, the book ends up shelved with no reservation, and the
   * member's borrowed list is empty again.
   */
  method ReserveBorrowReturnScenario() returns (reserved: Outcome, borrowed: Outcome, returned: Outcome, last: Book, held: seq<Book>)
    ensures reserved == Success && borrowed == Success && returned == Success
    ensures last.status == AVAILABLE && last.reservedBy == NO_RESERVATION
    ensures held == []
  {
    var lib := new Library();
    lib.AddBook(Book(7, "Title", "Author", AVAILABLE, false, NO_RESERVATION));
    lib.members := lib.members[201 := Member(201, "Reader", [])];
    reserved := lib.Reserve(7, 201);
    borrowed := lib.BorrowBook(7, 201);
    returned := lib.ReturnBook(7, 201);
    last := lib.books[7];
    held := lib.ListBorrowedBooks(201);
  }

  /**
   * Book 10 is reserved by member 201. Within the window a second request
   * by 202, a repeated request by 201 itself and a borrow by 202 all fail;
   * once the reservation has expired the book is listed again and 202's
   * retry succeeds.
   */
  method ReservationExpiryScenario()
    returns (first: Outcome, rival: Outcome, repeat: Outcome, rivalBorrow: Outcome, listed: bool, retry: Outcome)
    ensures first == Success
    ensures rival == Failure(BookAlreadyReserved) && repeat == Failure(BookAlreadyReserved)
    ensures rivalBorrow == Failure(ReservedByAnotherMember)
    ensures Message(rival.error) == "book already reserved" && Message(rivalBorrow.error) == "book reserved by another member"
    ensures listed && retry == Success
  {
    var lib := new Library();
    lib.AddBook(Book(10, "Title", "Author", AVAILABLE, false, NO_RESERVATION));
    lib.members := lib.members[201 := Member(201, "First", [])][202 := Member(202, "Second", [])];
    first := lib.Reserve(10, 201);
    rival := lib.Reserve(10, 202);
    repeat := lib.Reserve(10, 201);
    rivalBorrow := lib.BorrowBook(10, 202);
    lib.AutoCancelReservation(10, 201);
    var available, order := lib.ListAvailableBooks();
    assert 10 in ListedKeys(lib.books);
    ghost var k :| 0 <= k < |order| && order[k] == 10;
    assert available[k] == lib.books[10];
    listed := lib.books[10] in available;
    retry := lib.Reserve(10, 202);
  }

  /**
   * A reservation its holder borrows before the window ends is not undone
   * by the expiry: the book stays lent out with no reservation, and another
   * member can neither reserve nor borrow it.
   */
  method BorrowBeatsExpiryScenario()
    returns (borrowed: Outcome, last: Book, rivalReserve: Outcome, rivalBorrow: Outcome)
    ensures borrowed == Success
    ensures last.status == BORROWED && last.reservedBy == NO_RESERVATION
    ensures rivalReserve == Failure(BookAlreadyBorrowed) && rivalBorrow == Failure(BookAlreadyBorrowed)
  {
    var lib := new Library();
    lib.AddBook(Book(3, "Title", "Author", AVAILABLE, false, NO_RESERVATION));
    lib.members := lib.members[201 := Member(201, "First", [])][202 := Member(202, "Second", [])];
    var reserved := lib.Reserve(3, 201);
    borrowed := lib.BorrowBook(3, 201);
    lib.AutoCancelReservation(3, 201);
    last := lib.books[3];
    rivalReserve := lib.Reserve(3, 202);
    rivalBorrow := lib.BorrowBook(3, 202);
  }

  /**
   * Member id 0 is the "nobody" value of a reservation, yet nothing stops a
   * request from carrying it: such a request succeeds and leaves the book
   * unreserved, so a second one succeeds as well.
   */
  method NobodyReservesScenario() returns (first: Outcome, second: Outcome, last: Book)
    ensures first == Success && second == Success
    ensures last.reservedBy == NO_RESERVATION
  {
    var lib := new Library();
    lib.AddBook(Book(5, "Title", "Author", AVAILABLE, false, NO_RESERVATION));
    first := lib.Reserve(5, NO_RESERVATION);
    second := lib.Reserve(5, NO_RESERVATION);
    last := lib.books[5];
  }

  /**
   * A queue that starts with a request by the "nobody" id: that request and
   * the first one by a real member both succeed, the member holds the book,
   * and the request after it is told the book is already reserved.
   */
  method NobodyThenMemberScenario() returns (outcomes: seq<Outcome>, last: Book)
    ensures outcomes == [Success, Success, Failure(BookAlreadyReserved)]
    ensures last.reservedBy == 5
  {
    var lib := new Library();
    lib.AddBook(Book(1, "Title", "Author", AVAILABLE, false, NO_RESERVATION));
    var requesters := [NO_RESERVATION, 5, 6];
    assert FirstMember(requesters) == 1 by {
      assert requesters[1..] == [5, 6];
    }
    outcomes := ServeReservations(lib, 1, requesters);
    last := lib.books[1];
  }
}
