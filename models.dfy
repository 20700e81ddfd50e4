/**
 * The records of the library: a book, a member, and the book's own
 * availability test.
 */
module Models {

  /** The two status words the service writes into a book. */
  const AVAILABLE: string := "Available"
  const BORROWED: string := "Borrowed"

  /** The member id that stands for "nobody has reserved this book". */
  const NO_RESERVATION: int := 0

  /**
   * A catalogue entry. `status` is free text: the service only ever writes
   * AVAILABLE or BORROWED, but a book added by a caller may carry any word.
   * `available` is a separate flag that the service never updates.
   */
  datatype Book = Book(
    id: int,
    title: string,
    author: string,
    status: string,
    available: bool,
    reservedBy: int)

  /** A member: id, display name and the snapshots of the books they borrowed, oldest first. */
  datatype Member = Member(id: int, name: string, borrowedBooks: seq<Book>)

  /** The book's own availability test: the flag is set and nobody holds a reservation. */
  predicate IsAvailable(b: Book)
  {
    b.available && b.reservedBy == NO_RESERVATION
  }

  /** A reserved book is never available, whatever its `available` flag says. */
  lemma ReservedIsNeverAvailable(b: Book)
    requires b.reservedBy != NO_RESERVATION
    ensures !IsAvailable(b)
  {
  }

  /**
   * Availability depends on the flag and the reservation only: two books that
   * agree on those agree on it, whatever their status, id, title or author.
   */
  lemma AvailabilityDependsOnFlagAndReservation(b: Book, c: Book)
    requires b.available == c.available && b.reservedBy == c.reservedBy
    ensures IsAvailable(b) == IsAvailable(c)
  {
  }
}
