# Library service, word frequencies and summing — a Dafny model

This project models the sequential core of a small Go library-management
program and two exercise tasks that sit beside it:

- **The library service** (`services/library-service.go`). The library keeps
  two maps: books by book id and members by member id. One mutex guards every
  operation. The model is class `Services.Library`, which has those two maps
  as fields. Each critical section is one atomic method: add, remove, borrow,
  return, the two listings, the reservation worker's check-and-reserve for one
  request (`Reserve`), and the expiry that re-checks a reservation and cancels
  it (`AutoCancelReservation`). Each method's contract gives the error cases in
  the order the code checks them, the exact new state, and that nothing else
  changes. Every mutating method except `AddBook` preserves the store
  invariant "a borrowed book carries no reservation" (`Coherent`). `AddBook`
  keeps it only when the added book satisfies it. Small pure functions
  (`MarkBorrowed`, `MarkReturned`, `ReservedFor`, `AfterExpiry`) describe the
  change to one book, and lemmas prove how those changes combine.
  `ServeReservations` covers one run of the worker pool: a sequence of
  requests for one book served back to back under the lock, with no other
  operation in between. Five scenario methods replay the reservation life
  cycle on a fresh library.
- **The book record** (`models/book.go`): `Models.Book`, its `IsAvailable`
  test (a pure predicate, so it reads the book and changes nothing), and the
  inferred `Models.Member` record.
- **Word frequencies** (`Tasks/task2-word-freq.go`). The counting part of
  `main` is modelled as a method from text to a frequency map. The text is
  trimmed, lowercased, stripped of everything except `a`–`z` and space, split
  on single spaces, and every non-empty field is counted.
- **SumOfNumbers** (`Tasks/task1.go`): an accumulator loop, proved against a
  recursive `Sum`.

Files: `models.dfy` (module `Models`), `library.dfy` (module `Services`),
`wordfreq.dfy` (module `WordFreq`), `numbers.dfy` (module `Numbers`).

The model follows the code as written:
- `AddBook` stores the given book as it is (services/library-service.go:57).
  It does not reset the status to "Available" or clear the reservation.
- `Status` is free text. The comment at models/book.go:12 lists two values,
  but any string is stored. Only the word "Borrowed" blocks a borrow or a
  reservation (lines 74 and 187). Only "Available" together with no
  reservation puts a book in the listing (line 128).
- The reservation worker never looks up the member (lines 179-201).
- The worker accepts member id 0, which is the "no reservation" value
  (models/book.go:14). Such a request succeeds and reserves nothing
  (`NobodyReservesScenario`).
- The at-most-one-winner property of `ServeReservations` is stated only for
  runs with no id 0. When id-0 requests come first, each of them succeeds,
  and so does the first request by a real member after them.

## Model

| member | source | states |
|---|---|---|
| Models.IsAvailable | models/book.go:19-23 | computes whether a book can be taken: its Available flag is set and no member holds a reservation. It is a pure test, so it changes nothing |
| Models.ReservedIsNeverAvailable | models/book.go:19-23 | a book with a reservation (ReservedBy ≠ 0) is never available, whatever its Available flag says |
| Models.AvailabilityDependsOnFlagAndReservation | models/book.go:12-23 | availability depends only on the Available flag and ReservedBy: two books that agree on these two fields agree on IsAvailable, whatever their status, id, title or author |
| Services.Message | services/library-service.go:72-195 | gives the text the service returns for each error: "book not found", "book already borrowed", "book reserved by another member", "member not found", "book already reserved" |
| Services.MessagesAreDistinct | services/library-service.go:72-195 | two errors have the same text exactly when they are the same error |
| Services.Listed | services/library-service.go:128 | computes the listing's selection: status "Available" and no reservation. The Available flag is not consulted |
| Services.MarkBorrowed | services/library-service.go:87-88 | computes the book after a borrow: status "Borrowed", reservation cleared, every other field kept |
| Services.MarkReturned | services/library-service.go:108 | computes the book after a return: status "Available", the reservation and every other field kept |
| Services.ReservedFor | services/library-service.go:200 | computes the book after a reservation: ReservedBy set to the requester, every other field kept |
| Services.AfterExpiry | services/library-service.go:220-221 | computes the book after an expiry: the reservation is cleared when that member holds it and the book is not borrowed; otherwise the book is unchanged |
| Services.AvailabilityDisagreesWithListing | services/library-service.go:128 | the book's IsAvailable and the service's listing test disagree both ways: some book is IsAvailable but not listed, and some listed book is not IsAvailable (the service never sets Available) |
| Services.ExpiryIsIdempotent | services/library-service.go:210-225 | a second expiry for the same member changes nothing |
| Services.BorrowSurvivesExpiry | services/library-service.go:219-224 | a book the holder borrowed is left untouched by a later expiry |
| Services.ExpiryReleasesOwnReservation | services/library-service.go:219-222 | an expiry clears the reservation when the same member still holds it and the book is not borrowed |
| Services.ExpiryLeavesOthersAlone | services/library-service.go:220 | an expiry leaves the book unchanged when another member, or nobody, holds the reservation |
| Services.TransitionsKeepInvariant | services/library-service.go:86-221 | borrowing always gives a borrowed book with no reservation. Returning and expiry preserve "borrowed ⟹ not reserved". Reserving a book that is not borrowed also satisfies it |
| Services.RemoveFirst | services/library-service.go:111-117 | computes the member's list with its first entry for the book removed, or the list unchanged when no entry has that id |
| Services.RemoveFirstLength | services/library-service.go:111-117 | removing by book id drops exactly one entry when some entry has that id; otherwise the list is unchanged |
| Services.RemoveFirstAt | services/library-service.go:112-115 | the entry removed is the first one with the id: the list is spliced at that index |
| Services.Library.constructor | services/library-service.go:38-43 | a new library has no books and no members |
| Services.Library.AddBook | services/library-service.go:54-58 | books[book.id] becomes the book, replacing any earlier entry. Members do not change. The invariant survives when the added book satisfies it |
| Services.Library.RemoveBook | services/library-service.go:60-64 | the key is deleted whatever the book's status or reservation. A missing key is a no-op. Other entries and members do not change |
| Services.Library.BorrowBook | services/library-service.go:66-94 | errors in this order: book not found, already borrowed, reserved by another member, member not found. Success happens exactly when none applies. A failure changes nothing. On success the book becomes Borrowed with no reservation, only that member's list changes, and it gains the updated book at its end. The invariant is preserved |
| Services.Library.ReturnBook | services/library-service.go:96-120 | errors in this order: book not found, member not found. The borrow and its borrower are not checked. A failure changes nothing. On success the status becomes Available and the reservation is kept. The member's first entry with that id is removed, if there is one. The invariant is preserved |
| Services.Library.ListAvailableBooks | services/library-service.go:122-133 | the result holds exactly the books with status Available and no reservation, each read once from its own key. The order is left open |
| Services.Library.ListBorrowedBooks | services/library-service.go:135-143 | the member's borrowed list; empty for an unknown member |
| Services.Library.Reserve | services/library-service.go:179-205 | errors in this order: book not found, already borrowed, already reserved. The last applies to any holder, including the requester. Success happens exactly when none applies. A failure changes nothing. Success sets only that book's reservation, so member id 0 changes nothing. Members never change. The invariant is preserved |
| Services.Library.AutoCancelReservation | services/library-service.go:210-225 | a missing book is a no-op. Otherwise the book becomes AfterExpiry(book, member): the reservation is cleared only when that member holds it and the book is not borrowed. Members never change. The invariant is preserved |
| Services.ServeReservations | services/library-service.go:174-207 | requests are served back to back under the lock, with no other operation in between. Only the requested book can change, and it stays in the catalogue or stays missing. If the book cannot be reserved at the start, nothing changes and every request gets the same error: book not found, already borrowed, or already reserved, by the book's starting state. If it can be reserved, every request up to and including the first by a real member (FirstMember) succeeds, and every later one fails as already reserved. The book ends up reserved by that member, or unchanged when every request uses id 0. With no id 0 at all, at most one request succeeds |
| Services.Reservable | services/library-service.go:180-197 | computes whether a reservation request can succeed: the book exists, is not borrowed and has no reservation |
| Services.FirstMember | services/library-service.go:200 | the index of the first request by a real member: every earlier request uses id 0, and the one at the index does not; the length of the queue when there is none |
| Services.ReserveBorrowReturnScenario | services/library-service.go:66-120 | reserve, borrow and return by one member all succeed. The book ends up Available with no reservation, and the member's list is empty |
| Services.ReservationExpiryScenario | services/library-service.go:179-225 | while book 10 is reserved by 201: a reservation by 202 fails, a repeat by 201 fails, and a borrow by 202 fails. After the expiry the book is listed again, and 202's retry succeeds. The rival's errors carry the texts "book already reserved" and "book reserved by another member" |
| Services.BorrowBeatsExpiryScenario | services/library-service.go:86-92 | a reservation borrowed by its holder survives the expiry. The book stays Borrowed with no reservation, and another member can neither reserve nor borrow it |
| Services.NobodyReservesScenario | services/library-service.go:193-201 | reserving with member id 0 succeeds twice in a row and leaves the book unreserved |
| Services.NobodyThenMemberScenario | services/library-service.go:179-205 | for the queue [0, 5, 6] on a free book, the id-0 request and member 5's request both succeed, member 6 is told the book is already reserved, and member 5 holds the book |
| Numbers.SumAppend | Tasks/task1.go:7-13 | additivity: Sum(a + b) == Sum(a) + Sum(b) |
| Numbers.SumPermutation | Tasks/task1.go:7-13 | reordering the elements does not change the sum |
| Numbers.SumOfNumbers | Tasks/task1.go:7-13 | the accumulator loop returns Sum(numbers). An empty slice gives 0 and [x] gives x. The loop invariant is that the accumulator equals the sum of the prefix read so far |
| WordFreq.TrimSpace | Tasks/task2-word-freq.go:20 | the trimmed text never starts or ends with white space and is no longer than the input. White space alone trims to "". An already trimmed text is returned as it is |
| WordFreq.ToLower | Tasks/task2-word-freq.go:21 | each character is lowercased in place. No upper-case letter remains, and every other character is kept |
| WordFreq.Clean | Tasks/task2-word-freq.go:25-30 | the cleaned text is no longer than the input. No kept character ('a'..'z' or space) is lost. A text made only of kept characters is returned as it is. CleanConcat and DroppedLeavesNoSeparator pin down the rest: position by position, with no separator left for a dropped character |
| WordFreq.Split | Tasks/task2-word-freq.go:32 | computes the fields between single spaces, as strings.Split with " " does. There is always at least one field, and empty fields are kept |
| WordFreq.SplitAtFirstSpace | Tasks/task2-word-freq.go:32 | the first field ends at the first space, and the remaining fields are those of the text after it |
| WordFreq.SplitFieldCount | Tasks/task2-word-freq.go:32 | a text with n spaces splits into exactly n + 1 fields |
| WordFreq.JoinSplit | Tasks/task2-word-freq.go:32 | joining the fields with single spaces gives the split text back, so the split loses nothing |
| WordFreq.FirstSpace | Tasks/task2-word-freq.go:32 | the index where the split cuts is a space with no space before it |
| WordFreq.CleanKeepsOnlyKept | Tasks/task2-word-freq.go:26-30 | the cleaned text contains only 'a'..'z' and spaces |
| WordFreq.CleanConcat | Tasks/task2-word-freq.go:26-30 | cleaning goes character by character: cleaning a + b gives the cleaned a followed by the cleaned b |
| WordFreq.DroppedLeavesNoSeparator | Tasks/task2-word-freq.go:26-30 | any dropped character leaves no separator: cleaning a + [c] + b, for c not a lowercase letter or space, gives the cleaned a joined straight to the cleaned b |
| WordFreq.ApostropheIsDropped | Tasks/task2-word-freq.go:27-28 | a dropped character leaves no separator: "don't" becomes "dont" |
| WordFreq.SplitFields | Tasks/task2-word-freq.go:32 | no field contains a space, and every character of a field comes from the split text |
| WordFreq.SpaceFreeConcat | Tasks/task2-word-freq.go:32 | two lists of space-free fields stay space-free when put together |
| WordFreq.SplitIsSpaceFree | Tasks/task2-word-freq.go:32 | no field of a split contains a space |
| WordFreq.JoinConcat | Tasks/task2-word-freq.go:32 | joining two non-empty field lists puts exactly one space between the two joins |
| WordFreq.SplitJoin | Tasks/task2-word-freq.go:32 | space-free fields joined with single spaces split back into exactly those fields. With JoinSplit, splitting and joining are inverse |
| WordFreq.SplitConcat | Tasks/task2-word-freq.go:32 | splitting a + " " + b gives the fields of a followed by the fields of b |
| WordFreq.NonEmptyConcat | Tasks/task2-word-freq.go:35-37 | skipping empty fields distributes over concatenation |
| WordFreq.NonEmptyEntries | Tasks/task2-word-freq.go:35-37 | each kept field is non-empty and comes from the split |
| WordFreq.WordsAreLowercaseLetters | Tasks/task2-word-freq.go:20-37 | every counted word is non-empty and made only of 'a'..'z' |
| WordFreq.LeadingSpacesAddNoWords | Tasks/task2-word-freq.go:32-37 | leading spaces add no word |
| WordFreq.TrailingSpacesAddNoWords | Tasks/task2-word-freq.go:32-37 | trailing spaces add no word |
| WordFreq.SpaceRunActsAsOneSpace | Tasks/task2-word-freq.go:32-37 | a run of one or more spaces between two texts gives the same words as a single space |
| WordFreq.ToLowerIdempotent | Tasks/task2-word-freq.go:21 | lowercasing twice is the same as lowercasing once |
| WordFreq.TrimLeftCommutesWithLower | Tasks/task2-word-freq.go:20-21 | trimming leading white space commutes with lowercasing |
| WordFreq.TrimRightCommutesWithLower | Tasks/task2-word-freq.go:20-21 | trimming trailing white space commutes with lowercasing |
| WordFreq.CaseInsensitive | Tasks/task2-word-freq.go:20-21 | a text and its lowercased form give the same words, so the same table |
| WordFreq.Increment | Tasks/task2-word-freq.go:37 | computes the table after freq[word]++: the word's count rises by one, and a missing word starts at 0 |
| WordFreq.TotalCountIncrement | Tasks/task2-word-freq.go:37 | freq[word]++ (a missing word starts at 0) raises the sum of all counts by exactly one |
| WordFreq.TallyCountsArePositive | Tasks/task2-word-freq.go:35-38 | every count in the table is at least 1 |
| WordFreq.TallyStep | Tasks/task2-word-freq.go:37 | incrementing a word's entry counts one more occurrence of that word and changes no other count |
| WordFreq.RemovePunctuation | Tasks/task2-word-freq.go:25-30 | the character loop builds exactly the cleaned text: the characters 'a'..'z' and space, in order |
| WordFreq.CountWords | Tasks/task2-word-freq.go:34-39 | the table's keys are exactly the non-empty fields. Each count is the number of occurrences, at least 1. The counts sum to the number of non-empty fields |
| WordFreq.WordFrequency | Tasks/task2-word-freq.go:20-39 | trim, lowercase, clean, split and count. The table tallies exactly the non-empty fields of the cleaned text, every count is at least 1, and the counts sum to the number of those fields |

## Left out

- The reservation queue (a channel of capacity 50), the three worker goroutines, and `ReserveBook`'s enqueue-and-wait on the reply channel are concurrency plumbing. They are left out. `Reserve` is one worker's locked body. `ServeReservations` covers the requests that the pool serves back to back.
- ServeReservations: it assumes that no borrow, return, expiry or catalogue change runs between two queued requests. In Go, `BorrowBook`, `ReturnBook` and `autoCancelReservation` take the same lock as the workers (services/library-service.go:67, 97, 179 and 211), so they can run in between. A borrow between requests makes a later request fail with "book already borrowed". An expiry, or a borrow and then a return, between requests can let a second request succeed. The model builds such interleavings from the single-step methods, as the scenario methods do. It does not state a property over all of them.
- The mutex in `Library` and the one in `Book` are left out. Every method is one atomic step.
- The 5-second timer goroutine is left out. Expiry is an explicit call to `AutoCancelReservation`. Which of an expiry and a borrow gets the lock first is chosen by the caller's order of calls.
- The `fmt.Printf` logging in the worker and in the expiry is left out.
- The console front ends (`controllers/library-controllers.go` and `Task3/library-managment/controllers/library-controllers.go`) are I/O with `fmt.Scan` and sleep-based goroutine demos, and are left out. Member registration writes the members map directly there, and the scenario methods do the same.
- `Member` is defined outside the modelled files. It is inferred from its uses as id, name and an ordered list of book snapshots.
- Go slices share backing arrays. `ListBorrowedBooks` returns the member's own slice. `ReturnBook` splices it in place, which shifts elements that an earlier caller of `ListBorrowedBooks` can still see. `BorrowBook`'s append may write into shared spare capacity. The model uses value sequences, so this aliasing is not captured.
- Map iteration order in `ListAvailableBooks` is random in Go. The model returns the books in an unspecified order and pins the result down only up to that order.
- The stdin read and the printing in `Tasks/task2-word-freq.go` (lines 17-19 and 41) are I/O and are left out.
- WordFreq.WordFrequency: lowercasing and trimming are ASCII only. Go's `strings.ToLower` and `strings.TrimSpace` are Unicode-aware. For example, the Kelvin sign lowercases to 'k' and would survive cleaning in Go, but the model drops it. U+0085 and U+00A0 are trimmed by Go but not by the model.
- Numbers.SumOfNumbers: Go's 64-bit wrap-around on overflow is not modelled, because the sum is over unbounded integers.
