/** `LibraryManagementSystem` of week2/LibraryDemo.java as an object whose
    four maps its methods update in place. Each method runs the source's
    checks and updates one after the other and is proved to end in the state
    that the matching `Catalog` transition describes, keeping the registry
    invariant. The queries read `State()` and are the `Catalog` functions. */
module LibraryEngine {
  import opened Wrappers
  import opened LibraryEntities
  import opened LibrarySystem
  import opened LibraryProperties

  class LibraryManagementSystem {
    var books: map<BookId, Book>
    var members: map<MemberId, Member>
    var membersByEmail: map<string, MemberId>
    var membersByPhone: map<string, MemberId>

    /** The registry as a value. */
    function State(): Catalog
      reads this
    {
      Catalog(books, members, membersByEmail, membersByPhone)
    }

    ghost predicate Valid()
      reads this
    {
      State().Valid()
    }

    /** Four empty maps. */
    constructor ()
      ensures Valid() && State() == EmptyCatalog()
    {
      books := map[];
      members := map[];
      membersByEmail := map[];
      membersByPhone := map[];
    }

    /** `issueBook`, with the current date passed in as `today`. */
    method IssueBook(b: BookId, m: MemberId, today: Day) returns (r: Outcome<LibraryError>)
      requires Valid()
      modifies this
      ensures Valid()
      ensures Committed(old(State()).IssueBook(b, m, today), old(State()), State(), r)
    {
      if b !in books {
        return Fail(BookNotFound);
      }
      if m !in members {
        return Fail(MemberNotFound);
      }
      if books[b].isIssued {
        return Fail(BookAlreadyIssued);
      }
      if !members[m].CanIssueMoreBooks() {
        return Fail(BookLimitExceeded);
      }
      IssuePreservesValid(State(), b, m, today);
      Lend(b, m, today);
      r := Pass;
    }

    /** The update of a successful `issueBook`: the book is issued until
        today plus the member's loan period and the member lists it. */
    method Lend(b: BookId, m: MemberId, today: Day)
      requires b in books && m in members
      modifies this
      ensures State() == old(State()).Issued(b, m, today)
    {
      var due := today + members[m].MaxAllowedDays();
      books := books[b := books[b].Issue(m, due)];
      members := members[m := members[m].AddIssuedBook(b)];
    }

    /** `returnBook`: the three checks, then the release and the hand-off
        below; a failed automatic issue is swallowed. */
    method ReturnBook(b: BookId, m: MemberId, today: Day) returns (r: Outcome<LibraryError>)
      requires Valid()
      modifies this
      ensures Valid()
      ensures Committed(old(State()).ReturnBook(b, m, today), old(State()), State(), r)
    {
      if b !in books {
        return Fail(BookNotFound);
      }
      if m !in members {
        return Fail(MemberNotFound);
      }
      if !books[b].isIssued || books[b].issuedTo != Some(m) {
        return Fail(NotIssuedToMember);
      }
      ReleasePreservesValid(State(), b, m);
      Release(b, m);
      HandOff(b, today);
      r := Pass;
    }

    /** The first half of `returnBook`: the book is released and leaves the
        member's list. */
    method Release(b: BookId, m: MemberId)
      requires b in books && m in members
      modifies this
      ensures State() == old(State()).ReleaseBook(b, m)
    {
      books := books[b := books[b].Release()];
      members := members[m := members[m].RemoveIssuedBook(b)];
    }

    /** The second half of `returnBook`: poll the reservation queue, and issue
        the book to the polled member unless that member is registered and
        already at its limit. */
    method HandOff(b: BookId, today: Day)
      requires Valid() && b in books && !books[b].isIssued
      modifies this
      ensures Valid()
      ensures State() == old(State()).HandOff(b, today)
    {
      PollPreservesValid(State(), b);
      var (next, polled) := books[b].NextReservedMember();
      books := books[b := polled];
      if next.Some? && !(next.value in members && !members[next.value].CanIssueMoreBooks()) {
        var _ := IssueBook(b, next.value, today);
      }
    }

    /** `reserveBook`. */
    method ReserveBook(b: BookId, m: MemberId) returns (r: Outcome<LibraryError>)
      requires Valid()
      modifies this
      ensures Valid()
      ensures Committed(old(State()).ReserveBook(b, m), old(State()), State(), r)
    {
      if b !in books {
        return Fail(BookNotFound);
      }
      if m !in members {
        return Fail(MemberNotFound);
      }
      if !books[b].isIssued {
        return Fail(NoNeedToReserve);
      }
      ReservePreservesValid(State(), b, m);
      books := books[b := books[b].AddToReservationQueue(m)];
      r := Pass;
    }

    /** `addBook`. A book that is not filed yet cannot be issued: only a filed
        book gets issued, so a new one is as its constructor left it. */
    method AddBook(book: Book) returns (r: Outcome<LibraryError>)
      requires Valid() && (book.id !in books ==> book.Valid() && !book.isIssued)
      modifies this
      ensures Valid()
      ensures Committed(old(State()).AddBook(book), old(State()), State(), r)
    {
      if book.id in books {
        return Fail(DuplicateBook);
      }
      AddBookPreservesValid(State(), book);
      books := books[book.id := book];
      r := Pass;
    }

    /** `removeBook`. */
    method RemoveBook(b: BookId) returns (r: Outcome<LibraryError>)
      requires Valid()
      modifies this
      ensures Valid()
      ensures Committed(old(State()).RemoveBook(b), old(State()), State(), r)
    {
      if b !in books {
        return Fail(BookNotFound);
      }
      if books[b].isIssued {
        return Fail(BookCurrentlyIssued);
      }
      RemoveBookPreservesValid(State(), b);
      books := books - {b};
      r := Pass;
    }

    /** `registerMember`: the email check comes before the phone check. */
    method RegisterMember(member: Member) returns (r: Outcome<LibraryError>)
      requires Valid() && State().IsMemberSnapshot(member)
      modifies this
      ensures Valid()
      ensures Committed(old(State()).RegisterMember(member), old(State()), State(), r)
    {
      if member.email in membersByEmail {
        return Fail(DuplicateEmail);
      }
      if member.phone in membersByPhone {
        return Fail(DuplicatePhone);
      }
      RegisterPreservesValid(State(), member);
      members := members[member.id := member];
      membersByEmail := membersByEmail[member.email := member.id];
      membersByPhone := membersByPhone[member.phone := member.id];
      r := Pass;
    }
  }
}
