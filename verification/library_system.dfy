/** The registry and circulation engine of week2/LibraryDemo.java
    (`LibraryManagementSystem`): books and members by id, members by email and
    by phone, and the issue / return / reserve / add / remove / register
    transitions. Each transition is a function on the registry state
    `Catalog` that validates first and changes the state only on success;
    the class `LibraryManagementSystem` performs the same steps in place. */
module LibrarySystem {
  import opened Wrappers
  import opened Text
  import opened Seqs
  import opened LibraryEntities

  /** The exceptions the engine throws. The two `DuplicateMemberException`
      messages and the three plain `LibraryException` messages are kept apart. */
  datatype LibraryError =
    | BookNotFound           // BookNotFoundException
    | MemberNotFound         // MemberNotFoundException
    | BookAlreadyIssued      // BookAlreadyIssuedException
    | BookLimitExceeded      // BookLimitExceededException
    | DuplicateBook          // DuplicateBookException
    | DuplicateEmail         // DuplicateMemberException, email already registered
    | DuplicatePhone         // DuplicateMemberException, phone already registered
    | NotIssuedToMember      // "Book is not issued to this member"
    | BookCurrentlyIssued    // "Cannot remove book that is currently issued"
    | NoNeedToReserve        // "Book is available, no need to reserve"
    | UnauthorizedAccess     // UnauthorizedAccessException

  /** Aggregate counts of `displayLibraryStatistics`. */
  datatype LibraryStatistics = LibraryStatistics(
    totalBooks: nat, availableBooks: int, issuedBooks: nat, overdueBooks: nat, totalMembers: nat)

  /** The four registry maps. */
  datatype Catalog = Catalog(
    books: map<BookId, Book>,
    members: map<MemberId, Member>,
    membersByEmail: map<string, MemberId>,
    membersByPhone: map<string, MemberId>)
  {
    /** Every book is filed under its own id, keeps its issue state
        consistent and queues no member twice. */
    ghost predicate BooksWellFormed() {
      forall b :: b in books ==> books[b].id == b && books[b].Valid()
    }

    /** Every member is filed under its own id and holds at most its limit of
        books, none twice. */
    ghost predicate MembersWellFormed() {
      forall m :: m in members ==>
        && members[m].id == m
        && |members[m].currentlyIssuedBooks| <= members[m].MaxBooksAllowed()
        && NoDuplicates(members[m].currentlyIssuedBooks)
    }

    /** `Book.issuedTo` and `Member.currentlyIssuedBooks` are two sides of the
        same fact. */
    ghost predicate LoansAgree() {
      && (forall b :: b in books && books[b].issuedTo.Some? ==>
            books[b].issuedTo.value in members
            && b in members[books[b].issuedTo.value].currentlyIssuedBooks)
      && (forall m, b :: m in members && b in members[m].currentlyIssuedBooks ==>
            b in books && books[b].issuedTo == Some(m))
    }

    /** The email and phone indices point at registered members, and every
        member can be found under its own email and phone. */
    ghost predicate IndicesAgree() {
      && (forall e :: e in membersByEmail ==> membersByEmail[e] in members)
      && (forall p :: p in membersByPhone ==> membersByPhone[p] in members)
      && (forall m :: m in members ==>
            members[m].email in membersByEmail && membersByEmail[members[m].email] == m)
      && (forall m :: m in members ==>
            members[m].phone in membersByPhone && membersByPhone[members[m].phone] == m)
    }

    ghost predicate Valid() {
      BooksWellFormed() && MembersWellFormed() && LoansAgree() && IndicesAgree()
    }

    // ---------------------------------------------------------------- issue

    /** `issueBook`: the four checks in the source's order, then the book is
        issued until today plus the member's loan period and listed with the
        member. */
    function IssueBook(b: BookId, m: MemberId, today: Day): (r: Result<Catalog, LibraryError>)
      ensures b !in books ==> r == Err(BookNotFound)
      ensures b in books && m !in members ==> r == Err(MemberNotFound)
      ensures b in books && m in members && books[b].isIssued ==> r == Err(BookAlreadyIssued)
      ensures b in books && m in members && !books[b].isIssued && !members[m].CanIssueMoreBooks()
        ==> r == Err(BookLimitExceeded)
      ensures r.Ok? <==>
        b in books && m in members && !books[b].isIssued && members[m].CanIssueMoreBooks()
      ensures r.Ok? ==>
        var c := r.value;
        && c.books.Keys == books.Keys && c.members.Keys == members.Keys
        && c.books[b].isIssued && c.books[b].issuedTo == Some(m)
        && c.books[b].dueDate == Some(today + members[m].MaxAllowedDays())
        && c.books[b].SameExceptIssueState(books[b])
        && b in c.members[m].currentlyIssuedBooks
        && c.members[m] == members[m].(currentlyIssuedBooks := c.members[m].currentlyIssuedBooks)
        && (forall x :: x in books && x != b ==> c.books[x] == books[x])
        && (forall y :: y in members && y != m ==> c.members[y] == members[y])
        && c.membersByEmail == membersByEmail && c.membersByPhone == membersByPhone
    {
      if b !in books then Err(BookNotFound)
      else if m !in members then Err(MemberNotFound)
      else if books[b].isIssued then Err(BookAlreadyIssued)
      else if !members[m].CanIssueMoreBooks() then Err(BookLimitExceeded)
      else Ok(Issued(b, m, today))
    }

    /** The registry after a successful issue: the book is issued until today
        plus the member's loan period and the member lists it. */
    function Issued(b: BookId, m: MemberId, today: Day): Catalog
      requires b in books && m in members
    {
      var due := today + members[m].MaxAllowedDays();
      this.(books := books[b := books[b].Issue(m, due)],
            members := members[m := members[m].AddIssuedBook(b)])
    }

    // --------------------------------------------------------------- return

    /** The first half of a return: the book is released and leaves the
        member's list. */
    function ReleaseBook(b: BookId, m: MemberId): (c: Catalog)
      requires b in books && m in members
      ensures c.books == books[b := books[b].Release()]
      ensures c.members == members[m := members[m].RemoveIssuedBook(b)]
      ensures c.membersByEmail == membersByEmail && c.membersByPhone == membersByPhone
    {
      this.(books := books[b := books[b].Release()],
            members := members[m := members[m].RemoveIssuedBook(b)])
    }

    /** The automatic hand-off after a return: the head of the book's
        reservation queue is always removed; it gets the book only if it can
        still borrow, and a failed issue leaves the book available. */
    function HandOff(b: BookId, today: Day): Catalog
      requires b in books
    {
      var (next, polled) := books[b].NextReservedMember();
      var afterPoll := this.(books := books[b := polled]);
      if next.None? then afterPoll
      else if next.value in members && !members[next.value].CanIssueMoreBooks() then afterPoll
      else
        match afterPoll.IssueBook(b, next.value, today)
        case Ok(issued) => issued
        case Err(_) => afterPoll
    }

    /** `returnBook`: the book and the member must be registered and the book
        issued to exactly that member; then release and hand-off. */
    function ReturnBook(b: BookId, m: MemberId, today: Day): (r: Result<Catalog, LibraryError>)
      ensures b !in books ==> r == Err(BookNotFound)
      ensures b in books && m !in members ==> r == Err(MemberNotFound)
      ensures r.Ok? <==> b in books && m in members && books[b].isIssued && books[b].issuedTo == Some(m)
      ensures b in books && m in members && !r.Ok? ==> r == Err(NotIssuedToMember)
    {
      if b !in books then Err(BookNotFound)
      else if m !in members then Err(MemberNotFound)
      else if !books[b].isIssued || books[b].issuedTo != Some(m) then Err(NotIssuedToMember)
      else Ok(ReleaseBook(b, m).HandOff(b, today))
    }

    // -------------------------------------------------------------- reserve

    /** `reserveBook`: only an issued book can be reserved; the member joins
        the end of the queue unless already in it. */
    function ReserveBook(b: BookId, m: MemberId): (r: Result<Catalog, LibraryError>)
      ensures b !in books ==> r == Err(BookNotFound)
      ensures b in books && m !in members ==> r == Err(MemberNotFound)
      ensures b in books && m in members && !books[b].isIssued ==> r == Err(NoNeedToReserve)
      ensures r.Ok? <==> b in books && m in members && books[b].isIssued
      ensures r.Ok? ==>
        && r.value == this.(books := r.value.books)
        && r.value.books == books[b := books[b].AddToReservationQueue(m)]
    {
      if b !in books then Err(BookNotFound)
      else if m !in members then Err(MemberNotFound)
      else if !books[b].isIssued then Err(NoNeedToReserve)
      else Ok(this.(books := books[b := books[b].AddToReservationQueue(m)]))
    }

    // ------------------------------------------------ add, remove, register

    /** `addBook`: rejects an id already present. */
    function AddBook(book: Book): (r: Result<Catalog, LibraryError>)
      ensures r.Err? <==> book.id in books
      ensures r.Err? ==> r.error == DuplicateBook
      ensures r.Ok? ==> r.value == this.(books := books[book.id := book])
    {
      if book.id in books then Err(DuplicateBook) else Ok(this.(books := books[book.id := book]))
    }

    /** `removeBook`: the book must be registered and not issued. */
    function RemoveBook(b: BookId): (r: Result<Catalog, LibraryError>)
      ensures b !in books ==> r == Err(BookNotFound)
      ensures b in books && books[b].isIssued ==> r == Err(BookCurrentlyIssued)
      ensures r.Ok? <==> b in books && !books[b].isIssued
      ensures r.Ok? ==> r.value == this.(books := books - {b})
    {
      if b !in books then Err(BookNotFound)
      else if books[b].isIssued then Err(BookCurrentlyIssued)
      else Ok(this.(books := books - {b}))
    }

    /** `registerMember`: rejects a registered email, then a registered phone;
        otherwise files the member in all three maps. Neither the email nor
        the phone format is checked here. */
    function RegisterMember(member: Member): (r: Result<Catalog, LibraryError>)
      ensures member.email in membersByEmail ==> r == Err(DuplicateEmail)
      ensures member.email !in membersByEmail && member.phone in membersByPhone ==> r == Err(DuplicatePhone)
      ensures r.Ok? <==> member.email !in membersByEmail && member.phone !in membersByPhone
      ensures r.Ok? ==>
        && r.value.books == books
        && r.value.members == members[member.id := member]
        && r.value.membersByEmail == membersByEmail[member.email := member.id]
        && r.value.membersByPhone == membersByPhone[member.phone := member.id]
    {
      if member.email in membersByEmail then Err(DuplicateEmail)
      else if member.phone in membersByPhone then Err(DuplicatePhone)
      else Ok(Catalog(books, members[member.id := member],
                      membersByEmail[member.email := member.id],
                      membersByPhone[member.phone := member.id]))
    }

    /** What a `Member` object passed to `registerMember` looks like: a new
        member has no books yet, and a member already filed under its id is
        the same object, with the same category and the same issued books. */
    predicate IsMemberSnapshot(member: Member) {
      if member.id in members then
        member.category == members[member.id].category
        && member.currentlyIssuedBooks == members[member.id].currentlyIssuedBooks
      else member.currentlyIssuedBooks == []
    }

    // -------------------------------------------------------------- queries

    /** The trimmed, lower-cased keyword that the searches look for. */
    function Needle(keyword: string): string {
      JavaTrim(ToLower(keyword))
    }

    predicate FieldMatches(field: string, keyword: string) {
      Contains(ToLower(field), Needle(keyword))
    }

    /** `searchBooks`: nothing for a blank keyword, otherwise every book whose
        title, author or genre contains it, ignoring case. */
    function SearchBooks(keyword: string): (r: set<Book>)
      ensures r <= books.Values
      ensures IsBlank(keyword, IsJavaSpace) ==> r == {}
      ensures forall bk :: bk in books.Values && !IsBlankJava(keyword) ==>
        (bk in r <==> FieldMatches(bk.title, keyword) || FieldMatches(bk.author, keyword) || FieldMatches(bk.genre, keyword))
    {
      if IsBlankJava(keyword) then {}
      else
        set bk | bk in books.Values
                 && (FieldMatches(bk.title, keyword) || FieldMatches(bk.author, keyword)
                     || FieldMatches(bk.genre, keyword))
    }

    /** `searchByTitle`. */
    function SearchByTitle(title: string): (r: set<Book>)
      ensures r <= books.Values
      ensures IsBlank(title, IsJavaSpace) ==> r == {}
      ensures forall bk :: bk in books.Values && !IsBlankJava(title) ==> (bk in r <==> FieldMatches(bk.title, title))
    {
      if IsBlankJava(title) then {} else set bk | bk in books.Values && FieldMatches(bk.title, title)
    }

    /** `searchByAuthor`. */
    function SearchByAuthor(author: string): (r: set<Book>)
      ensures r <= books.Values
      ensures IsBlank(author, IsJavaSpace) ==> r == {}
      ensures forall bk :: bk in books.Values && !IsBlankJava(author) ==> (bk in r <==> FieldMatches(bk.author, author))
    {
      if IsBlankJava(author) then {} else set bk | bk in books.Values && FieldMatches(bk.author, author)
    }

    /** `searchByGenre`. */
    function SearchByGenre(genre: string): (r: set<Book>)
      ensures r <= books.Values
      ensures IsBlank(genre, IsJavaSpace) ==> r == {}
      ensures forall bk :: bk in books.Values && !IsBlankJava(genre) ==> (bk in r <==> FieldMatches(bk.genre, genre))
    {
      if IsBlankJava(genre) then {} else set bk | bk in books.Values && FieldMatches(bk.genre, genre)
    }

    /** `viewIssuedBooks`: the member's issued list, if the member is registered. */
    function ViewIssuedBooks(m: MemberId): (r: Result<seq<BookId>, LibraryError>)
      ensures r.Err? <==> m !in members
      ensures r.Err? ==> r.error == MemberNotFound
      ensures r.Ok? ==> r.value == members[m].currentlyIssuedBooks
    {
      if m !in members then Err(MemberNotFound) else Ok(members[m].currentlyIssuedBooks)
    }

    /** `viewOverdueBooks`: librarians only; the books overdue today. */
    function ViewOverdueBooks(requester: Member, today: Day): (r: Result<set<Book>, LibraryError>)
      ensures r.Err? <==> !requester.HasLibrarianPrivileges()
      ensures r.Err? ==> r.error == UnauthorizedAccess
      ensures r.Ok? ==> forall bk :: bk in r.value <==> bk in books.Values && bk.IsOverdue(today)
    {
      if !requester.HasLibrarianPrivileges() then Err(UnauthorizedAccess)
      else Ok(set bk | bk in books.Values && bk.IsOverdue(today))
    }

    /** `getAllMembers`: librarians only. */
    function GetAllMembers(requester: Member): (r: Result<set<Member>, LibraryError>)
      ensures r.Err? <==> !requester.HasLibrarianPrivileges()
      ensures r.Err? ==> r.error == UnauthorizedAccess
      ensures r.Ok? ==> r.value == members.Values
    {
      if !requester.HasLibrarianPrivileges() then Err(UnauthorizedAccess) else Ok(members.Values)
    }

    function IssuedIds(): set<BookId> {
      set b | b in books && books[b].isIssued
    }

    function AvailableIds(): set<BookId> {
      set b | b in books && !books[b].isIssued
    }

    function OverdueIds(today: Day): set<BookId> {
      set b | b in books && books[b].IsOverdue(today)
    }

    /** `displayLibraryStatistics`: the counts it prints, with the available
        count computed as total minus issued. */
    function Statistics(today: Day): (s: LibraryStatistics)
      ensures s.totalBooks == |books| && s.totalMembers == |members|
      ensures s.issuedBooks == |IssuedIds()| && s.overdueBooks == |OverdueIds(today)|
      ensures s.availableBooks == s.totalBooks - s.issuedBooks
    {
      var total := |books|;
      var issued := |IssuedIds()|;
      LibraryStatistics(total, total - issued, issued, |OverdueIds(today)|, |members|)
    }
  }

  /** The empty registry of the constructor. */
  function EmptyCatalog(): (c: Catalog)
    ensures c.Valid()
    ensures c.books == map[] && c.members == map[]
  {
    Catalog(map[], map[], map[], map[])
  }

  /** The state after an operation: the new catalog on success, the old one
      on failure, and the matching outcome. */
  predicate Committed(res: Result<Catalog, LibraryError>, before: Catalog, after: Catalog, r: Outcome<LibraryError>) {
    match res
    case Ok(c) => after == c && r == Pass
    case Err(e) => after == before && r == Fail(e)
  }
}
