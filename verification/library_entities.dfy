/** The two entities of the library circulation engine (week2/LibraryDemo.java):
    a Book with its issue state and reservation queue, and a Member whose
    category fixes how many books it may hold and for how many days.
    Both are value records; the registry keeps them by id. */
module LibraryEntities {
  import opened Wrappers
  import opened Text
  import opened Seqs

  /** Opaque unique ids; the source draws them from `UUID.randomUUID()`. */
  type BookId = nat
  type MemberId = nat

  /** Calendar dates as day numbers. */
  type Day = int

  /** The four `Member` subclasses. */
  datatype Category = StudentMember | TeacherMember | GuestMember | Librarian

  /** What a category fixes: `maxBooksAllowed` and `getMaxAllowedDays()`. */
  datatype LoanPolicy = LoanPolicy(maxBooksAllowed: nat, maxAllowedDays: nat)

  /** The policy table that replaces the four subclasses. */
  function PolicyOf(c: Category): LoanPolicy {
    match c
    case StudentMember => LoanPolicy(3, 14)
    case TeacherMember => LoanPolicy(5, 30)
    case GuestMember => LoanPolicy(1, 7)
    case Librarian => LoanPolicy(10, 60)
  }

  /** Failures of the validating setters (`IllegalArgumentException`). */
  datatype ValidationError =
    | InvalidTitle | InvalidAuthor | InvalidGenre
    | InvalidName | InvalidEmail | InvalidPhone

  /** `s == null || s.trim().isEmpty()` for a non-null string. */
  predicate IsBlankJava(s: string) {
    JavaTrim(s) == []
  }

  datatype Book = Book(
    id: BookId,
    title: string,
    author: string,
    genre: string,
    isIssued: bool,
    issuedTo: Option<MemberId>,
    dueDate: Option<Day>,
    reservationQueue: seq<MemberId>)
  {
    /** `isIssued`, `issuedTo != null` and `dueDate != null` always agree. */
    predicate IssueStateConsistent() {
      isIssued == issuedTo.Some? && isIssued == dueDate.Some?
    }

    /** What every Book the engine can produce satisfies. */
    predicate Valid() {
      IssueStateConsistent() && NoDuplicates(reservationQueue)
    }

    /** Same book, same description and same reservation queue: only the
        issue state may differ. */
    predicate SameExceptIssueState(other: Book) {
      id == other.id && title == other.title && author == other.author
      && genre == other.genre && reservationQueue == other.reservationQueue
    }

    /** `Book.issueBook`: marks the book issued to `member` until `due`. */
    function Issue(member: MemberId, due: Day): (b: Book)
      ensures b.isIssued && b.issuedTo == Some(member) && b.dueDate == Some(due)
      ensures b.IssueStateConsistent()
      ensures b.SameExceptIssueState(this)
      ensures Valid() ==> b.Valid()
    {
      this.(isIssued := true, issuedTo := Some(member), dueDate := Some(due))
    }

    /** `Book.returnBook`: clears the issue state. */
    function Release(): (b: Book)
      ensures !b.isIssued && b.issuedTo == None && b.dueDate == None
      ensures b.IssueStateConsistent()
      ensures b.SameExceptIssueState(this)
      ensures Valid() ==> b.Valid()
    {
      this.(isIssued := false, issuedTo := None, dueDate := None)
    }

    /** `Book.addToReservationQueue`: appends `member` unless already queued. */
    function AddToReservationQueue(member: MemberId): (b: Book)
      ensures member in b.reservationQueue
      ensures member in reservationQueue ==> b == this
      ensures member !in reservationQueue ==> b.reservationQueue == reservationQueue + [member]
      ensures b == this.(reservationQueue := b.reservationQueue)
      ensures Valid() ==> b.Valid()
    {
      if member in reservationQueue then this
      else this.(reservationQueue := reservationQueue + [member])
    }

    /** `Book.getNextReservedMember`: polls the head of the queue (null when
        the queue is empty) and returns it with the book that remains. */
    function NextReservedMember(): (r: (Option<MemberId>, Book))
      ensures reservationQueue == [] ==> r == (None, this)
      ensures reservationQueue != [] ==>
        r.0 == Some(reservationQueue[0]) && r.1 == this.(reservationQueue := reservationQueue[1..])
      ensures Valid() ==> r.1.Valid() && (r.0.Some? ==> r.0.value !in r.1.reservationQueue)
    {
      if reservationQueue == [] then (None, this)
      else (Some(reservationQueue[0]), this.(reservationQueue := reservationQueue[1..]))
    }

    /** `Book.isOverdue`, with "today" as a parameter: the due date is set and
        lies strictly before today. */
    predicate IsOverdue(today: Day) {
      dueDate.Some? && today > dueDate.value
    }

    /** `Book.getDaysUntilDue`: zero for a book without a due date, otherwise
        the signed number of days from today to the due date. */
    function DaysUntilDue(today: Day): (d: int)
      ensures dueDate.None? ==> d == 0
      ensures dueDate.Some? ==> today + d == dueDate.value
      ensures IsOverdue(today) <==> d < 0
    {
      if dueDate.None? then 0 else dueDate.value - today
    }

    /** `Book.setTitle`: rejects a blank title, otherwise changes only the title. */
    function SetTitle(t: string): (r: Result<Book, ValidationError>)
      ensures r.Ok? <==> !IsBlank(t, IsJavaSpace)
      ensures r.Ok? ==> r.value == this.(title := t)
      ensures r.Err? ==> r.error == InvalidTitle
    {
      if IsBlankJava(t) then Err(InvalidTitle) else Ok(this.(title := t))
    }

    /** `Book.setAuthor`. */
    function SetAuthor(a: string): (r: Result<Book, ValidationError>)
      ensures r.Ok? <==> !IsBlank(a, IsJavaSpace)
      ensures r.Ok? ==> r.value == this.(author := a)
      ensures r.Err? ==> r.error == InvalidAuthor
    {
      if IsBlankJava(a) then Err(InvalidAuthor) else Ok(this.(author := a))
    }

    /** `Book.setGenre`. */
    function SetGenre(g: string): (r: Result<Book, ValidationError>)
      ensures r.Ok? <==> !IsBlank(g, IsJavaSpace)
      ensures r.Ok? ==> r.value == this.(genre := g)
      ensures r.Err? ==> r.error == InvalidGenre
    {
      if IsBlankJava(g) then Err(InvalidGenre) else Ok(this.(genre := g))
    }
  }

  /** The `Book` constructor: available, with an empty reservation queue. The
      constructor does not validate its arguments. */
  function NewBook(id: BookId, title: string, author: string, genre: string): (b: Book)
    ensures b.Valid() && !b.isIssued && b.reservationQueue == []
    ensures b.id == id && b.title == title && b.author == author && b.genre == genre
  {
    Book(id, title, author, genre, false, None, None, [])
  }

  /** A book with a due date is issued, so an overdue book is an issued one. */
  lemma OverdueImpliesIssued(b: Book, today: Day)
    requires b.IssueStateConsistent() && b.IsOverdue(today)
    ensures b.isIssued && b.issuedTo.Some?
  {
  }

  /** A character the email pattern accepts before the '@': `[A-Za-z0-9+_.-]`. */
  predicate IsEmailLocalChar(c: char) {
    ('A' <= c <= 'Z') || ('a' <= c <= 'z') || ('0' <= c <= '9')
    || c == '+' || c == '_' || c == '.' || c == '-'
  }

  /** The characters that the regular-expression dot does not match. */
  predicate IsLineTerminator(c: char) {
    c == '\n' || c == '\r' || c == '\U{0085}' || c == '\U{2028}' || c == '\U{2029}'
  }

  /** `email.matches("^[A-Za-z0-9+_.-]+@(.+)$")`, split at the '@' at index `i`. */
  predicate EmailSplitsAt(email: string, i: int) {
    0 < i < |email| - 1 && email[i] == '@'
    && (forall k :: 0 <= k < i ==> IsEmailLocalChar(email[k]))
    && (forall k :: i < k < |email| ==> !IsLineTerminator(email[k]))
  }

  predicate IsValidEmail(email: string) {
    exists i :: 0 < i < |email| - 1 && EmailSplitsAt(email, i)
  }

  /** `phone.matches("^\\+?[0-9]{10,15}$")`. */
  predicate IsValidPhone(phone: string) {
    10 <= |PhoneDigits(phone)| <= 15
    && forall k :: 0 <= k < |PhoneDigits(phone)| ==> '0' <= PhoneDigits(phone)[k] <= '9'
  }

  /** The phone number without its optional leading '+'. */
  function PhoneDigits(phone: string): string {
    if |phone| > 0 && phone[0] == '+' then phone[1..] else phone
  }

  datatype Member = Member(
    id: MemberId,
    name: string,
    email: string,
    phone: string,
    category: Category,
    currentlyIssuedBooks: seq<BookId>)
  {
    /** Every category may hold at least one book, so a member without
        books can always borrow. */
    function MaxBooksAllowed(): (n: nat)
      ensures n >= 1
    {
      PolicyOf(category).maxBooksAllowed
    }

    function MaxAllowedDays(): nat {
      PolicyOf(category).maxAllowedDays
    }

    /** `Librarian.hasLibrarianPrivileges` and the `instanceof Librarian` test. */
    predicate HasLibrarianPrivileges() {
      category == Librarian
    }

    /** `canIssueMoreBooks`: fewer books held than the category allows. */
    predicate CanIssueMoreBooks() {
      |currentlyIssuedBooks| < MaxBooksAllowed()
    }

    /** `addIssuedBook`: appends the book unless it is already listed. */
    function AddIssuedBook(b: BookId): (m: Member)
      ensures b in m.currentlyIssuedBooks
      ensures b in currentlyIssuedBooks ==> m == this
      ensures b !in currentlyIssuedBooks ==> m.currentlyIssuedBooks == currentlyIssuedBooks + [b]
      ensures m == this.(currentlyIssuedBooks := m.currentlyIssuedBooks)
      ensures NoDuplicates(currentlyIssuedBooks) ==> NoDuplicates(m.currentlyIssuedBooks)
    {
      if b in currentlyIssuedBooks then this
      else this.(currentlyIssuedBooks := currentlyIssuedBooks + [b])
    }

    /** `removeIssuedBook`: `List.remove`, which drops the first occurrence. */
    function RemoveIssuedBook(b: BookId): (m: Member)
      ensures m == this.(currentlyIssuedBooks := RemoveFirst(currentlyIssuedBooks, b))
      ensures NoDuplicates(currentlyIssuedBooks) ==>
        && b !in m.currentlyIssuedBooks
        && NoDuplicates(m.currentlyIssuedBooks)
        && (forall x :: x in m.currentlyIssuedBooks <==> x in currentlyIssuedBooks && x != b)
        && |m.currentlyIssuedBooks| <= |currentlyIssuedBooks|
    {
      var r := RemoveFirst(currentlyIssuedBooks, b);
      assert NoDuplicates(currentlyIssuedBooks) ==> b !in r && NoDuplicates(r) by {
        if NoDuplicates(currentlyIssuedBooks) {
          RemoveFirstNoDuplicates(currentlyIssuedBooks, b);
        }
      }
      assert forall x :: x in r <==> x in multiset(r);
      assert forall x :: x in currentlyIssuedBooks <==> x in multiset(currentlyIssuedBooks);
      this.(currentlyIssuedBooks := r)
    }

    /** `setName`: rejects a blank name. */
    function SetName(n: string): (r: Result<Member, ValidationError>)
      ensures r.Ok? <==> !IsBlank(n, IsJavaSpace)
      ensures r.Ok? ==> r.value == this.(name := n)
      ensures r.Err? ==> r.error == InvalidName
    {
      if IsBlankJava(n) then Err(InvalidName) else Ok(this.(name := n))
    }

    /** `setEmail`: rejects an address that does not match the email pattern. */
    function SetEmail(e: string): (r: Result<Member, ValidationError>)
      ensures r.Ok? <==> exists i :: EmailSplitsAt(e, i)
      ensures r.Ok? ==> r.value == this.(email := e)
      ensures r.Err? ==> r.error == InvalidEmail
    {
      if IsValidEmail(e) then Ok(this.(email := e)) else Err(InvalidEmail)
    }

    /** `setPhone`: rejects anything but an optional '+' and 10 to 15 digits. */
    function SetPhone(p: string): (r: Result<Member, ValidationError>)
      ensures r.Ok? ==> r.value == this.(phone := p) && 10 <= |p| <= 16
      ensures r.Ok? <==> IsValidPhone(p)
      ensures r.Err? ==> r.error == InvalidPhone
    {
      if IsValidPhone(p) then Ok(this.(phone := p)) else Err(InvalidPhone)
    }
  }

  /** The `Member` constructors: no validation, no books issued yet. */
  function NewMember(id: MemberId, name: string, email: string, phone: string, category: Category): (m: Member)
    ensures m.currentlyIssuedBooks == [] && m.CanIssueMoreBooks()
    ensures m.id == id && m.name == name && m.email == email && m.phone == phone && m.category == category
  {
    Member(id, name, email, phone, category, [])
  }

  /** A valid email splits at exactly one index, its first '@': no character
      before the split may be an '@'. */
  lemma ValidEmailSplitsAtFirstAt(email: string)
    requires IsValidEmail(email)
    ensures exists i ::
              && EmailSplitsAt(email, i)
              && (forall k :: 0 <= k < i ==> email[k] != '@')
              && (forall j :: EmailSplitsAt(email, j) ==> j == i)
  {
    var i :| 0 < i < |email| - 1 && EmailSplitsAt(email, i);
  }

  /** A valid phone number is 10 to 16 characters long, all digits except
      possibly a leading '+'. */
  lemma ValidPhoneShape(phone: string)
    ensures IsValidPhone(phone) <==>
      && 10 <= |phone| - (if |phone| > 0 && phone[0] == '+' then 1 else 0) <= 15
      && forall k :: 0 <= k < |phone| ==> ('0' <= phone[k] <= '9' || (k == 0 && phone[k] == '+'))
  {
    var d := if |phone| > 0 && phone[0] == '+' then 1 else 0;
    assert forall k :: 0 <= k < |PhoneDigits(phone)| ==> PhoneDigits(phone)[k] == phone[k + d];
    if IsValidPhone(phone) {
      forall k | d <= k < |phone| ensures '0' <= phone[k] <= '9' {
        assert phone[k] == PhoneDigits(phone)[k - d];
      }
    }
  }

  /** The email pattern needs a non-empty local part of the allowed characters,
      an '@', and a non-empty remainder: "a@b" passes, "@b", "a@" and "a b@c" fail. */
  lemma EmailExamples()
    ensures IsValidEmail("a@b")
    ensures !IsValidEmail("@b") && !IsValidEmail("a@") && !IsValidEmail("a b@c")
  {
    assert EmailSplitsAt("a@b", 1);
    var bad := "a b@c";
    assert !IsEmailLocalChar(bad[1]);
    assert forall i :: 0 <= i < |bad| && bad[i] == '@' ==> i == 3;
  }

  /** The phone pattern of the setter rejects "123" and accepts "+14155551234". */
  lemma PhoneExamples()
    ensures !IsValidPhone("123") && IsValidPhone("+14155551234")
  {
  }
}
