/** What the circulation engine promises, proved about the transition
    functions of `LibrarySystem.Catalog`. */
module LibraryProperties {
  import opened Wrappers
  import opened Text
  import opened Seqs
  import opened LibraryEntities
  import opened LibrarySystem

  // ------------------------------------------------------ the invariant

  /** A successful issue keeps the registry valid: the member's list grows by
      exactly this book, so it stays within the limit and duplicate-free. */
  lemma IssuePreservesValid(c: Catalog, b: BookId, m: MemberId, today: Day)
    requires c.Valid() && c.IssueBook(b, m, today).Ok?
    ensures c.IssueBook(b, m, today) == Ok(c.Issued(b, m, today))
    ensures c.Issued(b, m, today).Valid()
    ensures c.Issued(b, m, today).members[m].currentlyIssuedBooks == c.members[m].currentlyIssuedBooks + [b]
  {
    var due := today + c.members[m].MaxAllowedDays();
    var c' := c.Issued(b, m, today);
    IssuedBookIsNew(c, b, m);
    IssueKeepsMembersWellFormed(c, c', b, m);
    IssueKeepsLoansAgreeing(c, c', b, m, due);
  }

  /** A book that is not issued is on nobody's list. */
  lemma IssuedBookIsNew(c: Catalog, b: BookId, m: MemberId)
    requires c.Valid() && b in c.books && m in c.members && !c.books[b].isIssued
    ensures b !in c.members[m].currentlyIssuedBooks
  {
  }

  lemma IssueKeepsMembersWellFormed(c: Catalog, c': Catalog, b: BookId, m: MemberId)
    requires c.MembersWellFormed() && m in c.members && c.members[m].CanIssueMoreBooks()
    requires b !in c.members[m].currentlyIssuedBooks
    requires c'.members == c.members[m := c.members[m].AddIssuedBook(b)]
    ensures c'.MembersWellFormed()
    ensures c'.members[m].currentlyIssuedBooks == c.members[m].currentlyIssuedBooks + [b]
  {
  }

  lemma IssueKeepsLoansAgreeing(c: Catalog, c': Catalog, b: BookId, m: MemberId, due: Day)
    requires c.LoansAgree() && b in c.books && m in c.members && !c.books[b].isIssued
    requires c.books[b].IssueStateConsistent()
    requires b !in c.members[m].currentlyIssuedBooks
    requires c'.books == c.books[b := c.books[b].Issue(m, due)]
    requires c'.members == c.members[m := c.members[m].AddIssuedBook(b)]
    ensures c'.LoansAgree()
  {
    var list := c.members[m].currentlyIssuedBooks;
    assert c'.members[m].currentlyIssuedBooks == list + [b];
    forall x | x in c'.books && c'.books[x].issuedTo.Some?
      ensures c'.books[x].issuedTo.value in c'.members
      ensures x in c'.members[c'.books[x].issuedTo.value].currentlyIssuedBooks
    {
      if x != b {
        var y := c.books[x].issuedTo.value;
        assert x in c.members[y].currentlyIssuedBooks;
      }
    }
    forall y, x | y in c'.members && x in c'.members[y].currentlyIssuedBooks
      ensures x in c'.books && c'.books[x].issuedTo == Some(y)
    {
      if y == m && x != b {
        assert x in list;
      }
    }
  }

  /** Releasing a book from the member that holds it keeps the registry
      valid. */
  lemma ReleasePreservesValid(c: Catalog, b: BookId, m: MemberId)
    requires c.Valid() && b in c.books && m in c.members && c.books[b].issuedTo == Some(m)
    ensures c.ReleaseBook(b, m).Valid()
    ensures b !in c.ReleaseBook(b, m).members[m].currentlyIssuedBooks
    ensures |c.ReleaseBook(b, m).members[m].currentlyIssuedBooks| == |c.members[m].currentlyIssuedBooks| - 1
  {
    var c' := c.ReleaseBook(b, m);
    var old_ := c.members[m].currentlyIssuedBooks;
    RemoveFirstNoDuplicates(old_, b);
    assert c'.MembersWellFormed();
    assert c'.LoansAgree() by {
      forall x | x in c'.books && c'.books[x].issuedTo.Some?
        ensures c'.books[x].issuedTo.value in c'.members
        ensures x in c'.members[c'.books[x].issuedTo.value].currentlyIssuedBooks
      {
        var y := c.books[x].issuedTo.value;
        assert x != b;
        if y == m {
          assert x in old_;
        }
      }
      forall y, x | y in c'.members && x in c'.members[y].currentlyIssuedBooks
        ensures x in c'.books && c'.books[x].issuedTo == Some(y)
      {
        if y == m {
          assert x in old_ && x != b;
        }
      }
    }
  }

  /** Polling the reservation queue keeps the registry valid. */
  lemma PollPreservesValid(c: Catalog, b: BookId)
    requires c.Valid() && b in c.books
    ensures c.(books := c.books[b := c.books[b].NextReservedMember().1]).Valid()
  {
  }

  /** The hand-off keeps the registry valid. */
  lemma HandOffPreservesValid(c: Catalog, b: BookId, today: Day)
    requires c.Valid() && b in c.books && !c.books[b].isIssued
    ensures c.HandOff(b, today).Valid()
  {
    var queue := c.books[b].reservationQueue;
    var afterPoll := c.(books := c.books[b := c.books[b].NextReservedMember().1]);
    PollPreservesValid(c, b);
    if queue != [] && queue[0] in c.members && c.members[queue[0]].CanIssueMoreBooks() {
      HandOffToHead(c, b, today);
      IssuePreservesValid(afterPoll, b, queue[0], today);
    } else {
      HandOffToNobody(c, b, today);
    }
  }

  /** A successful return keeps the registry valid. */
  lemma ReturnPreservesValid(c: Catalog, b: BookId, m: MemberId, today: Day)
    requires c.Valid() && c.ReturnBook(b, m, today).Ok?
    ensures c.ReturnBook(b, m, today).value.Valid()
  {
    ReleasePreservesValid(c, b, m);
    HandOffPreservesValid(c.ReleaseBook(b, m), b, today);
  }

  /** A successful reservation keeps the registry valid. */
  lemma ReservePreservesValid(c: Catalog, b: BookId, m: MemberId)
    requires c.Valid() && c.ReserveBook(b, m).Ok?
    ensures c.ReserveBook(b, m).value.Valid()
  {
    var c' := c.ReserveBook(b, m).value;
    assert c'.LoansAgree() by {
      forall x | x in c'.books && c'.books[x].issuedTo.Some?
        ensures c'.books[x].issuedTo.value in c'.members
        ensures x in c'.members[c'.books[x].issuedTo.value].currentlyIssuedBooks
      {
        assert c'.books[x].issuedTo == c.books[x].issuedTo;
      }
    }
  }

  /** Adding a new, available book keeps the registry valid. */
  lemma AddBookPreservesValid(c: Catalog, book: Book)
    requires c.Valid() && book.Valid() && !book.isIssued && c.AddBook(book).Ok?
    ensures c.AddBook(book).value.Valid()
  {
    var c' := c.AddBook(book).value;
    assert c'.LoansAgree() by {
      forall y, x | y in c'.members && x in c'.members[y].currentlyIssuedBooks
        ensures x in c'.books && c'.books[x].issuedTo == Some(y)
      {
        assert x in c.books;
      }
    }
  }

  /** Removing an available book keeps the registry valid: no member lists it. */
  lemma RemoveBookPreservesValid(c: Catalog, b: BookId)
    requires c.Valid() && c.RemoveBook(b).Ok?
    ensures c.RemoveBook(b).value.Valid()
  {
    var c' := c.RemoveBook(b).value;
    assert c'.LoansAgree() by {
      forall y, x | y in c'.members && x in c'.members[y].currentlyIssuedBooks
        ensures x in c'.books && c'.books[x].issuedTo == Some(y)
      {
        assert x in c.books && c.books[x].issuedTo == Some(y);
        assert x != b;
      }
    }
  }

  /** Registering a member object keeps the registry valid. */
  lemma RegisterPreservesValid(c: Catalog, member: Member)
    requires c.Valid() && c.IsMemberSnapshot(member) && c.RegisterMember(member).Ok?
    ensures c.RegisterMember(member).value.Valid()
    ensures member.id in c.RegisterMember(member).value.members
    ensures c.RegisterMember(member).value.membersByEmail[member.email] == member.id
    ensures c.RegisterMember(member).value.membersByPhone[member.phone] == member.id
  {
    var c' := c.RegisterMember(member).value;
    assert c'.MembersWellFormed();
    assert c'.LoansAgree() by {
      forall x | x in c'.books && c'.books[x].issuedTo.Some?
        ensures c'.books[x].issuedTo.value in c'.members
        ensures x in c'.members[c'.books[x].issuedTo.value].currentlyIssuedBooks
      {
        var y := c.books[x].issuedTo.value;
        assert x in c.members[y].currentlyIssuedBooks;
      }
    }
    assert c'.IndicesAgree() by {
      forall y | y in c'.members
        ensures c'.members[y].email in c'.membersByEmail && c'.membersByEmail[c'.members[y].email] == y
        ensures c'.members[y].phone in c'.membersByPhone && c'.membersByPhone[c'.members[y].phone] == y
      {
        if y != member.id {
          assert c.members[y].email != member.email;
          assert c.members[y].phone != member.phone;
        }
      }
    }
  }

  // ------------------------------------------------------- the hand-off

  /** The hand-off of an available book: the head of its reservation queue
      is removed from the queue for good, and the book goes to that head
      exactly when the head is registered and can still borrow, with the
      head's loan period; otherwise the book stays available. */
  lemma HandOffOutcome(c: Catalog, b: BookId, today: Day)
    requires c.Valid() && b in c.books && !c.books[b].isIssued
    ensures var c' := c.HandOff(b, today);
      var queue := c.books[b].reservationQueue;
      && c'.books.Keys == c.books.Keys && c'.members.Keys == c.members.Keys
      && c'.books[b].reservationQueue == (if queue == [] then [] else queue[1..])
      && (queue != [] ==> queue[0] !in c'.books[b].reservationQueue)
      && (if queue != [] && queue[0] in c.members && c.members[queue[0]].CanIssueMoreBooks()
          then
            && c'.books[b].issuedTo == Some(queue[0])
            && c'.books[b].dueDate == Some(today + c.members[queue[0]].MaxAllowedDays())
            && c'.members[queue[0]].currentlyIssuedBooks == c.members[queue[0]].currentlyIssuedBooks + [b]
            && (forall y :: y in c.members && y != queue[0] ==> c'.members[y] == c.members[y])
          else
            && !c'.books[b].isIssued && c'.books[b].issuedTo == None
            && c'.members == c.members)
  {
    var queue := c.books[b].reservationQueue;
    var afterPoll := c.(books := c.books[b := c.books[b].NextReservedMember().1]);
    PollPreservesValid(c, b);
    if queue != [] && queue[0] in c.members && c.members[queue[0]].CanIssueMoreBooks() {
      var h := queue[0];
      HandOffToHead(c, b, today);
      IssuePreservesValid(afterPoll, b, h, today);
      assert afterPoll.Issued(b, h, today).books[b]
          == afterPoll.books[b].Issue(h, today + c.members[h].MaxAllowedDays());
    } else {
      HandOffToNobody(c, b, today);
    }
  }

  /** When the head of the queue can borrow, the hand-off is the issue to it
      on the polled registry. */
  lemma HandOffToHead(c: Catalog, b: BookId, today: Day)
    requires b in c.books && !c.books[b].isIssued && c.books[b].reservationQueue != []
    requires c.books[b].reservationQueue[0] in c.members
    requires c.members[c.books[b].reservationQueue[0]].CanIssueMoreBooks()
    ensures c.HandOff(b, today)
         == c.(books := c.books[b := c.books[b].NextReservedMember().1])
             .Issued(b, c.books[b].reservationQueue[0], today)
  {
  }

  /** Otherwise the hand-off only polls the queue. */
  lemma HandOffToNobody(c: Catalog, b: BookId, today: Day)
    requires b in c.books && !c.books[b].isIssued
    requires var queue := c.books[b].reservationQueue;
      queue == [] || queue[0] !in c.members || !c.members[queue[0]].CanIssueMoreBooks()
    ensures c.HandOff(b, today) == c.(books := c.books[b := c.books[b].NextReservedMember().1])
  {
  }

  /** What a successful return does: the book leaves the returning member's
      list, then the hand-off above runs on the released registry. */
  lemma ReturnHandsOffToQueueHead(c: Catalog, b: BookId, m: MemberId, today: Day)
    requires c.Valid() && c.ReturnBook(b, m, today).Ok?
    ensures var released := c.ReleaseBook(b, m);
      && released.Valid() && !released.books[b].isIssued
      && b !in released.members[m].currentlyIssuedBooks
      && |released.members[m].currentlyIssuedBooks| == |c.members[m].currentlyIssuedBooks| - 1
      && c.ReturnBook(b, m, today) == Ok(released.HandOff(b, today))
  {
    ReleasePreservesValid(c, b, m);
  }

  // ------------------------------------------------------- reservations

  /** Reserving twice is the same as reserving once, and the member is then
      queued exactly once. */
  lemma ReserveIsIdempotent(c: Catalog, b: BookId, m: MemberId)
    requires c.ReserveBook(b, m).Ok?
    ensures c.ReserveBook(b, m).value.ReserveBook(b, m) == c.ReserveBook(b, m)
    ensures m in c.ReserveBook(b, m).value.books[b].reservationQueue
  {
    var c1 := c.ReserveBook(b, m).value;
    assert c1.books[b := c1.books[b]] == c1.books;
  }

  /** A book that is not issued cannot be reserved. */
  lemma ReserveAvailableFails(c: Catalog, b: BookId, m: MemberId)
    requires b in c.books && m in c.members && !c.books[b].isIssued
    ensures c.ReserveBook(b, m) == Err(NoNeedToReserve)
  {
  }

  // ---------------------------------------------------------- the limit

  /** In a valid registry an issue to a member at its limit always fails
      with `BookLimitExceeded`, and a member never holds more than its limit. */
  lemma IssueRespectsLimit(c: Catalog, b: BookId, m: MemberId, today: Day)
    requires c.Valid() && b in c.books && m in c.members && !c.books[b].isIssued
    requires |c.members[m].currentlyIssuedBooks| >= c.members[m].MaxBooksAllowed()
    ensures c.IssueBook(b, m, today) == Err(BookLimitExceeded)
  {
  }

  // ---------------------------------------------------------- queries

  /** The keyword search is the union of the three single-field searches. */
  lemma SearchBooksIsUnion(c: Catalog, keyword: string)
    ensures c.SearchBooks(keyword) == c.SearchByTitle(keyword) + c.SearchByAuthor(keyword) + c.SearchByGenre(keyword)
  {
  }

  /** The searches lower-case both the field and the keyword, so the case of
      neither matters: a field matches a keyword exactly when its lower-cased
      form matches, and exactly when it matches the lower-cased keyword. */
  lemma FieldMatchesIgnoresCase(c: Catalog, field: string, keyword: string)
    ensures c.FieldMatches(ToLower(field), keyword) == c.FieldMatches(field, keyword)
    ensures c.FieldMatches(field, ToLower(keyword)) == c.FieldMatches(field, keyword)
    ensures c.Needle(ToLower(keyword)) == c.Needle(keyword)
  {
    ToLowerIdempotent(field);
    ToLowerIdempotent(keyword);
  }

  /** The available count is the number of books that are not issued, and in
      a valid registry no more books are overdue than issued. */
  lemma StatisticsAreConsistent(c: Catalog, today: Day)
    ensures c.Statistics(today).availableBooks == |c.AvailableIds()|
    ensures c.Valid() ==> c.Statistics(today).overdueBooks <= c.Statistics(today).issuedBooks
  {
    var issued := c.IssuedIds();
    var available := c.AvailableIds();
    assert issued !! available;
    assert issued + available == c.books.Keys;
    assert |c.books.Keys| == |c.books|;
    if c.Valid() {
      assert c.OverdueIds(today) <= issued;
      SubsetCardinality(c.OverdueIds(today), issued);
    }
  }

  lemma SubsetCardinality<T>(a: set<T>, b: set<T>)
    requires a <= b
    ensures |a| <= |b|
  {
    assert b == a + (b - a);
  }
}
