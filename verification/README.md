# Library circulation, student registry and todo service in Dafny

This project models three pieces of a collection of programming exercises:

- **The library circulation engine** (`week2/LibraryDemo.java`). Books carry an issue state and a FIFO reservation queue. Members belong to one of four categories, and the category fixes how many books they may hold and for how many days. `LibraryManagementSystem` keeps books and members by id and members by email and by phone. It issues, returns, reserves, adds, removes and registers. On a return it hands the book to the head of the reservation queue.
  - `LibraryEntities` models `Book` and `Member` as value records. The four `Member` subclasses become a `Category` and a policy table.
  - `LibrarySystem` describes each engine operation as a transition function on the registry state `Catalog`. The function validates first and changes nothing on failure.
  - `LibraryProperties` proves that every transition keeps the registry invariant `Catalog.Valid`:
    - issue state consistent;
    - member limits respected;
    - `issuedTo` and the members' issued lists agree;
    - email and phone indices agree.

    It also proves the hand-off, idempotent reservation and statistics properties.
  - `LibraryEngine` is the class `LibraryManagementSystem`. It holds the four maps as fields and updates them in place step by step. Each method is proved to end in the state the matching `Catalog` transition describes.
- **The student manager** (`week3/Student.java`, `week3/StudentManager.java`).
  - `Students` models `Student` as a class with five mutable fields and setters. It also covers `equals` and `hashCode` by id, and the natural order (`compareTo`: name ignoring case, then id), with its order properties proved.
  - `StudentRegistry` models the list, the hash map and the tree set, all sharing the same `Student` objects. The tree set is the ascending sequence of its elements, read from the heap. The module defines the agreement invariant `Agree` and the field validator.
  - `StudentManagement` is the class `StudentManager`. Adding, removing and updating keep the three structures in agreement. An update takes the student out of the tree set, overwrites its fields in place and puts it back where its new name belongs.
- **The todo service** (`week8/angular-todo-app/src/app/services/todo.ts`).
  - `Todos` holds the records, the status filter, the search, the `getTodos` comparator and the statistics.
  - `TodoStore` is the class `TodoService`. Its field `storage` stands for the array kept in `localStorage`.

Java's `int` is the newtype `Students.int32`, with explicit wrap-around where `hashCode` needs it. Dates are day numbers and timestamps are milliseconds. The current date or time, fresh ids and the signed-in user are parameters.

Behaviour of the source worth noting:

- `registerMember` does not validate the email or the phone (week2/LibraryDemo.java:436-449). Only the setters do, so registering a member with phone "123" succeeds.
- `removeBook` refuses an issued book by throwing a plain `LibraryException`, "Cannot remove book that is currently issued" (week2/LibraryDemo.java:413-416).
- The automatic hand-off checks only `canIssueMoreBooks()` on the polled member object. It then calls `issueBook`, which re-validates and whose failure is swallowed. The polled member leaves the queue either way.

## Model

| member | source | states |
|---|---|---|
| LibraryEntities.PolicyOf | week2/LibraryDemo.java:250-317 | The four subclasses' constants: students 3 books for 14 days, teachers 5 for 30, guests 1 for 7, librarians 10 for 60; no contract of its own, its consequence is stated by Member.MaxBooksAllowed |
| LibraryEntities.Member.MaxBooksAllowed | week2/LibraryDemo.java:175-188 | Every category may hold at least one book; NewMember relies on it to promise that a new member can borrow |
| LibraryEntities.Member.MaxAllowedDays | week2/LibraryDemo.java:180 | The loan period of the member's category; no contract of its own, Catalog.IssueBook states that the due date is today plus this period |
| LibraryEntities.Member.CanIssueMoreBooks | week2/LibraryDemo.java:224-226 | Fewer books held than the limit; no contract of its own, LibraryProperties.IssueRespectsLimit and the invariant's limit clause state its effect |
| LibraryEntities.Book.Issue | week2/LibraryDemo.java:110-114 | The book becomes issued to the member until the due date; only the issue state changes; a valid book stays valid |
| LibraryEntities.Book.Release | week2/LibraryDemo.java:116-120 | The book becomes available with no holder and no due date; only the issue state changes |
| LibraryEntities.Book.AddToReservationQueue | week2/LibraryDemo.java:122-126 | The member ends up in the queue: appended if absent, no change if already queued, so the queue stays duplicate-free |
| LibraryEntities.Book.NextReservedMember | week2/LibraryDemo.java:128-130 | An empty queue gives nothing and changes nothing; otherwise the head is returned and removed, and it is no longer in the queue |
| LibraryEntities.Book.DaysUntilDue | week2/LibraryDemo.java:132-139 | Zero without a due date; otherwise today plus the result is the due date; the book is overdue exactly when the result is negative |
| LibraryEntities.Book.IsOverdue | week2/LibraryDemo.java:132-134 | A due date strictly before today; no contract of its own, Book.DaysUntilDue states that it holds exactly when the days until due are negative, and OverdueImpliesIssued that only an issued book is overdue |
| LibraryEntities.Book.SetTitle | week2/LibraryDemo.java:88-93 | Fails with InvalidTitle exactly when the title is blank after Java trimming; otherwise only the title changes |
| LibraryEntities.Book.SetAuthor | week2/LibraryDemo.java:95-100 | Fails with InvalidAuthor exactly when the author is blank; otherwise only the author changes |
| LibraryEntities.Book.SetGenre | week2/LibraryDemo.java:102-107 | Fails with InvalidGenre exactly when the genre is blank; otherwise only the genre changes |
| LibraryEntities.NewBook | week2/LibraryDemo.java:66-75 | A new book is available, has an empty queue and the given fields, and is valid |
| LibraryEntities.OverdueImpliesIssued | week2/LibraryDemo.java:132-134 | A book with a consistent issue state that is overdue is issued to someone |
| LibraryEntities.Member.AddIssuedBook | week2/LibraryDemo.java:214-218 | The book ends up listed: appended if absent, no change otherwise; a duplicate-free list stays duplicate-free |
| LibraryEntities.Member.RemoveIssuedBook | week2/LibraryDemo.java:220-222 | Removes the first occurrence; in a duplicate-free list the book is gone, every other book stays and the list does not grow |
| LibraryEntities.Member.SetName | week2/LibraryDemo.java:192-197 | Fails with InvalidName exactly when the name is blank; otherwise only the name changes |
| LibraryEntities.Member.SetEmail | week2/LibraryDemo.java:199-204 | Succeeds exactly when the address splits at an '@' into a non-empty local part of allowed characters and a non-empty rest without line terminators; otherwise InvalidEmail |
| LibraryEntities.Member.SetPhone | week2/LibraryDemo.java:206-211 | Succeeds exactly for an optional '+' followed by 10 to 15 digits; otherwise InvalidPhone |
| LibraryEntities.IsValidEmail | week2/LibraryDemo.java:199-204 | The email pattern: allowed characters up to an '@', then at least one character that is not a line terminator; no contract of its own, ValidEmailSplitsAtFirstAt states that the split is unique and EmailExamples how it classifies sample strings |
| LibraryEntities.IsValidPhone | week2/LibraryDemo.java:206-211 | An optional '+' followed by 10 to 15 digits; no contract of its own, ValidPhoneShape restates it character by character and PhoneExamples states how it classifies sample strings |
| LibraryEntities.NewMember | week2/LibraryDemo.java:170-177 | A new member has the given fields, no issued books, and can borrow |
| LibraryEntities.ValidEmailSplitsAtFirstAt | week2/LibraryDemo.java:199-204 | A valid email splits at exactly one index, and that index is its first '@' |
| LibraryEntities.ValidPhoneShape | week2/LibraryDemo.java:206-211 | A phone number is valid exactly when it has 10 to 15 characters besides an optional leading '+', and every character is a digit except that leading '+' |
| LibraryEntities.EmailExamples | week2/LibraryDemo.java:199-204 | "a@b" is accepted; "@b", "a@" and "a b@c" are rejected |
| LibraryEntities.PhoneExamples | week2/LibraryDemo.java:206-211 | "123" is rejected and "+14155551234" is accepted |
| LibrarySystem.Catalog.IssueBook | week2/LibraryDemo.java:353-372 | The four checks in order: BookNotFound, MemberNotFound, BookAlreadyIssued, BookLimitExceeded. Success exactly when all pass; then the book is issued until today plus the member's loan period, the member lists it, and nothing else changes |
| LibrarySystem.Catalog.Issued | week2/LibraryDemo.java:366-368 | The registry after a successful issue; no contract of its own, LibraryProperties.IssuePreservesValid states that a successful Catalog.IssueBook yields it and that it is valid |
| LibrarySystem.Catalog.ReleaseBook | week2/LibraryDemo.java:384-385 | The book is released and leaves the member's list; the indices are untouched |
| LibrarySystem.Catalog.HandOff | week2/LibraryDemo.java:387-396 | The poll and the guarded automatic issue; no contract of its own, LibraryProperties.HandOffOutcome states who gets the book and HandOffPreservesValid that the registry stays valid |
| LibrarySystem.Catalog.ReturnBook | week2/LibraryDemo.java:375-399 | BookNotFound, MemberNotFound, then NotIssuedToMember unless the book is issued to exactly that member; success exactly in that case |
| LibrarySystem.Catalog.ReserveBook | week2/LibraryDemo.java:423-433 | BookNotFound, MemberNotFound, then NoNeedToReserve for an available book; on success only the book's queue changes, by AddToReservationQueue |
| LibrarySystem.Catalog.AddBook | week2/LibraryDemo.java:402-408 | DuplicateBook exactly when the id is present; otherwise the book is filed under its id and nothing else changes |
| LibrarySystem.Catalog.RemoveBook | week2/LibraryDemo.java:411-420 | BookNotFound, then BookCurrentlyIssued for an issued book; otherwise only that book is removed |
| LibrarySystem.Catalog.RegisterMember | week2/LibraryDemo.java:436-449 | DuplicateEmail is checked before DuplicatePhone; otherwise the member is filed in all three maps and the books are unchanged |
| LibrarySystem.Catalog.Needle | week2/LibraryDemo.java:458 | The lower-cased, trimmed keyword; no contract of its own, LibraryProperties.FieldMatchesIgnoresCase states that lower-casing the keyword first does not change it |
| LibrarySystem.Catalog.FieldMatches | week2/LibraryDemo.java:460-462 | The lower-cased field contains the needle; no contract of its own, LibraryProperties.FieldMatchesIgnoresCase states that the case of neither the field nor the keyword matters |
| LibrarySystem.Catalog.SearchBooks | week2/LibraryDemo.java:453-464 | Empty for a blank keyword; otherwise exactly the registered books whose title, author or genre contains the trimmed keyword, ignoring case |
| LibrarySystem.Catalog.SearchByTitle | week2/LibraryDemo.java:467-476 | Empty for a blank title; otherwise exactly the registered books whose title contains it, ignoring case |
| LibrarySystem.Catalog.SearchByAuthor | week2/LibraryDemo.java:479-488 | The same, for the author |
| LibrarySystem.Catalog.SearchByGenre | week2/LibraryDemo.java:491-500 | The same, for the genre |
| LibrarySystem.Catalog.ViewIssuedBooks | week2/LibraryDemo.java:503-506 | MemberNotFound exactly for an unregistered member; otherwise that member's issued list |
| LibraryEntities.Member.HasLibrarianPrivileges | week2/LibraryDemo.java:553-557 | The `instanceof Librarian` test of `validateLibrarianAccess`, which for a librarian agrees with `hasLibrarianPrivileges` (week2/LibraryDemo.java:314-316); no contract of its own, Catalog.ViewOverdueBooks and Catalog.GetAllMembers state that it alone decides UnauthorizedAccess |
| LibrarySystem.Catalog.ViewOverdueBooks | week2/LibraryDemo.java:508-514 | UnauthorizedAccess exactly for a non-librarian; otherwise exactly the registered books overdue today |
| LibrarySystem.Catalog.GetAllMembers | week2/LibraryDemo.java:516-519 | UnauthorizedAccess exactly for a non-librarian; otherwise every registered member |
| LibrarySystem.Catalog.Statistics | week2/LibraryDemo.java:525-538 | The total, issued and overdue counts are the sizes of the corresponding book sets; available is total minus issued |
| LibrarySystem.EmptyCatalog | week2/LibraryDemo.java:344-349 | The empty registry is valid |
| LibraryProperties.IssuePreservesValid | week2/LibraryDemo.java:353-372 | A successful issue yields the issued registry, which is valid, and appends exactly this book to the member's list |
| LibraryProperties.IssuedBookIsNew | week2/LibraryDemo.java:357-359 | In a valid registry an available book is on nobody's list |
| LibraryProperties.IssueKeepsMembersWellFormed | week2/LibraryDemo.java:361-369 | A member below the limit who gets a new book stays within the limit and duplicate-free |
| LibraryProperties.IssueKeepsLoansAgreeing | week2/LibraryDemo.java:367-369 | Issuing updates both sides of a loan, so holders and issued lists still agree |
| LibraryProperties.ReleasePreservesValid | week2/LibraryDemo.java:384-385 | Releasing a book issued to the member keeps the registry valid |
| LibraryProperties.PollPreservesValid | week2/LibraryDemo.java:388 | Polling a reservation queue keeps the registry valid |
| LibraryProperties.HandOffPreservesValid | week2/LibraryDemo.java:387-396 | The automatic hand-off keeps the registry valid |
| LibraryProperties.ReturnPreservesValid | week2/LibraryDemo.java:375-399 | A successful return keeps the registry valid |
| LibraryProperties.ReservePreservesValid | week2/LibraryDemo.java:423-433 | A successful reservation keeps the registry valid |
| LibraryProperties.AddBookPreservesValid | week2/LibraryDemo.java:402-408 | Adding a new available book keeps the registry valid |
| LibraryProperties.RemoveBookPreservesValid | week2/LibraryDemo.java:411-420 | Removing an available book keeps the registry valid |
| LibraryProperties.RegisterPreservesValid | week2/LibraryDemo.java:436-449 | Registering keeps the registry valid and files the member under its id, email and phone |
| LibraryProperties.HandOffToHead | week2/LibraryDemo.java:387-390 | When the queue head is registered and can still borrow, the hand-off is the issue to it on the polled registry |
| LibraryProperties.HandOffToNobody | week2/LibraryDemo.java:387-396 | Otherwise the hand-off only removes the head from the queue |
| LibraryProperties.HandOffOutcome | week2/LibraryDemo.java:387-396 | The queue head always leaves the queue. The book goes to the head, with the head's loan period, exactly when the head is registered and can still borrow; otherwise the book stays available and no member changes |
| LibraryProperties.ReturnHandsOffToQueueHead | week2/LibraryDemo.java:375-399 | A return first releases the book, which leaves the returning member's list (one shorter), then runs the hand-off |
| LibraryProperties.ReserveIsIdempotent | week2/LibraryDemo.java:122-126 | Reserving twice is reserving once, and the member is then queued |
| LibraryProperties.ReserveAvailableFails | week2/LibraryDemo.java:427-429 | Reserving an available book always fails with NoNeedToReserve |
| LibraryProperties.IssueRespectsLimit | week2/LibraryDemo.java:361-364 | Issuing an available book to a member at its limit always fails with BookLimitExceeded |
| LibraryProperties.SearchBooksIsUnion | week2/LibraryDemo.java:453-500 | The keyword search is the union of the title, author and genre searches |
| LibraryProperties.FieldMatchesIgnoresCase | week2/LibraryDemo.java:458-462 | A field matches a keyword exactly when its lower-cased form does, and exactly when it matches the lower-cased keyword |
| LibraryProperties.StatisticsAreConsistent | week2/LibraryDemo.java:525-538 | The available count is the number of books not issued; in a valid registry no more books are overdue than issued |
| LibraryEngine.LibraryManagementSystem.constructor | week2/LibraryDemo.java:344-349 | Starts as the empty, valid registry |
| LibraryEngine.LibraryManagementSystem.IssueBook | week2/LibraryDemo.java:353-372 | The in-place steps end in the state and outcome of Catalog.IssueBook and keep the invariant |
| LibraryEngine.LibraryManagementSystem.Lend | week2/LibraryDemo.java:366-368 | The two in-place updates end in the registry a successful Catalog.IssueBook produces |
| LibraryEngine.LibraryManagementSystem.ReturnBook | week2/LibraryDemo.java:375-399 | The checks, the release and the hand-off end in the state and outcome of Catalog.ReturnBook and keep the invariant |
| LibraryEngine.LibraryManagementSystem.Release | week2/LibraryDemo.java:384-385 | The two in-place updates end in the registry Catalog.ReleaseBook describes |
| LibraryEngine.LibraryManagementSystem.HandOff | week2/LibraryDemo.java:387-396 | The poll and the guarded automatic issue, whose failure is swallowed, end in the registry Catalog.HandOff describes and keep the invariant |
| LibraryEngine.LibraryManagementSystem.ReserveBook | week2/LibraryDemo.java:423-433 | Ends in the state and outcome of Catalog.ReserveBook and keeps the invariant |
| LibraryEngine.LibraryManagementSystem.AddBook | week2/LibraryDemo.java:402-408 | Ends in the state and outcome of Catalog.AddBook and keeps the invariant |
| LibraryEngine.LibraryManagementSystem.RemoveBook | week2/LibraryDemo.java:411-420 | Ends in the state and outcome of Catalog.RemoveBook and keeps the invariant |
| LibraryEngine.LibraryManagementSystem.RegisterMember | week2/LibraryDemo.java:436-449 | Ends in the state and outcome of Catalog.RegisterMember and keeps the invariant |
| Students.Wrap32 | week3/Student.java:109-111 | The result agrees with the input modulo 2^32 and equals it when the input fits in 32 bits |
| Students.Equals | week3/Student.java:97-103 | Same id; no contract of its own, Students.HashCodeAgreesWithEquals and CompareToZeroImpliesEquals relate it to the hash code and the order |
| Students.HashCode | week3/Student.java:109-111 | Objects.hash of the id in 32-bit arithmetic; no contract of its own, Students.HashCodeAgreesWithEquals states that equal hash codes are exactly equal students |
| Students.Student.constructor | week3/Student.java:31-37 | The five fields hold the arguments |
| Students.Student.SetId | week3/Student.java:61-63 | Only the id changes |
| Students.Student.SetName | week3/Student.java:65-67 | Only the name changes |
| Students.Student.SetAge | week3/Student.java:69-71 | Only the age changes |
| Students.Student.SetGrade | week3/Student.java:73-75 | Only the grade changes |
| Students.Student.SetAddress | week3/Student.java:77-79 | Only the address changes |
| Students.HashCodeAgreesWithEquals | week3/Student.java:97-111 | Two students have the same hash code exactly when they are equal (same id), in 32-bit arithmetic |
| Students.CompareInt | week3/Student.java:124 | The result is -1, 0 or 1, negative exactly when the first is smaller, zero exactly when they are equal |
| Students.CompareIgnoreCase | week3/Student.java:120 | compareToIgnoreCase with ASCII folding; no contract of its own, the CompareIgnoreCase lemmas below state that it is an antisymmetric, transitive order that is zero exactly on names equal after folding |
| Students.CompareTo | week3/Student.java:119-126 | By name ignoring case, then by id; no contract of its own, the CompareTo lemmas below state that it is a total order consistent with equals |
| Students.CompareIgnoreCaseAntisymmetric | week3/Student.java:120 | Swapping the names negates the comparison |
| Students.CompareIgnoreCaseZero | week3/Student.java:120 | Two names compare as equal exactly when their lower-case forms are equal |
| Students.CompareIgnoreCaseTransitive | week3/Student.java:120 | The name comparison is transitive |
| Students.CompareIgnoreCaseCongruent | week3/Student.java:120 | Names equal ignoring case compare alike against any third name |
| Students.CompareToAntisymmetric | week3/Student.java:119-125 | compareTo is antisymmetric: swapping the operands negates the result |
| Students.CompareToZero | week3/Student.java:119-125 | Two students compare as equal exactly when their names agree ignoring case and their ids agree |
| Students.CompareToByNameFirst | week3/Student.java:119-123 | A smaller name decides the order whatever the ids |
| Students.CompareToTransitive | week3/Student.java:119-125 | compareTo is transitive |
| Students.CompareToZeroImpliesEquals | week3/Student.java:97-125 | The order is consistent with equals: students comparing as equal are equal |
| StudentRegistry.TreeAdd | week3/StudentManager.java:35 | TreeSet.add keeps every element and adds at most the new one: either the set is unchanged or it grows by one and holds the student |
| StudentRegistry.TreeRemove | week3/StudentManager.java:54 | TreeSet.remove drops exactly the elements comparing as equal to the key |
| StudentRegistry.ListRemove | week3/StudentManager.java:52 | ArrayList.remove keeps only listed students and keeps every student with another id |
| StudentRegistry.ListRemoveIds | week3/StudentManager.java:52 | On ids, the list removal removes the first occurrence of the id |
| StudentRegistry.ListRemoveDistinct | week3/StudentManager.java:52 | With distinct ids, the removal drops exactly the student with the id, shortens the list by one and keeps the ids distinct |
| StudentRegistry.TreeAddSorted | week3/StudentManager.java:35 | Adding keeps the tree set sorted; it adds the student exactly when no element compares as equal |
| StudentRegistry.TreeRemoveSorted | week3/StudentManager.java:54 | Removing keeps the tree set sorted |
| StudentRegistry.SortedHasNoDuplicates | week3/StudentManager.java:11 | A tree set holds no object twice |
| StudentRegistry.ValidateStudentData | week3/StudentManager.java:199-216 | Passes exactly when the id is positive, the age is 1 to 150 and name, grade and address are not blank; otherwise the first failing check's error, in the source's order |
| StudentRegistry.IndexedSize | week3/StudentManager.java:9-11 | In an indexed registry the map has one entry per listed student |
| StudentRegistry.AgreeAfterAdd | week3/StudentManager.java:28-38 | Adding a student with a new id to all three structures keeps them in agreement, and the student is in the tree set |
| StudentRegistry.TreeRemoveFiled | week3/StudentManager.java:45-58 | Removing the filed student from the tree set removes exactly that object and keeps the order |
| StudentRegistry.IndexedAfterRemove | week3/StudentManager.java:45-58 | Removing the student from the list and the map keeps them indexed; the list loses exactly one entry, the first with that id |
| StudentRegistry.AfterRemove | week3/StudentManager.java:45-58 | After the removal from all three structures they still agree |
| StudentRegistry.Reinserted | week3/StudentManager.java:69-90 | Putting the updated student back into a tree set holding every other listed student restores the agreement, whatever the new name |
| StudentManagement.StudentManager.constructor | week3/StudentManager.java:17-21 | Three empty structures, in agreement |
| StudentManagement.StudentManager.StudentCount | week3/StudentManager.java:186-188 | The size of the list; no contract of its own, StudentManagement.CountsAgree states that it is also the size of the map and of the tree set |
| StudentManagement.StudentManager.SearchStudent | week3/StudentManager.java:97-99 | Answers exactly for the ids in the map, with the filed student |
| StudentManagement.StudentManager.AddStudent | week3/StudentManager.java:28-38 | DuplicateId exactly when the id is filed, and then nothing changes. Otherwise the student is appended to the list, filed under its id and added to the tree set; the count grows by one and the agreement holds |
| StudentManagement.StudentManager.RemoveStudent | week3/StudentManager.java:45-58 | Returns true exactly when the id is filed. Then the three structures are those of AfterRemove, otherwise unchanged; the agreement holds |
| StudentManagement.StudentManager.UpdateStudent | week3/StudentManager.java:69-90 | Returns true exactly when the id is filed. Then the filed student's fields are the new values, the list and map are unchanged, and the tree set holds the same objects in the order of their new values; otherwise nothing changes |
| StudentManagement.Overwrite | week3/StudentManager.java:80-83 | The four setters change only the student's name, age, grade and address; the list and map stay indexed and a tree set without the student stays sorted |
| StudentManagement.SearchFindsListed | week3/StudentManager.java:97-99 | searchStudent answers exactly for the ids of listed students, with a listed student of that id |
| StudentManagement.CountsAgree | week3/StudentManager.java:186-188 | The count of the list equals the size of the map and of the tree set |
| Todos.Filter | week8/angular-todo-app/src/app/services/todo.ts:35 | The result holds exactly the todos of the input that the criterion keeps, and is no longer than the input |
| Todos.FilterConcat | week8/angular-todo-app/src/app/services/todo.ts:35 | Filtering a concatenation filters each part, so the relative order is kept |
| Todos.FilterMultiset | week8/angular-todo-app/src/app/services/todo.ts:131 | A kept todo keeps all its copies and any other todo loses them all |
| Todos.FilterKeepsAll | week8/angular-todo-app/src/app/services/todo.ts:131-135 | Filtering a list whose every todo is kept returns the list |
| Todos.FilterDropsNothing | week8/angular-todo-app/src/app/services/todo.ts:131-135 | A filter result as long as its input means every todo was kept |
| Todos.FilterPartition | week8/angular-todo-app/src/app/services/todo.ts:188-192 | The completed and the pending todos together are all of them |
| Todos.FilterPermutation | week8/angular-todo-app/src/app/services/todo.ts:187-192 | Filters of two permutations of a list are permutations of each other and have the same size |
| Todos.FilterCommutes | week8/angular-todo-app/src/app/services/todo.ts:151-179 | Two filters give the same result in either order |
| Todos.FilterTodos | week8/angular-todo-app/src/app/services/todo.ts:151-161 | ALL returns the input; COMPLETED keeps exactly the completed todos with their multiplicities; PENDING keeps exactly the others |
| Todos.FilterTodosSplits | week8/angular-todo-app/src/app/services/todo.ts:151-161 | The completed and pending views partition the list, and each view keeps the list's order |
| Todos.Matches | week8/angular-todo-app/src/app/services/todo.ts:176-177 | The lower-cased title, or a non-empty description lower-cased, contains the term; no contract of its own, Todos.SearchTodos states that the search keeps exactly the matching todos |
| Todos.SearchNeedle | week8/angular-todo-app/src/app/services/todo.ts:174 | The term lower-cased, then trimmed; no contract of its own, Todos.SearchTodos states that the search matches against it and Todos.SearchIgnoresCase that a lower-cased term gives the same result |
| Todos.SearchTodos | week8/angular-todo-app/src/app/services/todo.ts:169-179 | A term that trims to nothing (a blank term, by Text.Trim) returns the input. Otherwise the result is no longer than the input and holds exactly the todos whose lower-cased title, or non-empty description, contains the lower-cased, trimmed term |
| Todos.SearchKeepsCopies | week8/angular-todo-app/src/app/services/todo.ts:175-178 | For a non-blank term, a matching todo keeps all its copies and any other todo loses them all |
| Todos.SearchIgnoresCase | week8/angular-todo-app/src/app/services/todo.ts:170-174 | Searching for a lower-cased term gives the same result as for the term itself |
| Todos.SearchCommutesWithFilter | week8/angular-todo-app/src/app/services/todo.ts:151-179 | Searching and filtering by status can be done in either order |
| Todos.CompareTodos | week8/angular-todo-app/src/app/services/todo.ts:38-47 | The sort comparator; no contract of its own, the two lemmas below state that it is a total preorder and SortedTodosOrder what a list sorted by it looks like |
| Todos.CompareTodosAntisymmetric | week8/angular-todo-app/src/app/services/todo.ts:38-47 | Swapping the operands of the comparator negates the result |
| Todos.CompareTodosTransitive | week8/angular-todo-app/src/app/services/todo.ts:38-47 | "Not after" is transitive, so the comparator is a total preorder |
| Todos.SortedTodosOrder | week8/angular-todo-app/src/app/services/todo.ts:37-47 | In a sorted list dated todos come first by ascending due date, and undated ones follow, newest first |
| Todos.InsertTodo | week8/angular-todo-app/src/app/services/todo.ts:38 | One insertion step adds exactly the new todo to the list's contents |
| Todos.InsertTodoSorted | week8/angular-todo-app/src/app/services/todo.ts:38-47 | Inserting into a sorted list keeps it sorted |
| Todos.Stats | week8/angular-todo-app/src/app/services/todo.ts:188-192 | The total is the list's length and equals completed plus pending |
| Todos.StatsIgnoreOrder | week8/angular-todo-app/src/app/services/todo.ts:185-197 | The counts depend only on which todos there are, not on their order |
| Todos.Merge | week8/angular-todo-app/src/app/services/todo.ts:99 | The object spread of a partial todo; no contract of its own, Todos.MergeIdempotent states that it is idempotent and that an empty patch changes nothing |
| Todos.MergeIdempotent | week8/angular-todo-app/src/app/services/todo.ts:99 | Spreading a patch twice is spreading it once; an empty patch changes nothing |
| Todos.Toggle | week8/angular-todo-app/src/app/services/todo.ts:121 | The update with the flipped flag; no contract of its own, Todos.ToggleFlips states that it flips completed and nothing else |
| Todos.ToggleFlips | week8/angular-todo-app/src/app/services/todo.ts:121 | Toggling flips completed and nothing else; toggling twice gives the todo back |
| Todos.FindIndex | week8/angular-todo-app/src/app/services/todo.ts:92-96 | No index exactly when no todo has the id; otherwise the first position holding it |
| Todos.RepeatedUpdateChangesNothing | week8/angular-todo-app/src/app/services/todo.ts:90-100 | After an update that keeps the id, the id still leads to the same entry and repeating the update changes nothing |
| Todos.ToggleTwiceRestores | week8/angular-todo-app/src/app/services/todo.ts:113-122 | Toggling the same todo twice restores the stored list |
| Todos.UserTodos | week8/angular-todo-app/src/app/services/todo.ts:35 | Holds exactly the stored todos of the user |
| Todos.AddedTodoJoinsOwnerList | week8/angular-todo-app/src/app/services/todo.ts:58-76 | An appended todo joins the end of its owner's list and no other; a new pending todo adds one to the total and to the pending count |
| Todos.ClearLeavesOthers | week8/angular-todo-app/src/app/services/todo.ts:208-211 | After clearing, the user's list is empty and every other user's list is as before |
| TodoStore.TodoService.constructor | week8/angular-todo-app/src/app/services/todo.ts:19 | The service starts from what storage holds |
| TodoStore.TodoService.GetTodos | week8/angular-todo-app/src/app/services/todo.ts:28-51 | Nothing without a user; otherwise a permutation of the user's stored todos, sorted by the comparator |
| TodoStore.TodoService.AddTodo | week8/angular-todo-app/src/app/services/todo.ts:58-82 | NotAuthenticated without a user, with nothing stored. Otherwise one pending todo is appended, with the given id and time, the trimmed title, the trimmed description or "", the due date and the user's id |
| TodoStore.TodoService.UpdateTodo | week8/angular-todo-app/src/app/services/todo.ts:90-106 | TodoNotFound exactly when no stored todo has the id, with nothing changed. Otherwise only the first match is replaced by the patch spread over it, and that todo is returned |
| TodoStore.TodoService.ToggleTodoCompletion | week8/angular-todo-app/src/app/services/todo.ts:113-122 | TodoNotFound exactly when the id is absent; otherwise only the first match has its completed flag flipped |
| TodoStore.TodoService.DeleteTodo | week8/angular-todo-app/src/app/services/todo.ts:129-143 | TodoNotFound exactly when no todo has the id, with nothing changed; otherwise every todo with the id is removed and the rest keep their order |
| TodoStore.TodoService.ClearAllTodos | week8/angular-todo-app/src/app/services/todo.ts:202-215 | NotAuthenticated without a user; otherwise exactly the other users' todos remain, in order |
| TodoStore.TodoService.GetTodosStats | week8/angular-todo-app/src/app/services/todo.ts:185-197 | Zero counts without a user; otherwise the counts over the user's stored todos, with total = completed + pending |

## Left out

- Concurrency is not modelled. The `synchronized` engine methods and the `ConcurrentHashMap`s become sequential methods, each running to completion. The racing-threads scenario cannot be expressed.
- Printing and logging are left out: console messages and `System.err` on a failed automatic issue. So is `getMemberType` (week2/LibraryDemo.java:181), which only labels console output.
- `UUID.randomUUID()` and `generateTodoId` are left out. Ids are abstract values passed in.
- Clock reads are left out: `LocalDate.now()`, `new Date()` and `Date.now()`. "Today" and "now" are parameters.
- Books and members are values keyed by id, not shared objects. A `Book` or `Member` object passed to the engine is identified by its id. Changes made through an object outside the engine, such as a setter on a member already filed, are not reflected.
- LibraryEngine.LibraryManagementSystem.RegisterMember: requires that a member object re-registered under an existing id be the filed member (same category and issued books), because the value model cannot express two views of one object.
- Search results are sets. The order of `books.values()` in the Java searches is not modelled.
- `getAllBooks` (week2/LibraryDemo.java:521-523) is a plain copy of the map's values and is not modelled.
- Case mapping and the regular expressions are modelled over ASCII. `toLowerCase`/`compareToIgnoreCase` fold only 'A'..'Z'. The email pattern's `.+` is "no line terminator".
- Null strings and null objects are not modelled. Strings are always present.
- Names and ids of filed students change only through `updateStudent`. The agreement invariant reads the filed `Student` objects, so a change made through the reference that `searchStudent` returns (week3/StudentManager.java:97-99) is outside the model, as it is outside the contract of `TreeSet`.
- The `Student` default constructor is not modelled, nor are `toString` or serialisation.
- `displayAllStudents`, `loadFromFile`, `saveToFile` and the menu of week3 are not modelled. They are console and file I/O.
- The `main` methods and the demo classes are not modelled.
- The `Member` object's own email and phone index entries are not modelled: `setEmail`/`setPhone` on a filed member do not update `membersByEmail`/`membersByPhone`.
- TodoStore.TodoService.GetTodos: states the order and the permutation but not the stability of `Array.prototype.sort`. Todos that compare as equal may come out in any order.
- The JSON round trip through `localStorage`, the `BehaviorSubject`/observable plumbing and the refresh after each mutation are left out. So is the `try`/`catch` that turns unreadable storage into an empty list. `storage` is the parsed array.
- Invalid `Date` values (NaN timestamps) are not modelled. Times are integers.
- A `Partial<Todo>` that sets a mandatory field (`id`, `title`, `completed`, `createdAt`, `userId`) to `undefined` is not modelled. A present key of a mandatory field carries a value.
- A signed-in user without an id (`currentUser.id!`) is not modelled. The user is an optional id.
- `AuthService`, the Angular components, the guard and the routes are not part of this model.
