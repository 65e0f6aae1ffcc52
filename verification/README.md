# Course registration demo, modelled in Dafny

The program is a small course-registration demo made of two independent
parts, both in `DSA-project/file.cpp`:

- **`CourseTree`** is an unbalanced binary search tree of course codes. Codes
  are ordered by `std::string::operator<`. Inserting a code that is already
  stored does nothing. `display` prints the codes in order.
- **`RegistrationSystem`** manages one global seat. It has two counters,
  `seatsAvailable` (starting at `MAX_SEATS = 1`) and `coursesRegistered`
  (starting at 0, capped by `MAX_COURSES = 6`), plus a FIFO waitlist and a
  LIFO undo log of `(student, wasRegistered)` pairs. Its operations are
  `registerCourse`, `dropCourse`, `undo` and `displayWaitlist`.

The project has three modules:

- `StringOrder` (`string_order.dfy`) defines `Less`, which compares strings
  the way `std::string` does. A proper prefix is smaller, and otherwise the
  first differing character decides. The module proves that `Less` agrees with
  a non-recursive reference definition (`LexLess`) and that it is a strict
  total order.
- `CourseTree` (`course_tree.dfy`) models the tree as an inductive datatype.
  `Insert` is `insertRec` and `InOrder` is the sequence that `inOrder` prints.
  The module proves that `Insert` keeps the search-tree invariant and adds
  exactly the inserted code. It also proves that a tree is a search tree
  exactly when its listing is strictly ascending.
- `Registration` (`registration.dfy`) models every operation as a pure
  transition from a `State` to a `Step`, which holds the next state and an
  `Outcome`. Each `Outcome` stands for one message that the program prints.
  The top of the undo log is the last element of the sequence. The front of
  the waitlist is the first element.

Some behaviours of the code are kept exactly as written:

- `dropCourse` never checks who is dropping.
- Undoing a seat grant sends the student to the back of the waitlist. It does
  not offer the freed seat to the head of the waitlist.
- Undoing a waitlist entry removes the student's first occurrence. That can be
  an earlier entry than the one being undone (`UndoWaitlistCanReorder`).
- Nothing keeps the counters in their nominal ranges. `seatsAvailable` can
  rise above 1 and `coursesRegistered` can fall below 0
  (`CountersLeaveNominalRange`).

From the initial state, every command sequence keeps
`seatsAvailable + coursesRegistered == 1` and `seatsAvailable >= 0`. As a
result, `coursesRegistered` never exceeds 1, so the `MAX_COURSES` limit
message can never be produced (`ReachableStates`).

## Model

| member | source | states |
|---|---|---|
| `StringOrder.Less` | DSA-project/file.cpp:35-37 | The comparison used by `insertRec` is strict: a code is never below itself, nothing is below the empty string, and the empty string is below every non-empty string. |
| `StringOrder.LessMatchesLexLess` | DSA-project/file.cpp:35-37 | The front-to-back comparison used for course codes holds exactly when the strings first differ at a position where the left string has the smaller character, or the left string is a proper prefix of the right one. |
| `StringOrder.LessIsStrictTotalOrder` | DSA-project/file.cpp:35-37 | The code comparison is irreflexive, asymmetric and transitive. Any two distinct codes are ordered one way or the other. |
| `StringOrder.LessTrichotomy` | DSA-project/file.cpp:35-40 | A code that is neither smaller nor greater than a node's key is equal to it, so the fall-through case of `insertRec` is the duplicate case. |
| `CourseTree.Insert` | DSA-project/file.cpp:31-41 | After an insertion the stored codes are the old codes plus the new one. A search tree stays a search tree. |
| `CourseTree.InsertUnchangedIffPresent` | DSA-project/file.cpp:31-41 | In a search tree, inserting a code leaves the tree unchanged exactly when the code is already stored, so duplicates are ignored. |
| `CourseTree.InOrder` | DSA-project/file.cpp:43-48 | The traversal lists every stored code and nothing else. |
| `CourseTree.BstIffInOrderAscending` | DSA-project/file.cpp:43-48 | A tree satisfies the search-tree ordering exactly when its in-order listing is strictly ascending. |
| `CourseTree.AscendingHasNoRepeats` | DSA-project/file.cpp:43-48 | A strictly ascending listing contains no code twice. |
| `CourseTree.InsertAll` | DSA-project/file.cpp:22-24 | Inserting a sequence of codes one after another adds exactly those codes and keeps the search-tree invariant. |
| `CourseTree.CatalogListing` | DSA-project/file.cpp:16-48 | For any insertion order, the listing of the catalog is strictly ascending, has no repeats and holds exactly the inserted codes. |
| `Registration.Initial` | DSA-project/file.cpp:60 | The constructor frees the one seat, counts no registrations, and starts with an empty waitlist and an empty undo log. The state satisfies the seat balance that every operation preserves. |
| `Registration.RegisterCourse` | DSA-project/file.cpp:62-77 | At or above the course limit, nothing changes. Below it, with a free seat, the seat is taken, one more course is counted, the waitlist is untouched and `(student, true)` is logged. Without a free seat, the student joins the back of the waitlist, the counters stay put and `(student, false)` is logged. The seat balance is preserved. |
| `Registration.DropCourse` | DSA-project/file.cpp:79-95 | With the seat free, nothing changes. With it occupied and nobody waiting, the seat is freed and one course fewer is counted, with the log untouched. With someone waiting, the head of the waitlist is removed and promoted, `(head, true)` is logged and the counters are net unchanged. The seat balance is preserved. |
| `Registration.Undo` | DSA-project/file.cpp:97-126 | With an empty log, nothing changes. Otherwise exactly the top entry is popped. A seat grant is reversed by freeing the seat, counting one course fewer and appending the student to the back of the waitlist. A waitlist entry is reversed by removing the student's first occurrence from the waitlist, with the counters untouched. The seat balance is preserved. |
| `Registration.RemoveFirst` | DSA-project/file.cpp:113-123 | Removing a student who is not waiting leaves the waitlist unchanged. Removing one who is waiting shortens it by exactly one. |
| `Registration.RemoveFirstAt` | DSA-project/file.cpp:113-123 | If `i` is the first position holding the student, the result is the waitlist with exactly position `i` cut out. The other entries keep their order. |
| `Registration.RemoveFirstMultiset` | DSA-project/file.cpp:113-123 | Exactly one copy of the student leaves the waitlist, if there was one. |
| `Registration.RemoveFirstSnoc` | DSA-project/file.cpp:113-123 | Scanning one more entry drops that entry only if it is the first occurrence of the student. Otherwise the entry is kept at the end. |
| `Registration.RemoveFirstFromQueue` | DSA-project/file.cpp:113-123 | The temporary-queue loop computes the waitlist with the first occurrence removed. Its `found` flag is set exactly when the student was waiting. |
| `Registration.DisplayWaitlist` | DSA-project/file.cpp:128-140 | The empty-waitlist message is shown exactly when the waitlist is empty. Otherwise the listing is the waitlist from front to back. |
| `Registration.RunKeepsInvariant` | DSA-project/file.cpp:60-140 | Any command sequence keeps the two counters summing to one seat and keeps `seatsAvailable` non-negative. |
| `Registration.ReachableStates` | DSA-project/file.cpp:60-69 | From the initial state, at most one course is ever counted as registered, so `registerCourse` never reports the course limit. |
| `Registration.CountersLeaveNominalRange` | DSA-project/file.cpp:62-111 | A direct registration, a drop with an empty waitlist, then an undo leave two seats available and minus one course registered. |
| `Registration.CourseIsIgnored` | DSA-project/file.cpp:62-126 | The course argument never affects the resulting state or outcome. |
| `Registration.DropIsIdentityBlind` | DSA-project/file.cpp:79-95 | Any two students dropping get identical results. |
| `Registration.UndoDirectRegistration` | DSA-project/file.cpp:106-111 | Undoing a direct registration restores the counters and the undo log, and leaves the student at the back of the waitlist. |
| `Registration.RemoveFirstOfAppended` | DSA-project/file.cpp:113-123 | Appending a student who was not waiting, then removing their first occurrence, gives back the original waitlist. |
| `Registration.UndoWaitlistRegistration` | DSA-project/file.cpp:112-124 | Undoing a waitlist registration restores the counters and the log. It restores the waitlist up to order, and restores it exactly whenever the student was not already waiting. |
| `Registration.RemoveFirstOfAppendedIff` | DSA-project/file.cpp:113-123 | If a student's first position in the waitlist is `i`, appending them and then removing their first occurrence gives back the waitlist if and only if every entry from `i` to the back is that student. |
| `Registration.UndoWaitlistRestoresIff` | DSA-project/file.cpp:112-124 | For a student already waiting, with first position `i`, undoing their repeated waitlist registration restores the old state if and only if every waitlist entry from `i` to the back is that student. |
| `Registration.UndoWaitlistCanReorder` | DSA-project/file.cpp:112-124 | A student waiting ahead of another who registers again and then undoes is moved behind the other student. |
| `Registration.UndoPromotion` | DSA-project/file.cpp:84-111 | Undoing a promotion frees the seat, counts one course fewer, moves the promoted student to the back of the waitlist and restores the log. |
| `Registration.PromotionScenario` | DSA-project/file.cpp:62-95 | In a fresh system, one student takes the seat and a second is waitlisted. A drop by anyone then promotes the second student and empties the waitlist. |

## Left out

- `main` (DSA-project/file.cpp:143-204) is the interactive menu and `cin` parsing. Its commands appear only as the `Command` datatype that `Run` replays.
- All console output. Each message is an `Outcome` or `WaitlistView` constructor, and `CourseTree`'s `display` is the sequence `InOrder` returns.
- Pointers, `new` and the leaked tree nodes. The tree is an inductive datatype that owns its subtrees.
- The `std::queue` and `std::stack` internals. Both are sequences.
- `std::string` holds bytes, and `char_traits<char>` compares them as unsigned values. The model uses Dafny `char`s compared by code point, which gives the same order for UTF-8 text.
- The counters are unbounded integers. The fixed width of C++ `int` (DSA-project/file.cpp:54-55) and signed overflow are not modelled. Overflow would take on the order of 2^31 stacked undo entries.
- The `course` argument only appears in printed messages. The transitions take it and ignore it.
