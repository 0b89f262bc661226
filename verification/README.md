# A Dafny model of a set of C++ and Python exercises

The repository is a collection of independent exercises: a reference-counted
`SharedPtr`/`WeakPtr` pair, an arbitrary-precision `BigInt`, a chunked deque, a
sentinel doubly linked list, a binary search tree, a growable `String`, a
fixed-size `Matrix`, a `LowerBound` binary search, integer plane geometry, and
the card rules of an online game of Durak. This Dafny project models the
operations of each exercise as pure functions over immutable data, or as
methods with loop invariants where the original is a loop that needs proof
work. It then proves what each operation promises.

| module | file | models |
|---|---|---|
| `Wrappers` | wrappers.dfy | `Option` and `Result`, for exceptions and undefined reads |
| `Arith` | arith.dfy | two facts about Euclidean division |
| `Decimal` | decimal.dfy | decimal digit strings and their values |
| `SmartPointers` | smart_pointers.dfy | control blocks as count records on a heap of blocks; handles as optional block ids; the counting protocol as an invariant over all live handles |
| `BigInts` | big_integer.dfy | limbs in base 10^9, the value of a `BigInt`, the constructor from `int64_t`, `Abs`, unary minus and the comparisons |
| `BigIntArith` | big_integer_arith.dfy | `+=`, `MinusPart`, `-=`, `++`, `--`, `*=`, `Multiply`, `/=`, `Check` and `%=` |
| `BigIntText` | big_integer_text.dfy | `operator<<` and the string constructor |
| `ChunkedDeques` | chunked_deque.dfy | the deque: the chunk table, the index map to (chunk, offset), push and pop at both ends, insert, erase and iterators |
| `LinkedLists` | linked_list.dfy | the list: numbered nodes with `next`/`previous` links and a sentinel |
| `SearchTrees` | search_tree.dfy | the tree as an inductive datatype with its ordering invariant |
| `Strings` | growable_string.dfy | the characters in use plus a capacity |
| `Matrix` | matrix.dfy | matrices as sequences of rows |
| `LowerBound` | lower_bound.dfy | the binary search, as a method with loop invariants |
| `Geometry` | geometry.dfy | vectors and the five shapes |
| `Cards`, `Decks`, `Boards`, `Players`, `PyLists` | card.dfy, deck.dfy, board.dfy, player.dfy, python_lists.dfy | the Durak rules, plus Python's list indexing and slicing |

Integers are unbounded throughout. A Python exception or a C++ read past the
end becomes `None`. The heap of the smart pointers is a sequence of blocks whose
ids are never reused. Deleting the item and freeing the block are counted
events, not memory operations.

Several one-line queries have no contract of their own. Each is used in the
contracts of the members listed below:

- `Decks.Size` and `Players.GiveHand` return the pile and the hand.
- `Players.HaveCard` tests that the hand is non-empty; it appears in the contract of `Players.Grab`.
- `Boards.CanAttack` appears in the contract of `Boards.AttackCard`.
- `Boards.Beated` appears in the contract of `Boards.DefenceClosesAttack`.
- `Cards.ToString` is `__str__`, `__repr__` and `toJSON`; it appears in the contract of `Cards.StrCastInvertsToString`.

Many operations are plain functions with no contract of their own. Each is
stated by the lemmas named beside it, and those lemmas have rows in "## Model":

| operation | source | stated by |
|---|---|---|
| `ChunkedDeques.PushBack` | Deque/deque.hpp:337-369 | `ChunkedDeques.PushBackAppends` |
| `ChunkedDeques.PushFront` | Deque/deque.hpp:375-409 | `ChunkedDeques.PushFrontPrepends` |
| `ChunkedDeques.PopBack` | Deque/deque.hpp:411-427 | `ChunkedDeques.PopBackRemovesLast` |
| `ChunkedDeques.PopFront` | Deque/deque.hpp:429-442 (corrected) | `ChunkedDeques.PopFrontRemovesFirst` |
| `ChunkedDeques.PopFrontAsWritten` | Deque/deque.hpp:429-442 | `ChunkedDeques.PopFrontAsWrittenAgreesElsewhere`, `ChunkedDeques.PopFrontAsWrittenLeavesDanglingStart` |
| `LinkedLists.PushBack` | List/list.hpp:262 | `LinkedLists.PushBackAppends`, `LinkedLists.PushBackLinks` |
| `LinkedLists.PushFront` | List/list.hpp:264 | `LinkedLists.PushFrontPrepends`, `LinkedLists.PushFrontNext`, `LinkedLists.PushFrontPrevious` |
| `LinkedLists.PopBack` | List/list.hpp:270 | `LinkedLists.PopBackRemovesLast` |
| `LinkedLists.PopFront` | List/list.hpp:272 | `LinkedLists.PopFrontRemovesFirst` |
| `LinkedLists.Front`, `LinkedLists.Back` | List/list.hpp:274-280 | `LinkedLists.FrontBackAreEnds` |
| `LinkedLists.Copy` | List/list.hpp:198-211 | `LinkedLists.CopyPreservesElements` |
| `LinkedLists.Swap` | List/list.hpp:213-231 | `LinkedLists.SwapExchanges`, `LinkedLists.RehangKeeps` |
| `BigIntText.Print` | big_integer/big_integer.cpp:79-96 | `BigIntText.PrintValue`, `BigIntText.PrintDigits` |
| `BigIntText.Parse` | big_integer/big_integer.cpp:31-53 (corrected) | `BigIntText.ParseMag`, `BigIntText.ParseValue`, `BigIntText.PrintParseRoundTrip` |
| `BigIntText.ParseAsWritten` | big_integer/big_integer.cpp:31-53 | `BigIntText.ParseAsWrittenNonNegative`, `BigIntText.ParseAsWrittenRejectsLongNegative`, `BigIntText.ParseAsWrittenKeepsZeroLimb` |
| `SearchTrees.HasElem` | BinarySearchTree/BST.cpp:213-219 | `SearchTrees.HasElemIffMember`, `SearchTrees.HasElemAfterInsert` |
| `SearchTrees.Remove` | BinarySearchTree/BST.cpp:155-163 (corrected) | `SearchTrees.RemoveTakesOne`, `SearchTrees.RemoveAbsent`, `SearchTrees.RemoveKeepsOrder` |
| `SearchTrees.RemoveAsWritten` | BinarySearchTree/BST.cpp:98-163 | `SearchTrees.RemoveAsWrittenKeepsOneChildNode`, `SearchTrees.RemoveLinkedExact` |
| `SearchTrees.RemoveLinked` | BinarySearchTree/BST.cpp:98-163 | `SearchTrees.RemoveLinkedExact`, `SearchTrees.RemoveLinkedNeverAdds`, `SearchTrees.RemoveLinkedCompounds` |
| `Geometry.Point.Move`, `.Contains`, `.CrossSegment` | Geometry/geometry.cpp:115-126 | `Geometry.PointContainsOnlyItself`, `Geometry.MoveBackRestores`, `Geometry.MoveShiftsContainment`, `Geometry.MoveShiftsCrossing` |
| `Geometry.Segment.Move`, `.Contains`, `.CrossSegment` | Geometry/geometry.cpp:148-170 | `Geometry.SegmentContainsEnds`, `Geometry.SegmentContainsDivisionPoints`, `Geometry.SegmentCrossSymmetric`, and the three `Move` lemmas |
| `Geometry.Line.Move`, `.Contains`, `.CrossSegment` | Geometry/geometry.cpp:184-196 | `Geometry.LineThrough`, `Geometry.LineMoveShifts`, `Geometry.LineCrossesAtEndPoint`, and the three `Move` lemmas |
| `Geometry.Ray.Move`, `.Contains`, `.CrossSegment` | Geometry/geometry.cpp:211-227 | `Geometry.RayThrough`, and the three `Move` lemmas |
| `Geometry.Circle.Move`, `.Contains`, `.CrossSegment` | Geometry/geometry.cpp:245-279 | `Geometry.CircleStrictImpliesClosed`, `Geometry.CircleCrossCases`, and the three `Move` lemmas |
| `Geometry.Shape.Move`, `.Contains`, `.CrossSegment` | Geometry/geometry.cpp:115-279 | the virtual dispatch over the five shapes: `Geometry.MoveBackRestores`, `Geometry.MoveShiftsContainment`, `Geometry.MoveShiftsCrossing` |
| `SmartPointers.UseCount` | SharedPtr/smart_pointers.hpp:178-183 | `SmartPointers.StrongHandleSound`, `SmartPointers.FromRaw`, `SmartPointers.Copy`, `SmartPointers.Lock` |
| `SmartPointers.Expired` | SharedPtr/smart_pointers.hpp:292 | `SmartPointers.WeakHandleSound`, `SmartPointers.Lock` |

## Model

| member | source | states |
|---|---|---|
| LowerBound.LowerBound | LowerBound/bin_search.hpp:5-23 | the search reaches the end exactly when the value exceeds the last element; on a sorted range everything left of the result is at most the value and everything from it on at least the value; on a strictly increasing range the result is the first position not below the value |
| LowerBound.Bisect | LowerBound/bin_search.hpp:11-22 | the halving between the bounds lo and hi stops at a position from lo to hi, both included |
| LowerBound.BisectLeftAtMost | LowerBound/bin_search.hpp:11-22 | on a sorted range the halving keeps only elements at most the value to the left of its result |
| LowerBound.BisectRightAtLeast | LowerBound/bin_search.hpp:11-22 | on a sorted range every element from the halving's result on is at least the value |
| LowerBound.BisectFirstWhenStrict | LowerBound/bin_search.hpp:11-22 | on a strictly increasing range every element left of the result is below the value |
| LowerBound.BisectBounds | LowerBound/bin_search.hpp:6-22 | when the value does not exceed the last element the halving stops before the end of the range |
| LowerBound.RepeatedKeySkipsFirst | LowerBound/bin_search.hpp:11-22 | with a repeated key the halving lands past the first equal element |
| LowerBound.LowerBoundFirst | LowerBound/bin_search.hpp:5-23 | the corrected search: on a sorted range every element left of the result is below the value and every element from it on is not |
| Cards.SetValue | DurakOnline/card.py:28-29 | only the value changes |
| Cards.SetSuit | DurakOnline/card.py:31-32 | only the suit changes |
| Cards.LessIsStrictOrder | DurakOnline/card.py:34-38 | card order is irreflexive, asymmetric and transitive, and cards of different suits are never ordered |
| Cards.ParseInt | DurakOnline/card.py:14 | Python's int() on a sign and digits; a leading minus never yields a positive value |
| Cards.IntRoundTrip | DurakOnline/card.py:14 | int() reads back str() of every integer |
| Cards.StrCast | DurakOnline/card.py:12-15 | the first character becomes the suit and int() of the rest the value; an empty string or a non-integer rest fails |
| Cards.StrCastInvertsToString | DurakOnline/card.py:12-15 | StrCast reads back the text __str__ writes for a card with a one-letter suit |
| Decks.BeatsCases | deck.py:6-14 | the full case table of CompareCardWithTrump: same suit compares values, a trump is beaten only by a higher trump, a trump beats any other suit, two other different suits never beat |
| Decks.BeatsIsStrictOrder | deck.py:6-14 | for every trump suit, beating is irreflexive, asymmetric and transitive |
| Decks.OrderedDeck | deck.py:18 | the unshuffled deck has four cards per value from base_card to 14, in suit order H, D, S, T |
| Decks.OrderedDeckContents | deck.py:18 | the ordered deck holds exactly the valid cards, each once |
| Decks.NewDeck | deck.py:17-19 | any shuffle of the ordered deck has the right size and holds every valid card exactly once and nothing else |
| Decks.GrabCardsTop | deck.py:30-32 | the handed-out cards and the remaining deck rejoin to the old deck; for a non-negative count, the number handed out is the count clamped to the deck size |
| Decks.GrabOneCard | deck.py:34-35 | at most one card is handed out, and it is the top card when the deck is not empty |
| Decks.LastCard | deck.py:40-41 | the bottom card, and an error exactly when the deck is empty |
| Decks.TrumpSuit | deck.py:37-38 | the suit of the bottom card, and an error exactly when the deck is empty |
| Boards.NewBoard | board.py:7-10 | a new board has no cards and the given trump suit |
| Boards.AttackCardAsWritten | board.py:15-17 | the card is appended or the board is unchanged, and only cards CanAttack allows are appended |
| Boards.AttackCardAsWrittenRefusesMatchingValue | board.py:12-17 | a second attack card of the first card's value passes CanAttack but AttackCard refuses it |
| Boards.AttackCard | board.py:12-17 | the corrected attack: the card is played exactly when CanAttack allows it |
| Boards.AttackKeepsLimit | board.py:13-16 | attacking never takes a round past seven attack cards |
| Boards.CanDefence | board.py:19-20 | the card beats the last attack card; an error when no attack card is down |
| Boards.DefenceCard | board.py:22-24 | the card joins the defence exactly when it beats the last attack card; an error when no attack card is down |
| Boards.ResetBoard | board.py:32-34 | both sides are cleared and the trump suit is kept |
| Boards.DefenceClosesAttack | board.py:22-37 | a successful answer to the one open attack card leaves the board beaten |
| Players.NewPlayer | DurakOnline/player.py:7-10 | a new player holds the given cards and name and has not passed |
| Players.GrabCards | DurakOnline/player.py:12-14 | a hand under six cards is topped up from the deck to six, or to all the deck has; a full hand draws nothing; hand and deck together keep their cards in order |
| Players.GrabCardsKeepsCards | DurakOnline/player.py:12-14 | drawing moves cards from the deck to the hand without losing or making up any |
| Players.PutCard | DurakOnline/player.py:19-22 | the card at a Python index (negative counts from the end) is returned and removed from the hand; an error exactly when the index is out of range |
| Players.PutCardThenReinsert | DurakOnline/player.py:19-22 | putting the card back where it was taken restores the hand |
| Players.Grab | DurakOnline/player.py:27-28 | the given cards are appended after the hand |
| PyLists.Index | DurakOnline/player.py:20-21 | Python list indexing: a negative index counts from the end, and an index out of range fails |
| PyLists.Split | deck.py:31 | Python slices `[:n]` and `[n:]` always rejoin to the list, and the cut is n clamped to the list |
| PyLists.RemoveAt | DurakOnline/player.py:21 | pop removes exactly the element at the index and keeps the others in order |
| Geometry.Check | Geometry/geometry.cpp:3-11 | the two coordinate ranges, each taken in either order, overlap |
| Geometry.CheckMeansOverlap | Geometry/geometry.cpp:3-11 | Check holds exactly when some coordinate lies in both closed ranges |
| Geometry.ProductSymmetry | Geometry/geometry.cpp:44-52 | the dot product is symmetric and the cross product antisymmetric |
| Geometry.ProductsLinear | Geometry/geometry.cpp:44-52 | both products are linear in their first argument |
| Geometry.SegmentContainsEnds | Geometry/geometry.cpp:153-158 | a segment contains both its end points |
| Geometry.SegmentContainsDivisionPoints | Geometry/geometry.cpp:153-158 | every point dividing a segment in equal lattice steps is on the segment |
| Geometry.SegmentCrossSymmetric | Geometry/geometry.cpp:160-170 | two segments meet or not regardless of which one is asked |
| Geometry.LineThrough | Geometry/geometry.cpp:174-177 | the line built from two points contains both, and has a non-zero normal when they differ |
| Geometry.LineMoveShifts | Geometry/geometry.cpp:184-190 | moving a line by v moves every point on it by v |
| Geometry.LineCrossesAtEndPoint | Geometry/geometry.cpp:192-196 | a line meets every segment with an end point on it |
| Geometry.RayThrough | Geometry/geometry.cpp:203-215 | the ray built from two points contains both |
| Geometry.CircleStrictImpliesClosed | Geometry/geometry.cpp:247-258 | a point in the open disc is in the closed disc, and the centre is in the disc |
| Geometry.CircleCrossCases | Geometry/geometry.cpp:260-268 | a segment strictly inside never meets the circle, and one with exactly one end in the closed disc always does |
| Geometry.MoveBackRestores | Geometry/geometry.cpp:115-118 | moving any shape by v and then by -v restores it |
| Geometry.MoveShiftsContainment | Geometry/geometry.cpp:115-252 | every shape moves rigidly: the moved shape contains p + v exactly when the shape contains p |
| Geometry.MoveShiftsCrossing | Geometry/geometry.cpp:124-279 | moving a shape and a segment by the same vector does not change whether they meet |
| Geometry.PointContainsOnlyItself | Geometry/geometry.cpp:120-122 | a point contains exactly itself |
| Matrix.Filled | Matrix/matrix.hpp:18-19 | every entry of an N×M matrix holds the element |
| Matrix.Add | Matrix/matrix.hpp:24-31 | the sum of two N×M matrices, entry by entry |
| Matrix.Sub | Matrix/matrix.hpp:32-39 | the difference of two N×M matrices, entry by entry |
| Matrix.Scale | Matrix/matrix.hpp:40-47 | every entry is multiplied by the factor |
| Matrix.Transposed | Matrix/matrix.hpp:48-56 | an M×N matrix with entry (j, i) taken from entry (i, j) |
| Matrix.EqualIffEntries | Matrix/matrix.hpp:57-59 | two N×M matrices are equal exactly when every entry agrees |
| Matrix.AddThenSubRestores | Matrix/matrix.hpp:24-39 | adding then subtracting the same matrix restores the original |
| Matrix.TransposeTwice | Matrix/matrix.hpp:48-56 | transposing twice restores the original |
| Matrix.ProductEntry | Matrix/matrix.hpp:98-101 | one entry of the product is the sum over k of a(i, k)·b(k, j) |
| Matrix.Product | Matrix/matrix.hpp:92-105 | the product of N×M and M×K matrices is N×K, each entry a row-column sum |
| Matrix.RowTimesIdentity | Matrix/matrix.hpp:92-105 | multiplying by the identity picks out the entry, so A·I = A |
| Matrix.Trace | Matrix/matrix.hpp:160-166 | the trace is the sum of the diagonal entries |
| Matrix.DiagonalSumAdd | Matrix/matrix.hpp:124-166 | the trace of a sum is the sum of the traces |
| Matrix.DiagonalSumTransposed | Matrix/matrix.hpp:148-166 | transposing keeps the trace |
| Strings.Filled | String/string.cpp:18-22 | `size` copies of the character, capacity twice the size |
| Strings.FromCString | String/string.cpp:24-29 | the characters of a C string, capacity twice their number |
| Strings.Copy | String/string.cpp:31-37 | the same characters, capacity twice the size |
| Strings.Assign | String/string.cpp:39-46 | self-assignment changes nothing; otherwise the target holds the source's characters with a fresh copy's capacity |
| Strings.Clear | String/string.cpp:48 | no characters, capacity kept |
| Strings.Reserve | String/string.cpp:87-98 | the capacity never shrinks and grows exactly to a larger request; the characters are kept |
| Strings.PushBack | String/string.cpp:50-57 | the character is appended; when the new size exceeds the capacity, the capacity becomes twice the new size |
| Strings.PopBack | String/string.cpp:59-65 | nothing on an empty string, otherwise the last character is dropped |
| Strings.PopUndoesPush | String/string.cpp:50-65 | PopBack after PushBack restores the characters |
| Strings.Resize | String/string.cpp:67-73 | the size becomes n, truncating or exposing what the buffer held, and the capacity grows to n when smaller |
| Strings.ResizeFill | String/string.cpp:75-81 | the size becomes n, the kept prefix is unchanged and every new position holds the fill character |
| Strings.ShrinkToFit | String/string.cpp:100-105 | the capacity drops to the size and the characters are kept |
| Strings.Append | String/string.cpp:148-156 | the characters of t follow those of s; the capacity doubles the combined size when that size exceeds it |
| Strings.RepeatAssign | String/string.cpp:158-170 | after `*= n` the text is the old text n times: size n·size and character i is old character i mod size |
| Strings.RepeatAt | String/string.cpp:162-164 | position i of the n-fold repetition holds character i mod size |
| Strings.Find | String/string.cpp:189 | strstr: the leftmost occurrence at or after the start, or none when there is no occurrence |
| Strings.JoinSplitRoundTrip | String/string.cpp:186-205 | joining the pieces of a split with the delimiter restores the text |
| Strings.SplitPiecesAvoidDelimiter | String/string.cpp:186-205 | no piece contains the delimiter: every occurrence is cut at, and the remainder after the last cut has none |
| Strings.SplitCutsLeftmost | String/string.cpp:186-205 | the split cuts where strstr finds the delimiter scanning from the left: each cut is at the first occurrence that begins at or after the end of the previous cut, and none begins in the text after the last cut |
| Strings.LeftmostCutsCons | String/string.cpp:189-197 | one more cut at the leftmost occurrence, in front of a leftmost cutting of the rest of the text, is a leftmost cutting of the whole |
| Strings.OccursShift | String/string.cpp:189 | an occurrence in the text after a cut is an occurrence in the whole text, shifted by the cut's end |
| Strings.Split | String/string.cpp:186-205 | at least one piece, each a fresh string; the pieces joined with the delimiter give back the text, no piece contains the delimiter, and the cuts are the leftmost non-overlapping occurrences strstr finds scanning from the left, with no occurrence after the last cut |
| Strings.Join | String/string.cpp:207-224 | the strings with the separator between consecutive ones; an empty list gives an empty string |
| Strings.JoinCharsSnoc | String/string.cpp:218-221 | joining one more string appends the separator and that string |
| Strings.OperationsKeepValid | String/string.cpp:48-156 | every operation keeps the size within the capacity |
| LinkedLists.LinksConsistent | List/list.hpp:34-42 | in a well-linked list, next of previous and previous of next lead back to every node and to the sentinel |
| LinkedLists.Bundle | List/list.hpp:34-37 | only first's next and last's previous change |
| LinkedLists.InsertNode | List/list.hpp:39-42 | the node is linked between first and last and nothing else changes |
| LinkedLists.Insert | List/list.hpp:44-48 | a new node holding the element is linked between first and last and the size grows by one |
| LinkedLists.Erase | List/list.hpp:70-77 | nothing on an empty list; otherwise the node's neighbours are linked to each other and the size drops by one |
| LinkedLists.Empty | List/list.hpp:151-153 | a new list is its sentinel linked to itself, with no elements |
| LinkedLists.PushBackAppends | List/list.hpp:262 | push_back keeps the list well linked, appends the element and grows the size by one |
| LinkedLists.PushBackLinks | List/list.hpp:262 | after push_back, next and previous walk the old nodes and then the new one |
| LinkedLists.PushFrontPrepends | List/list.hpp:264 | push_front keeps the list well linked, prepends the element and grows the size by one |
| LinkedLists.PushFrontNext | List/list.hpp:264 | after push_front, next walks the new node and then the old nodes |
| LinkedLists.PushFrontPrevious | List/list.hpp:264 | after push_front, previous retraces the same walk backwards |
| LinkedLists.PopBackRemovesLast | List/list.hpp:270 | nothing on an empty list; otherwise the last element goes, the rest stay well linked and in order, and the size drops by one |
| LinkedLists.PopFrontRemovesFirst | List/list.hpp:272 | nothing on an empty list; otherwise the first element goes, the rest stay well linked and in order, and the size drops by one |
| LinkedLists.FrontBackAreEnds | List/list.hpp:274-280 | front and back are the first and last elements, and absent on an empty list |
| LinkedLists.WalkSuffix | List/list.hpp:105-108 | following next from the i-th node reads the elements from position i on |
| LinkedLists.WalkReadsElements | List/list.hpp:286-298 | iterating from begin for size steps reads exactly the elements in order |
| LinkedLists.FromSeqHolds | List/list.hpp:184-196 | the list built from an initializer list is well linked and holds its elements in order |
| LinkedLists.FromSeqStep | List/list.hpp:187-189 | one more push_back extends the list built so far by the next element |
| LinkedLists.FilledHoldsCopies | List/list.hpp:155-168 | List(n, x) holds exactly n copies of x |
| LinkedLists.CopyPreservesElements | List/list.hpp:198-211 | a copy is well linked, holds the same elements in the same order and has the same size |
| LinkedLists.RehangKeeps | List/list.hpp:218-229 | hanging a list's nodes off a sentinel keeps its elements and links |
| LinkedLists.SwapExchanges | List/list.hpp:213-231 | swap exchanges the elements and the sizes of the two lists, both staying well linked |
| SearchTrees.Insert | BinarySearchTree/BST.cpp:179-194 | insertion always leaves a non-empty tree |
| SearchTrees.InsertAdds | BinarySearchTree/BST.cpp:51-64 | insertion adds exactly the one element |
| SearchTrees.InsertKeepsOrder | BinarySearchTree/BST.cpp:184-193 | insertion keeps smaller elements left and the others right |
| SearchTrees.InsertIntoEmpty | BinarySearchTree/BST.cpp:180-183 | the first insertion makes the element the root |
| SearchTrees.Find | BinarySearchTree/BST.cpp:66-82 | find fails exactly on an empty tree and otherwise stops at an element of the tree |
| SearchTrees.HasElemIffMember | BinarySearchTree/BST.cpp:213-219 | on an ordered tree, hasElem answers membership exactly |
| SearchTrees.HasElemAfterInsert | BinarySearchTree/BST.cpp:213-219 | hasElem(x) holds after insert(x) and never on an empty tree |
| SearchTrees.Min | BinarySearchTree/BST.cpp:84-89 | the leftmost element is an element of the tree |
| SearchTrees.Max | BinarySearchTree/BST.cpp:91-96 | the rightmost element is an element of the tree |
| SearchTrees.MinMaxAreExtremes | BinarySearchTree/BST.cpp:84-96 | on an ordered tree the leftmost element is the smallest and the rightmost the largest |
| SearchTrees.DeleteMinTakesMin | BinarySearchTree/BST.cpp:122-126 | taking out the leftmost node removes exactly the minimum and keeps the order |
| SearchTrees.RemoveNodeDropsRoot | BinarySearchTree/BST.cpp:98-127 | remove_node takes out exactly the node's element |
| SearchTrees.RemoveNodeKeepsOrder | BinarySearchTree/BST.cpp:98-127 | remove_node keeps the order, also when the right subtree's minimum replaces a node with two children |
| SearchTrees.RemoveTakesOne | BinarySearchTree/BST.cpp:155-163 | remove(x) takes out one copy of x when there is one |
| SearchTrees.RemoveAbsent | BinarySearchTree/BST.cpp:155-163 | remove(x) of an absent element, or on an empty tree, leaves the tree as it was |
| SearchTrees.RemoveKeepsOrder | BinarySearchTree/BST.cpp:155-163 | remove(x) keeps the order |
| SearchTrees.RemoveTop | BinarySearchTree/BST.cpp:165-170 | remove() on an empty tree does nothing |
| SearchTrees.RemoveTopDropsRoot | BinarySearchTree/BST.cpp:165-170 | remove() takes out exactly the root's element and keeps the order |
| SearchTrees.RemoveAsWrittenKeepsOneChildNode | BinarySearchTree/BST.cpp:110-118 | removing a one-child node below the root, as written, leaves it in the tree, while the corrected removal takes it out |
| SearchTrees.InsertLinkedShape | BinarySearchTree/BST.cpp:178-194 | insertion with parent pointers builds the same tree and sets every new node's parent pointer to its real parent |
| SearchTrees.RemoveLinkedExact | BinarySearchTree/BST.cpp:98-127 | on a tree whose parent pointers are all right, one removal as written never dereferences null and agrees with the plain-tree removal as written |
| SearchTrees.RemoveLinkedNeverAdds | BinarySearchTree/BST.cpp:98-127 | whatever the parent pointers, a removal as written that completes never adds an element |
| SearchTrees.RemoveLinkedCompounds | BinarySearchTree/BST.cpp:104-118 | the parent pointer moved by a failed one-child removal makes later removals drop the wrong subtree or dereference null |
| ChunkedDeques.SlotOf | Deque/deque.hpp:66-71 | the offset of every logical position is inside its 16-slot chunk |
| ChunkedDeques.SlotInjective | Deque/deque.hpp:66-71 | distinct logical positions occupy distinct slots |
| ChunkedDeques.Empty | Deque/deque.hpp:183-184 | a new deque is valid and holds nothing |
| ChunkedDeques.FilledHoldsCopies | Deque/deque.hpp:203-218 | Deque(count, element) is valid and holds exactly count copies of the element |
| ChunkedDeques.Get | Deque/deque.hpp:483-487 | operator[] reads logical element i |
| ChunkedDeques.At | Deque/deque.hpp:489-501 | at(i) fails exactly when i is not below the size, and otherwise reads element i |
| ChunkedDeques.PushBackAppends | Deque/deque.hpp:337-369 | push_back keeps the deque valid and appends the element |
| ChunkedDeques.PushFrontPrepends | Deque/deque.hpp:375-409 | push_front keeps the deque valid and puts the element in front of the others |
| ChunkedDeques.PopBackRemovesLast | Deque/deque.hpp:411-427 | pop_back does nothing on an empty deque and otherwise removes exactly the last element |
| ChunkedDeques.PopFrontRemovesFirst | Deque/deque.hpp:429-442 | the corrected pop_front keeps the deque valid and removes exactly the first element |
| ChunkedDeques.PopFrontAsWrittenAgreesElsewhere | Deque/deque.hpp:429-442 | pop_front as written differs from the corrected one only when the deque empties from offset 15 |
| ChunkedDeques.PopFrontAsWrittenLeavesDanglingStart | Deque/deque.hpp:411-442 | a sequence of pushes and pops leaves the deque, as written, empty with its start in a deallocated chunk; the corrected pop_front keeps it in an allocated one |
| ChunkedDeques.Exchange | Deque/deque.hpp:448 | swapping two elements exchanges them and changes nothing else |
| ChunkedDeques.Insert | Deque/deque.hpp:444-450 | insert places the element at the iterator's position and shifts the later elements up by one |
| ChunkedDeques.Erase | Deque/deque.hpp:452-457 | erase removes the element at the iterator's position and keeps the others in order |
| ChunkedDeques.DerefIsIndex | Deque/deque.hpp:137-149 | dereferencing an iterator at index i reads element i |
| ChunkedDeques.AdvanceRetreat | Deque/deque.hpp:115-135 | (it + n) - n == it, and (it + n) - it == n when no size_t wrap-around occurs |
| ChunkedDeques.DistanceOfOrdered | Deque/deque.hpp:151-175 | iterator subtraction is the index difference, and iterators order as their indices |
| SmartPointers.AddShared | SharedPtr/smart_pointers.hpp:77-81 | a non-null block gains one strong count and no other block changes |
| SmartPointers.AddWeak | SharedPtr/smart_pointers.hpp:249-254 | a non-null block gains one weak count and no other block changes |
| SmartPointers.ReleaseShared | SharedPtr/smart_pointers.hpp:205-220 | the last strong owner deletes the item once and frees the block only when no weak owner is left; otherwise the strong count drops by one |
| SmartPointers.ReleaseWeak | SharedPtr/smart_pointers.hpp:298-307 | the weak count drops by one, the item is never deleted, and the block is freed exactly when both counts reach zero |
| SmartPointers.Adopt | SharedPtr/smart_pointers.hpp:77-81 | the private constructor shares the block and counts one more strong owner |
| SmartPointers.FromRaw | SharedPtr/smart_pointers.hpp:93-106 | a handle made from a raw pointer gets a new block with use_count 1 and no weak owner |
| SmartPointers.AllocateShared | SharedPtr/smart_pointers.hpp:310-321 | the handle gets a new in-place block with use_count 1 |
| SmartPointers.MakeShared | SharedPtr/smart_pointers.hpp:323-327 | as AllocateShared with the default allocator |
| SmartPointers.Copy | SharedPtr/smart_pointers.hpp:108-121 | a copy shares the block and raises use_count by one; a copy of a null handle is null with use_count 0 |
| SmartPointers.Move | SharedPtr/smart_pointers.hpp:123-138 | a move leaves the counters as they were, hands the block to the new handle and nulls the source |
| SmartPointers.Reset | SharedPtr/smart_pointers.hpp:197 | reset() leaves a null handle and releases the old reference exactly once |
| SmartPointers.ResetTo | SharedPtr/smart_pointers.hpp:199-203 | reset(p) gives the handle a new block with use_count 1 and releases the old reference exactly once |
| SmartPointers.WeakFromShared | SharedPtr/smart_pointers.hpp:249-254 | a weak handle shares the block and raises only the weak count |
| SmartPointers.Lock | SharedPtr/smart_pointers.hpp:292-296 | lock() on an expired block gives a null handle; otherwise a strong handle to the block, with use_count one higher |
| SmartPointers.WeakCopy | SharedPtr/smart_pointers.hpp:242-248 | the corrected weak copy shares the block and raises the weak count by one |
| SmartPointers.WeakCopyImplicit | SharedPtr/smart_pointers.hpp:223-240 | the implicit same-type copy, as written, shares the block and changes no counter |
| SmartPointers.WeakMove | SharedPtr/smart_pointers.hpp:265-270 | the corrected weak move hands over the block, nulls the source and changes no counter |
| SmartPointers.WeakMoveAsWritten | SharedPtr/smart_pointers.hpp:265-270 | the move as written hands over the block but its temporary releases one weak count |
| SmartPointers.StrongHandleSound | SharedPtr/smart_pointers.hpp:178-183 | under the protocol, a live strong handle's block is allocated, its item alive, and use_count equals the number of strong handles to it |
| SmartPointers.WeakHandleSound | SharedPtr/smart_pointers.hpp:292 | under the protocol, a live weak handle's block is allocated, its weak count exact, and expired() holds exactly when no strong handle is left |
| SmartPointers.NewBlockKeepsInv | SharedPtr/smart_pointers.hpp:93-106 | a new handle to a new block keeps the counting protocol |
| SmartPointers.DestroyKeepsInv | SharedPtr/smart_pointers.hpp:205-220 | destroying a strong handle keeps the counting protocol |
| SmartPointers.CopyOfKeepsInv | SharedPtr/smart_pointers.hpp:116-121 | copy construction keeps the counting protocol |
| SmartPointers.CopyAssignKeepsInv | SharedPtr/smart_pointers.hpp:151-162 | copy assignment, self-assignment included, keeps the counting protocol |
| SmartPointers.MoveOfKeepsInv | SharedPtr/smart_pointers.hpp:132-138 | move construction keeps the counting protocol |
| SmartPointers.MoveAssignShape | SharedPtr/smart_pointers.hpp:170-176 | move assignment releases the target's old reference and moves the source's into it |
| SmartPointers.MoveAssignKeepsInv | SharedPtr/smart_pointers.hpp:170-176 | move assignment keeps the counting protocol |
| SmartPointers.ResetToKeepsInv | SharedPtr/smart_pointers.hpp:199-203 | reset(p) keeps the counting protocol |
| SmartPointers.NewWeakKeepsInv | SharedPtr/smart_pointers.hpp:249-254 | making a weak handle keeps the counting protocol |
| SmartPointers.WeakCopyKeepsInv | SharedPtr/smart_pointers.hpp:242-248 | the corrected weak copy keeps the counting protocol |
| SmartPointers.WeakMoveKeepsInv | SharedPtr/smart_pointers.hpp:265-270 | the corrected weak move keeps the counting protocol |
| SmartPointers.LockKeepsInv | SharedPtr/smart_pointers.hpp:294-296 | lock() keeps the counting protocol |
| SmartPointers.DestroyWeakKeepsInv | SharedPtr/smart_pointers.hpp:298-307 | destroying a weak handle keeps the counting protocol |
| SmartPointers.StepKeepsInv | SharedPtr/smart_pointers.hpp:77-327 | every operation on handles keeps the counting protocol |
| SmartPointers.RunKeepsInv | SharedPtr/smart_pointers.hpp:77-327 | every program of handle operations keeps the counting protocol |
| SmartPointers.DestroyAtMostOnce | SharedPtr/smart_pointers.hpp:205-220 | in every program, each item is deleted at most once, and exactly when no strong handle is left; each block is freed at most once and never before its item |
| SmartPointers.NoLeak | SharedPtr/smart_pointers.hpp:205-307 | once every handle of a program is gone, every item has been deleted and every block freed exactly once |
| SmartPointers.WeakMoveAsWrittenFreesEarly | SharedPtr/smart_pointers.hpp:265-270 | after the weak move as written, destroying the only strong handle frees the block while a weak handle still points at it |
| SmartPointers.WeakMoveKeepsBlock | SharedPtr/smart_pointers.hpp:265-270 | with the corrected move the same program keeps the block allocated |
| SmartPointers.WeakCopyImplicitUnderCounts | SharedPtr/smart_pointers.hpp:223-240 | with the implicit weak copy, the block is freed under a live weak handle and the weak counter later wraps round to SIZE_MAX |
| Decimal.NatToDecimal | big_integer/big_integer.cpp:88-93 | the decimal text std::to_string gives a non-negative number: at least one digit, and no leading zero unless it is "0" |
| Decimal.DecimalRoundTrip | big_integer/big_integer.cpp:88-93 | reading back the decimal text of n gives n |
| Decimal.DigitsValueAppend | big_integer/big_integer.cpp:89-94 | writing digit groups one after another shifts the earlier group by ten to the length of the later one |
| Decimal.LeadingZeros | big_integer/big_integer.cpp:90-92 | the zeros padding a lower limb to nine digits do not change what it is worth |
| Decimal.DecimalLength | big_integer/big_integer.cpp:90-91 | a number below 10^k has at most k decimal digits, so the padding count nine minus the length is never negative for a limb |
| BigInts.LimbsOf | big_integer/big_integer.cpp:15-28 | the constructor's loop splits a non-negative number into base 10^9 limbs, least significant first, at least one limb, no zero on top unless the number is zero, and the limbs are worth the number |
| BigInts.FromInt64 | big_integer/big_integer.cpp:5-29 | constructing from a 64-bit integer gives a well-formed BigInt worth that integer, size 0 exactly for zero and the sign flag set exactly for negatives |
| BigInts.Abs | big_integer/big_integer.cpp:132-136 | Abs keeps the limbs and size and clears the sign |
| BigInts.Neg | big_integer/big_integer.cpp:368-372 | unary minus keeps the limbs and size and flips the sign |
| BigInts.AbsNegValue | big_integer/big_integer.cpp:132-136 | Abs is worth the absolute value and unary minus the negated value, and both stay well formed |
| BigInts.Equal | big_integer/big_integer.cpp:114-130 | operator== only says equal of BigInts worth the same number |
| BigInts.EqualIffSameValue | big_integer/big_integer.cpp:114-130 | on well-formed BigInts operator== holds exactly when the numbers are equal, a zero of either sign included |
| BigInts.Zerobool | big_integer/big_integer.cpp:170-187 | the comparison with a zero operand is never true of two operands of the same size |
| BigInts.FirstDiffFromTop | big_integer/big_integer.cpp:155-166 | the downward scan of operator< finds the highest limb where the two operands differ, with everything above it equal, or reports that the limbs in use all agree |
| BigInts.MagnitudeOrder | big_integer/big_integer.cpp:148-166 | for non-zero operands of the same sign: fewer limbs means a smaller magnitude, and at equal size the highest differing limb decides the magnitudes' order |
| BigInts.LessAsWritten | big_integer/big_integer.cpp:138-168 | operator< as written is never true of equal operands |
| BigInts.LessAsWrittenReversesNegatives | big_integer/big_integer.cpp:148-153 | operator< as written is the order of the numbers except between two negatives with different limb counts, where it is the reverse order |
| BigInts.LessAsWrittenMinusOne | big_integer/big_integer.cpp:148-150 | as written, -1 < -1000000000 holds while -1000000000 < -1 does not |
| BigInts.Less | big_integer/big_integer.cpp:138-168 | operator< with the size test reversed for negatives is never true of equal operands |
| BigInts.LessIffValue | big_integer/big_integer.cpp:138-168 | the corrected operator< holds exactly when the first number is below the second |
| BigInts.GreaterAsWritten | big_integer/big_integer.cpp:191-193 | operator> as written, over the source's operator<, is neither equality nor that operator< |
| BigInts.LessEqAsWritten | big_integer/big_integer.cpp:189 | operator<= as written, over the source's operator>, holds of equal operands |
| BigInts.AsWrittenOrder | big_integer/big_integer.cpp:189-193 | the source's operator> is its operator< with the operands swapped, and operator<= its negation; both follow the order of the numbers except between two negatives with different limb counts, where they follow the reverse order |
| BigInts.Greater | big_integer/big_integer.cpp:191-193 | the corrected operator>, the same definition over the corrected operator<, is neither equality nor less |
| BigInts.LessEq | big_integer/big_integer.cpp:189 | the corrected operator<=, the same definition over the corrected operator>, holds of equal operands |
| BigInts.GreaterEqAsWritten | big_integer/big_integer.cpp:195-197 | operator>= as written, over the source's operator>, is false of equal operands |
| BigInts.GreaterEqAsWrittenIsLess | big_integer/big_integer.cpp:195-197 | operator>= as written is exactly the source's operator<: strict, so x >= x is false; it is "less than" in the numbers' order except between two negatives with different limb counts, where it is "greater than" |
| BigInts.AsWrittenExamples | big_integer/big_integer.cpp:189-197 | as written 2 >= 1 is false, and for -1 against -1000000000 operator> is false while <= and >= are true, the reverse of the corrected operators |
| BigInts.GreaterEq | big_integer/big_integer.cpp:195-197 | operator>= as its name promises holds of equal operands |
| BigInts.NotEqual | big_integer/big_integer.cpp:199 | operator!= false means the numbers are equal |
| BigInts.OrderIffValue | big_integer/big_integer.cpp:189-199 | the corrected operator>, operator<= and operator>=, and the source's operator!=, hold exactly when the numbers are in that relation |
| BigInts.MagInjective | big_integer/big_integer.hpp:11 | a number has one representation in base 10^9 limbs without a zero on top |
| BigInts.MagBound | big_integer/big_integer.hpp:11 | k limbs below 10^9 are worth less than 10^(9k) |
| BigIntArith.TrimZeros | big_integer/big_integer.cpp:248-254 | the trimming loop stops below all zero limbs at the top, on a non-zero limb or at size 0 |
| BigIntArith.CarryLoop | big_integer/big_integer.cpp:218-222 | the carry loop of operator+= adds the second operand's limbs into the first without changing the sum, leaves every limb below it under 10^9 and carries at most 1 into the next limb |
| BigIntArith.AddSameSign | big_integer/big_integer.cpp:208-232 | adding operands of the same sign gives a well-formed BigInt of that sign whose magnitude is the sum of the magnitudes |
| BigIntArith.AddSameSignResult | big_integer/big_integer.cpp:214-227 | after the carry loop the size is the longer operand's, or one more when the last carry is set, and the limbs in use are normalised and worth the sum |
| BigIntArith.BorrowLoop | big_integer/big_integer.cpp:241-247 | the borrow loop of MinusPart takes the smaller operand's limbs off the larger's, limb by limb, with each limb below it in range and at most 1 borrowed from the next |
| BigIntArith.MinusResult | big_integer/big_integer.cpp:238-247 | when the larger magnitude is taken away from, no borrow leaves the top and the limbs in use are worth the difference of the magnitudes |
| BigIntArith.MinusOrder | big_integer/big_integer.cpp:235-238 | the test Abs(left) < Abs(copy) decides which magnitude is larger, and the larger never has fewer limbs |
| BigIntArith.SubtractSmaller | big_integer/big_integer.cpp:238-255 | subtracting a magnitude no larger gives a well-formed BigInt of the larger operand's sign worth the difference of the magnitudes |
| BigIntArith.MinusPart | big_integer/big_integer.cpp:234-256 | MinusPart of opposite-sign operands gives a well-formed BigInt whose magnitude is the difference of the magnitudes and whose sign is that of the larger |
| BigIntArith.AddAssign | big_integer/big_integer.cpp:208-232 | operator+= gives a well-formed BigInt worth the sum |
| BigIntArith.SubAssign | big_integer/big_integer.cpp:258-261 | operator-= gives a well-formed BigInt worth the difference |
| BigIntArith.Increment | big_integer/big_integer.cpp:346-349 | operator++ adds one |
| BigIntArith.Decrement | big_integer/big_integer.cpp:351-354 | operator-- takes one away |
| BigIntArith.MulStep | big_integer/big_integer.cpp:272-286 | one step of the schoolbook loop adds the product of two limbs at its position, keeping the low limbs in range and the carry small |
| BigIntArith.MulRow | big_integer/big_integer.cpp:271-287 | one row of the schoolbook loop adds one limb of the first operand times the whole second operand, shifted to the limb's position |
| BigIntArith.ProductFits | big_integer/big_integer.cpp:266-268 | the product of a k-limb and an n-limb number needs no more than k + n limbs |
| BigIntArith.MulAssign | big_integer/big_integer.cpp:263-303 | operator*= gives a well-formed BigInt worth the product, negative flag set exactly when the signs differ |
| BigIntArith.SignedProduct | big_integer/big_integer.cpp:289-302 | multiplying magnitudes and then choosing the sign from whether the signs differ gives the signed product |
| BigIntArith.QuotientSearch | big_integer/big_integer.cpp:379-402 | the search of operator/= finds the quotient q of the magnitudes: q times the divisor fits and q + 1 times it does not |
| BigIntArith.FromMagnitude | big_integer/big_integer.cpp:403-409 | Check leaves a well-formed BigInt of the given magnitude and sign |
| BigIntArith.DivAssign | big_integer/big_integer.cpp:374-410 | operator/= by a non-zero divisor gives the quotient rounded toward zero: its magnitude times the divisor's fits in the dividend's and one more does not |
| BigIntArith.TruncDivBounds | big_integer/big_integer.cpp:374-410 | the quotient rounded toward zero is the largest multiple of the divisor's magnitude within the dividend's |
| BigIntArith.DivBounds | big_integer/big_integer.cpp:386-402 | the quotient of non-negative numbers is the largest multiple that fits |
| BigIntArith.ModAssign | big_integer/big_integer.cpp:412-422 | operator%= gives a - (a / b)·b, smaller in magnitude than the divisor and zero or of the dividend's sign |
| BigIntArith.RemainderBounds | big_integer/big_integer.cpp:412-422 | the remainder after truncating division is below the divisor in magnitude and zero or of the dividend's sign |
| BigIntArith.RemainderOf | big_integer/big_integer.cpp:412-422 | the remainder is the magnitudes' remainder carrying the dividend's sign |
| BigIntText.Stoi | big_integer/big_integer.cpp:42 | std::stoi of a digit string gives its value, and fails exactly when the value exceeds the largest int |
| BigIntText.Padded9 | big_integer/big_integer.cpp:90-92 | a lower limb is printed as exactly nine digits worth the limb |
| BigIntText.LowerLimbs | big_integer/big_integer.cpp:89-94 | the lower limbs print as nine digits each |
| BigIntText.LowerLimbsValue | big_integer/big_integer.cpp:89-94 | the printed lower limbs, most significant first, are worth the number those limbs denote |
| BigIntText.PrintDigits | big_integer/big_integer.cpp:88-94 | the digits printed after the sign are worth the magnitude and do not start with a zero |
| BigIntText.PrintValue | big_integer/big_integer.cpp:79-96 | operator<< writes a numeral without leading zeros that denotes the number, with a minus sign exactly for negatives and "0" for zero |
| BigIntText.SignedNumeral | big_integer/big_integer.cpp:85-88 | a minus sign or none in front of digits gives a numeral worth the digits with that sign |
| BigIntText.ReadChunks | big_integer/big_integer.cpp:40-48 | the constructor's loop stops with between one and nine digits left in front of the pointer |
| BigIntText.ReadChunkStep | big_integer/big_integer.cpp:41-47 | one pass of the loop pushes the nine digits before the pointer as the next limb and keeps size at the highest non-zero limb read |
| BigIntText.ReadChunksKeeps | big_integer/big_integer.cpp:40-48 | when the loop stops, the limbs read are worth the digits right of the pointer, and size marks the highest non-zero one |
| BigIntText.LeadingGroupSplit | big_integer/big_integer.cpp:40-52 | a numeral's digits are the leading group left of where the loop stops followed by the limbs the loop read |
| BigIntText.WrittenTest | big_integer/big_integer.cpp:49 | the test on the leading group hands std::stoi the pointer characters after the sign, which for a negative numeral runs one past the leading group |
| BigIntText.ParseAsWrittenNonNegative | big_integer/big_integer.cpp:49-52 | without a minus sign the constructor as written agrees with the corrected one |
| BigIntText.ParseMag | big_integer/big_integer.cpp:31-53 | the corrected constructor builds a well-formed BigInt whose magnitude is the number the digits denote |
| BigIntText.ParseValue | big_integer/big_integer.cpp:31-53 | the corrected constructor reads a numeral into a well-formed BigInt worth the numeral's signed number |
| BigIntText.PrintParseRoundTrip | big_integer/big_integer.cpp:31-96 | constructing from the printed text of a BigInt gives a BigInt equal to it |
| BigIntText.ParseAsWrittenRejectsLongNegative | big_integer/big_integer.cpp:49 | the constructor as written throws on -999999999999999999 because the test reads ten digits, while the corrected one reads the number |
| BigIntText.ParseAsWrittenKeepsZeroLimb | big_integer/big_integer.cpp:49-52 | the constructor as written pushes a zero limb on top for -0100000000, leaving a size that counts a zero, while the corrected one reads -100000000 |
| BigIntText.ChunksOf | big_integer/big_integer.cpp:40-48 | the loop starts from the end of the text with no limbs and ends where the leading group begins |

## Left out

- Memory management is not modelled: allocators, `construct`/`destroy`, rebinding, and the `try`/`catch` cleanup paths that run when an element's constructor throws. Deleting an item and freeing a control block are counted events on a block record.
- Aliasing between handles or iterators and the objects they refer to is not modelled. Every operation returns a new value.
- The `WeakPtr` assignment operators (SharedPtr/smart_pointers.hpp:256-263, 272-290) are left out. They call the destructor as an expression and read members `WeakPtr` does not have, and the converting copy assignment even raises the strong count. There is no intended behaviour to recover from them beyond what `WeakCopy` and `WeakMove` state.
- SmartPointers.Lock: models the evident intent of `lock()`, which shares the block and raises the strong count. The source (SharedPtr/smart_pointers.hpp:294-296) passes the block and item pointers in the opposite order from the private constructor's parameters (SharedPtr/smart_pointers.hpp:77).
- SmartPointers.WeakCopy: models the evident intent of the converting copy (SharedPtr/smart_pointers.hpp:242-248), which names members `ptr_` and `cptr_` that `WeakPtr` does not declare.
- Custom deleters, the two block layouts and the item's own destructor are not modelled. Only the order and number of the delete and free events are.
- BigInts.FromInt64: gives INT64_MIN the magnitude 2^63. In the source, `llabs(INT64_MIN)` and `-INT64_MIN` at big_integer/big_integer.cpp:8-9 overflow, which is undefined behaviour.
- Limb arithmetic is on unbounded integers. The bounds in `BigIntArith.MulStep` and `BigIntArith.CarryLoop` keep every limb below 10^9 + 3, so the source's `int64_t` limbs do not overflow in the modelled cases.
- The BigInt default constructor (big_integer/big_integer.cpp:3) is not modelled, because it leaves `size_` and the sign uninitialised.
- The BigInt copy constructor, `operator=` and `Swap` (big_integer/big_integer.cpp:67-77, 98-112) are not separate members, because values are immutable here.
- The binary `+ - * / %` (big_integer/big_integer.cpp:305-333) and the postfix `++`/`--` (big_integer/big_integer.cpp:356-366) are not separate members. They copy the left operand and apply the compound operator that is modelled.
- DivisionByTwo (big_integer/big_integer.cpp:335-344) is modelled only as halving. `BigIntArith.QuotientSearch` runs the search of `operator/=` on the magnitudes with exact integer halving. The limb-level `middle`, which DivisionByTwo can leave with a zero top limb and Check trims, is not represented.
- BigIntArith.DivAssign: requires a non-zero divisor. With a zero divisor the doubling loop of the source never ends.
- BigIntText.Parse: requires a numeral, meaning an optional '-' and at least one digit. On other text, `std::stoi` throws or stops early.
- `operator>>` for BigInt (big_integer/big_integer.cpp:201-206) and `operator<<`/`operator>>` for String (String/string.cpp:172-184) are stream I/O and are not modelled.
- The String comparisons (String/string.cpp:125-146) are not modelled. They call `strcmp` on the buffers, which is a foreign call.
- The null buffer of the default String, the NUL terminator, and `Swap` (String/string.cpp:2-16) are not modelled.
- `Data`, `operator[]`, `Front`, `Back`, `Size`, `Capacity` and `Empty` (String/string.cpp:83-123) are plain reads of the sequence and have no members of their own.
- The binary `+` and `*` on String (String/string.cpp:226-235) copy and apply `+=` and `*=`, which are modelled.
- SmartPointers.WeakFromShared, SmartPointers.Expired, SmartPointers.Lock: require a non-null handle. The source reads the control block through the handle without a null check, so a null handle is undefined behaviour there and the model does not give it a meaning.
- Strings.Split: requires a non-empty delimiter and text without NUL. With an empty delimiter `strstr` matches at the same place forever, and a NUL ends the C-string search early.
- The Deque copy and move constructors, assignments, `swap` and `reserve` (Deque/deque.hpp:220-331) are not modelled. Chunk numbers are unbounded here, so the chunk table never needs to be re-centred.
- The Deque initializer-list constructor (Deque/deque.hpp:240-254) has no member of its own. It is a loop of the `push_back` that is modelled.
- `Deque(count)` with a default element (Deque/deque.hpp:186-201) is not modelled. `ChunkedDeques.Filled` covers `Deque(count, element)`.
- Reverse and const iterators of the Deque (Deque/deque.hpp:459-481) and of the List (List/list.hpp:286-310) are not modelled. They mirror the forward ones.
- `List(count)` with a default element (List/list.hpp:170-182) is not modelled. `List(count, element)` is.
- `List(List&&)` and the List assignments (List/list.hpp:233-260) are not modelled: the move constructor binds a temporary to a non-const reference and would not compile.
- The List iterator `operator=` (List/list.hpp:101-103) has no return statement and is not modelled.
- The BST copy walk (BinarySearchTree/BST.cpp:129-152) and the subtree getters are not modelled.
- Geometry uses unbounded integers. The source's `int64_t` products can overflow on large coordinates.
- `Clone` on the Geometry shapes is a heap copy and is not modelled.
- Matrix entries are integers, whereas the source is generic over T. Overflow is not modelled.
- `Decks.NewDeck` takes the shuffled order as a parameter, a permutation of the ordered deck, because `random.shuffle` (deck.py:19, 22) is randomness.
- Cards.StrCast: reads the value with an `int()` that accepts an optional sign and decimal digits. Python's `int()` also accepts surrounding whitespace and underscores between digits; those forms are not modelled.
- The JSON serialisation (board.py:39-40, DurakOnline/player.py:30-31) is a library call and is not modelled.
- game.py, main.py and client.py are not modelled. They are the game loop over asyncio, the web routes and the HTTP client.

## Findings

| source | as written | input that shows it | evidently intended | confidence | as-written member | corrected member |
|---|---|---|---|---|---|---|
| big_integer/big_integer.cpp:148-153 | `operator<` compares limb counts before it looks at the signs of two negatives, so the negative with more limbs comes out larger; `operator>` and `operator<=` (lines 189-193), built on it, inherit the reversal | -1 < -1000000000 is true; -1 > -1000000000 is false | between negatives, more limbs means smaller | not executed | BigInts.LessAsWritten, BigInts.LessAsWrittenMinusOne, BigInts.LessAsWrittenReversesNegatives, BigInts.GreaterAsWritten, BigInts.LessEqAsWritten, BigInts.AsWrittenOrder | BigInts.Less, BigInts.LessIffValue, BigInts.Greater, BigInts.LessEq, BigInts.OrderIffValue |
| big_integer/big_integer.cpp:195-197 | `operator>=` is `!(a > b \|\| a == b)`, which is the source's strict `operator<` | 2 >= 1 is false; x >= x is false | `!(a < b)` | not executed | BigInts.GreaterEqAsWritten, BigInts.GreaterEqAsWrittenIsLess, BigInts.AsWrittenExamples | BigInts.GreaterEq, BigInts.OrderIffValue |
| big_integer/big_integer.cpp:49 | the test on the leading digits takes `substr(minus, pointer)`, that is `pointer` characters, where line 50 takes `pointer - minus`; for a negative numeral it reads one digit too many | "-999999999999999999": std::stoi gets 9999999999 and throws; "-0100000000": the test reads "01", pushes a zero limb and counts it in `size_` | `substr(minus, pointer - minus)` | not executed | BigIntText.ParseAsWritten, BigIntText.ParseAsWrittenRejectsLongNegative, BigIntText.ParseAsWrittenKeepsZeroLimb | BigIntText.Parse, BigIntText.ParseValue, BigIntText.PrintParseRoundTrip |
| SharedPtr/smart_pointers.hpp:265-270 | the converting `WeakPtr` move copies the pointers without counting, then a temporary swapped with the source releases one weak count | MakeShared, one WeakPtr from it, move that WeakPtr, destroy the SharedPtr: the block is freed under the live weak handle | the moved handle takes over the source's weak count unchanged | not executed | SmartPointers.WeakMoveAsWritten, SmartPointers.WeakMoveAsWrittenFreesEarly | SmartPointers.WeakMove, SmartPointers.WeakMoveKeepsBlock, SmartPointers.WeakMoveKeepsInv |
| SharedPtr/smart_pointers.hpp:223-248 | `WeakPtr` declares only a template converting copy, which is never a copy constructor, so copying a `WeakPtr<T>` runs the implicit member-wise copy and counts nothing | MakeShared, one WeakPtr, copy it, destroy the SharedPtr and one WeakPtr: the block is freed under the other, whose destructor then wraps the weak count to SIZE_MAX | every copy raises the weak count by one | not executed | SmartPointers.WeakCopyImplicit, SmartPointers.WeakCopyImplicitUnderCounts | SmartPointers.WeakCopy, SmartPointers.WeakCopyKeepsInv |
| board.py:15-17 | AttackCard checks the limit and the defence values or an empty attack, but not the first attack card's value that CanAttack accepts | a second card of the first attack card's value, with no defence cards yet, is refused | play the card exactly when CanAttack allows it | not executed | Boards.AttackCardAsWritten, Boards.AttackCardAsWrittenRefusesMatchingValue | Boards.AttackCard |
| LowerBound/bin_search.hpp:13-17 | the else branch moves `first` onto elements equal to the value, so with repeated keys the result can be past the first of them | [1, 1] and value 1 give index 1 | the first position whose element is not below the value | not executed | LowerBound.LowerBound, LowerBound.RepeatedKeySkipsFirst | LowerBound.LowerBoundFirst |
| BinarySearchTree/BST.cpp:110-118 | removing a one-child node below the root assigns the child to a copy of the parent's pointer, so the parent is not relinked, while the child's parent pointer is moved to the parent | insert 1, 2, 3, then remove 2: 2 is still in the tree; removing 3 next drops 2 with it; insert 10, 5, 7, 20, remove 5, remove 7: 20 goes and 7 stays; insert 1, 2, 3, remove 2, 1, 3: null is dereferenced | hang the child on the parent in the node's place | not executed | SearchTrees.RemoveAsWritten, SearchTrees.RemoveAsWrittenKeepsOneChildNode, SearchTrees.RemoveLinked, SearchTrees.RemoveLinkedCompounds | SearchTrees.Remove, SearchTrees.RemoveTakesOne |
| Deque/deque.hpp:429-442 | when pop_front empties the deque from offset 15 it moves the start to the next chunk, which need not be allocated | push_back, push_front, push_front, pop_back, pop_back, pop_front, push_front, pop_front: the deque is empty with its start in chunk 1, which pop_back freed, and the next push_back writes there | leave the start in an allocated chunk when the deque becomes empty | not executed | ChunkedDeques.PopFrontAsWritten, ChunkedDeques.PopFrontAsWrittenLeavesDanglingStart | ChunkedDeques.PopFront, ChunkedDeques.PopFrontRemovesFirst |
