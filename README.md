# Linked list and rock-paper-scissors, modelled in Dafny

This project models two small C++ teaching programs.

- `LinkedList<T>` (`linked-list/linked_list.h`) is a generic singly-linked list. It keeps `head`, `tail` and a cached `list_size`, and its nodes carry only a `next` link. The header's comment calls it doubly linked; the code is singly linked, and the model follows the code. The model is the class `LinkedLists.LinkedList` in `linked_list.dfy`. It works over heap `Node` objects and keeps three ghost fields: `Contents` (the elements, front to back), `Nodes` (the chain of nodes) and `Repr` (the objects the list owns). `Valid()` is the representation invariant:
  - `listSize` equals the number of nodes in the chain reached from `head`;
  - `head`, `tail` and `listSize` are null, null and 0 together;
  - `tail` is the last node of the chain;
  - the chain is acyclic (its nodes are pairwise distinct and the last one's `next` is null);
  - the list owns exactly its nodes.

  Every operation except `RemoveAsWritten` (the original `remove`, see Findings) is a method that keeps `Valid()` and states the new `Contents` as a function of the old. Those functions live in `list_spec.dfy` (module `ListSpec`), with lemmas about them. The `domain_error` of `front`, `back`, `pop_front` and `pop_back` on an empty list, and the `out_of_range` of `operator[]`, come back as `Err(..)` / `Fail(..)` values. On those paths the list is left unchanged.
- `check_conditions`, the score step of the game loop and the loop itself over a sequence of round results (`assignments/AS01/rps.cpp`) are modelled as pure functions and lemmas in `rps.dfy` (module `RockPaperScissors`).

Integer widths: `list_size` and indices (`std::size_t`) are modelled as `nat`, and the game's scores as `int`, without wrap-around. The unsigned index of `remove_all` and the scores of a game that never ends do reach those limits; "## Left out" says how each is treated. C++ `int` division truncates toward zero, and `CDiv` models that for `num_games / 2`.

## Model

| member | source | states |
|---|---|---|
| `LinkedLists.Node.constructor` | linked-list/linked_list.h:246-250 | a new node holds the value and has no successor |
| `LinkedLists.LinkedList.constructor` | linked-list/linked_list.h:19 | the default constructor gives a valid, empty list that owns only fresh objects |
| `LinkedLists.LinkedList.FromSeq` | linked-list/linked_list.h:22-25 | the initializer-list constructor gives a valid list whose contents are the given values in order |
| `LinkedLists.LinkedList.Copy` | linked-list/linked_list.h:28-31 | the copy constructor gives a valid list with the same contents, made only of fresh nodes, so it shares no node with the original |
| `LinkedLists.LinkedList.Front` | linked-list/linked_list.h:44-48 | `front` fails with `DomainError` exactly when the list is empty; otherwise it returns the first element |
| `LinkedLists.LinkedList.Back` | linked-list/linked_list.h:51-55 | `back` fails with `DomainError` exactly when the list is empty; otherwise it returns the last element |
| `LinkedLists.LinkedList.Size` | linked-list/linked_list.h:58 | `size` is the number of elements |
| `LinkedLists.LinkedList.Empty` | linked-list/linked_list.h:61 | `empty` (a test on `head`) holds exactly when there are no elements |
| `LinkedLists.LinkedList.PushFront` | linked-list/linked_list.h:65-74 | contents become `[v] + old`, and the invariant holds again (on an empty list head and tail become the same new node); only a fresh node is added |
| `LinkedLists.LinkedList.PushBack` | linked-list/linked_list.h:78-87 | contents become `old + [v]`, and the invariant holds again, so `tail` is the new node; only a fresh node is added |
| `LinkedLists.LinkedList.PopFront` | linked-list/linked_list.h:91-100 | fails with `DomainError` on an empty list and changes nothing; otherwise drops the first element, and `tail` becomes null when the list becomes empty |
| `LinkedLists.LinkedList.PopBack` | linked-list/linked_list.h:104-120 | fails with `DomainError` on an empty list; otherwise drops the last element, with `tail` moved to the new last node, or both ends null for a one-element list |
| `LinkedLists.LinkedList.Resize` | linked-list/linked_list.h:133-140 | contents become `Resized(old, n, fill)`: length `n`, the first `min(n, old size)` elements kept, padded with `fill` |
| `LinkedLists.ResizeZero` | linked-list/linked_list.h:123-130 | the one-argument `resize`, for integer elements, is `resize(n, 0)` |
| `ListSpec.Resized` | linked-list/linked_list.h:133-140 | the resized sequence has length `n`, agrees with the old one on the common prefix and holds `fill` beyond the old length |
| `LinkedLists.LinkedList.Clear` | linked-list/linked_list.h:143-146 | popping from the front until `head` is null leaves a valid empty list that owns no node |
| `LinkedLists.LinkedList.Remove` | linked-list/linked_list.h:149-165 | contents become `WithoutFirst(old, t)`; the invariant, `tail` included, holds again (corrected: see Findings) |
| `LinkedLists.LinkedList.RemoveAsWritten` | linked-list/linked_list.h:149-165 | the original `remove`: contents become `WithoutFirst(old, t)` and the chain stays well formed, but the invariant holds again exactly when the removed element was not the last one; in that case `tail` still refers to the unlinked node |
| `LinkedLists.LinkedList.FindBeforeMatch` | linked-list/linked_list.h:156-158 | the search loop of `remove` stops at the predecessor of the first match, or at the last node when nothing after the head matches |
| `LinkedLists.LinkedList.UnlinkAfter` | linked-list/linked_list.h:159-164 | unlinking the successor of the `k`-th node removes exactly element `k + 1`, keeps the chain well formed and does not touch `tail` |
| `LinkedLists.RemoveTailCounterexample` | linked-list/linked_list.h:159-164 | on `[1, 2]`, the original `remove(2)` leaves contents `[1]` with `tail` on the unlinked node holding 2, and the invariant broken |
| `LinkedLists.RemoveAllTailCounterexample` | linked-list/linked_list.h:168-175 | on `[1, 2]`, the original `remove_all(2)` passes index 0, removes at index 1 through the original `remove`, and stops with index 1 equal to the new size: contents `[1]`, `tail` on the unlinked node holding 2, the invariant broken |
| `ListSpec.WithoutFirstAt` | linked-list/linked_list.h:149-165 | when the first occurrence of `t` is at index `k`, `remove` cuts out exactly element `k` |
| `ListSpec.WithoutFirstAbsent` | linked-list/linked_list.h:157-159 | when no element equals `t`, `remove` changes nothing |
| `ListSpec.WithoutFirstMultiset` | linked-list/linked_list.h:149-165 | `remove` takes away one copy of `t` and nothing else; size drops by one only on a hit |
| `LinkedLists.LinkedList.RemoveAll` | linked-list/linked_list.h:168-175 | (corrected: see Findings, it calls the corrected `Remove`) contents become `Without(old, t)`: every element equal to `t` removed, survivors in their original order |
| `ListSpec.WithoutDropHit` | linked-list/linked_list.h:170-173 | removing one matching element at the scan index does not change what `remove_all` leaves, so the rescan of the same index is sound |
| `ListSpec.WithoutAppend` | linked-list/linked_list.h:168-175 | filtering distributes over concatenation |
| `ListSpec.WithoutMultiset` | linked-list/linked_list.h:168-175 | after `remove_all(t)` no `t` survives and every other value keeps its number of occurrences |
| `ListSpec.WithoutIdentity` | linked-list/linked_list.h:168-175 | `remove_all(t)` leaves the contents unchanged exactly when `t` does not occur |
| `LinkedLists.LinkedList.Reverse` | linked-list/linked_list.h:178-181 | contents become `Reversed(old)`, with the same nodes |
| `LinkedLists.LinkedList.SwapAt` | linked-list/linked_list.h:180 | the swap through two indexed references exchanges exactly those two elements |
| `ListSpec.ReversedAt` | linked-list/linked_list.h:178-181 | element `k` of the reversal is element `size - 1 - k` of the original |
| `ListSpec.ReversedTwice` | linked-list/linked_list.h:178-181 | reversing twice gives back the original sequence |
| `LinkedLists.ReverseTwice` | linked-list/linked_list.h:178-181 | calling `reverse` twice on a list restores its contents |
| `LinkedLists.LinkedList.Contains` | linked-list/linked_list.h:184-189 | `contains(t)` holds exactly when `t` is among the contents |
| `LinkedLists.LinkedList.AssignSeq` | linked-list/linked_list.h:192-197 | assigning an initializer list makes the contents exactly those values, in fresh nodes |
| `LinkedLists.LinkedList.Assign` | linked-list/linked_list.h:200-208 | assigning another (distinct) list makes the contents equal to the other's, in fresh nodes, and leaves the other list untouched |
| `LinkedLists.CopyIsIndependent` | linked-list/linked_list.h:28-31 | appending to a copy leaves the original's contents and invariant as they were |
| `LinkedLists.PushFrontPopFront` | linked-list/linked_list.h:65-100 | `push_front` followed by `pop_front` restores the contents |
| `LinkedLists.LinkedList.Equals` | linked-list/linked_list.h:211-218 | `==` holds exactly when the two contents sequences are equal (same size, same elements in order) |
| `LinkedLists.LinkedList.NotEquals` | linked-list/linked_list.h:221 | `!=` holds exactly when the contents differ |
| `LinkedLists.LinkedList.At` | linked-list/linked_list.h:224-231 | `operator[](i)` fails with `OutOfRange` exactly when `i >= size()`; otherwise it returns element `i` |
| `LinkedLists.LinkedList.Set` | linked-list/linked_list.h:224-231 | a write through `operator[](i)` fails with `OutOfRange` exactly when `i >= size()`; otherwise it replaces element `i` and nothing else |
| `RockPaperScissors.CheckConditions` | assignments/AS01/rps.cpp:6-14 | the result is in {-1, 0, 1}; it is 0 exactly when the strings are equal, and 1 exactly for (rock, scissors), (paper, rock) and (scissors, paper) |
| `RockPaperScissors.CheckConditionsAgreesWithJudge` | assignments/AS01/rps.cpp:9-13 | on the three move names the rule agrees with the cyclic rule: each move beats the one before it on rock, paper, scissors |
| `RockPaperScissors.CheckConditionsAntisymmetric` | assignments/AS01/rps.cpp:6-14 | for two moves, swapping the arguments negates the result |
| `RockPaperScissors.UnrecognisedPlayerLoses` | assignments/AS01/rps.cpp:13 | a player string that is not a move ties with an equal string and otherwise gives -1 |
| `RockPaperScissors.CDiv` | assignments/AS01/rps.cpp:47 | C++ integer division truncates toward zero: for `a >= 0`, `0 <= q * b <= a < q * b + b`; for `a < 0`, `q * b - b < a <= q * b <= 0` |
| `RockPaperScissors.Threshold` | assignments/AS01/rps.cpp:47-50 | `num_games / 2 + 1` is, for `num_games >= 0`, the smallest strict majority of `num_games` rounds, and it is at least 1 exactly when `num_games >= -1` |
| `RockPaperScissors.Round` | assignments/AS01/rps.cpp:36-53 | winner 1 increments only the player's score, winner -1 only the computer's, any other code neither; the game stops with the player announced when the player's score equals the target, checked first, else with the computer announced when the computer's score does |
| `RockPaperScissors.Play` | assignments/AS01/rps.cpp:27-54 | starting from 0 : 0, the scores stay non-negative, add up to at most the number of decisive rounds, and to exactly that number while the loop goes on |
| `RockPaperScissors.PlayReachable` | assignments/AS01/rps.cpp:30-54 | with a target of at least 1 (for the source, `num_games >= -1`), in every state the loop reaches, the scores stay within the target; while playing both are below it, and a stopped game's announced winner is at the target with the other below |
| `RockPaperScissors.PlayEnds` | assignments/AS01/rps.cpp:30-54 | with a target `t >= 1`, the loop has stopped once `2 * t - 1` decisive rounds have been played |
| `RockPaperScissors.NegativeBestOfAnnouncesLoser` | assignments/AS01/rps.cpp:47-53 | for `num_games` -2 or -3, a first round the player wins ends the game 1 : 0 with the computer announced, and one the computer wins ends it 0 : 1 with the player announced |
| `RockPaperScissors.NegativeBestOfNeverEnds` | assignments/AS01/rps.cpp:30-54 | for `num_games <= -4`, the loop is still playing after any sequence of rounds |
| `RockPaperScissors.Target` | assignments/AS01/rps.cpp:47-50 | the corrected target is at least 1 for every best-of count and equals `num_games / 2 + 1` whenever `num_games >= -1` |
| `RockPaperScissors.TargetGameEnds` | assignments/AS01/rps.cpp:30-54 | with the corrected target, for every best-of count, the loop has stopped after `2 * Target - 1` decisive rounds, and the announced winner is the one at the target |

## Left out

- The destructor and the `delete` calls in `pop_front`, `pop_back` and `remove`: Dafny is garbage collected. Freeing a node is modelled as dropping it from the chain and from `Repr`.
- `operator<<` (stream output): it is I/O and needs a string conversion for `T`.
- References returned by `front`, `back` and `operator[]`, and `std::swap` through them: reads are modelled as `Front`, `Back` and `At`, writes as `Set`, and the swap as `SwapAt`. Aliasing through a reference kept across a mutation is not modelled.
- Self-assignment `a = a` through `operator=(const LinkedList&)`: the original reads nodes that `clear()` has already freed. `Assign` therefore requires the source list to be a different object.
- The one-argument `resize(n)` pads with `T(0)`, so it is modelled only for `int` elements, as `ResizeZero`.
- Exception objects: only which error is raised (`DomainError` or `OutOfRange`) is modelled, as a returned value.
- `remove_all` decrements an unsigned `size_t` index after a match, which wraps at 0 and then wraps back. The model keeps the index instead, which has the same effect.
- In `rps.cpp`, `main`'s console input and output, `srand(time(0))` and `rand() % 3`: the moves are not modelled, and the loop is modelled as `Play`, a fold of `Round` over a sequence of round results, the codes `check_conditions` returned.
- `Play`: for `num_games <= -4` the source's loop never ends, and `player_score++` or `cpu_score++` can then pass the largest `int`, which is undefined behaviour in C++. The model's scores are unbounded `int`s, so that overflow is not modelled; `NegativeBestOfNeverEnds` shows the loop does not stop.

## Findings

| source | as written | input that shows it | evidently intended | confidence | as-written member | corrected member |
|---|---|---|---|---|---|---|
| linked-list/linked_list.h:159-164 | when the first match is not at the head, `remove` unlinks the matching node but never updates `tail` | `[1, 2]`, `remove(2)`: contents become `[1]` while `tail` still refers to the freed node holding 2; a later `back()` or `push_back` dereferences the deleted node, which is undefined behaviour; in particular `push_back` would link the new node to the freed one, where it is not reachable from `head`. `remove_all` inherits this through its calls to `remove`: on `[1, 2]`, `remove_all(2)` ends in the same state (`RemoveAllTailCounterexample`). | `tail` moves to the predecessor when the unlinked node was the last one | high; not executed | `LinkedLists.LinkedList.RemoveAsWritten`, `LinkedLists.RemoveAllTailCounterexample` | `LinkedLists.LinkedList.Remove`, `LinkedLists.LinkedList.RemoveAll` |
| assignments/AS01/rps.cpp:47-53 | the target `num_games / 2 + 1` is compared with `==` and `num_games` is never checked; C++ gives `-1 / 2 == 0`, so the target is 0 for `num_games` -2 and -3 and negative below that | `num_games = -2`: the player wins round 1, the player's score 1 is not the target 0 but the computer's 0 is, so "cpu wins! GG" is printed at 1 : 0; `num_games = -4`: the target is -1, no score ever equals it, and the loop never stops | every best-of count ends the game, with the player who reached the target announced; a count below -1 plays like 0 and -1 already do, first to one point | medium; not executed | `RockPaperScissors.NegativeBestOfAnnouncesLoser`, `RockPaperScissors.NegativeBestOfNeverEnds` | `RockPaperScissors.Target` |
