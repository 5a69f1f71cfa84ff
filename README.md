# pstree: process-tree core in Dafny

This project models the core of the small `pstree` utility in
`pstree/pstree.c`. The utility takes the flat list of processes read from
`/proc` and does four things in order:

1. It finds the root, which is the first record whose parent pid is 0 (`find_init`).
2. It links every record to its children (`set_children`).
3. It sorts every child list, by name or by pid (`sort`, `sort_by_name`, `sort_by_pid`).
4. It prints an indented tree, with optional `(pid)` suffixes (`print_pstree`, `print_pstree_helper`).

The model keeps the C program's shape:

- **Records** (`struct Process`) are the datatype `Pstree.Process`. It holds a name, a pid, a parent pid and a child list. The child list is a sequence of positions in the record list, so each `ChildNode` becomes the index of the record its `val` points at. A child link therefore refers to the record itself and not to a copy, as in the C program.
- **Names are C strings.** The `name` field is a NUL-terminated `char` array, so a name never holds a NUL byte (`CNames`). The record list requires this when it is built and keeps it as part of its invariant. Printing a name therefore writes exactly what `printf("%s")` writes.
- **The record list** (the `ListNode` chain) is the class `Pstree.ProcessList`. Its methods mirror the C functions:
  - `FindInit` mirrors `find_init`.
  - `SetChildren` mirrors `set_children`. It is the same double loop, with the same prepend-on-match step.
  - `Sort` mirrors `sort`. It copies each child list into an `array<nat>` and runs the C exchange sort on it (`SortByName` / `SortByPid`), swapping entries in place.
  - `SortByName` and `SortByPid` are proved to leave exactly `ExchangeSort` of their input. `ExchangeSort` is the same double loop written as recursive functions (`PassUpTo` for the inner loop, `SortUpTo` for the outer one).
- **Functions the methods are proved against**:
  - `Linked` is what linking produces.
  - `SortChildren` is what sorting produces: every child list run through `ExchangeSort`.
  - `Sorted` / `SortedForest` state what that result promises: each child list is a permutation of the old one, in order.
  - The methods are proved against these functions, and the functions' properties are proved as lemmas.
- **`strcmp`** is modelled byte by byte in `CString`. It subtracts unsigned bytes at the first difference, and the end of a string reads as NUL. The lemmas prove that it orders any two names one way or the other, transitively. On NUL-free names (`CNames`) they also prove that it is lexicographic and returns 0 exactly on equal strings; `strcmp("a\0b", "a")` is 0, so that part needs the condition.
- **`printf("%d")`** is modelled in `Printf` as `FormatInt`, with a reader proving the round trip.
- **The printer** is the recursive string functions `PrintPstree`, `PrintHelper` and `PrintChildren` in `Render`. Standard output becomes the returned string.
  - Each line is four characters `"|   "` per level of depth, then `"+-- "` below the root, then the name, an optional `(pid)` and a newline.
  - The recursion is proved to write one line per entry of a pre-order walk (`Walk`). With distinct pids, that walk visits every record reachable from the root exactly once (`Reach`). The output has one newline per walk entry when no name holds a line break.
- **Termination.** The C recursion has no guard against a cycle in the parent relation. The model needs a ghost `rank` map that strictly decreases from parent to child (`Graded`). `Pipeline` shows where such a rank comes from: an acyclic parent relation before linking. It also shows that a self-parented record can never be graded.
- **`Pipeline.PrintProcessTree`** is `main` from `find_init` to the print: either the "no init" error (`None`), or the text printed for the first root.
- **`Scenarios`** proves the exact output for three small process tables, the choice of root, and a four-record table on which the exchange sort reorders two equal names.

## Model

| member | source | states |
|---|---|---|
| Pstree.ProcessList.constructor | pstree/pstree.c:70-80 | the list holds the records as read, in order, each with an empty child list and a NUL-free name |
| Pstree.ProcessList.FindInit | pstree/pstree.c:166-175 | None exactly when no record has parent pid 0; otherwise the index of a record with parent pid 0 that no earlier record matches; the list is unchanged |
| Pstree.ProcessList.SetChildren | pstree/pstree.c:95-116 | the new list is `Linked` of the old one and every link is a valid position |
| Pstree.ScanChildren | pstree/pstree.c:99-113 | the positions j below k with `ppid_j == pid`, each prepended as the scan meets it, so the latest match comes first; every entry is below k |
| Pstree.LinkedRecord | pstree/pstree.c:100-112 | record i once the inner loop has scanned the first j records: those matches prepended to its child list; name, pid and parent pid unchanged |
| Pstree.LinkedUpTo | pstree/pstree.c:97-115 | the list once the outer loop has linked its first i records; the others are untouched; same length |
| Pstree.Linked | pstree/pstree.c:95-116 | the list `set_children` leaves: every record's matches prepended to its child list, with every name, pid and parent pid unchanged |
| Pstree.LinkedRecordStep | pstree/pstree.c:100-112 | one inner step prepends j to record i's children exactly when `ppid_j == pid_i`, and changes nothing else |
| Pstree.ScanChildrenCount | pstree/pstree.c:99-113 | after scanning the first k records, j is in the child list once if j < k and `ppid_j == pid`, and otherwise not at all; i itself is not excluded |
| Pstree.ScanChildrenDescending | pstree/pstree.c:108-110 | because matches are prepended, the child list holds strictly decreasing positions (reverse scan order) |
| Pstree.LinkedExact | pstree/pstree.c:97-115 | linking keeps every name, pid and parent pid; record i's children are exactly the records with `ppid == pid_i` (membership iff, multiplicity one), in descending order |
| Pstree.LinkedInRange | pstree/pstree.c:108-110 | links stay valid positions and the records are otherwise unchanged |
| Pstree.SelfParentIsOwnChild | pstree/pstree.c:101 | a record with `pid == ppid` is linked as its own child, because the test does not exclude i == j |
| Pstree.LinkedUniqueParent | pstree/pstree.c:95-116 | with distinct pids, a record stands at most at one place in all the child lists together |
| Pstree.Exchanges | pstree/pstree.c:140 | the swap test, `strcmp(name_x, name_y) > 0`, or under `-n` `pid_x > pid_y` (line 155); it holds only for two different records with different keys, so equal keys are never swapped |
| Pstree.Swap | pstree/pstree.c:141-143 | the exchange of the entries at i and j through `temp`; same length (that it permutes the list is Pstree.SwapPermutes) |
| Pstree.ExchangeAt | pstree/pstree.c:139-145 | one inner step: the entries at i and j exchanged when the test holds, otherwise the list unchanged; same length |
| Pstree.PassUpTo | pstree/pstree.c:139-146 | the list once the inner loop, with the outer cursor at i, has run up to j; same length |
| Pstree.SortUpTo | pstree/pstree.c:137-148 | the list once the outer loop has run i rounds; same length |
| Pstree.ExchangeSort | pstree/pstree.c:135-164 | the list `sort_by_name` or `sort_by_pid` leaves: all rounds of the outer loop; same length (its order and permutation are Pstree.ExchangeSortSorts) |
| Pstree.ExchangesOrders | pstree/pstree.c:140-143 | the swap test is false exactly when the pair is already in order, and after a swap the pair is in order (by `strcmp` of names, or by pid at 155-158) |
| Pstree.SwapPermutes | pstree/pstree.c:141-143 | exchanging two `val` pointers permutes the child list |
| Pstree.ExchangeStep | pstree/pstree.c:139-145 | one inner step keeps the loop invariant: the prefix is sorted and at most every later element, and position i holds the least of i..j |
| Pstree.ExchangeAdvance | pstree/pstree.c:137-147 | when the inner loop ends, position i holds the least remaining element, so the sorted prefix grows by one |
| Pstree.SettledSorted | pstree/pstree.c:137-148 | a fully settled list is sorted and all its positions are valid |
| Pstree.PassPermutes | pstree/pstree.c:139-146 | the inner loop only exchanges entries: its result is a permutation of its input |
| Pstree.SortPermutes | pstree/pstree.c:137-148 | the outer loop, after any number of rounds, leaves a permutation of its input |
| Pstree.PassSettles | pstree/pstree.c:139-146 | from a settled state, the inner loop up to any j keeps the exchange invariant: position i holds the least entry of i..j−1 |
| Pstree.PassAdvances | pstree/pstree.c:137-148 | one full round of the outer loop settles one more position |
| Pstree.SortSettles | pstree/pstree.c:137-148 | after i rounds, the first i positions are sorted and each is at most every later entry |
| Pstree.ExchangeSortSorts | pstree/pstree.c:135-164 | the exchange sort returns a permutation of its input, ordered by `strcmp` on the names or, under `-n`, by ascending pid, with every link valid |
| Pstree.NoExchangeSortUpTo | pstree/pstree.c:140-143 | when no pair passes the swap test, the sort leaves the list exactly as it was |
| Pstree.EqualNamesKeepOrder | pstree/pstree.c:140-143 | a child list of exactly two siblings with equal names keeps the order `set_children` gave it, because `strcmp` is 0 and the test is strict |
| Pstree.SortSameRecords | pstree/pstree.c:120-133 | the sort looks only at names and pids, so it gives the same list on records that differ only in their child lists |
| Pstree.SortByName | pstree/pstree.c:135-149 | the array ends as exactly `ExchangeSort` of its old contents with the name key |
| Pstree.SortByPid | pstree/pstree.c:150-164 | the array ends as exactly `ExchangeSort` of its old contents with the pid key |
| Pstree.SortChildren | pstree/pstree.c:120-133 | the list `sort` leaves: every record's child list run through the exchange sort on its own, with names, pids and parent pids unchanged |
| Pstree.SortChildrenSorted | pstree/pstree.c:120-133 | in the list `sort` leaves, every child list is a sorted permutation of the old one and every link stays valid; names, pids and parent pids are unchanged |
| Pstree.ProcessList.Sort | pstree/pstree.c:120-133 | the new list is exactly `SortChildren` of the old one: every child list run through the exchange sort on its own, with the key the flag selects; hence every child list is a sorted permutation of itself |
| CString.ByteAt | pstree/pstree.c:140 | the byte `strcmp` reads at an offset: never negative, and 0 exactly at a NUL or past the end |
| CString.StrCmp | pstree/pstree.c:140 | `strcmp`: the difference of the first differing bytes, or 0 once both strings end together; equal strings give 0 |
| CString.StrCmpAntisymmetric | pstree/pstree.c:140 | `strcmp(b, a) == -strcmp(a, b)` |
| CString.StrCmpTotal | pstree/pstree.c:140 | any two names are ordered one way or the other |
| CString.StrCmpTransitive | pstree/pstree.c:140 | the order `strcmp(a, b) <= 0` is transitive |
| CString.StrCmpIsLexicographic | pstree/pstree.c:140 | on NUL-free names, `strcmp(a, b) <= 0` exactly when a is a prefix of b or is smaller at the first difference |
| CString.LexLeCons | pstree/pstree.c:140 | the lexicographic order ignores a common first byte |
| CString.StrCmpZeroIffEqual | pstree/pstree.c:140 | on NUL-free names, `strcmp` is 0 exactly when the names are equal |
| Printf.NatDigits | pstree/pstree.c:186 | the decimal digits of a natural number, most significant first; never empty and starting with a digit |
| Printf.FormatInt | pstree/pstree.c:186 | the `%d` text of a pid: never empty, and starting with `-` exactly when the pid is negative |
| Printf.NatDigitsShape | pstree/pstree.c:186 | a natural number prints as a non-empty run of digits with no leading zero, except for 0 itself |
| Printf.NatDigitsRoundTrip | pstree/pstree.c:186 | reading back the digits gives the number |
| Printf.FormatIntRoundTrip | pstree/pstree.c:186 | reading back the `%d` text gives the pid, negative ones included |
| Printf.FormatIntIsNumeric | pstree/pstree.c:200 | the `%d` text is non-empty, all digits, with a leading `-` exactly for negatives |
| Render.Indent | pstree/pstree.c:178-180 | the `"|   "` printed once per level: 4·depth characters |
| Render.Branch | pstree/pstree.c:181-183 | the `"+-- "` printed only below the root: 4 characters when depth > 0, none at the root |
| Render.PidSuffix | pstree/pstree.c:185-187 | the `(%d)` suffix: empty exactly without `-p`, otherwise wrapped in parentheses |
| Render.Label | pstree/pstree.c:184-187 | the name and, under `-p`, the `(pid)`: starts with the name, and is longer than it exactly under `-p` (also the root's label, lines 198-201) |
| Render.Tail | pstree/pstree.c:181-188 | what follows the indent: starts with the branch marker, holds more than it, and ends in the newline |
| Render.Line | pstree/pstree.c:178-188 | the line `print_pstree_helper` prints for one record: the indent first, longer than the indent, ending in a newline |
| Render.PrintHelper | pstree/pstree.c:176-194 | what `print_pstree_helper` prints: the record's own line first, then its children's subtrees |
| Render.PrintChildren | pstree/pstree.c:189-193 | what the child loop prints from child k on: empty exactly when no child is left |
| Render.PrintPstree | pstree/pstree.c:196-208 | what `print_pstree` prints: the root's name, optional `(pid)` and newline first, with no indent and no branch |
| Render.Walk | pstree/pstree.c:189-193 | the pre-order walk starts at the node at its own depth; every later entry is strictly deeper and of lower rank |
| Render.WalkChildren | pstree/pstree.c:189-193 | the walk entries the child loop visits from child k on: every one is strictly lower in rank than the parent and at least at the children's depth |
| Render.PrintHelperWritesWalk | pstree/pstree.c:176-194 | `print_pstree_helper` writes the lines of the walk from the node, in order |
| Render.PrintChildrenWritesWalk | pstree/pstree.c:189-193 | the child loop from position k writes the lines of the walks of children k onward, in order |
| Render.PrintPstreeWritesWalk | pstree/pstree.c:196-208 | `print_pstree` writes the walk from the root at depth 0, which is `print_pstree_helper` at depth 0 |
| Render.TopLine | pstree/pstree.c:198-202 | the root line is the name, the optional `(pid)` and a newline, with no indent and no branch |
| Render.IndentLayout | pstree/pstree.c:178-180 | the indent is 4·depth characters made of depth copies of `"|   "` |
| Render.TailShape | pstree/pstree.c:181-188 | after the indent, the text starts with `"+-- "` exactly below the root, and never with `|` |
| Render.LineDepth | pstree/pstree.c:178-188 | for a name with no line break that does not begin with `|` or `+`, the number of leading bars of a line is its depth, then comes the branch marker exactly when depth > 0, then the name, the optional `(pid)` and the newline |
| Render.LineLabel | pstree/pstree.c:178-188 | after the indent and the branch marker, a line holds exactly the name, the optional `(pid)` and the newline |
| Render.LineHasOneNewline | pstree/pstree.c:184-188 | a line with a newline-free name ends in its only newline |
| Render.LinesCount | pstree/pstree.c:176-194 | the text of n walk entries, whose names hold no line break, holds n newlines |
| Render.PrintPstreeLineCount | pstree/pstree.c:196-208 | when no name holds a line break, the printed text has one line per walk entry |
| Reach.WalkEntryPath | pstree/pstree.c:189-193 | every walk entry at depth d lies on a child path of length d − depth + 1 from the start |
| Reach.PathInWalk | pstree/pstree.c:189-193 | every child path from the start appears in the walk at the depth of its length |
| Reach.WalkVisitsReachable | pstree/pstree.c:189-193 | the walk from the root visits a record exactly when it is reachable by child links, at the depth of a path to it |
| Reach.SiblingWalksDisjoint | pstree/pstree.c:189-193 | with unique parents, the subtrees of two different siblings share no record |
| Reach.WalkNoRepeats | pstree/pstree.c:176-194 | with unique parents, no record is printed twice |
| Reach.EachReachableOnce | pstree/pstree.c:196-208 | with unique parents, the walk lists every reachable record exactly once and nothing else; when no name holds a line break, the output has one line per reachable record |
| Pipeline.LinkedGraded | pstree/pstree.c:95-116 | an acyclic parent relation gives an acyclic child relation after linking |
| Pipeline.SortedGraded | pstree/pstree.c:120-133 | sorting keeps the child relation acyclic |
| Pipeline.SortedSameReachable | pstree/pstree.c:120-133 | sorting leaves the set of records reachable from any record unchanged |
| Pipeline.SortedUniqueParents | pstree/pstree.c:95-133 | with distinct pids, after linking and sorting every record has at most one place among the child lists |
| Pipeline.SortedForestPrints | pstree/pstree.c:241-243 | after linking and sorting an acyclic table, the tree is graded; with distinct pids the walk from the root lists every record reachable by the links exactly once; with distinct pids and no line break in any name, the output has one line per such record |
| Pipeline.PrintProcessTree | pstree/pstree.c:236-243 | for records with C-string names and an acyclic parent relation: None exactly when no record has parent pid 0; otherwise exactly the text of `print_pstree` on `SortChildren(Linked(records))` from the first such record; with distinct pids and no line break in any name, one line per reachable record |
| Pipeline.DanglingNotReached | pstree/pstree.c:101 | a record whose parent pid matches no record is never printed unless it is the root |
| Pipeline.SelfParentNotGraded | pstree/pstree.c:101 | a self-parented record cannot be given any rank after linking, so the printer would recurse on it forever if it reached it |
| Pipeline.SelfParentOnlyAsRoot | pstree/pstree.c:101 | with distinct pids, a self-parented record is reachable only from itself, so the printer reaches it only when it is the root, with pid and parent pid both 0 |
| Pipeline.PathIntoSelfParent | pstree/pstree.c:101 | with distinct pids, every chain of child links into a self-parented record starts at that record |
| Scenarios.ChainLinked | pstree/pstree.c:95-116 | linking init(1,0), bash(10,1), vim(11,10) gives the chain init → bash → vim |
| Scenarios.ChainOutput | pstree/pstree.c:176-208 | that chain prints as `init`, `\|   +-- bash`, `\|   \|   +-- vim`, and with pids as `init(1)`, `\|   +-- bash(10)`, `\|   \|   +-- vim(11)` |
| Scenarios.RootSelection | pstree/pstree.c:166-175 | a table with no record of parent pid 0 prints nothing (the "no init" error of lines 236-240), and in a table with two such records `find_init` picks the first, at position 1 |
| Scenarios.SiblingsLinked | pstree/pstree.c:108-110 | prepending leaves the later sibling first: init's children are [awk, zsh] in scan order reversed |
| Scenarios.SiblingsSorted | pstree/pstree.c:120-164 | sorting by name gives [awk, zsh], sorting by pid gives [zsh, awk] |
| Scenarios.SiblingsOutput | pstree/pstree.c:176-208 | init with children zsh(20) and awk(21) prints awk first by name and zsh first by pid |
| Scenarios.DanglingLinked | pstree/pstree.c:95-116 | a record whose parent pid 99 matches no record is in no child list |
| Scenarios.DanglingOutput | pstree/pstree.c:176-208 | that record is absent from the output `init`, `\|   +-- sh` |
| Scenarios.TiesLinked | pstree/pstree.c:95-116 | linking init(1) with children a(10), b(11), b(12) gives init the child list b(12), b(11), a(10) |
| Scenarios.TiesReordered | pstree/pstree.c:135-149 | `sort_by_name` turns that list into a(10), b(11), b(12): with three siblings the exchange sort is not stable, and the two b records change places |

## Left out

- `get_processes` (pstree/pstree.c:45-93) reads `/proc/<pid>/stat`. The model has no file system: the records arrive as a parameter, already built, with empty child lists. The stripping of the parenthesised name is also not modelled.
- `main`'s option parsing and the version text (pstree/pstree.c:211-229) are console I/O. `-p` and `-n` become the `showPids` and `numericSort` parameters.
- `free_list` and `free_children` (pstree/pstree.c:26-43): Dafny has no manual memory management.
- The `calloc` failure exits in `set_children` and `get_processes` (pstree/pstree.c:70-76, 102-107) are not modelled; allocation never fails in the model.
- Output goes to standard output in the source. The model returns it as a string. The stderr message and exit code when no record has parent pid 0 (pstree/pstree.c:236-240) become `None`.
- Pids are unbounded integers, not the C `int`. The `NAME_MAX` bound on names is not modelled: names are unbounded strings of characters that stand for bytes.
- The `ChildNode` and `ListNode` linked lists become sequences. A child link is a record position, which models the aliasing of `val` (a child sees later changes to its record). The identity of the list cells is not modelled.
- Pstree.ProcessList.Sort: the C sorts swap `val` pointers inside the child's linked list. The model sorts an array copy of each child list with the same loops and then stores it back. What happens to each list cell is not modelled; the contents of the list are.
- Render.PrintPstree: requires a ghost rank that decreases from parent to child. The C recursion has no such guard and does not terminate on a cycle it reaches (for example a self-parented root, see Pipeline.SelfParentNotGraded and Pipeline.SelfParentOnlyAsRoot). The model gives no output for such inputs.
- Pipeline.PrintProcessTree: requires that the parent relation be ranked from the first root down (`ParentRanked`). This is the same acyclicity assumption; the source only reaches an answer on such inputs.
- Reach.EachReachableOnce, Pipeline.SortedForestPrints and Pipeline.PrintProcessTree: the line count holds only for names with no line break. Records from any source need this; the program's own reading guarantees it, because `fscanf`'s `%s` at pstree/pstree.c:69 stops at whitespace and the name is copied from that token (pstree/pstree.c:71).
- Render.LineDepth and Render.TailShape: they read the depth back from the start of a line, so they also need names that do not begin with `|` or `+`.

## Behaviour of note

- The test at pstree/pstree.c:101 compares every pair of records, i = j included. A self-parented record therefore becomes its own child (Pstree.SelfParentIsOwnChild), and the printer would recurse on it forever if it reached it (Pipeline.SelfParentNotGraded). With distinct pids that happens only when it is the root itself, with pid and parent pid both 0 (Pipeline.SelfParentOnlyAsRoot).
- Matches are prepended to the child list (pstree/pstree.c:108-110). Before sorting, siblings therefore come in reverse scan order (Pstree.ScanChildrenDescending, Scenarios.SiblingsLinked).
- The swap tests are strict (pstree/pstree.c:140, 155), so equal keys are never swapped with each other (Pstree.Exchanges). A child list of exactly two siblings with equal names therefore keeps its linked order under `sort_by_name`, with the later record first (Pstree.EqualNamesKeepOrder). With three or more siblings the exchange sort is not stable: a third sibling swapped to the front past both can reverse two equal names (Scenarios.TiesReordered).
- Each line has one `"|   "` per level and then one `"+-- "`. The third line of the init → bash → vim chain is therefore `|   |   +-- vim` (Scenarios.ChainOutput).
