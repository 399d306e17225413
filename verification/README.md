# A verified model of the search engine

The repository is a grep-like program in C. This project models its parts that search and match, in Dafny, and
proves what they compute. It has two halves.

**Fixed strings.** `SuffixTables`, `BoyerMooreSpec` and `BoyerMoore` hold the Boyer-Moore search of
`src/boyer_moore.c`, on `MatchRecords` (the two rings of `src/match_record.c`), `RedBlackSpec` and `RedBlackTree`
(`src/rbtree.c`) and `KeyTable` (the tree as a table). `Mpat` holds the shift table and the skip loop of `src/mpat.c`.

**Regular expressions.** `Regex` gives the expressions and their words. `BranchLists` has the lists of branches of
`src/slist.c` with their tail pointers, and `KeptBranches` what they leave of an expression. `NfaGraph` and
`NfaConstruct` prove, on values, what each way of joining two graphs does to the words they read; `NfaAlloc` and `Nfa`
are the arena of `src/nfa_alloc.c` and the constructors of `src/nfa.c` on it; `RegexParser` makes the constructor calls
for an expression, bottom up: an alternation is one call with all its branches. `EpsilonClosure`, `Simulation` and
`Compile` are `collect_adjacencies` of `src/compile.c` and what its lists mean; `RegexCompiler` joins parser and
compiler. `ThreadSpec` (queues as sequences, the invariant of a match attempt), `ThreadLists` (the intrusive lists),
`LongestMatches` (what is to be printed), `RunSpec` and `Recognizer` are `src/recognizer.c`. `Search` runs an expression
through all of it, and `StaleMarks` follows one expression over two lines.

Code that changes state is a class with the source's fields and methods; each method is proved against a function of
its inputs or of the old state, and the properties of those functions are lemmas. Two forms of heap are used. Tree nodes
and match records are Dafny objects. NFA nodes and threads are cells of a growing table and a pointer is an index, 0
being NULL; the source allocates them in an arena, or never frees them before the end. Chars are bytes 0 to 255, with
their signed value where the source uses it. Positions in a line are indices, and NULL is -1. A line ends with the
end-of-line marker, byte 0xFE, and is followed by a NUL. Ghost parameters and fields only carry proofs.

The main results, in the order of the program:

- A search for a fixed string records exactly its occurrences if and only if the string hides no byte (below); every
  ASCII string qualifies. Cleared and reused records do not change that.
- The nodes built for an expression, through flattened alternations, tightened loops and recycled nodes, accept exactly
  the words of those branches that are still in their lists, and so none that are not the expression's. All branches of a
  call are if and only if the tail of its list was not freed; then (`KeptBranches.KeepsBranches`) the nodes accept
  exactly the words of the expression. The compiled lists accept the same words without the silent nodes.
- A run over a line ends, and reports a match if and only if some part of the line is a word of the expression. With
  `-o -g` it prints exactly the leftmost longest non-empty matches, with `-o` alone the leftmost shortest. Every thread is
  back in the pool afterwards.
- `Search.SearchFile` and `Search.SearchLine` state both for an expression and lines, with everything in between proved.

## Model

| member | source | states |
|---|---|---|
| BoyerMooreSpec.SearchIsExact | src/boyer_moore.c:208-243 | in every text the positions recorded are the occurrences, overlapping ones included, in increasing order, if and only if the pattern hides no byte |
| BoyerMooreSpec.AsciiHidesNothing | src/boyer_moore.c:125-143 | ASCII patterns hide no byte, so their search is exact |
| BoyerMooreSpec.NonAsciiCanMiss | src/boyer_moore.c:165-176 | a two-byte pattern that hides a byte, because keys are signed when entered and unsigned when looked up |
| BoyerMooreSpec.AdvanceIsSafe | src/boyer_moore.c:208-243 | one step of the search never goes past an occurrence |
| BoyerMooreSpec.AdvanceIs | src/boyer_moore.c:208-243 | after a match the window moves by the least period; after a mismatch by the least shift that fits what matched or by the distance to the mismatched byte, whichever is more |
| BoyerMoore.BMObj.Search | src/boyer_moore.c:208-243 | the spans of the scan are appended to those recorded, each of them holds the pattern, and nothing else changes |
| BoyerMoore.BMObj.NextMatch | src/boyer_moore.c:179-205 | the next recorded match, each once and in order, then NULL |
| BoyerMoore.SearchLines | src/boyer_moore.c:208-255 | any number of search, read and clear rounds on one object yield for each line what its own scan finds: its occurrences, if the pattern hides no byte |
| BoyerMoore.ComputeBadChar | src/boyer_moore.c:125-143 | the tree holds each signed byte's distance from its last occurrence before the final position |
| BoyerMoore.BMObj.GetCharShift | src/boyer_moore.c:165-176 | the distance of an ASCII byte from its last occurrence before the final position to that position; the pattern length if there is none, or for any other byte |
| SuffixTables.ComputeSuffix | src/boyer_moore.c:72-95 | for every pattern: the table holds the longest common suffix lengths if and only if those fit a char, with at most two comparisons per byte |
| SuffixTables.TableFits | src/boyer_moore.c:99-103 | no char table at all can hold longer lengths |
| SuffixTables.ShortPatternFits | src/boyer_moore.c:99-103 | up to 128 bytes they always fit |
| SuffixTables.LongPatternOverflows | src/boyer_moore.c:98-122 | 129 equal bytes: a length of 128 is stored as -128, and the second phase writes 128 places behind the last entry |
| SuffixTables.ComputeGoodSuffix | src/boyer_moore.c:98-122 | each entry is the least shift that keeps what matched and brings another byte to the mismatch |
| SuffixTables.GoodShiftIsPeriod | src/boyer_moore.c:98-122 | the entry at 0 is the pattern's least period |
| MatchRecords.MatchList.Add | src/match_record.c:14-55 | appends a span, in the first spare record or a new one; both rings stay linked both ways |
| MatchRecords.MatchList.Clear | src/match_record.c:58-88 | the live ring becomes the tail of the pool ring |
| RedBlackSpec.InsertRedBlack | src/rbtree.c:187-296 | insertion keeps the colour rules and equal black heights |
| RedBlackSpec.InsertInOrder | src/rbtree.c:256-296 | insertion puts one entry into the in-order listing, at the lower bound of its key |
| RedBlackSpec.InsertDistinct | src/rbtree.c:256-296 | no node occurs twice, and exactly the new one is added |
| RedBlackSpec.FixUpInOrder | src/rbtree.c:187-253 | recolouring and rotating never change the in-order listing |
| RedBlackSpec.HistoryBlind | src/rbtree.c:34-118 | after any sequence of insertions and clears, whichever nodes are used again, shape, colours and keys are those of a new tree with the insertions since the last clear |
| RedBlackSpec.HeightBound | src/rbtree.c:172-184 | a tree of n nodes is at most 2*log2(n+1) high |
| RedBlackSpec.FindFinds | src/rbtree.c:172-184 | the key search ends at a node with the key if and only if there is one |
| RedBlackTree.RBTree.LikeNew | src/rbtree.c:34-118 | the same for the linked tree: each object's calls are recorded by Insert and Clear, and its tree is what they make of an empty one |
| RedBlackTree.RBTree.FixUp | src/rbtree.c:187-253 | the loop with its pointer rotations computes the repair of the specification, parent links included |
| RedBlackTree.RBTree.Insert | src/rbtree.c:256-296 | the linked tree becomes the specified one, count grows by one, and the node comes from the pool when there is one; the pool loses it and, if it was a left child there, its right subtree, and nothing else |
| RedBlackTree.RBTree.DroppedIff | src/rbtree.c:75-103 | there is such a subtree exactly when the next node is a left child with a right one |
| RedBlackTree.RBTree.Clear | src/rbtree.c:48-71 | the tree is empty, and the pool has gained exactly its nodes |
| RedBlackTree.RBTree.Search | src/rbtree.c:172-184 | a node with the key exactly when the key is in the tree, after at most 2*log2(count+1) nodes |
| RedBlackTree.RBTree.Successor | src/rbtree.c:454-475 | from each node to the next one in the listing, by links alone |
| RedBlackTree.RBTree.Walk | src/rbtree.c:401-475 | minimum and successors visit every node once, in order, and end |
| Mpat.ShiftIsSafe | src/mpat.c:211-277 | the shift of a window's last two bytes never goes past a window where a pattern's prefix ends |
| Mpat.ShiftIs | src/mpat.c:152-261 | a shift in numbers: the least distance at which some pattern has two bytes that make the key, 32 times the later plus the earlier, before the end of its m-prefix; m - 1 if there is none |
| Mpat.MPatObj.Init | src/mpat.c:152-261 | refuses patterns with one below three bytes; else m is the shortest length and the table holds the least distance of each hash |
| Mpat.MPatObj.GetShift | src/mpat.c:264-277 | that distance, for every key |
| Mpat.MPatObj.Windows | src/mpat.c:342-409 | the windows looked at are the first one and those that the shifts lead to, up to the end of the text; those compared are the ones among them whose last two bytes make the number of some m-prefix; no m-prefix is missed |
| Mpat.ShortTextHasNone | src/mpat.c:349-351 | the early return misses nothing in a line whose end-of-line marker is in no pattern |
| NfaAlloc.NFACtrl.Alloc | src/nfa_alloc.c:132-214 | hands out a cell not in use; the ring is sound and, with the cells in use, fills the arena, through doublings |
| NfaAlloc.NFACtrl.Dealloc | src/nfa_alloc.c:52-79 | the cell goes back; the same accounts hold |
| Regex.AtomWords | src/recognizer.c:391-403 | in numbers: a range reads the bytes below 128 of its set, `.` all but 254, a literal itself |
| Regex.StarWords | src/nfa.c:200-222 | the words of the closure are all sequences of words of the body |
| Regex.PlusWords | src/nfa.c:246-267 | those of the positive closure are the non-empty sequences |
| NfaConstruct.CatAccepts | src/nfa.c:392-414 | overwriting an exit with the next fragment's entry reads the words of the concatenation |
| NfaConstruct.StarAccepts | src/nfa.c:200-222 | the loop with its tightened entry reads the repetitions |
| NfaConstruct.PlusAccepts | src/nfa.c:246-267 | the loop entered at its body reads one or more repetitions |
| NfaConstruct.OptAccepts | src/nfa.c:225-243 | the split reads the body's words and the empty one |
| BranchLists.AllSeenIff | src/slist.c:29-103 | of intact lists, all heads are found in the list that flattening makes if and only if its tail was not freed: unless the last item was a nested alternation and two or more others were not; what is found otherwise |
| BranchLists.SeenIff | src/slist.c:29-103 | head by head, whatever tails the lists below have: the branches without a list are found, and, unless the tail was freed, the items of each list before which no tail was elsewhere; otherwise only what the last list has at its tail |
| BranchLists.GatheredFrom | src/slist.c:29-103 | whatever the tails, nothing is found in that list that was not found below one of the branches |
| KeptBranches.StaleIff | src/nfa.c:311-381 | as a condition on the branches: the tail is freed if and only if the first branch starts with an alternation and at least two others do not |
| KeptBranches.NothingAdded | src/nfa.c:311-381 | for every expression, what is built for it reads none but its words |
| KeptBranches.NothingLost | src/nfa.c:311-381 | if no alternation in it loses branches, it reads all of them |
| KeptBranches.BuiltIff | src/nfa.c:311-381 | the same for expressions, whatever the branches have lost themselves: exactly the words that an alternation is built to read |
| KeptBranches.WhatIsLeft | src/nfa.c:311-381 | where an alternation loses branches that had lost none of their own, it reads exactly the words of those that do not start with an alternation, and of the one head at the end of the first branch's list |
| KeptBranches.ExampleLosesB | src/slist.c:54-70 | with a group of a and b as the first of three branches, c and d the others, b is a word of the expression and is not read |
| KeptBranches.NestedExample | src/slist.c:76-103 | with one more branch e behind it, a, c, d and e are read |
| NfaConstruct.AltAccepts | src/nfa.c:311-381 | the tree, with alternations among its branches flattened into it, reads from each item in its list what that item read before, and accepts the words of those that are found |
| NfaConstruct.CatShaped | src/nfa.c:392-414 | what follows an alternation follows each item of its list, which can still be flattened |
| Nfa.ConcatenateNfa | src/nfa.c:392-414 | the cells hold a graph for the concatenation, with the list it starts with, the overwritten entry is recycled, and nothing else in use changes |
| Nfa.NewAlternationNfa | src/nfa.c:343-381 | the cells hold a graph for the branches that are found in the list of the lists' transfers, freed tail and all, and the entries of flattened branches are recycled |
| RegexParser.Build | src/nfa.c:44-414 | bottom up, for every expression, the cells built hold a graph that reads, head by head, what its shape says: by NothingAdded and NothingLost its words, but for those of lost branches |
| RegexParser.ParseRegex | src/regex_parser.c:1034-1067 | the finished graph accepts what is built for the expression, its stops have different numbers below the total, and its entry consumes nothing |
| EpsilonClosure.ClosureAtFork | src/compile.c:16-106 | marking the forks on the current path cuts loops without losing a stop |
| Compile.CollectHelper | src/compile.c:15-106 | the search ends, leaves the graph and its marks as they were, and adds exactly the stops in reach, without repeats; a node is never met unmarked by its own search |
| Compile.CollectAdjacencies | src/compile.c:202-276 | every node that is used lists exactly the stops that follow it, without repeats, and the graph stays as it is |
| Simulation.LiveAccepts | src/compile.c:15-106 | following stops by closures accepts the same words as the graph with its silent nodes |
| RegexCompiler.ListsAccept | src/compile.c:202-284 | following the lists alone accepts exactly the words of the expression |
| RegexCompiler.CompileRegex | src/regex_parser.c:1034-1067 | from an expression to a valid program for the recognizer, and what its lists accept: no other words, and exactly its own if its alternations keep their branches |
| ThreadLists.TakeThread | src/recognizer.c:49-65 | the first thread of the pool, or a new one when it is empty, and only then; it was in no one's hand, and both queues and the threads in hand stay as they are |
| ThreadLists.ReleaseAll | src/recognizer.c:84-147 | pool, active, next and the one in hand become the pool, in that order |
| ThreadSpec.QueueAllOk | src/recognizer.c:617-651 | queueing all successors loses none: one not queued has a thread there already or cannot go on |
| ThreadSpec.QueueAdds | src/recognizer.c:617-640 | a thread is queued on a node that consumes if and only if the node is not marked for the position and the character there fits |
| ThreadSpec.StepPasses | src/recognizer.c:654-691 | a step that consumes keeps the invariant of the attempt |
| ThreadSpec.StepReports | src/recognizer.c:797-810 | a thread on the accepting node reports the least end not found yet and keeps the invariant |
| ThreadSpec.NextPosition | src/recognizer.c:971-975 | so does the step to the next character |
| ThreadSpec.Exhausted | src/recognizer.c:976-990 | when both queues are empty, exactly the accepted ends have been reported |
| ThreadSpec.LoadsAllIff | src/recognizer.c:813-855 | loading leaves out a first node that could go on if and only if it is marked for this position and not a range |
| StaleMarks.SecondLineMissed | src/recognizer.c:951-960 | one or more of a or bc, on the lines `abc` and `xbc`: the step that ends the first run, the mark it leaves, and that no attempt on the second line loads a thread although bc matches |
| LongestMatches.MatchesInOrder | src/recognizer.c:873-912 | the specified reports are longest matches, from left to right, without overlap |
| LongestMatches.MatchesComplete | src/recognizer.c:873-912 | every non-empty match begins inside a reported one |
| LongestMatches.UpdateHolds | src/recognizer.c:150-160 | the match held stays the longest of those found |
| LongestMatches.HeldIsNext | src/recognizer.c:873-887 | at the end of an attempt it is the next report |
| Recognizer.NFASimCtrl.constructor | src/recognizer.c:1010-1061 | one thread, in the pool, and no marks |
| Recognizer.NFASimCtrl.ThreadStep | src/recognizer.c:654-810 | what a step does to the queues and marks, and which thread stays in hand |
| Recognizer.NFASimCtrl.LoadStartStates | src/recognizer.c:813-855 | the queue and marks it leaves, whatever the marks before |
| Recognizer.NFASimCtrl.RunThreads | src/recognizer.c:942-968 | the inner loop ends, keeps the invariant of the attempt and stops early only after a match |
| Recognizer.NFASimCtrl.EndAttempt | src/recognizer.c:976-990 | prints what is held, goes on behind it and starts the next attempt; the call of ResetThread asks for a pool that is not empty |
| Recognizer.NFASimCtrl.RunNfa | src/recognizer.c:915-1007 | a match is reported if and only if there is one; what is printed for each option: with -o alone the shortest match at the first position that has one, without -o the line up to its marker; all threads are back in the pool |
| Recognizer.NFASimCtrl.ProcessFile | src/main.c:137-147 | the same for all lines of a file on the same threads and marks, with -g, -v or -q |
| RunSpec.MatchingCounts | src/main.c:137-147 | the count kept for a file is the number of lines that match |
| Search.SearchFile | src/main.c:391-411 | from an expression to what is printed for a file: what is built for it decides, and the expression itself if its alternations keep their branches |
| Search.SearchLine | src/main.c:391-411 | the same for one line, with any options; a line that is reported always has a match, and for a range it is reported exactly when it holds one of its bytes below 128 |
| Search.ExampleMissesB | src/main.c:391-411 | the same expression matches in the line `b`, and what is built for it does not |

## Findings

- **Pattern bytes above 127.** `compute_bad_char` enters them under negative keys and `bm_get_char_shift` looks them up
  as positive ones. `BoyerMooreSpec.HiddenByte` is the exact condition under which the search misses an occurrence in
  some text, and `HiddenByteMisses` gives the text.
- **Long patterns.** `char suffix[]` holds the table exactly when every proper common suffix has at most 127 bytes
  (`SuffixTables.FitsChar`). Beyond that the table is wrong, and it can lead to writes outside `good_suffix`.
- **Lost branches.** `list_transfer_on_match` frees the items it removes and mends the tail pointer only when one item
  or none is left. If the last item was removed and two or more stay, `list_transfer` writes behind the freed item: the
  chain ends with those that stayed, the size counts all, and a loop over the indices finds only those and, through the
  new tail, the last item of the last list. The lists are in reverse order, so this happens when the first branch starts
  with an alternation and two others do not: `(a|b)|c|d` does not find b, `(a|b)x|c|d` neither. Writing to a freed item
  is undefined in C; the model takes what is written there as lost. `KeptBranches.KeepsBranches` excludes it;
  `KeptBranches.BuiltIff` says for every alternation which words are left.
- **Marks left by an early exit.** A run that stops at its first match leaves marks in `active_threads_sp`, and the next
  line is read into the same buffer, so they are taken for its own. `RunNfa` is proved from marks that do no harm
  (`ThreadSpec.Resumable`); it leaves such marks unless it stopped early, which `-g` and `-v` rule out and after which
  `-q` reads no other line. `ThreadSpec.LoadsAllIff` says which marks make an attempt lose a thread, and
  `StaleMarks.SecondLineMissed` shows a line that is missed because of one (without the keyword prefilter).
- **Threads on the same node.** `thread_step` clears the mark of its node, so a node can be queued twice for one
  position. Nothing is lost by it.
- **The option -o without -g** prints the first match reported at the leftmost position that has one, which is the
  shortest there, and nothing when it is empty.
- **Blank lines** are matched, or not, but never printed: `new_match` wants a first and a last character.
- **The end-of-line marker** is byte 0xFE. As a pattern byte it would be taken for the end of the line; labels leave it
  out. A NUL inside a line makes every thread report a match; lines without one are modelled.
- **Ranges** never accept bytes above 127, negated or not.
- **Branches of `collect_adjacencies` that are never taken**: the one for a start node that consumes
  (`insert_epsilon_start` prevents it), the exit at `total_collectables` (`Compile.WithinTotal`), and in the helper the
  one for a search that has just started at the node it meets, which is always marked then (`Compile.Entered`).
- **The cleared tree.** When `rbtree_insert` takes a node from the pool that is a left child and has a right subtree, that
  subtree leaves the pool with it and is not used again (`RedBlackTree.RBTree.Dropped`).
- **After `nfa_alloc_expand`** the last cell's `next` points behind the arena until the first removal repairs it.

## Left out

- SuffixTables.ComputeGoodSuffix: only for patterns whose common suffix lengths fit a char, and so BoyerMoore.BMObj too,
  because beyond that the C code may write outside its array.
- Recognizer.NFASimCtrl.RunNfa: only from marks that do no harm, as a new control block has and every run leaves that did
  not stop early; positions and lengths are printed, not characters, file names or line numbers.
- Recognizer.NFASimCtrl.ProcessFile: with none of -g, -v and -q a run may stop early, and the next line starts from its
  marks; Search.SearchFile likewise.
- Mpat.MPatObj.Windows: the comparison of patterns inside a window, and the table of patterns it uses.
- Intervals, capture groups, backreferences, anchors and case folding, in the parser, the compiler and the recognizer.
- The keyword prefilter: how `compute_mpat_tables` chooses its strings, and how `run_nfa` uses the search objects.
- RegexParser.Build: the scanner and the token handling of the parser. An expression is given as the tree of constructor
  calls; which calls are made for a row of branches depends on the groups before it (`in_new_cgrp` and
  `subtree_branch_count`): `a|b|c|d` comes as an alternation of a and of `b|c|d`, `(a|b)|c|d` as one of three branches.
- `new_alternation_nfa` with a terminator, which no caller passes; `new_lliteral_nfa`.
- How ranges are filled from collations and brackets; a range is a finished set of bytes.
- `slist.c`: lists are sequences, except for the branches of an alternation, whose tail and size are modelled.
- `rbtree_remove` and its repair, `rbtree_insert_reverse`, `rbtree_predecessor`, and all freeing of memory.
- Data pointers of tree nodes, which are integers here, and failing allocations.
- Output buffering (`fill_output_buffer`, `flush_matches`), files, options and directories.
- Overflow of numbers that grow with the input, other than the char table above.
