# graftM core, modelled in Dafny

This project models the parts of graftM that decide what a phylogenetic
placement means. Each piece has proofs about it.

- The jplace tree reader: the Newick tokenizer, and the stack parser that
  reads branch lengths carrying an edge number (`A:0.12{3}`). It builds the
  tree and a table from edge number to the node on the child side of that
  edge.
- The rerooting engine. It finds lowest common ancestors and the longest
  branch on the way to the root. It moves the root across a branch, splices
  a new node above a chosen one, and collapses the dummy node left by
  rerooting.
- Placement classification: reading the reference package's taxonomy table
  and merging placement hypotheses by taxon id. It covers the 0.98
  short-circuit, rank-by-rank voting under a cutoff, and filing each read
  under its file suffix.
- GraftM package manifests: the version and required-key checks of
  `acquire`, the paths a package hands out, and the manifest `compile`
  writes.
- The pure parts of `graftM create`: reading the pipeline type and length
  from an HMM header, picking a free `.hmm` name, and naming the reference
  package and the GraftM package.

Trees are arenas (module `Tree`). A node is addressed by its index and holds
a name, an optional length, a child list and a parent index. Python's
in-place assignments become updates of one index. Errors the source raises
become `Err` values of a `Result`. Each imperative routine of the source is a
Dafny `method` with the source's loop. The method is proved equal to a
specification function, and the properties are lemmas about that function.

Modules:
- `Wrappers`: `Option` and `Result`.
- `Strings`: `rstrip`, `split`, Python's string order.
- `Tree`: the node arena.
- `NewickTokenizer`
- `JPlace`
- `Reannotator`
- `Classify`
- `GraftmPackage`
- `Create`

## Model

| member | source | states |
|---|---|---|
| `Tree.SetParents` | graftm/jplace.py:80-81 | every listed child gets the given parent and every other node is unchanged |
| `Tree.LinkParents` | graftm/jplace.py:80-81 | the loop setting `child.parent` one child at a time gives `SetParents` |
| `Strings.RStrip` | graftm/classify.py:10 | the result is a prefix of the input and does not end in whitespace; everything removed is whitespace |
| `Strings.SplitJoin` | graftm/classify.py:10 | no piece of `split(',')` contains a comma, and joining the pieces with commas gives back the line |
| `Strings.NonEmpty` | graftm/classify.py:10 | the pieces kept are non-empty pieces of the input, every non-empty piece is kept, and there are no more of them than pieces |
| `Strings.NonEmptyAppend` | graftm/classify.py:10 | the filter keeps order: filtering two lists one after the other gives the filtered first followed by the filtered second |
| `Strings.NonEmptyAll` | graftm/classify.py:10 | when every piece is non-empty the filter keeps the whole list unchanged |
| `Strings.Words` | graftm/create.py:55 | every word of `split()` is non-empty and holds no whitespace |
| `Strings.WordsAtSpace` | graftm/create.py:55 | a whitespace character splits the words: the words of `a c b` are the words of `a` followed by those of `b` |
| `Strings.WordsOfTwo` | graftm/create.py:55 | two non-empty runs without whitespace around one space split into exactly those two words |
| `Strings.WordsOfWord` | graftm/create.py:55 | a run without whitespace is one word, and the empty string has none; with `WordsAtSpace` this pins `split()` to the whitespace-separated runs, in order |
| `Strings.NatToString` | graftm/create.py:43 | `str(counter)` is a non-empty string of decimal digits whose value is the counter, with no leading zero except for `0` itself |
| `Strings.StrLtIsStrictTotalOrder` | graftm/classify.py:31 | Python's string comparison, used by `max`, is a strict total order |
| `NewickTokenizer.Underscored` | graftm/jplace.py:160-162 | `replace('_', ' ')` keeps the length, changes each `_` to a space, keeps every other character and leaves no `_` |
| `NewickTokenizer.TokenizeNewick` | graftm/jplace.py:96-211 | the per-character loop yields exactly the tokens of the fold of `StepChar`, and stops with an error exactly when the fold does |
| `NewickTokenizer.ReadChar` | graftm/jplace.py:128-211 | one pass of the loop body updates the six flags and yields the tokens that `StepChar` gives |
| `NewickTokenizer.RunAppend` | graftm/jplace.py:121-122 | reading `a + b` is reading `a` and then, unless that raised, reading `b` from the state `a` left |
| `NewickTokenizer.StructuralIsOwnToken` | graftm/jplace.py:148-166 | outside quotes and comments, `( ) , ; :` is yielded as its own token and clears the buffer; a label token comes before it exactly when the buffer is non-empty, a quote just closed or conversion is off, and that token is the buffer, underscored when converting and no quote closed it |
| `NewickTokenizer.PlainCharsBuffer` | graftm/jplace.py:188-194 | unquoted label characters accumulate in the buffer without yielding a token |
| `NewickTokenizer.UnquotedLabel` | graftm/jplace.py:148-194 | an unquoted label followed by a structural character yields the label, underscores turned to spaces when converting, and then that character |
| `NewickTokenizer.QuotedCharIsLiteral` | graftm/jplace.py:148-194 | inside quotes every non-quote character, structural and whitespace included, is appended to the label |
| `NewickTokenizer.DoubledQuote` | graftm/jplace.py:171-186 | inside quotes `''` adds exactly one `'` to the label and leaves the literal open |
| `NewickTokenizer.WhitespaceInLabelFails` | graftm/jplace.py:188-203 | unquoted whitespace after a label has started, followed by a label character, raises NewickFormatError |
| `NewickTokenizer.CommentStep` | graftm/jplace.py:128-142 | inside a comment nothing is yielded and only the depth and last character change; the depth rises on an unquoted `[` and falls on `]`, neither right after a quote |
| `NewickTokenizer.CommentBody` | graftm/jplace.py:137-142 | a comment body without brackets yields nothing and changes only the last non-whitespace character |
| `NewickTokenizer.CommentIsInvisible` | graftm/jplace.py:128-142 | a bracketed comment outside quotes yields no token and leaves the tokenizer as before, except for the last non-whitespace character |
| `JPlace.MatchEdge` | graftm/jplace.py:35 | a match is a non-empty run of digits and dots, `{`, a non-empty run of digits, `}` (before an optional final newline) |
| `JPlace.MatchEdgeComplete` | graftm/jplace.py:48-50 | every token of that shape is matched, with its two groups |
| `JPlace.ParseFloat` | graftm/jplace.py:51-55 | `float()` of such a group succeeds exactly when it has a digit and at most one dot, and then gives a non-negative number |
| `JPlace.RecordEdge` | graftm/jplace.py:56-59 | storing an edge fails exactly when the number is already filled; otherwise exactly that slot is added, holding the child, and the other slots are kept |
| `JPlace.RecordEdgeAsWritten` | graftm/jplace.py:57-59 | on the source's list, the store fails exactly when the list is too short for the number (IndexError) or the slot is already filled; otherwise exactly that slot is set to the child |
| `JPlace.FirstEdgeFailsAsWritten` | graftm/jplace.py:34-57 | the list starts empty, so the first edge annotation of any tree raises IndexError, where the intended table stores it |
| `JPlace.PopDepth` | graftm/jplace.py:72-74 | the frames popped are exactly the top run at the current depth, in the order they were pushed, and what remains is the rest of the stack. It fails exactly when every frame is at that depth (IndexError) |
| `JPlace.PopFrames` | graftm/jplace.py:72-74 | the popping loop gives what `PopDepth` specifies |
| `JPlace.ApplyLabel` | graftm/jplace.py:37-42 | a structural run names nothing; a token after `:` only clears the pending-distance flag; any other token becomes the name of the node on top of the stack and no other node changes; in every case the parser's invariant, the stack, the depth and the edge table are kept |
| `JPlace.LabelTop` | graftm/jplace.py:37-42 | the label check with substring membership in `'(,):'`, as written, gives `ApplyLabel` |
| `JPlace.EdgeStep` | graftm/jplace.py:46-59 | an edge annotation never finishes the tree |
| `JPlace.ReadEdge` | graftm/jplace.py:46-59 | the source's edge branch, length assigned before the duplicate check, gives `EdgeStep` |
| `JPlace.CloseStep` | graftm/jplace.py:65-83 | `)` never finishes the tree |
| `JPlace.Attach` | graftm/jplace.py:75-83 | attaching popped children never finishes the tree |
| `JPlace.CloseChildren` | graftm/jplace.py:65-83 | the source's `)` branch gives `CloseStep` |
| `JPlace.AttachChildren` | graftm/jplace.py:75-83 | the parent check and linking give `Attach` |
| `JPlace.AdoptChildren` | graftm/jplace.py:79-82 | the linking loop and the child-list assignment give `Adopt` |
| `JPlace.AdoptShape` | graftm/jplace.py:79-82 | after adopting, the parent lists exactly the children, each child points to the parent, and every other node is unchanged |
| `JPlace.AdoptValid` | graftm/jplace.py:79-82 | adopting keeps every reference inside the arena and leaves the root without a parent |
| `JPlace.PushValid` | graftm/jplace.py:60-64 | `(` and `,` push a fresh node and keep the parser's invariant |
| `JPlace.ParseStepValid` | graftm/jplace.py:36-89 | every token keeps the invariant (root at node 0 on the stack bottom, no parent, all indices in the arena); a finished tree is rooted at node 0 with its edge table in the arena |
| `JPlace.EdgeAnnotation` | graftm/jplace.py:44-59 | the token after `:` fails as MissingEdgeLabel, BadLength or DuplicateEdge in that order. Otherwise the top node gets the length, the edge number maps to it, and the stack is unchanged |
| `JPlace.CloseParen` | graftm/jplace.py:65-83 | `)` fails with fewer than two frames, on an emptied stack, or when the exposed parent has children. Otherwise the same-depth frames become its children in order with parent links set, depth drops by one and nothing else changes |
| `JPlace.CloseStepShape` | graftm/jplace.py:65-83 | the same outcomes for the `)` step after labelling |
| `JPlace.Semicolon` | graftm/jplace.py:84-87 | `;` finishes exactly when the stack holds the root alone, returning the root and the edge table; otherwise it fails |
| `JPlace.EndWithoutSemicolon` | graftm/jplace.py:91-94 | tokens running out before `;` always fails |
| `JPlace.RunParse` | graftm/jplace.py:36-94 | a parse that succeeds gives a tree rooted at node 0 with all references in the arena |
| `JPlace.ParseTokens` | graftm/jplace.py:36-94 | the `for token` loop gives `RunParse` |
| `JPlace.ConsumeToken` | graftm/jplace.py:37-89 | one pass of the loop body gives `ParseStep` |
| `JPlace.ParseJPlaceTree` | graftm/jplace.py:15-94 | tokenizing with underscore conversion and then parsing gives a rooted, in-arena tree when it succeeds |
| `JPlace.JPlaceTreeToTreeNode` | graftm/jplace.py:15-94 | the tokenizer and parser loops together give `ParseJPlaceTree` |
| `JPlace.NewJPlaceTree` | graftm/jplace.py:8-9 | a constructed tree is a valid parse |
| `JPlace.ChildNode` | graftm/jplace.py:11-13 | the lookup succeeds exactly for numbered edges and gives the stored child-side node, which is in the arena |
| `JPlace.ChildNodeAsWritten` | graftm/jplace.py:9-13 | the lookup as written fails for every edge |
| `JPlace.ChildNodeDiscrepancy` | graftm/jplace.py:9-13 | for every numbered edge the intended lookup finds the node while the written one fails |
| `Reannotator.Ancestors` | graftm/reannotator.py:17-18 | the walk up from a node starts at it, follows parent links and ends at a parentless node |
| `Reannotator.Lca` | graftm/reannotator.py:17-18 | the node found is an ancestor of (or is) every given node |
| `Reannotator.LcaIsLowest` | graftm/reannotator.py:17-18 | every other common ancestor lies above the one found |
| `Reannotator.TipsNamed` | graftm/reannotator.py:12-14 | the result is exactly the tips under the root that carry one of the names |
| `Reannotator.LcaOfNames` | graftm/reannotator.py:17-18 | the LCA query fails exactly when no tip carries a name, and otherwise gives a node of the tree |
| `Reannotator.LcaOfNamesIsLowest` | graftm/reannotator.py:17-18 | the LCA of a set of names is a common ancestor of its tips, below every other one |
| `Reannotator.ChooseAnchor` | graftm/reannotator.py:11-33 | fails first when the old root does not have two children. Both sides' LCAs are taken. Both at the new root is paraphyletic case 1. The reroot goes to the left LCA unless that is the root, then to the right; the other side's names are kept for the second lookup |
| `Reannotator.FarNode` | graftm/reannotator.py:36-39 | paraphyletic case 2 exactly when the recomputed LCA has no parent. Otherwise the chosen node is the longest-branch winner on the way up and has a parent |
| `Reannotator.FarNodeFound` | graftm/reannotator.py:39-55 | when every branch on the way up has a non-negative length, the search finds a node |
| `Reannotator.RerootsAvoidRoot` | graftm/reannotator.py:25-40 | neither reroot of `_reroot_tree_by_old_root` targets the current root |
| `Reannotator.Branches` | graftm/reannotator.py:49 | the nodes searched are the walk up from `x`: empty exactly when `x` has no parent, otherwise starting at `x`, each the parent of the one before, and ending at a child of the parentless top |
| `Reannotator.LongestFromChoice` | graftm/reannotator.py:47-55 | the search keeps the best so far when nothing beats it, and otherwise returns the node of strictly greatest length, the earliest on a tie |
| `Reannotator.LongestIsNearestMaximum` | graftm/reannotator.py:44-55 | the result is None exactly when no branch has a length above -1, and otherwise the strictly longest branch nearest the start |
| `Reannotator.FindLongestInternalBranchNode` | graftm/reannotator.py:44-55 | the `while` loop up the parent links gives the specified search over the path to the root |
| `Reannotator.Without` | graftm/reannotator.py:64 | the filtered list holds exactly the other members, and stays duplicate-free |
| `Reannotator.TrivialReroot` | graftm/reannotator.py:62-72 | the trivial case raises exactly when the sisters are not exactly one, and MissingLength exactly when there is one sister and it or `node` has no length; on success the lone sister and `node` are distinct non-root nodes and the result is the move of the root between them |
| `Reannotator.MoveRoot` | graftm/reannotator.py:64-72 | the new root has children `[node, sister]`; the sister's length becomes the sum and `node`'s 0; both point to the new root; the old root loses its children; nothing else changes |
| `Reannotator.MoveRootKeepsLength` | graftm/reannotator.py:68-70 | moving the root across the branch keeps the total branch length |
| `Reannotator.TrivialRerootKeepsTree` | graftm/reannotator.py:62-72 | the trivial case leaves a well-formed tree with the same total length, rooted at a node with children `[node, sister]` and the lengths moved as stated |
| `Reannotator.TrivialRerootLinked` | graftm/reannotator.py:67-71 | the links after the trivial case are consistent in both directions |
| `Reannotator.InsertPivot` | graftm/reannotator.py:76-83 | the general case fails exactly on a childless root, and otherwise exactly on a parentless node; on success it is the splice of the new node between `node` and its parent, rooted as before |
| `Reannotator.Splice` | graftm/reannotator.py:76-83 | the marked node (the old root's first child) is renamed `ochild`; `node` leaves its parent's child list, and a new length-0 node with `node` as its only child is appended to that list; nothing else changes |
| `Reannotator.InsertPivotKeepsTree` | graftm/reannotator.py:76-83 | the splice keeps a well-formed tree with the same root and total length, with the new node between `node` and its old parent |
| `Reannotator.SpliceLinked` | graftm/reannotator.py:82-83 | the links after the splice are consistent in both directions |
| `Reannotator.SpliceKeepsLength` | graftm/reannotator.py:82-83 | the splice keeps the total branch length |
| `Reannotator.Reroot` | graftm/reannotator.py:57-83 | rerooting raises exactly at the current root; a child of the root takes the trivial case, with its outcome or its error, and any other node takes the general case |
| `Reannotator.RerootKeepsLength` | graftm/reannotator.py:57-83 | both cases keep a well-formed tree and the total branch length |
| `Reannotator.CollapseDummy` | graftm/reannotator.py:87-99 | the collapse raises NoParent exactly without a parent, and otherwise "Unexpected number of 1 child nodes" exactly when the single-child nodes among the two are not one, the grandchildren error exactly when that node's child has not two children, and MissingLength exactly when a length is missing; on success the node absorbs its child, keeping the root and the arena size |
| `Reannotator.OneChildNodes` | graftm/reannotator.py:89 | the nodes to remove are those of the old child and its parent, in that order, that have exactly one child |
| `Reannotator.Collapse` | graftm/reannotator.py:95-99 | the surviving node takes the grandchildren (their parent links set to it), adds the removed child's length to its own and loses its name; the child leaves the tree |
| `Reannotator.CollapseKeepsTree` | graftm/reannotator.py:86-99 | the collapse keeps a well-formed tree with the same root and the same total length |
| `Reannotator.CollapseTotal` | graftm/reannotator.py:97 | the removed branch's length moves onto the surviving node, so the total is unchanged |
| `Reannotator.RerootWorkaround` | graftm/reannotator.py:57-83 | the source's branches and assignments give `Reroot` |
| `Reannotator.MoveRootInPlace` | graftm/reannotator.py:64-72 | the trivial case's field assignments, in order, give `MoveRoot` |
| `Reannotator.SpliceInPlace` | graftm/reannotator.py:76-83 | the general case's assignments, in order, give `Splice` |
| `Reannotator.RemoveDummyRoot` | graftm/reannotator.py:87-99 | the removal code, checks included, gives `CollapseDummy` |
| `Reannotator.CollapseInPlace` | graftm/reannotator.py:95-99 | the grandchild loop and the field assignments give `Collapse` |
| `Classify.TaxFields` | graftm/classify.py:10 | the fields kept are non-empty and contain no comma |
| `Classify.TaxFieldsOfJoin` | graftm/classify.py:10 | the fields are the line's non-empty comma-separated pieces, in order: fields joined by commas and followed by trailing whitespace come back unchanged |
| `Classify.Lineage` | graftm/classify.py:11 | the lineage is `Root` followed by the fields from index 5 on, or `Root` alone for a shorter line |
| `Classify.TaxFromAppend` | graftm/classify.py:10-11 | each line is applied to the table the earlier lines gave: a later line overwrites, a header line is skipped |
| `Classify.TaxFromOk` | graftm/classify.py:10-11 | reading fails exactly when a non-header line has no non-empty field |
| `Classify.TaxFromKeys` | graftm/classify.py:10-11 | the table's ids are exactly the first fields of the non-header lines |
| `Classify.TaxFromRoot` | graftm/classify.py:11 | every lineage read starts at `Root` |
| `Classify.SeenStep` | graftm/classify.py:46-54 | merging a row succeeds exactly for a usable row, keeps `seen` consistent, and fails only with the three row errors |
| `Classify.SeenFrom` | graftm/classify.py:45-54 | the merge succeeds exactly when every row is usable, and keeps `seen` consistent |
| `Classify.SeenFromKeys` | graftm/classify.py:45-54 | after the merge the ids held are those held before plus those the rows name |
| `Classify.SeenFromSums` | graftm/classify.py:45-54 | each id holds the sum of its rows' like-weight ratios on top of what it held |
| `Classify.SeenIds` | graftm/classify.py:45-54 | from empty, the merge holds exactly the rows' ids, each with its summed ratio and its taxonomy lineage |
| `Classify.Values` | graftm/classify.py:58 | the hypotheses listed in first-seen order, one per id |
| `Classify.Decide` | graftm/classify.py:55-60 | the decision fails generically exactly on no id or one id below 0.98, fails otherwise only when voting accepts nothing, and gives equally long lists |
| `Classify.Consolidate` | graftm/classify.py:44-60 | when consolidation fails, the error is a row error exactly when some row is unusable, and otherwise the generic or the voting error; results have equally long label and confidence lists |
| `Classify.ConsolidateGeneric` | graftm/classify.py:55-60 | the generic exception is raised exactly when the rows name no id, or a single id whose sum is below 0.98 |
| `Classify.ConsolidateFull` | graftm/classify.py:55-56 | a single id with sum at least 0.98 gives its whole lineage, with that sum as every rank's confidence |
| `Classify.MergeRow` | graftm/classify.py:47-54 | one pass of the merge loop, updating the dictionary, gives `SeenStep` |
| `Classify.ConsolidatePlacements` | graftm/classify.py:44-60 | the merge loop and the decision give `Consolidate` |
| `Classify.MaxPath` | graftm/classify.py:23 | the number of ranks comes from a lineage that no other lineage exceeds in list order |
| `Classify.BestUpTo` | graftm/classify.py:31 | the pair found is a label's tally and no label's pair is greater |
| `Classify.VoteIsMaximum` | graftm/classify.py:24-31 | the winning label has the highest summed confidence, and among labels tied with it the greatest |
| `Classify.Votes` | graftm/classify.py:23-33 | one vote per rank up to the greatest lineage's length |
| `Classify.ReduceFromAccepted` | graftm/classify.py:34-38 | what the loop accepts extends what it had: each label won its rank above the threshold, in rank order |
| `Classify.ReduceFromNothing` | graftm/classify.py:39-42 | the loop fails only with "Programming error.", exactly when nothing was accepted and no later rank could be voted on |
| `Classify.ReduceShape` | graftm/classify.py:19-42 | voting fails on no hypotheses; otherwise it gives equally long lists of rank winners above the threshold in rank order, taken from exactly the voted ranks before the first rank whose winner is not above the threshold, and raises "Programming error." exactly when no rank could be voted on |
| `Classify.ReduceFromRanks` | graftm/classify.py:22-38 | from any rank on, the loop accepts exactly the voted ranks before the first one whose winner is not above the threshold |
| `Classify.ReduceOutcome` | graftm/classify.py:34-42 | voting over hypotheses fails only with "Programming error." and otherwise gives equally long lists |
| `Classify.TallyStep` | graftm/classify.py:26-30 | one more hypothesis adds its confidence to its label's tally, or starts it |
| `Classify.TallyRank` | graftm/classify.py:24-33 | the tally loop gives the per-label sums, and nothing exactly when some lineage is too short (the skipped rank) |
| `Classify.RankCovered` | graftm/classify.py:25-33 | the rank is reached by every lineage exactly when no IndexError skips it |
| `Classify.BestRank` | graftm/classify.py:31 | `max` over the tally gives `BestUpTo` |
| `Classify.ReduceTaxStringLoop` | graftm/classify.py:19-42 | the voting loop, appending and stopping at the first rank below the threshold, gives `ReduceTaxString` |
| `Classify.IndexOf` | graftm/classify.py:64-65 | `list.index` finds the first position of the value, and fails exactly when it is absent |
| `Classify.FieldIndices` | graftm/classify.py:63-67 | the field check succeeds exactly when both fields are present, giving their first positions |
| `Classify.ReadKey` | graftm/classify.py:75 | the key is the read name without its last two characters |
| `Classify.Store` | graftm/classify.py:74-77 | the read is filed under bucket `read[-1]` and key `read[:-2]`; every other entry is kept |
| `Classify.BucketReads` | graftm/classify.py:72-77 | filing fails only on an empty read name |
| `Classify.BucketReadsLookup` | graftm/classify.py:72-77 | filing succeeds exactly without empty names; every read is found under its bucket and key with the group's assignment, and no other entry changes |
| `Classify.AssignFrom` | graftm/classify.py:69-79 | the group loop never reports missing fields |
| `Classify.Assign` | graftm/classify.py:62-79 | the fatal field error is raised exactly when `like_weight_ratio` or `classification` is absent |
| `Classify.AssignAppend` | graftm/classify.py:69-77 | filing one more group is consolidating it and filing its names over what the earlier groups gave |
| `Classify.LastGroupWins` | graftm/classify.py:72-77 | after the last group is filed, each of its reads maps to its assignment, overwriting earlier groups |
| `Classify.AssignPlacement` | graftm/classify.py:62-81 | the field check and the nested loops filling the buckets give `Assign` |
| `Classify.FileReads` | graftm/classify.py:72-77 | the inner loop over read names gives `BucketReads` |
| `GraftmPackage.CheckUniversalKeys` | graftm/graftm_package.py:71-79 | succeeds exactly when the version is present and equals the requested one; fails with "No version" exactly when absent, and "Bad version" otherwise |
| `GraftmPackage.FirstMissing` | graftm/graftm_package.py:85-87 | nothing is missing exactly when every key is present; otherwise the key found is missing and every earlier one present |
| `GraftmPackage.CheckRequiredKeys` | graftm/graftm_package.py:81-87 | the loop raises exactly when some key is absent, naming the first one |
| `GraftmPackage.Acquire` | graftm/graftm_package.py:45-69 | acquire succeeds exactly when the version is 2 and the five version-2 keys are present, keeping the manifest; with a good version it names the first missing key |
| `GraftmPackage.AcquireIgnoresOptionalKeys` | graftm/graftm_package.py:96-103 | an accepted manifest stays accepted without `diamond_database` and `range` |
| `GraftmPackage.Join` | graftm/graftm_package.py:107-108 | `os.path.join`: an absolute second part wins; otherwise the result starts with the first part and ends with the second, and a `/` is added between them exactly when the first part is non-empty and does not already end in one |
| `GraftmPackage.Basename` | graftm/graftm_package.py:172 | the base name is the suffix after the last `/` and holds no `/` |
| `GraftmPackage.PathOf` | graftm/graftm_package.py:117-123 | a path accessor succeeds exactly when the key holds a string, joined to the package directory |
| `GraftmPackage.Lookup` | graftm/graftm_package.py:125-129 | the stored value is returned exactly when present |
| `GraftmPackage.JoinEach` | graftm/graftm_package.py:113-115 | every element joined to the base, same length and order; fails exactly when an element is not a string |
| `GraftmPackage.SearchHmmPaths` | graftm/graftm_package.py:113-115 | the search HMM list is joined to the base element by element, keeping its length and order |
| `GraftmPackage.DiamondDatabasePathAsWritten` | graftm/graftm_package.py:105-110 | as written, a manifest without the diamond key raises KeyError, and a present key gives None when its value is false and the joined path when it is a string |
| `GraftmPackage.DiamondDatabasePath` | graftm/graftm_package.py:105-110 | no database, absent or false, gives None; a present key behaves as written |
| `GraftmPackage.DiamondValue` | graftm/graftm_package.py:106-110 | a false value gives None, a string is joined to the package directory |
| `GraftmPackage.RefpkgFilePath` | graftm/graftm_package.py:131-140 | a taxtastic path exists exactly when the reference package path does and the reference manifest has a `files` object naming the file as a string; it is then the reference package directory joined with that name; a missing reference package path or `files` entry is reported as such |
| `GraftmPackage.Compile` | graftm/graftm_package.py:168-189 | fails exactly when the output exists; otherwise version 2, `align_hmm` and one-element `search_hmms` holding the HMM base name, the refpkg base name, cutoff and range; the diamond key exactly when a file is given; no other key |
| `GraftmPackage.CompileContents` | graftm/graftm_package.py:182-189 | the dictionary literal and the conditional insert give `Compile` |
| `GraftmPackage.CompiledIsAcquired` | graftm/graftm_package.py:182-189 | every manifest `compile` writes passes both checks of `acquire` |
| `GraftmPackage.CompiledPaths` | graftm/graftm_package.py:105-129 | the acquired package's paths point at the files `compile` stored, and the diamond path is set exactly when a database with a non-empty base name was given |
| `GraftmPackage.NucleotidePackageDiamondFails` | graftm/graftm_package.py:105-110 | a package compiled without a database makes the written accessor fail where the intended one gives None |
| `Create.WordsOfSelected` | graftm/create.py:55 | a selected header line has a first word |
| `Create.AlphabetAsWritten` | graftm/create.py:57-63 | as written, every alphabet is accepted: `amino` is protein and anything else nucleotide |
| `Create.Alphabet` | graftm/create.py:57-63 | `amino` is protein, `DNA` and `RNA` are nucleotide, anything else raises "Unfamiliar HMM type" |
| `Create.HeaderAppend` | graftm/create.py:56-67 | each header line is applied to what the earlier lines gave |
| `Create.LastLineWins` | graftm/create.py:56-67 | a last `LENG` line sets the length and a last `ALPH` line the type, overriding earlier ones; any other first word raises "Misread HMM file" |
| `Create.AsWrittenNeverUnfamiliar` | graftm/create.py:60-63 | as written, no header ever raises "Unfamiliar HMM type" |
| `Create.AlphabetsAgree` | graftm/create.py:57-63 | the written and intended readings agree on every header whose alphabets are `amino`, `DNA` or `RNA` |
| `Create.UnfamiliarAlphabetLetThrough` | graftm/create.py:60-63 | `ALPH protein` reads as nucleotide as written and as unfamiliar as intended |
| `Create.PipeTypeLoop` | graftm/create.py:53-70 | the loop reassigning `ptype` and `leng` gives the intended reading of the header |
| `Create.Suffixes` | graftm/create.py:42-44 | each round appends at least two characters |
| `Create.SkipTaken` | graftm/create.py:42-44 | the loop ends at a free name built from the base by the rounds made, all earlier candidates taken |
| `Create.BuildHmmName` | graftm/create.py:38-47 | the HMM name is the first free candidate `base`, `base_0`, `base_0_1`, …; it is never an existing file |
| `Create.RefpkgName` | graftm/create.py:107-110 | the name is the prefix when given, else the base, followed by `.refpkg` |
| `Create.GpkgName` | graftm/create.py:136-141 | the name is the prefix when given, else the base, followed by `.gpkg`; it fails exactly when that directory exists |
| `Create.NamesShareStem` | graftm/create.py:107-110 | the reference package and the GraftM package carry the same stem |

## Left out

- Reading files, JSON decoding, `os.path.isfile`/`isdir`/`exists` and directory work are not modelled. The model takes the lines, the decoded objects and the set of existing names as inputs.
- The external tools (`hmmbuild`, `hmmalign`, `seqmagick`, `FastTree`, `taxit`), their timeouts and `exit(2)` are left out. So are logging, the `print` calls and the `IPython.embed()` hook before "Bad version".
- `checkAlnLength`, `alignSequences`, `buildTree`, `cleanup`, `generate_tree_log_file` and `main` in graftm/create.py are process and file work and are not modelled.
- The tokenizer's `for line in fh` is modelled as one pass over all characters; splitting into lines does not change which characters are seen, or in what order.
- The tokenizer is a generator consumed lazily, so its error surfaces only after the parser has used the earlier tokens. The model returns the tokens yielded before the error plus a flag.
- Lengths and confidences are `real`. IEEE rounding is not modelled, and `float()` of a `[\d.]+` group is exact decimal.
- scikit-bio's `tips` and `lowest_common_ancestor` are defined on the arena. The LCA query uses every tip under the root carrying a wanted name, whereas scikit-bio's `find` takes the first node with each name.
- scikit-bio's `root_at` and `find` are left out. `CollapseDummy` takes the renamed old child as a parameter, and its lemmas take the tree shape after `root_at` as a precondition.
- `_reroot_tree_by_old_root` as one composite function is not modelled: its second LCA is taken on the tree `root_at` returns. Its decisions are modelled (`ChooseAnchor`, `FarNode`, `RerootsAvoidRoot`), and each reroot is `Reroot` followed by `CollapseDummy`.
- The trivial reroot appends its new root to the end of the arena; the general case appends its new node the same way.
- The collapse clears the removed child's slot to a blank node; in the source that node is simply dropped.
- A missing branch length never beats the best so far, as Python 2 orders None below numbers. Adding a missing length raises MissingLength.
- `Reannotator.Ancestors` walks at most as many steps as the arena has nodes (fuel). A parent chain with a cycle, which a tree cannot have, counts as having no ancestors.
- Python 2 dictionary order in `seen.values()` and `cumil_confidence.items()` is replaced by first-seen order. The results do not depend on it: sums of reals commute, and `max` under a strict total order is order-free.
- A like-weight-ratio cell that is not a number is rejected with NotANumber. Python 2 raises TypeError only where such a cell is added to a number (two rows of one placement, or a label shared by two placements). A lone placement with a string cell passes the `>= 0.98` test, since Python 2 orders strings above numbers, and is returned with that cell as its confidence; a lone label's string cell is compared by `max` and `>` without raising. The model does not follow these cases.
- Each read name in `nm` is given directly; the other fields of each `nm` entry (the multiplicity) are dropped.
- The "Failed to retrieve taxonomy" branch of `assignPlacement` cannot be reached, because a consolidated placement is a non-empty dictionary. It is not modelled.
- The unused `c_idx` and `type` parameters of graftm/classify.py, and the broken `__getitem__` of graftm/graftm_package.py, are not modelled.
- `GraftmPackage.SearchHmmPaths` states its result for a stored list and for a missing key. A stored string, which Python iterates by character, is modelled but not stated. A stored JSON object gives NotAString, whereas Python iterates its keys in dictionary order; that order is not modelled.
- NonEmpty: its own contract does not state the order of what it keeps. `Strings.NonEmptyAppend` and `Strings.NonEmptyAll` do, since a list is the concatenation of its one-element slices.
- Words: its own contract states only that each word is a non-empty run without whitespace. `Strings.WordsAtSpace` and `Strings.WordsOfWord` state which runs they are, in order.
- TaxFields: its own contract states only that each field is non-empty and has no comma. `Classify.TaxFieldsOfJoin` states that the fields are the line's pieces, in order.
- `JPlace.EdgeStep`, `JPlace.CloseStep` and `JPlace.Attach` state only that the step does not finish the tree. Their full effect is stated by `JPlace.EdgeAnnotation` and `JPlace.CloseParen`.
- `Classify.AssignFrom` states only that it never reports missing fields. `Classify.LastGroupWins` and `Classify.AssignAppend` state what it files.

## Findings

| source | as written | input that shows it | evidently intended | confidence | as-written member | corrected member |
|---|---|---|---|---|---|---|
| graftm/jplace.py:34-59 | `edge_indices` starts as an empty list, is never extended, and is indexed with the edge number | any tree with an edge annotation, e.g. `(A:0.1{0},B:0.2{1});`: the first store raises IndexError (lemma `FirstEdgeFailsAsWritten`) | a table from edge number to child-side node, each number filled once | not executed | `JPlace.RecordEdgeAsWritten` | `JPlace.RecordEdge` |
| graftm/jplace.py:9-13 | `child_node` reads `self.edge_indices`, but the constructor stores `self._edge_indices` | any parsed tree and any edge number: AttributeError (lemma `ChildNodeDiscrepancy`) | return the stored child-side node | not executed | `JPlace.ChildNodeAsWritten` | `JPlace.ChildNode` |
| graftm/create.py:60-63 | `item[1]=='DNA' or 'RNA'` is always true, so "Unfamiliar HMM type" can never be raised | header line `ALPH protein` reads as nucleotide (lemma `UnfamiliarAlphabetLetThrough`) | `DNA` or `RNA` is nucleotide and any other value raises | not executed | `Create.AlphabetAsWritten` | `Create.Alphabet` |
| graftm/graftm_package.py:105-110 | `diamond_database_path` indexes the manifest, yet `compile` writes no diamond key for nucleotide packages (lines 175-177, 188-189) | a package compiled with no diamond file: KeyError (lemma `NucleotidePackageDiamondFails`) | None when the package has no database | not executed | `GraftmPackage.DiamondDatabasePathAsWritten` | `GraftmPackage.DiamondDatabasePath` |
