# Verified models of the repository's core algorithms and protocols

This project models, in Dafny, the parts of the repository that are hard to get right by
reading, and proves properties of them. Verify everything with `dafny verify dfyconfig.toml`.

| area | modules |
|---|---|
| Line diff and character diff (Myers' greedy algorithm, 1986), over one array updated in place | `EditScript`, `Myers`, `LineDiff`, `Diff`, `Highlights`, `DiffRows` |
| Side-by-side view in the browser | `Pairing`, `Cells`, `SideBySide` |
| Two-column view in the desktop diff viewer: hunks in the "Diff Default Output Format" of the POSIX.1-2017 `diff` utility | `Spans`, `Columns`, `Display`, `Expanders`, `Gigantick` |
| Include scan by worklist, with one thread and with one thread per file | `IncludePaths`, `IncludeScan`, `IncludeThreads`, `IncludeScanner`, `IncludePieces`, `IncludeLosses`, `IncludeFiles` |
| Protocols over the shared key store | `Watcher`, `MarkRead`, `Numbers` |
| Path trie on the heap | `Trie` |
| Perforce client specifications, tagged output, grep packing, connection pool | `Words`, `ClientOptions`, `ClientSpec`, `ClientCrash`, `ClientLines`, `ClientBlocks`, `TaggedFields`, `TaggedValues`, `GrepPacking`, `ConnectionPool` |
| HTTP router, package publication, cutting up large moves | `Mux`, `Publication`, `MoveSplit` |

How it is laid out. Code that loops over mutable state is a method or a class, proved against
a specification function or predicate; what the source promises is then proved about that
specification. Concurrent code is a state machine: a step is one atomic action of one thread,
caller or server, what the outside world answers is part of the step, and a theorem about
"every run" quantifies over every list of steps from the initial state.

What holds, in short:

* The diff is a shortest one. The search never fails, every array access is in bounds, and
  although points may leave the grid and the exit test is `>=`, the first hit is exactly the
  far corner. Trimming common ends costs no change, and the two sides of the printed diff are
  the two inputs.
* The side-by-side view in the browser shows every line of either file once and in order, beside
  its counterpart, and in a changed line marks as unchanged exactly what one shortest script keeps
  in runs of at least four characters. The two columns of the desktop viewer list every line up to
  the end of the last hunk once and in order, the rows displayed are exactly those within five of a
  hunk, exactly one expander stands wherever two hunks' rows are not joined, and it never aborts.
* The single-threaded include scan finds exactly the files reachable by includes that its scanner
  sees, and its name cache changes nothing. The scanner loses no include or definition exactly if
  none stands where the value of a definition without one is still looked for, and behind every
  directive that ends its line a blank comes before the next of them. With threads only reachable
  files are found, each queued once; but the exit test can leave too early, and the exact condition
  for a complete result is proved.
* Submitted changes are handed out at least once; marking comments read loses no update.
* The trie is a finite map from segment lists; the router serves a matching route of greatest
  specificity; a client specification survives printing and parsing exactly if it has no
  description, no change view and no repeated or contradicting options; parsing any text succeeds
  with exactly what its lines say, line by line; and it fails at run time exactly if it reaches a
  line of white space that is not trimmed away.
* The order in which tagged fields arrive does not matter exactly if no two of them write
  different values to one cell; each key finds its cell, which then holds what the text means.
* A pooled connection is always in one place with its own credentials. Every publication ends; the
  package ends up marked complete exactly if no upload failed twice and the marking itself worked.
  A complete package has all files exactly if each could be opened, and all entries exactly if each
  batch could be stored.
* A split move moves every file once to its own place exactly if neither end of the move is
  inside the other.

## Where the code differs from what is said about it

* `tools/ebert/watcher/watcher.go:51` logs that after a failed lookup the last checked change is
  used. The lookup returns "0" beside its error (`libs/go/p4lib/p4_keys.go:46-52`), so outside
  dev mode the last checked change goes back to 0, and the plain set that follows can lower the
  key (`Watcher.FailedReadLowersKey`, `Watcher.StoreLowersIff`).
* `libs/go/p4lib/p4.go:131-132` says that reading a missing key is not an error;
  `libs/go/p4lib/p4_keys.go:52` returns one whenever the reply does not mention the key. What the
  server prints for a missing key is not part of this repository.
* `tools/ebert/script/diff.js:263-268` promises the closest matching line; the search never
  looks at the last row (`SideBySide.LastRowMissed`), and the cap on line 278 never applies,
  since the index is an object without a length.
* `tools/incredible/src/main.rs:538-547` reads the queue and the job counter one after the
  other, so the threaded scan can leave with work in the queue (`IncludeThreads.ExitTooEarly`).
* A directive that ends its line, such as a bare `#endif`, swallows what follows up to the next
  blank, and a definition without a value, such as an include guard, takes the next word for its
  value (`IncludeLosses.AllReadIff`, `IncludePieces.BareDirectiveSwallows`,
  `IncludePieces.IncludeAfterGuardIff`).
* `tools/gigantick/diff.go:248-271` shows an expander also where two spans touch and nothing is
  hidden (`Expanders.ExpanderForNothing`, `Expanders.ExpanderIff`).
* `tools/gigantick/diff.go:83-120` is safe for the ranges it is given, not for any ranges
  (`Spans.InsertConsistentIff`).
* `parseClient` takes the first token of a line that has none, if the line is white space that
  the trimming leaves standing, such as a tab (`libs/go/p4lib/p4_impl.go:236-250`): it fails at run
  time exactly if such a line is reached outside a block before any error (`ClientCrash.CrashIff`,
  `ClientCrash.OneCharacterCrashes`).
* A file that cannot be opened is silently left out of a package: the callback's error is dropped
  (`libs/go/builddist/make_package.go:72`; `Publication.CompleteMeansAllFilesIff`,
  `Publication.CompleteWithoutFile`).
* `libs/go/builddist/make_package.go:187-195` ignores a batch that could not be stored
  (`Publication.CompleteMeansStoredIff`, `Publication.CompleteWithoutEntry`).

## Model

| member | source | states |
|---|---|---|
| Myers.Search | tools/ebert/diff/diff.go:84-122 | never fails; the script leads exactly from one sequence to the other, with the fewest insertions and deletions of all scripts that do |
| Myers.Round | tools/ebert/diff/diff.go:94-119 | one round either ends on a shortest script or has put the corner out of reach of its number of changes |
| Myers.Advance | tools/ebert/diff/diff.go:94-118 | one step of a round reaches as far on its diagonal as any script with that many changes, without leaving the array |
| Myers.Slide | tools/ebert/diff/diff.go:104-110 | follows equal elements as far as they go, and the script keeps leading to the point reached |
| Myers.Hit | tools/ebert/diff/diff.go:111-116 | the first point at or past the far corner is the corner, and its script is a shortest one |
| Myers.WithinReach | tools/ebert/diff/diff.go:93 | no round after m + n is needed |
| EditScript.StepFurthest | tools/ebert/diff/diff.go:95-110 | bounds on the two neighbouring diagonals bound this one: the furthest-reaching invariant of the greedy search |
| EditScript.Clamp | tools/ebert/diff/diff.go:111-115 | a script that leaves the grid can be cut back to it, saving a change for every step outside |
| EditScript.FirstCoverIsExact | tools/ebert/diff/diff.go:111-116 | the first script found to cover the corner ends on it and no script with the same effect has fewer changes |
| EditScript.ReplaceAll | tools/ebert/diff/diff.go:93 | deleting all and inserting all is a script, so the search ends by round m + n |
| LineDiff.ShortestIffLongestKept | tools/ebert/diff/diff.go:81-122 | a diff is shortest exactly if the lines it keeps are a longest common subsequence; its cost is m + n minus twice their number |
| LineDiff.DiffKeeping | tools/ebert/diff/diff.go:124-147 | every common subsequence is what some diff keeps |
| LineDiff.KeptIsCommon | tools/ebert/diff/diff.go:124-147 | the kept lines are a common subsequence of the two sides |
| LineDiff.TrimmedIsShortest | tools/ebert/diff/diff.go:30-46 | a shortest diff of the middles between kept common ends is a shortest diff of the whole |
| Diff.BuildDiffs | tools/ebert/diff/diff.go:124-147 | succeeds exactly if the script is valid, and then yields a diff of what it consumed, with the script's cost |
| Diff.MyersDiff | tools/ebert/diff/diff.go:84-122 | always succeeds with a shortest diff, also for empty inputs |
| Diff.FindCommonPrefix | tools/ebert/diff/diff.go:50-61 | the longest common prefix |
| Diff.FindCommonSuffix | tools/ebert/diff/diff.go:63-77 | the longest common suffix |
| Diff.Compute | tools/ebert/diff/diff.go:23-48 | never fails; read back line by line the output is a shortest diff of the two texts' lines, and its sides joined are the two texts |
| Diff.LinesOfJoin | tools/ebert/diff/diff.go:23-48 | joining the lines of a shortest diff and splitting again loses nothing |
| DiffRows.MyersDiff | tools/ebert/script/diff.js:17-71 | the runs concatenate back to both strings, are maximal, and spell a script with the fewest changes of all |
| DiffRows.CleanShowsSide | tools/ebert/script/diff.js:84-92 | cleaning short equal pieces changes only how they are marked: the side still shows its text |
| DiffRows.FineDiffs | tools/ebert/script/diff.js:98-103 | left pieces show `from` and right pieces `to`, with each side's own marks; for one script of fewest changes a character is marked unchanged exactly if the script keeps it in a run of at least four; both sides have the same unchanged pieces |
| DiffRows.FineMarks | tools/ebert/script/diff.js:84-103 | cleaning the two sides of a shortest diff of maximal runs marks exactly that |
| Highlights.StepsMark | tools/ebert/script/diff.js:84-103 | marks that follow the script step by step mark every character as the script and the length of its run say |
| DiffRows.SameUnchanged | tools/ebert/script/diff.js:84-103 | the two sides keep the same unchanged pieces, in the same order |
| SideBySide.DiffLines | tools/ebert/script/diff.js:105-204 | every line of either side is in exactly one row, in order, showing its own text, in the row that its place in its run of changes calls for; every row is a kept line, a change highlighted as above, a deletion or an addition alone; every line has a cell of its own kind, and its text to match comments against exactly if it opened the row; `change` counts the unpaired rows at the end, all of one side |
| Cells.CellsNext | tools/ebert/script/diff.js:124-204 | each branch gives the next line a cell of its kind, with its text exactly if the line opens a row, and leaves kinds and texts of the earlier lines alone |
| Pairing.SharedRowIff | tools/ebert/script/diff.js:147-200 | a deletion and an addition share a row exactly if they are in one run of changes and are both the k-th of their kind there |
| Pairing.LaidNext | tools/ebert/script/diff.js:124-204 | each branch puts the next line in the row it belongs to, and keeps the count of unpaired rows |
| SideBySide.ColumnsAreFiles | tools/ebert/script/diff.js:116-128 | for the diff of two files the two columns are the two files, but for a carriage return in each line |
| SideBySide.MatchContext | tools/ebert/script/diff.js:275-313 | the recorded row if its text is unchanged, else the nearest row but the last that starts with the text, backwards first |
| SideBySide.LastRowMissed | tools/ebert/script/diff.js:294-312 | the row found is the nearest of all exactly unless the last row is the only nearest |
| SideBySide.LastRowExample | tools/ebert/script/diff.js:294-312 | a concrete text that moved to the last row and is not found |
| Spans.DiffSpanner.Insert | tools/gigantick/diff.go:83-120 | the spans become those of the specification; returns whether validation accepts them |
| Spans.DiffSpanner.Validate | tools/gigantick/diff.go:122-133 | accepts exactly the spans that are ordered and do not overlap |
| Spans.SpansSorted | tools/gigantick/diff.go:83-133 | after any non-decreasing ranges the spans are sorted and strictly disjoint, so nothing aborts |
| Spans.SpansAreUnion | tools/gigantick/diff.go:83-120 | they cover exactly the union of the ranges widened by five and clamped at zero |
| Spans.PlacedAtEnd | tools/gigantick/diff.go:96-118 | a range not before the last span is merged into it or appended |
| Spans.InsertConsistentIff | tools/gigantick/diff.go:83-133 | for any spans that validation accepts and any range: exactly when the insertion makes the program abort |
| Columns.HunkAligned | tools/gigantick/diff.go:198-239 | one hunk after an equal gap keeps the columns equally long, faithful and paired |
| Columns.ValidDiffAligned | tools/gigantick/diff.go:197-243 | for a valid diff, after every hunk: equal lengths, every line index of each side once and increasing, unchanged rows with equal text |
| Display.LayOut | tools/gigantick/diff.go:246-272 | the rows of the specification, whose expanders and code rows the next lemmas place |
| Expanders.RangesExpandable | tools/gigantick/diff.go:246-272 | for any non-decreasing ranges: the first row is row 1 or an expander for the row above the first; two code rows follow each other directly exactly if they are neighbours near one range, and else exactly one expander, for the row below the upper one, stands between them; nothing else is in the display |
| Expanders.ExpanderIff | tools/gigantick/diff.go:248-271 | the row after a code row is an expander exactly if rows are left out there or no one range joins the two |
| Expanders.FirstExpanderIff | tools/gigantick/diff.go:248-255 | the display starts with row 1, or with one expander for the row above its first code row |
| Expanders.ExpanderForNothing | tools/gigantick/diff.go:248-271 | a concrete pair of ranges with an expander between two neighbouring rows |
| Display.LaidOutCodes | tools/gigantick/diff.go:246-272 | the code rows are exactly the rows inside some span, once each and increasing |
| Display.FittingInColumns | tools/gigantick/diff.go:246-272 | every code and expander row points inside the columns |
| Display.CheckConsistency | tools/gigantick/diff.go:146-156 | accepts exactly the displays whose code rows do not go backwards |
| Display.InsertComments | tools/gigantick/diff.go:287-365 | splicing from the last comment to the first, as specified |
| Display.AnchorReached | tools/gigantick/diff.go:275-285 | in rows that are in order a code row is at or after a comment's anchor exactly if it reaches the comment's first line; without a line there is no anchor |
| Display.CommentsWoven | tools/gigantick/diff.go:275-285 | every row stays, each comment follows the first row that reaches its line, comments on one row keep their order, the rest come last |
| Display.CommentsKeepCodes | tools/gigantick/diff.go:353-364 | comments change neither the code rows nor their order |
| Gigantick.FileDiff.ListHunk | tools/gigantick/diff.go:198-241 | the two in-place columns and cursors become the specified table |
| Gigantick.FileDiff.ListHunks | tools/gigantick/diff.go:192-243 | all hunks laid out and all ranges inserted, without an abort |
| Gigantick.FileDiff.Build | tools/gigantick/diff.go:135-370 | for any parsed hunks never aborts; code rows are exactly the rows near a change; exactly one expander stands where the rows shown are not joined by one hunk, and above the first if row 1 is not shown; every row number is inside the columns; comments are woven in; a finished diff is left alone |
| Gigantick.RangesNonDecreasing | tools/gigantick/diff.go:205-242 | the ranges handed to the spanner never go backwards |
| Gigantick.SpansFitting | tools/gigantick/diff.go:242-272 | the spans leave every expander a row to point at |
| Gigantick.DisplayFacts | tools/gigantick/diff.go:246-366 | the display with comments passes both consistency checks and shows exactly the rows near a change |
| Gigantick.Pad | tools/gigantick/diff.go:185-190 | both files get just enough empty lines for the last line number |
| IncludePaths.PathAbsolute | tools/incredible/src/main.rs:118-135 | the normal form that the next three lemmas fix |
| IncludePaths.ParentCancels | tools/incredible/src/main.rs:122-128 | `..` takes off the component before it, wherever the two stand |
| IncludePaths.ParentOfNothing | tools/incredible/src/main.rs:122-128 | a leading `..` does nothing |
| IncludePaths.AbsoluteIsOnly | tools/incredible/src/main.rs:118-135 | no other function does both and leaves paths without `..` alone |
| IncludePaths.AbsoluteIsNormal | tools/incredible/src/main.rs:118-135 | no `..` is left, so it is idempotent, and a path without any is unchanged |
| IncludePaths.IncludeResolvePath | tools/incredible/src/main.rs:141-181 | the first candidate, in the order searched, that is a file |
| IncludePaths.ResolvesFirst | tools/incredible/src/main.rs:149-169 | quoted names are looked for beside the file first, bracketed names in the first include path |
| IncludePaths.ResolvesInOrder | tools/incredible/src/main.rs:141-181 | a quoted name beside the file wins, else the first include path, of all of them, that has the name; nothing exactly if none has |
| IncludeScanner.MacroMeans | tools/incredible/src/main.rs:365-405 | a macro defined as a name in quotes or in angle brackets includes that name, of that kind; any other defines nothing to include |
| IncludePaths.ClosedHasReachable | tools/incredible/src/main.rs:511-547 | a set closed under includes of the inputs and of itself holds every reachable file |
| IncludeScan.KindsDiffer | tools/incredible/src/main.rs:520-523 | one name can mean two files, so quoted and bracketed names need caches of their own |
| IncludeScan.AddedFresh | tools/incredible/src/main.rs:208-230 | what a scan adds was new, exists, is included by the file, and is queued once |
| IncludeScan.EdgesAdded | tools/incredible/src/main.rs:208-230 | every file included is found |
| IncludeScan.ScannedNext | tools/incredible/src/main.rs:511-528 | reading the next file keeps the invariant and either finds a new file or shortens the queue |
| IncludeScan.Scan.FileAdd | tools/incredible/src/main.rs:187-232 | the cache changes nothing: skipping a cached name or adding it, exactly what adding without a cache does |
| IncludeScan.Scan.AddAll | tools/incredible/src/main.rs:196-230 | with fresh caches, adding directives one after another finds exactly what is found without caches |
| IncludeScan.Scan.FileProcess | tools/incredible/src/main.rs:238-420 | adds the file's directives in order, as without caches |
| IncludeScan.Scan.Run | tools/incredible/src/main.rs:511-547 | the single-threaded loop terminates with exactly the files reachable by one or more includes |
| IncludeThreads.AllRunsSafe | tools/incredible/src/main.rs:511-547 | in every interleaving only reachable files are found, none is queued twice, and the job counter counts what is running |
| IncludeThreads.ExitComplete | tools/incredible/src/main.rs:538-552 | after leaving, every thread has ended, and the result is complete exactly if nothing in the queue includes anything new |
| IncludeThreads.ExitTooEarly | tools/incredible/src/main.rs:538-547 | a concrete interleaving that leaves with a file missing |
| IncludeScanner.FileRefs | tools/incredible/src/main.rs:238-420 | one pass over the data, byte by byte, as specified |
| IncludePieces.ScanOfPieces | tools/incredible/src/main.rs:238-420 | for text made of includes, definitions with and without values, other directives and plain text: just which includes and definitions the scanner comes to |
| IncludeLosses.AllReadIff | tools/incredible/src/main.rs:278-345 | no include and no definition is lost exactly if none stands where the value of a definition without one is still awaited, and behind every bare directive outside such places a blank comes before the next of them |
| IncludePieces.NothingLostIff | tools/incredible/src/main.rs:278-297 | without definitions that lack a value: exactly if behind every bare directive a blank comes before the next include or definition |
| IncludePieces.ScanOfRender | tools/incredible/src/main.rs:238-420 | then exactly the includes asked for are found, through macros and later definitions, and exactly the definitions hold |
| IncludePieces.FoundAllIff | tools/incredible/src/main.rs:278-297 | of includes by name all are found exactly under that condition |
| IncludePieces.IncludeAfterGuardIff | tools/incredible/src/main.rs:328-345 | an include after a definition without a value is found exactly if the text in between ends the search for the value |
| IncludePieces.BareDirectiveSwallows | tools/incredible/src/main.rs:278-297 | for example, the include behind a bare directive is lost |
| IncludeFiles.ScanFiles | tools/incredible/src/main.rs:455-552 | the scan of files with contents finds exactly what is reachable by includes that the byte scanner sees in them |
| IncludeFiles.FileIncludes | tools/incredible/src/main.rs:238-420 | the byte scanner is what gives a file its includes |
| IncludeFiles.EdgesOfPieces | tools/incredible/src/main.rs:238-420 | for a file of well-formed directives the edges are the includes its directives ask for |
| Numbers.ItoaRoundTrip | tools/ebert/watcher/watcher.go:53-82 | printing a 64-bit integer and parsing it gives it back |
| Watcher.RunSafe | tools/ebert/watcher/watcher.go:38-89 | the invariant behind delivery holds after every run |
| Watcher.AtLeastOnce | tools/ebert/watcher/watcher.go:38-89 | in every state of every run of any number of watchers, failed reads and lost writes included, every submitted change above the starting watermark and at or below the key or any watcher's last checked one has been dispatched |
| Watcher.StoreLowersIff | tools/ebert/watcher/watcher.go:74-83 | a write lowers an integer key exactly if it is the plain set after reading "0" and the watcher has checked less; a check-and-set never does |
| Watcher.FailedReadLowersKey | tools/ebert/watcher/watcher.go:49-83 | a concrete run in which one failed read sets the key back to 0 |
| Watcher.QuietRound | tools/ebert/watcher/watcher.go:48-85 | a round without errors, from any key: a whole page after the number in the key is dispatched and the key ends at its last change; in development mode the greater of key and own number counts, and the key stays |
| MarkRead.AllRunsSafe | tools/ebert/handlers/comments/comments.go:326-360 | over all interleavings of readers and outside writers no update is lost |
| MarkRead.MarkLosesNothing | tools/ebert/handlers/comments/comments.go:347-352 | a mark by an absent user keeps the stored comment equal to the last outside write plus the marks since |
| MarkRead.CasAppendsReader | tools/ebert/handlers/comments/comments.go:347-352 | a successful check-and-set appends one absent user to the comment as it is then and changes nothing else |
| MarkRead.NoDuplicates | tools/ebert/handlers/comments/comments.go:342-347 | nobody is named twice as long as outside writers name nobody twice |
| MarkRead.MismatchMeansWrite | libs/go/p4lib/p4_keys.go:75-84 | a mismatch means something was written after the read |
| MarkRead.ReadersStay | tools/ebert/handlers/comments/comments.go:326-360 | without outside writes every reader keeps its place and every other field its value |
| MarkRead.MarkedIfQuiet | tools/ebert/handlers/comments/comments.go:326-360 | a read and a check-and-set with no write in between end with an absent reader added last and nothing else changed, and find a reader who is there |
| Trie.SegmentsInjective | libs/go/trie/path_trie.go:32-35 | different paths have different segments |
| Trie.PathTrie.Put | libs/go/trie/path_trie.go:32-44 | the map changes at exactly this path; a nil value removes it |
| Trie.PathTrie.Get | libs/go/trie/path_trie.go:46-56 | the map's value at exactly this path |
| Trie.PathTrie.GetLongestPrefix | libs/go/trie/path_trie.go:58-73 | the value of the longest prefix that has one, nil exactly if none has |
| Trie.PathTrie.GetShortestPrefix | libs/go/trie/path_trie.go:75-88 | the value of the shortest prefix that has one, nil exactly if none has |
| Trie.PathTrie.NothingBeyond | libs/go/trie/path_trie.go:61-66 | where the nodes end no longer path has a value |
| Words.FieldsJoin | libs/go/p4lib/p4_impl.go:434-449 | joining words with blanks and splitting again gives the words |
| Words.FieldsTrim | libs/go/p4lib/p4_impl.go:434-436 | trimming white space does not change the words |
| ClientOptions.InverseInvolutive | libs/go/p4lib/p4.go:288-316 | opposites are options, differ, and are each other's opposites |
| ClientOptions.AppendClientOption | libs/go/p4lib/p4.go:321-341 | an option that is there stays, its opposite is replaced in place, else it goes last; an unknown one is an error |
| ClientOptions.AppendedCompatible | libs/go/p4lib/p4.go:318-341 | a list without repeats and opposites stays so |
| ClientOptions.AppendedAllIff | libs/go/p4lib/p4_impl.go:383-404 | adding a list one by one gives it back exactly if it has no repeats and no opposites |
| ClientSpec.ClientString | libs/go/p4lib/p4.go:343-390 | the printed specification |
| ClientSpec.ParseClient | libs/go/p4lib/p4_impl.go:230-366 | the loop over the lines, with its blocks, computes the parse or the first error, as the next lemmas say line by line |
| ClientLines.ParseOkIff | libs/go/p4lib/p4_impl.go:230-431 | for any text: Ok with c exactly if no line is wrong or fails, every mandatory field is set, and c has, field by field, what the lines give: the last value of a field, all options, and the lines of the description, change-view and view blocks |
| ClientLines.ParseErrIff | libs/go/p4lib/p4_impl.go:230-431 | for any text: an error exactly if nothing fails at run time and a line is wrong or a mandatory field is missing |
| ClientBlocks.DescriptionIsRead | libs/go/p4lib/p4_impl.go:270-282 | any description block put into a printed client is read back as its lines, trimmed, each with a line end |
| ClientBlocks.ChangeViewIsRead | libs/go/p4lib/p4_impl.go:251-269 | any change-view block is read back as its lines, trimmed, without blank lines and comments |
| ClientSpec.TokensAreFields | libs/go/p4lib/p4_impl.go:434-449 | trimming and dropping empty words does nothing the splitting does not do |
| ClientSpec.ViewParsed | libs/go/p4lib/p4_impl.go:283-309 | a printed view is read back entry by entry |
| ClientSpec.VerifyAccepts | libs/go/p4lib/p4_impl.go:406-431 | what was printed from a complete client is complete when read back |
| ClientSpec.ParseOfPrint | libs/go/p4lib/p4_impl.go:230-366 | parsing a printed client gives it back but for description, change view and repeated or contradicting options |
| ClientSpec.RoundTripIff | libs/go/p4lib/p4_impl.go:230-404 | it gives back the same client exactly if description and change view are empty and the options are compatible |
| ClientCrash.CrashIff | libs/go/p4lib/p4_impl.go:235-314 | parsing fails at run time exactly if it reaches a line of white space that is not trimmed away, outside the blocks and before any error |
| ClientCrash.TightLinesNeverCrash | libs/go/p4lib/p4_impl.go:235-314 | without such lines it never does |
| ClientCrash.OneCharacterCrashes | libs/go/p4lib/p4_impl.go:236-250 | any single white space character but blank, carriage return and line feed is such an input |
| ClientCrash.LooseLine | libs/go/p4lib/p4_impl.go:236-244 | a line has no token and yet is not empty exactly if it is such a line |
| TaggedFields.Decoder.FindField | libs/go/p4lib/p4_impl.go:1352-1399 | the first field that matches, and the slice grown to hold the index |
| TaggedFields.Decoder.SetTaggedField | libs/go/p4lib/p4_impl.go:1334-1350 | the record of the specification, which the lemmas of `TaggedValues` fix, and an error exactly if nothing matches and a match is demanded or the text does not convert |
| TaggedFields.CellFound | libs/go/p4lib/p4_impl.go:1365-1396 | a cell found is named by the key: its tag, or its name and number |
| TaggedValues.TagSetsField | libs/go/p4lib/p4_impl.go:1334-1379 | a key that is the tag of a plain field, and that no earlier field answers to, leaves there what the text means: the text, true, the decimal number, zero for no text, what the parser of 64-bit integers says; a text that means nothing is refused and changes nothing |
| TaggedValues.NumberedKeySetsRow | libs/go/p4lib/p4_impl.go:1380-1395 | a name listed in a slice's tag with the number i leaves i + 1 rows or as many as there were, new ones zero, and row i has what the text means in the column of that name; nothing else changes |
| TaggedValues.UnknownKeyKept | libs/go/p4lib/p4_impl.go:1364-1398 | a key that no field answers to finds nothing and changes nothing |
| TaggedValues.IndexOfNumbered | libs/go/p4lib/p4_impl.go:1332-1363 | a name without digits and a number that fits an int is split just there |
| TaggedValues.FileKeyFound | libs/go/p4lib/p4.go:418-427 | for `p4 describe` every listed name with a number i finds its own field of file i |
| TaggedValues.ConvertIff | libs/go/p4lib/p4_impl.go:1401-1429 | a text converts to a value exactly if it means that value in the kind of the cell |
| TaggedValues.AtoiIff | libs/go/p4lib/p4_impl.go:1405-1414 | a text reads as the number n exactly if it is an optional sign and digits worth n, within 64 bits |
| TaggedValues.UnsetCell | libs/go/p4lib/p4_impl.go:1386-1388 | a cell that no key fills is false, zero or empty |
| TaggedFields.SetFieldCells | libs/go/p4lib/p4_impl.go:1334-1399 | one key changes its own cell only; new rows are zero |
| TaggedFields.Lengths | libs/go/p4lib/p4_impl.go:1386-1388 | a slice ends one longer than the largest index matched, or as long as it was |
| TaggedFields.Cells | libs/go/p4lib/p4_describe.go:32-36 | a cell ends with what a key put there, or untouched |
| TaggedFields.OrderFreeIff | libs/go/p4lib/p4_describe.go:32-36 | every order of the keys gives the same record exactly if no two put different values in one cell |
| TaggedFields.CanonicalKeysApart | libs/go/p4lib/p4_impl.go:1332-1396 | different keys without needless zeros never write to one cell |
| TaggedFields.StatsMapOrderFree | libs/go/p4lib/p4_describe.go:32-36 | so a map of canonical keys gives one record however it is walked |
| TaggedFields.DescribeOrderFree | libs/go/p4lib/p4.go:518-528 | in particular for the record `p4 describe` fills |
| GrepPacking.Pack | libs/go/p4lib/p4_impl.go:808-838 | groups in order hold exactly the folders with files that fit, none above the limit, each next folder one that did not fit; larger folders are cut up |
| GrepPacking.FilesConserved | libs/go/p4lib/p4_impl.go:812-835 | every file is in a group or in a folder to be cut up |
| GrepPacking.FewGroups | libs/go/p4lib/p4_impl.go:822-834 | two groups in a row exceed the limit, which bounds their number |
| ConnectionPool.AllRunsSafe | libs/go/p4lib/p4_cgo_bridge.cc:32-79 | in every run each live client is in one place, pools hold at most 16 of their own kind with their own credentials |
| ConnectionPool.OnePlace | libs/go/p4lib/p4_cgo_bridge.cc:32-79 | what that says of one client: one pool or one call |
| ConnectionPool.RunsWithOwnCredentials | libs/go/p4lib/p4_cgo_bridge.cc:193-209 | a command always runs as the user its own call named, or as the connection's own |
| ConnectionPool.DestroyedOnlyWhenLetGo | libs/go/p4lib/p4_cgo_bridge.cc:70-77 | a client is destroyed only by the call that holds it, when dropped or when its pool is full |
| ConnectionPool.IdentityKept | libs/go/p4lib/p4_cgo_bridge.cc:185-225 | a client keeps its kind and its original credentials |
| ConnectionPool.QuietCall | libs/go/p4lib/p4_cgo_bridge.cc:35-79 | a call on its own takes the client that waited longest in its own pool and leaves it, unchanged, behind the others; from an empty pool it makes one and leaves that |
| ConnectionPool.MadeOnlyWhenEmpty | libs/go/p4lib/p4_cgo_bridge.cc:40-62 | a connection is made only for a call that finds its pool empty |
| Mux.PenaltyCompares | tools/ebert/handlers/mux.go:86-91 | penalties compare by the first place where parameter use differs |
| Mux.SpecificityCompares | tools/ebert/handlers/mux.go:46-58 | more segments first, then the earlier literal; equal exactly if parameters stand in the same places |
| Mux.MatcherOfSegment | tools/ebert/handlers/mux.go:86-99 | a literal segment stands for itself, a parameter for one segment, and for the rest of the path at the end |
| Mux.Mux.Search | tools/ebert/handlers/mux.go:105-107 | the first route that is less specific |
| Mux.Mux.Handle | tools/ebert/handlers/mux.go:78-116 | inserts one route and keeps all others, behind all at least as specific, or changes nothing and fails |
| Mux.Mux.Serve | tools/ebert/handlers/mux.go:65-72 | a matching route of greatest specificity, the earliest registered among equals; not found exactly if none matches |
| Mux.InsertOrdered | tools/ebert/handlers/mux.go:105-114 | inserting there keeps routes descending, ties in order of registration |
| Publication.AllRunsSafe | libs/go/builddist/make_package.go:222-276 | channel, batches, wait group and semaphore stay within bounds and count what they should; nothing is sent on the closed channel |
| Publication.AtMostTen | libs/go/builddist/make_package.go:229-262 | at most ten uploads hold a token |
| Publication.TriedTwice | libs/go/builddist/make_package.go:136-152 | an upload is given up exactly after two failed attempts, and is never tried again after it worked |
| Publication.BatchesFull | libs/go/builddist/make_package.go:187-197 | every batch but the last has exactly 250 entries, and the last is written when the channel is closed and empty |
| Publication.CompleteMeansHandedOver | libs/go/builddist/make_package.go:270-276 | before the package is marked every upload went through and its entry was handed over in exactly one batch of at most 250 |
| Publication.CompleteMeansStoredIff | libs/go/builddist/make_package.go:187-197 | then the entries of all uploads are stored exactly if every batch that was not empty could be written |
| Publication.CompleteWithoutEntry | libs/go/builddist/make_package.go:187-197 | a concrete complete package whose entry was lost |
| Publication.CompleteMeansAllFilesIff | libs/go/builddist/make_package.go:236-266 | then its files are all the files exactly if each could be opened |
| Publication.CompleteWithoutFile | libs/go/builddist/make_package.go:69-73 | a concrete complete package without its file |
| Publication.AllLaunched | libs/go/builddist/make_package.go:236-266 | if every file opens, launched and remaining files are the files, in order |
| Publication.NeverCompleteAfterFailure | libs/go/builddist/make_package.go:136-152 | after an upload failed twice the package is never marked |
| Publication.Progress | libs/go/builddist/make_package.go:187-276 | without a failure there is no deadlock |
| Publication.RunsAreBounded | libs/go/builddist/make_package.go:187-276 | every run ends, after at most ten steps a file and twelve more |
| Publication.FinishedIff | libs/go/builddist/make_package.go:273-276 | the package is marked exactly if the marking step was taken and worked |
| Publication.AtRestIff | libs/go/builddist/make_package.go:187-276 | when nothing can move the package is marked complete exactly if no upload failed twice and the marking did not fail |
| MoveSplit.DirectoryTreeBuild | tools/p4_split/p4_split.go:35-59 | the tree of folders with their file counts |
| MoveSplit.CountIsPaths | tools/p4_split/p4_split.go:44-57 | the count kept is the number of files found below |
| MoveSplit.EmitMoveCommands | tools/p4_split/p4_split.go:61-69 | children first if the folder is over the threshold, then the folder |
| MoveSplit.CommandsEdited | tools/p4_split/p4_split.go:67-68 | no folder is moved without having been opened for edit right before |
| MoveSplit.MovedOnce | tools/p4_split/p4_split.go:61-69 | between separate folders every file below the source, scanned or not, is moved once and to the same relative place |
| MoveSplit.MovesAreCleanIff | tools/p4_split/p4_split.go:61-69 | for every threshold and every tree of files with real names, this holds exactly if neither end is the other or inside it |
| MoveSplit.MovedTwice | tools/p4_split/p4_split.go:61-69 | otherwise a concrete tree with real names in which a file is moved twice |
| MoveSplit.CommandsAreSmall | tools/p4_split/p4_split.go:15-18 | no command reaches more files than the threshold, unless they are all directly in its folder |

## Left out

- DiffSpanner.Insert: says what the spans become for any range; that they stay sorted is claimed only for non-decreasing ranges, because it is false otherwise.
- Gigantick.FileDiff.Build: does not model the totals of added, changed and deleted lines, nor the wrapping of comment text at 80 columns; a comment is any list of comment rows, and their row numbers are not claimed to be inside the columns.
- SideBySide.DiffLines: does not place or highlight comments in rows; reading a row that does not exist is not possible in the model because it is proved not to happen.
- SideBySide.MatchContext: only the text that comments are matched against is modelled, not the rows' other fields.
- IncludePieces.ScanOfPieces: bytes are characters, and only text written as pieces is covered; a piece that is not read may not have a '#' behind its keyword, since what the scanner then makes of it is not a question of directives. The scanner is no preprocessor and is not claimed to be one.
- IncludeThreads.AllRunsSafe: adding one include is one step, since test, insertion and push happen under one lock; the search of the file system before it reads nothing that changes.
- Watcher.AtLeastOnce: a page of changes is assumed to be the oldest submitted ones from the requested number on, in order, at most 100, and a change is never submitted below one already submitted; whether a handler succeeds is not modelled.
- MarkRead.AllRunsSafe: assumes that parsing and printing a comment keeps its other fields; very large numbers in a comment can break that, because the JSON library reads them as floating point.
- MarkRead.ReadersStay: that a reader ever gets through is not claimed, since outside writers can make it retry for ever.
- ClientOptions.AppendClientOption: lists are values, so that the caller's own list is overwritten in place is not modelled.
- ClientSpec.RoundTripIff: for clients whose fields print as single words, with the mandatory fields set and view sources that are neither comments nor field names; other clients do not print as a specification.
- TaggedFields.Decoder.SetTaggedField: reflection is replaced by a table of tags and kinds; the conversion of 64-bit integers, which knows base prefixes, is a parameter; a record inside a slice has plain fields only.
- GrepPacking.Pack: only the packing loop; the branch for small depots never forms a group, and cutting up large folders depends on the server.
- ConnectionPool.AllRunsSafe: a dropped client is assumed to stay dropped, also after it was finalised; what a command does and the callbacks are not modelled.
- Mux.Mux.Handle: specificities are exact; with floating point, patterns of more than about fifty segments can compare equal. Regular expressions and handlers are parameters.
- Publication.AllRunsSafe: adding to the wait group and starting the upload are one step; storage and database calls are steps that work or fail.
- MoveSplit.CommandsAreSmall: counts the files found in the scan; special characters in folder names and links between folders are not modelled, and a folder never holds two folders of one name.
- Texts that are not valid UTF-8 are not modelled; a string is a sequence of characters, a line is what stands between line feeds.
- File systems, `p4` processes, HTTP, JSON, databases and clocks appear only as parameters or as what a step may do.
- The draft life cycle of comments, user interfaces, web templates, continuous-integration clients and other plumbing are left out: they call services that are not part of this repository.
- Liveness under fair scheduling is claimed only for publication.
