# Verified model of three dotfiles scripts

This project models three scripts from a set of Mercurial and Pianobar
dotfiles in Dafny and proves what they promise:

- **onsub** (`mercurial/extensions/onsub/onsub.py`) is a Mercurial
  extension. It runs one shell command in every nested subrepository.
  `foreach` keeps a work list of `(depth, subrepository)` pairs, seeded
  from the sorted `.hgsubstate` keys of the working-directory parent.
  - Depth-first mode pops the work list from the end; `--breadth-first`
    pops it from the front.
  - Items deeper than `--max-depth` (when it is not negative) are skipped.
  - Each visited subrepository gets a `-0` path or a verbose note, then
    one command run with `HG_SUBPATH`, `HG_SUBURL`, `HG_SUBSTATE` and
    `HG_REPO` set.
  - A Mercurial subrepository adds its own sorted children to the work
    list.
  - A non-zero exit status aborts the walk unless `--ignore-errors` is
    given.
- **trailing-whitespace** (`mercurial/hooks/trailing-whitespace.py`) is a
  commit hook. It scans the output of `hg export` and reports
  `(file, line, column)` for every added line that ends in whitespace.
- **growl** (`config/pianobar/growl.py`) is a Pianobar event script.
  - It parses `key=value` lines from standard input into a dictionary,
    turning all-digit values into integers.
  - It derives a heart icon from the rating and falls back to the
    program icon for empty cover art.
  - A first-match `if`/`elif` chain then picks at most one Growl
    notification for the event.

Modules:

- `Wrappers` holds `Option` and `Result`.
- `Decimal` covers digit strings: `int()` reads them and `format` writes
  them.
- `StringOrder` is Python's string order and `sorted()` over a set of
  keys.
- `SubrepoTree` is the subrepository tree. It defines the two visiting
  orders independently of the work list:
  - a recursive pre-order (`DepthFirstOrder`);
  - a level-by-level order (`BreadthFirstOrder`).
- `Onsub` holds the `foreach` loop as a method, with the spec function
  `Walk` that pops exactly as the loop does.
- `TrailingWhitespace` is the hook's state machine:
  - `Feed` and `RunFrom` are the specification;
  - `Scanner` is the loop, and `ScanLine` is its body for one line.
- `PianobarGrowl` holds the input parser (`ParseInfo`), the derived
  fields (`Annotated`, `ReadInfo`) and the dispatch chain (`Select`).

The model is built from the code:

- The child process is a parameter `status`. It maps an invocation (command,
  working directory, environment) to its exit status.
- Console output is two values:
  - the text written with `-0`;
  - the sequence of verbose notes. `ui.note` prints them only under `--verbose`; the model holds what it would print in any mode.
- For growl, the event name and the script directory are parameters, and
  `Select` returns the notification that would be sent.

The docstring of `foreach` (`onsub.py:53`) says the command runs "in
repo.root and in each subrepository". The code never runs it in the
top-level repository itself, only in the subrepositories, and the model
follows the code.

## Model

| member | source | states |
|---|---|---|
| Onsub.Foreach | mercurial/extensions/onsub/onsub.py:52-97 | Visits a prefix of the mode's order (`VisitOrder`: pre-order when depth-first, level order when breadth-first), and all of it unless aborted. It never aborts with `--ignore-errors`. An abort names the last visited path and its non-zero status, and every earlier run succeeded. There is exactly one run per visited item. `-0` writes NUL-terminated paths; otherwise there is one note per run. |
| Onsub.Visit | mercurial/extensions/onsub/onsub.py:69-88 | Appends the item, its `-0` path or verbose note, and one invocation, and returns that invocation's status; the output bookkeeping invariant is kept |
| Onsub.OnsubCommand | mercurial/extensions/onsub/onsub.py:45-50 | Runs `foreach` with the arguments joined by spaces, depth-first unless `--breadth-first`, and the given depth limit, `-0` and error options. It visits a prefix of that order, all of it unless aborted. An abort names the last visited path and its non-zero status, and every earlier run succeeded. |
| Onsub.SplitJoin | mercurial/extensions/onsub/onsub.py:45 | Joining arguments with single spaces loses nothing when no argument holds a space: splitting gives them back |
| Onsub.SpaceIndex | mercurial/extensions/onsub/onsub.py:45 | Finds the first space, or the end of the string |
| Onsub.PathJoin | mercurial/extensions/onsub/onsub.py:86 | `os.path.join`: an absolute second path wins. Otherwise the result is the first path, then a `/` exactly when the first path is nonempty and does not already end in one, then the second path. |
| Onsub.DefaultOptionsVisitEverything | mercurial/extensions/onsub/onsub.py:99-110 | With the command-table defaults (depth-first, `--max-depth -1`) the walk is the unpruned pre-order. It visits exactly the reachable subrepositories, each once. |
| Onsub.Join | mercurial/extensions/onsub/onsub.py:45 | `' '.join(args)`. Partner: `SplitJoin`. |
| Onsub.Reverse | mercurial/extensions/onsub/onsub.py:56-57 | `list.reverse()` (also at line 96): the same length, with the i-th item taken from position `n - 1 - i`. Used through `WalkFollowsOrder` and `PopStepDepthFirst`. |
| Onsub.Split | mercurial/extensions/onsub/onsub.py:45 | `str.split(' ')`, used only to state that the joined command line keeps the arguments. Partner: `SplitJoin`. |
| Onsub.Walk | mercurial/extensions/onsub/onsub.py:59-97 | What the loop's pops yield, item by item. Partners: `WalkFollowsOrder`, `WalkIsRemaining`, `PopStep`. |
| Onsub.Runs | mercurial/extensions/onsub/onsub.py:82-88 | One invocation per visited item, in order. Partner: `RunsAt`. |
| Onsub.Notes | mercurial/extensions/onsub/onsub.py:77 | One verbose line per visited item, in order. Partner: `NotesAt`. |
| Onsub.PopItem | mercurial/extensions/onsub/onsub.py:60-63 | `work.pop()` in depth-first mode, `work.pop(0)` otherwise. Partner: `PopRest`. |
| Onsub.PopRest | mercurial/extensions/onsub/onsub.py:60-63 | A stack is the rest plus the popped last item; a queue is the popped first item plus the rest |
| Onsub.Expansion | mercurial/extensions/onsub/onsub.py:93-97 | The children, reversed in depth-first mode. Partners: `PopStep`, `PopStepDepthFirst`. |
| Onsub.InitialWork | mercurial/extensions/onsub/onsub.py:55-57 | The sorted seed, reversed in depth-first mode. Partner: `WalkFollowsOrder`. |
| Onsub.NoteLine | mercurial/extensions/onsub/onsub.py:77 | The verbose line `executing '<cmd>' in <path>`. Partners: `NotesAt`, `VisitStep`. |
| Onsub.NulTerminated | mercurial/extensions/onsub/onsub.py:75 | Each visited path followed by a NUL. Partners: `VisitStep`, `Foreach`. |
| Onsub.Invoke | mercurial/extensions/onsub/onsub.py:82-88 | The command runs in root joined with the subrepository path, with exactly the four `HG_*` variables set to path, URL, state and root |
| Onsub.WalkFollowsOrder | mercurial/extensions/onsub/onsub.py:54-63 | The loop's pop order, starting from the seeded (and, depth-first, reversed) work list, is exactly the mode's visiting order |
| Onsub.WalkIsRemaining | mercurial/extensions/onsub/onsub.py:59-65 | Popping from the end of a stack of reversed child lists is pre-order of the reversed stack; popping from the front of a FIFO queue is `QueueOrder` |
| Onsub.PopStep | mercurial/extensions/onsub/onsub.py:59-65 | One pop either skips a pruned item or visits it and then its expansion, both in terms of the remaining order |
| Onsub.PopStepDepthFirst | mercurial/extensions/onsub/onsub.py:95-97 | Pushing the reversed children and popping the last item visits the item, then its children in pre-order, then the rest |
| Onsub.PopWeight | mercurial/extensions/onsub/onsub.py:59-97 | Each pop, with or without the expansion, strictly shrinks the total number of subrepositories still reachable from the work list, so the loop ends |
| Onsub.PrefixWithinBounds | mercurial/extensions/onsub/onsub.py:64-65 | Every visited subrepository is at depth 1 or more, and at most `--max-depth` when that is not negative |
| Onsub.RunsAt | mercurial/extensions/onsub/onsub.py:82-88 | The i-th run is the invocation for the i-th visited subrepository |
| Onsub.NotesAt | mercurial/extensions/onsub/onsub.py:77 | The i-th verbose note is `executing '<cmd>' in <path>` for the i-th visited subrepository |
| Onsub.VisitStep | mercurial/extensions/onsub/onsub.py:74-88 | Visiting one more item adds exactly its run, its note, and its NUL-terminated path |
| StringOrder.SortedKeys | mercurial/extensions/onsub/onsub.py:55 | `sorted()` of the substate keys holds each key once |
| StringOrder.SortedKeysAscending | mercurial/extensions/onsub/onsub.py:55 | The sorted keys are strictly ascending in Python's string order |
| StringOrder.SortedKeysHead | mercurial/extensions/onsub/onsub.py:93-94 | The first sorted key is the least key, and the rest are the sorted remaining keys |
| StringOrder.BelowTotal | mercurial/extensions/onsub/onsub.py:55 | Python's string order is total |
| StringOrder.BelowTransitive | mercurial/extensions/onsub/onsub.py:55 | Python's string order is transitive |
| StringOrder.BelowAntisymmetric | mercurial/extensions/onsub/onsub.py:55 | Python's string order is antisymmetric |
| StringOrder.LeastExists | mercurial/extensions/onsub/onsub.py:55 | A nonempty key set has a least key |
| SubrepoTree.Batch | mercurial/extensions/onsub/onsub.py:93-94 | One item per sorted key, at the given depth, holding that key's subrepository |
| SubrepoTree.ChildrenWeight | mercurial/extensions/onsub/onsub.py:90-94 | The children's subtrees together count every node below the item; non-Mercurial subrepositories have none |
| SubrepoTree.QueueOrderIsLevelOrder | mercurial/extensions/onsub/onsub.py:59-63 | The FIFO queue visits the items level by level |
| SubrepoTree.QueueOrderLevel | mercurial/extensions/onsub/onsub.py:63 | Draining one level from the queue visits its unpruned items and queues their children behind the rest |
| SubrepoTree.DepthFirstIsPermutationOfBreadthFirst | mercurial/extensions/onsub/onsub.py:56-63 | Both modes visit the same subrepositories the same number of times; only the order differs |
| SubrepoTree.PreForestSameAsLevelOrder | mercurial/extensions/onsub/onsub.py:56-63 | Pre-order of a forest and its level order are permutations of each other |
| SubrepoTree.BreadthFirstIsLevelOrdered | mercurial/extensions/onsub/onsub.py:63 | In breadth-first mode depths never decrease along the visit order |
| SubrepoTree.VisitedDepthsWithinBounds | mercurial/extensions/onsub/onsub.py:64-65 | Every visited subrepository is at depth 1 or more, and at most `--max-depth` when that is not negative |
| SubrepoTree.MaxDepthZeroVisitsNothing | mercurial/extensions/onsub/onsub.py:64-65 | `--max-depth 0` visits nothing |
| SubrepoTree.NegativeMaxDepthVisitsEverything | mercurial/extensions/onsub/onsub.py:64-65 | A negative `--max-depth` visits every subrepository reachable from the root's entries (`Reachable`), in either mode, and makes as many visits as there are reachable nodes |
| SubrepoTree.VisitedAreReachable | mercurial/extensions/onsub/onsub.py:55-97 | Whatever the depth limit, every visited item is reachable from the root's entries |
| SubrepoTree.ReachableInPreForest | mercurial/extensions/onsub/onsub.py:59-65 | A pre-order lists every reachable item within the depth limit |
| SubrepoTree.ReachableDeeper | mercurial/extensions/onsub/onsub.py:90-94 | An item reachable from entries that are all at depth `d` or more is itself at depth `d` or more |
| SubrepoTree.ReachableWithinDepthVisited | mercurial/extensions/onsub/onsub.py:55-97 | With either walk order, every reachable subrepository within `--max-depth` is visited. With `VisitedAreReachable` and `VisitedDepthsWithinBounds`, the visited items are exactly these. |
| SubrepoTree.PreForestReachable | mercurial/extensions/onsub/onsub.py:59-61 | A pre-order lists only reachable items |
| SubrepoTree.InWeight | mercurial/extensions/onsub/onsub.py:55-97 | One work item's subtree is no larger than the whole work list's |
| SubrepoTree.VisitOrder | mercurial/extensions/onsub/onsub.py:56-63 | Pre-order (`DepthFirstOrder`) in depth-first mode, level order (`BreadthFirstOrder`) otherwise. Partners: `WalkFollowsOrder`, `DepthFirstIsPermutationOfBreadthFirst`, `BreadthFirstIsLevelOrdered`. |
| SubrepoTree.Pruned | mercurial/extensions/onsub/onsub.py:64 | The chained comparison `depth > maxdepth >= 0`. Partners: `MaxDepthZeroVisitsNothing`, `NegativeMaxDepthVisitsEverything`, `VisitedDepthsWithinBounds`. |
| SubrepoTree.Seed | mercurial/extensions/onsub/onsub.py:55 | The root's substate at depth 1, in sorted key order. Partners: `Batch`, `SortedKeysAscending`, `VisitedDepthsWithinBounds`. |
| SubrepoTree.Children | mercurial/extensions/onsub/onsub.py:90-97 | The sorted substate of a Mercurial subrepository, one level deeper; nothing for other kinds. Partner: `ChildrenWeight`. |
| SubrepoTree.Reachable | mercurial/extensions/onsub/onsub.py:55-97 | The independent definition of the whole tree: the root's entries and, below each one, its children. Partners: `NegativeMaxDepthVisitsEverything`, `VisitedAreReachable`. |
| SubrepoTree.PreForestAppend | mercurial/extensions/onsub/onsub.py:59-61 | Pre-order of a concatenation of forests is the concatenation of their pre-orders |
| SubrepoTree.AllPrunedContributeNothing | mercurial/extensions/onsub/onsub.py:64-65 | Items that are all too deep are skipped without expanding them |
| TrailingWhitespace.Scanner | mercurial/hooks/trailing-whitespace.py:9-35 | The loop yields exactly the reports of the line-by-line state machine, and stops where that machine fails |
| TrailingWhitespace.ScanLine | mercurial/hooks/trailing-whitespace.py:14-35 | One pass of the loop body changes the variables, the reports and the stop flag exactly as one step of the state machine does |
| TrailingWhitespace.Feed | mercurial/hooks/trailing-whitespace.py:13-35 | One line adds at most one report, never removes one, and reports only an added line ending in whitespace outside a header, under the current file name and line number, with the column of its trailing whitespace. A failure happens only on such a line before any file is named. |
| TrailingWhitespace.HeaderStep | mercurial/hooks/trailing-whitespace.py:14-21 | A header line keeps the line number, and the header ends exactly at a `+++ ` line |
| TrailingWhitespace.HeaderPath | mercurial/hooks/trailing-whitespace.py:16 | A path is found exactly for a `--- ` or `+++ ` line whose fifth character is not a tab, and it runs up to the first tab |
| TrailingWhitespace.UntilTab | mercurial/hooks/trailing-whitespace.py:16 | The longest tab-free prefix |
| TrailingWhitespace.AfterFirst | mercurial/hooks/trailing-whitespace.py:18 | The text after the first `/`, present exactly when there is one |
| TrailingWhitespace.FileName | mercurial/hooks/trailing-whitespace.py:18 | A path with a `/` loses everything up to and including its first `/`, then is stripped; a path without `/` is only stripped |
| TrailingWhitespace.RStrip | mercurial/hooks/trailing-whitespace.py:33 | `rstrip()` keeps a prefix that does not end in whitespace and removes only whitespace |
| TrailingWhitespace.RStripNewlines | mercurial/hooks/trailing-whitespace.py:31 | `rstrip('\n')` keeps a prefix that does not end in a newline and removes only newlines |
| TrailingWhitespace.DigitRun | mercurial/hooks/trailing-whitespace.py:26 | The run of digits at the start is maximal |
| TrailingWhitespace.Number | mercurial/hooks/trailing-whitespace.py:26 | `\d+` matches exactly when the text starts with a digit |
| TrailingWhitespace.Literal | mercurial/hooks/trailing-whitespace.py:26 | A literal matches exactly at the start, and the rest follows it |
| TrailingWhitespace.RunFrom | mercurial/hooks/trailing-whitespace.py:13 | `for line in diff`: `Feed` applied to each line in turn. Partners: `Scanner`, `RunFromAppend`, `FailedStaysFailed`. |
| TrailingWhitespace.Run | mercurial/hooks/trailing-whitespace.py:9-13 | The scan of a whole diff from the initial state (no header, no file, line 0). Partners: `Scanner`, `UnnamedFileFails`. |
| TrailingWhitespace.IsSpace | mercurial/hooks/trailing-whitespace.py:31 | The ASCII whitespace of `\s` and `rstrip()`. Partners: `RStrip`, `ColumnMarksTrailingWhitespace`. |
| TrailingWhitespace.RunFromAppend | mercurial/hooks/trailing-whitespace.py:13 | Scanning two pieces in turn is scanning them together |
| TrailingWhitespace.FailedStaysFailed | mercurial/hooks/trailing-whitespace.py:33 | After the unnamed-file failure nothing more is produced |
| TrailingWhitespace.FailureIsFinal | mercurial/hooks/trailing-whitespace.py:33 | A failure ends the scan of the whole diff |
| TrailingWhitespace.ReportsOnlyGrow | mercurial/hooks/trailing-whitespace.py:33 | Reports are yielded as the scan goes: later lines never take one back |
| TrailingWhitespace.ColumnMarksTrailingWhitespace | mercurial/hooks/trailing-whitespace.py:31-33 | The reported column is one past the last non-whitespace character, and whitespace fills the line from there |
| TrailingWhitespace.RemovedLineIgnored | mercurial/hooks/trailing-whitespace.py:31-35 | A `-` line is never reported and does not move the line number |
| TrailingWhitespace.CleanLineNotReported | mercurial/hooks/trailing-whitespace.py:31-33 | An added line without trailing whitespace is not reported |
| TrailingWhitespace.HeaderIsSilent | mercurial/hooks/trailing-whitespace.py:14-21 | Until the `+++ ` line a header reports nothing and keeps the line number |
| TrailingWhitespace.NewNameWins | mercurial/hooks/trailing-whitespace.py:16-20 | After `---` and `+++` lines the file is the `+++` name; with `+++ /dev/null<TAB>…` it is the `---` name. The header has ended. |
| TrailingWhitespace.DevNullPath | mercurial/hooks/trailing-whitespace.py:16-17 | With a tab after it, the path pattern sees exactly `/dev/null` |
| TrailingWhitespace.UntilTabStops | mercurial/hooks/trailing-whitespace.py:16 | The path pattern stops at the first tab |
| TrailingWhitespace.UnnamedFileFails | mercurial/hooks/trailing-whitespace.py:30-33 | Outside a header and before any file is named, an added line ending in whitespace fails on the unbound file name, keeping the reports so far; a diff that starts with one fails with no report |
| TrailingWhitespace.NumberReads | mercurial/hooks/trailing-whitespace.py:26-28 | A digit string followed by a non-digit reads as its value |
| TrailingWhitespace.HunkHeaderRead | mercurial/hooks/trailing-whitespace.py:26-28 | `@@ -a,b +c,` is recognised, with the value of `c` as the start line |
| TrailingWhitespace.HunkStartMeans | mercurial/hooks/trailing-whitespace.py:26-28 | Only lines `@@ -a,b +c,...` with `a`, `b`, `c` nonempty digit strings are hunk headers, and the start is the value of `c`; so any other line leaves the line number to the body rules |
| TrailingWhitespace.NumberSplits | mercurial/hooks/trailing-whitespace.py:26 | A `\d+` match splits the text into a nonempty digit string, read as its value, and the rest |
| TrailingWhitespace.HunkStart | mercurial/hooks/trailing-whitespace.py:26 | The hunk-header pattern. Partners: `HunkHeaderRead` and `HunkStartMeans`, one direction each. |
| TrailingWhitespace.AddedTrailing | mercurial/hooks/trailing-whitespace.py:31 | `\+.*\s$` on the line without its newlines. Partners: `ColumnMarksTrailingWhitespace`, `CleanLineNotReported`, `UnnamedFileFails`. |
| TrailingWhitespace.Column | mercurial/hooks/trailing-whitespace.py:33 | `len(line.rstrip()) + 1`. Partner: `ColumnMarksTrailingWhitespace`. |
| TrailingWhitespace.CountsLine | mercurial/hooks/trailing-whitespace.py:34 | A context or added line. Partners: `NewLinesAppend`, `BodyReports`. |
| TrailingWhitespace.HunkSetsLineNumber | mercurial/hooks/trailing-whitespace.py:26-29 | A hunk header sets the line number to the hunk's new-file start; the rest of the state is unchanged and nothing is reported |
| TrailingWhitespace.DiffStartsHeader | mercurial/hooks/trailing-whitespace.py:22-24 | Outside a header, a `diff ` line turns header mode on and changes nothing else |
| TrailingWhitespace.FileHeader | mercurial/hooks/trailing-whitespace.py:14-24 | A `diff ` line followed by `---` and `+++` lines names the file by the `+++` path, ends the header and reports nothing |
| TrailingWhitespace.HunkSection | mercurial/hooks/trailing-whitespace.py:25-35 | Once the file is named, a hunk header and its body leave the line number at the hunk start plus the body's counted lines and add exactly the body's reports |
| TrailingWhitespace.FileSection | mercurial/hooks/trailing-whitespace.py:13-35 | A whole file section (header, hunk header, body) names the file, leaves the line number at the hunk start plus the body's counted lines, and adds exactly the body's reports |
| TrailingWhitespace.BodyReports | mercurial/hooks/trailing-whitespace.py:30-35 | Within a file body, the line number counts the context and added lines. The reports are exactly the added lines ending in whitespace, each numbered by the lines before it. |
| TrailingWhitespace.NewLinesAppend | mercurial/hooks/trailing-whitespace.py:34-35 | One more line adds one to the count exactly when it is a context or added line |
| TrailingWhitespace.ReportedAppend | mercurial/hooks/trailing-whitespace.py:31-35 | One more body line adds its report, numbered by the lines before it, exactly when it ends in whitespace |
| PianobarGrowl.ParseInfo | config/pianobar/growl.py:90-95 | The parse loop builds the dictionary of all the lines, each overwriting earlier ones |
| PianobarGrowl.CollectedHasKey | config/pianobar/growl.py:90-95 | Every line's key is in the dictionary |
| PianobarGrowl.CollectedKeyFromLine | config/pianobar/growl.py:90-95 | Every key of the dictionary comes from some line |
| PianobarGrowl.CollectedLastWins | config/pianobar/growl.py:90-95 | A key holds the value of the last line that names it |
| PianobarGrowl.ParseValue | config/pianobar/growl.py:92-95 | A value becomes an integer exactly when it is a nonempty string of digits, and then it is the integer `int()` reads from it; otherwise it is kept as text |
| PianobarGrowl.ZeroPaddedNumber | config/pianobar/growl.py:92-93 | Leading zeros do not change the stored integer, so `rating=01` stores 1 |
| PianobarGrowl.Text | config/pianobar/growl.py:118-123 | `u'{0}'.format` of a stored value: an integer as its decimal text, text as itself. Partners: `ParseText`, `Show`, `Fields`. |
| PianobarGrowl.EventEnabled | config/pianobar/growl.py:114-175 | The `argv[1] == … and NOTIFY_…` tests of the chain. Partners: `DisabledEventFallsThrough`, `EnabledEventIgnoresStatus`. |
| PianobarGrowl.IsWhitespace | config/pianobar/growl.py:91 | The characters `unicode.strip()` removes in Python 2. Partners: `StripStartRemovesWhitespace`, `StripEndRemovesWhitespace`. |
| PianobarGrowl.ParseText | config/pianobar/growl.py:92-95 | An integer reads back from its text, and so does text that is not a number |
| PianobarGrowl.EntryOfPair | config/pianobar/growl.py:91-95 | A line `key=value` without surrounding space stores that value under that key |
| PianobarGrowl.StripStartRemovesWhitespace | config/pianobar/growl.py:91 | `strip()` removes leading whitespace and nothing else |
| PianobarGrowl.StripEndRemovesWhitespace | config/pianobar/growl.py:91 | `strip()` removes trailing whitespace and nothing else |
| PianobarGrowl.EqualsIndexIsFirst | config/pianobar/growl.py:91 | The split point is the first `=` |
| PianobarGrowl.UnspacedIsStripped | config/pianobar/growl.py:91 | `strip()` leaves a line alone when it neither starts nor ends with whitespace |
| PianobarGrowl.PartitionOfPair | config/pianobar/growl.py:91 | `partition('=')` of a key without `=`, then `=` and a value, gives that key and value |
| PianobarGrowl.PartitionSplits | config/pianobar/growl.py:91 | The key holds no `=`, key `=` value gives the line back, and a line without `=` is all key with an empty value |
| PianobarGrowl.Annotated | config/pianobar/growl.py:97-109 | Missing `rating` or `coverArt` is a key error, in that order, and an integer cover art is a type error. Otherwise `programIcon` is set, `lovedIcon` is the heart exactly when the rating is the integer 1, and empty cover art becomes the program icon. Every other key is unchanged. |
| PianobarGrowl.ReadInfo | config/pianobar/growl.py:90-109 | The script's parse loop and in-place derived fields give the annotated dictionary of the input, or its error |
| PianobarGrowl.Fields | config/pianobar/growl.py:114-187 | Arguments are read left to right: all present gives their texts in order, otherwise the first missing key is the error |
| PianobarGrowl.DisabledEventFallsThrough | config/pianobar/growl.py:114-187 | An event that is switched off is handled as no event, so only the status checks remain |
| PianobarGrowl.EnabledEventIgnoresStatus | config/pianobar/growl.py:114-175 | A switched-on event's notification does not depend on `pRet` or `wRet` |
| PianobarGrowl.ProgramErrorFirst | config/pianobar/growl.py:176-187 | With no switched-on event, a failed program run is reported with the program icon and `pRetStr`, whatever `wRet` is |
| PianobarGrowl.FailureNotesMeanFailure | config/pianobar/growl.py:176-187 | A program error needs `pRet` other than 1 and no switched-on event. A network error additionally needs no reportable program error and `wRet` other than 1. |
| PianobarGrowl.SongFinishReportsProgramError | config/pianobar/growl.py:124-181 | With the default switches, `songfinish` with a failed program run gives "Program Error" |
| PianobarGrowl.SongNotification | config/pianobar/growl.py:98-133 | A song start (type "Song Start") or, with its switch on, a song end (type "Song End") shows the cover art, or the program icon if empty. The title carries the heart exactly when the rating is 1, and the description is artist and album on two lines. |
| PianobarGrowl.RatedNotification | config/pianobar/growl.py:134-169 | Love, ban, shelve and song bookmark give their own type and fixed title, the cover art, and title, artist and album on three lines |
| PianobarGrowl.ArtistBookmarkNotification | config/pianobar/growl.py:170-175 | An artist bookmark gives its fixed title, the cover art, and the artist alone as the description |
| PianobarGrowl.NetworkErrorSecond | config/pianobar/growl.py:182-187 | With no switched-on event, a program status of 1 (or program errors off), a network status other than 1 and network errors on, the result is "Network Error" with the program icon and `wRetStr` |
| PianobarGrowl.StatusChecks | config/pianobar/growl.py:176-187 | With no switched-on event, a missing `pRet` is a key error, then a missing `wRet` once the program check has not fired; with no failure reported, nothing is sent |
| PianobarGrowl.Select | config/pianobar/growl.py:111-187 | The first-match dispatch chain. Partners: `SongNotification`, `RatedNotification`, `ArtistBookmarkNotification`, `ProgramErrorFirst`, `NetworkErrorSecond`, `StatusChecks`, `FailureNotesMeanFailure`, `DisabledEventFallsThrough`, `EnabledEventIgnoresStatus`. |
| PianobarGrowl.SongNote | config/pianobar/growl.py:114-133 | Song start and end notes. Partner: `SongNotification`. |
| PianobarGrowl.RatedNote | config/pianobar/growl.py:134-169 | Love, ban, shelve and bookmark notes. Partner: `RatedNotification`. |
| PianobarGrowl.ArtistNote | config/pianobar/growl.py:170-175 | The artist bookmark note. Partner: `ArtistBookmarkNotification`. |
| PianobarGrowl.FailureNote | config/pianobar/growl.py:176-187 | Program and network error notes. Partners: `ProgramErrorFirst`, `NetworkErrorSecond`. |
| PianobarGrowl.ProgramIcon | config/pianobar/growl.py:98-99 | `file://<script directory>/pandora.png`. Partners: `Annotated`, `SongNotification`. |
| PianobarGrowl.Entry | config/pianobar/growl.py:91-95 | One line's key and parsed value. Partners: `EntryOfPair`, `CollectedKeyFromLine`. |
| PianobarGrowl.Collected | config/pianobar/growl.py:90-95 | The dictionary after all lines. Partners: `CollectedHasKey`, `CollectedKeyFromLine`, `CollectedLastWins`, `ParseInfo`. |
| PianobarGrowl.Strip | config/pianobar/growl.py:91 | `strip()`. Partners: `StripStartRemovesWhitespace`, `StripEndRemovesWhitespace`, `UnspacedIsStripped`. |
| PianobarGrowl.Partition | config/pianobar/growl.py:91 | `partition('=')`. Partners: `PartitionSplits`, `PartitionOfPair`. |
| PianobarGrowl.RunScript | config/pianobar/growl.py:90-187 | The whole script: a parse or derivation error, or the notification `Select` picks for the annotated input |
| Decimal.Show | config/pianobar/growl.py:118-123 | An integer is written as a digit string without leading zeros that reads back as the same integer |
| Decimal.Value | config/pianobar/growl.py:93 | `int()` of a digit string. Partners: `Show`, `ShowValue`, `PositiveValue`. |
| Decimal.ZeroPaddedValue | config/pianobar/growl.py:93 | `int()` ignores a leading zero |
| Decimal.ShowValue | config/pianobar/growl.py:92-93 | A digit string without leading zeros is the text of its value |
| Decimal.PositiveValue | config/pianobar/growl.py:92-93 | A digit string not starting with `0` has a positive value |

## Left out

- Mercurial context and substate discovery (`repo['.']`, `ctx.sub`, `sub._repo[rev]`) is replaced by a finite tree of subrepositories. Each node holds its path, URL, state, whether it is a Mercurial subrepository, and its own substate.
- The `hasattr(subrepo, 'relpath')` version shim is not modelled. The relative path is a field of the node.
- `util.system` is not run: its exit status comes from the parameter `status`. The environment it inherits from the calling process is not modelled; an invocation lists only the four `HG_*` variables it adds.
- The abort message (`terminated onsub in <path>`) and the `_()` translations are not modelled. The outcome carries the path and the status.
- Command-table registration is not modelled. `DefaultOptions` holds its defaults, and `DefaultOptionsVisitEverything` states what they do.
- Python's string order compares code points. For UTF-8 byte strings this is the same as Python 2's byte order; other encodings are not modelled.
- The hook's `__main__` block is not modelled (`hg export tip`, printing to standard error, saving the commit message, exit status).
- The hook's regular expressions are written as string functions. `\s` and `\d` are ASCII, as for a Python 2 byte-string pattern.
- The hook's unbound `filename` error is the `failed` flag of the scan rather than an exception.
- Growl registration, `growl.notify` and the swallowing of `socket.error` are not modelled. `Select` returns the notification instead of sending it.
- `argv` is not modelled. The event name and the script's directory are parameters, so the unreachable `argc < 1` branch and the `IndexError` for a missing event do not arise.
- `unicode(line)` decoding is not modelled: input lines are taken as text already. Python 2 raises `UnicodeDecodeError` on non-ASCII bytes there.
- PianobarGrowl.ParseValue: treats only ASCII digits as digits. Python's `isdigit()` also accepts other Unicode digits, for which `int()` may then fail.
- PianobarGrowl.Fields: an integer handed directly to `growl.notify` as a description is modelled as its decimal text.
