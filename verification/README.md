# A verified model of the self-contained algorithms of ns-3

Most of this repository is simulation scripts. Beside them stand a few algorithms that need
nothing but themselves: the dependency sorts of the Python binding generator, the pool of threads
behind `test.py`, the patch handling of the style checker, the enumeration of configuration paths
for the documentation, the combinatorics in `rad_util.py`, and three loops with a sharp meaning.
This project models them in Dafny, each in the form its source has, and proves what they are for.

Code that changes things step by step is modelled by classes and methods with loops; their
contracts tie them to specifications that are stated without them (walks in a graph, runs of a
state machine, the multiset of a list, the value of a string of bits), and the lemmas are about
those specifications. A source that iterates over a dictionary takes the keys in an arbitrary
order here too, so that what is proved holds for every order.

## Main results

* **Dependency graphs** (`Digraphs`, `TopSort`, `Rotations`, `FindCycles`). `topsort` fails exactly
  when the pairs contain a directed cycle. Otherwise it lists every node once, parents first, and in
  the order in which nodes become parentless, and so of the longest chain of edges ending in a node.
  What the error carries is exact too: the nodes on or below a cycle, how many pairs lead to each of
  them from the others, and their children. The k-th list of `topsort_levels` is exactly the nodes
  whose longest incoming chain has k edges, it fails on the same inputs, and `SortsAgree` shows the
  one output to be the other's levels in a row, each in some order. `find_cycles` yields, for every
  finite graph and every order of its keys, each simple cycle exactly once up to rotation, although
  it skips all roots that an earlier search came across; and it ends.
* **The test pool** (`TestPool`). Every interleaving of the dispatcher, the workers, the collector
  and an interrupt that may come at any moment keeps an invariant: each job is in exactly one place,
  the input queue holds real jobs and then stop pills, and a worker that has its pill leaves only
  pills behind. No reachable state is stuck, all schedules end within `6 * jobs + 7 * workers + 5`
  steps, and at the end the queues are empty, each worker has one pill, and the counters are the
  numbers of jobs of each kind. In every schedule exactly one thing is done to each job: its command
  runs once, or it is passed over as one to be skipped, or the interrupt cuts it off; the collected
  job tells which (`RanOnce`), and the return code is 0 exactly if each job was passed over or ran
  with code 0, else 1 (`ExitCodeMeans`). Both queues are first in, first out (`FirstInFirstOut`).
* **Patches** (`PatchFormat`, `PatchText`, `PatchContents`, `WhitespacePass`, `SecondRun`,
  `PatchObjects`). Parsing undoes printing if and only if no text contains a newline, no deleted
  text starts with `-- ` and no added text starts with `++ `; printing undoes parsing if and only if
  the text has the printer's shape; and parsing succeeds on exactly the texts `AllAcceptable`
  describes; `ClassifyExact` says of every line what it is read as, and `ParsedContents` what is
  built. The pass over trailing blanks edits line objects that the source and destination view of a
  chunk share. Its source sides survive if and only if no shared line is to be edited, as is the
  case when context lines have the same index on both sides. A second pass over the same patches
  changes nothing if and only if no pair of lines is reopened by a later edit of its source line
  (`FixAgain`, `PassAgain`), which follows from the former but not conversely. The function itself
  starts from text, and there is a further way to fail: an added `++` that is given a space is
  written as `+++ ` and read as a file name. Running the function on the text its own result is
  written as gives the same patches if and only if no pair is reopened and no line is disguised in
  this way (`TextAgain`). `SharedEditExample`, `ReopenedExample` and `DisguisedExample` have an
  instance of each failure.
* **Configuration paths** (`ConfigPaths`). `DoGather` restores both of its stacks and appends, in
  preorder, exactly one entry per walk through pairwise distinct types avoiding the ancestors, on
  every finite, possibly cyclic type graph.
* **Bits and permutations** (`BitStrings`, `Permutations`). The carry loop of `binary_range` lists
  the numbers in order, `int2bin` succeeds exactly on what fits and inverts `bin2int` both ways, and
  the Gray code is a bijection on the n-bit numbers whose neighbours differ in one position.
  `permutations` returns n! lists, which are exactly the rearrangements of the input whether or not
  it repeats items, and pairwise different exactly if it does not.
* **Loops** (`Quantiles`, `LargeTransfer`, `Fairness`, `Timeline`). Quantiles are monotone and lie
  between adjacent order statistics, so trimming leaves a non-empty slice of the sorted list; what a
  socket has accepted is always a prefix of the stream, and it is closed exactly when all of it is;
  Jain's index lies between 1/n and 1 and is 1 exactly for equal counters, in arithmetic that does
  not wrap around for counters in a stated range; and the timeline searches return what they should,
  with the exact condition for a slice of ranges to be the ranges that meet the interval.

Two remarks on the source. The comment at line 109 of `bindings/python/topsort.py` says that every
leftover node has a child. That is not so (`TopSort.ChildlessLeftover` has an instance); leftover are
exactly the nodes on or below a cycle (`Digraphs.UnboundedIff`), and the comment is right exactly when
no walk that starts on a cycle ends in a childless node (`TopSort.CommentHoldsIff`). What always holds
is that every leftover node has a leftover parent (`TopSort.LeftoverParented`). And `get_ranges` in
`utils/grid.py` misses the ranges between two endpoints that both lie in gaps (`Timeline.GapExample`);
`Timeline.PicksExactly` says for all inputs when it returns just the ranges that meet the interval.

`Sequences` has the few facts about lists without repetitions that several modules need.

## Model

| member | source | states |
|---|---|---|
| `TopSort.TopSort` | bindings/python/topsort.py:61-112 | Fails exactly when the pairs contain a directed cycle, self-pairs included; otherwise lists every node once. Roots come first, in any order, and the others in the order in which they become parentless: by the position of their last parent in the list, then by their last occurrence among its children. So parents come before children and nodes in order of their longest incoming chain. All this also holds of the partial list of an error, which has exactly the nodes with bounded chains; the reported counts are the numbers of pairs, with multiplicity, from leftover parents |
| `TopSort.TopSortLevels` | bindings/python/topsort.py:114-172 | The k-th yielded list is exactly the nodes, once each, whose longest incoming chain has k edges; all nodes of bounded depth are yielded; ends in an error exactly when there is a cycle, reporting the same leftovers as `topsort` |
| `TopSort.TopSortLevelsCore` | bindings/python/topsort.py:174-232 | The same, for any two dictionaries that describe a list of pairs, isolated nodes and empty child lists allowed |
| `TopSort.SortsAgree` | bindings/python/topsort.py:93-106 | The two sorts agree: the items of level k are the next items of the sorted list, in some order, and the levels exhaust it, with cycles or without |
| `TopSort.LevelExact` | bindings/python/topsort.py:203-205 | After k levels were peeled off, the keys whose count is zero are exactly the nodes of depth k |
| `TopSort.LevelsExhausted` | bindings/python/topsort.py:226-232 | With no such key left the survivors are the nodes of unbounded depth; there are some exactly if there is a cycle |
| `TopSort.CountPairs` | bindings/python/topsort.py:77-90 | Every element becomes a key; counts are the pairs into it with multiplicity; children are listed in the order of the pairs |
| `TopSort.ZeroKeys` | bindings/python/topsort.py:93 | Exactly the keys with a zero count, each once, in any order of the dictionary |
| `TopSort.CountRemove` | bindings/python/topsort.py:98-101 | Processing a parent lowers the number of pairs into a node from unprocessed parents by the node's occurrences among its children |
| `TopSort.KnockChild` | bindings/python/topsort.py:100-103 | Counting down one child keeps the state of the inner loop; the child enters the answer exactly when its last parent is gone, one level below the parent being processed |
| `TopSort.ReleaseNow` | bindings/python/topsort.py:100-103 | A child whose count drops to zero has no parent left outside the processed ones, of which the current one is the last, and does not occur again among its children |
| `TopSort.ReleaseUnique` | bindings/python/topsort.py:97-103 | Of each listed node with a parent there is just one such moment |
| `TopSort.CountIs` | bindings/python/topsort.py:87 | The counts are numbers of pairs |
| `TopSort.ChildrenInOrder` | bindings/python/topsort.py:90 | The children of a parent are those of all its pairs, in the order of the pairs |
| `TopSort.KahnEnd` | bindings/python/topsort.py:108-112 | When the growing list is exhausted, leftovers exist exactly if there is a cycle; the list is exactly the nodes of bounded depth, parents first, and what is left are those on or below a cycle |
| `TopSort.LeftoverParented` | bindings/python/topsort.py:108-111 | Every leftover node has a leftover parent |
| `TopSort.ChildlessLeftover` | bindings/python/topsort.py:109-110 | An instance where the comment's claim fails: for the pairs (a, a), (a, b) node b is left over and has no child |
| `TopSort.CommentHoldsIff` | bindings/python/topsort.py:108-111 | The comment is right about a list of pairs if and only if no walk that starts on a cycle ends in a node that is nobody's parent |
| `TopSort.DepthsOrder` | bindings/python/topsort.py:97-103 | Entering the list at most one level below the item processed last puts parents first and chains in order |
| `TopSort.PeelLevel` | bindings/python/topsort.py:217-224 | After the loop over a level the dictionaries describe the graph without that level |
| `TopSort.DropParent` | bindings/python/topsort.py:219-224 | After one parent was dropped the dictionaries describe the graph without it |
| `Digraphs.ChainIsWalk` | bindings/python/topsort.py:203-224 | A chain of k edges into a node is a walk of k + 1 nodes ending there, so that depth means what it says |
| `Digraphs.DepthUnique` | bindings/python/topsort.py:203-224 | A node is on one level only |
| `Digraphs.EdgeDeepens` | bindings/python/topsort.py:100-103 | Every edge leads to a strictly deeper node |
| `Digraphs.CycleUnbounded` | bindings/python/topsort.py:108-111 | Every node of a cycle ends chains of every length |
| `Digraphs.ParentsInsideMakeCycle` | bindings/python/topsort.py:109-111 | A non-empty set in which everyone has a parent inside contains a cycle |
| `Digraphs.AcyclicIffBounded` | bindings/python/topsort.py:108-112 | A finite graph has a cycle exactly if some node has chains of every length into it |
| `Digraphs.UnboundedIff` | bindings/python/topsort.py:108-112 | In a finite graph chains of every length end in a node, so that it is left over, if and only if it lies on a cycle or a walk leads to it from one |
| `FindCycles.FindCycles` | bindings/python/topsort.py:343-385 | Terminates; yields simple cycles only, no two of them rotations of each other, and a rotation of every simple cycle of the graph, for any order of the keys |
| `FindCycles.AllFound` | bindings/python/topsort.py:346-349 | Once every key was searched or reached from a searched root, each simple cycle has been recorded, although reached roots are skipped |
| `FindCycles.CycleRecorded` | bindings/python/topsort.py:346-385 | A simple cycle that some path from an exhausted root runs into is recorded, up to rotation |
| `FindCycles.AroundCycle` | bindings/python/topsort.py:365-369 | The path into the cycle, continued around it, is a simple path whose last edge closes exactly this cycle |
| `FindCycles.PopPath` | bindings/python/topsort.py:351-360 | Taking a path off the stack leaves every simple path from the root explored, on the stack, or an extension of the path taken off |
| `FindCycles.PushPath` | bindings/python/topsort.py:378-385 | A child off the path makes a longer simple path; no unexplored path is lost |
| `FindCycles.BackEdge` | bindings/python/topsort.py:367-377 | A child on the path closes a cycle, which is recorded afterwards, once up to rotation |
| `FindCycles.SuffixCycle` | bindings/python/topsort.py:365-369 | The path from the child's first occurrence on is a simple cycle |
| `FindCycles.FoundOne` | bindings/python/topsort.py:370-377 | Recording a cycle that no recorded one is a rotation of keeps all recorded cycles pairwise unrotated |
| `FindCycles.RootStart` | bindings/python/topsort.py:346-351 | A root may be skipped if visited, and otherwise the search covers all simple paths from it |
| `FindCycles.PopWeight` | bindings/python/topsort.py:351-360 | The weight of the stack goes down by more than all one-step extensions of the path taken off |
| `FindCycles.PushWeight` | bindings/python/topsort.py:383 | Pushing one extension uses up just its share of that weight |
| `FindCycles.IndexOf` | bindings/python/topsort.py:369 | The first occurrence of the child on the path |
| `Rotations.IsRotated` | bindings/python/rad_util.py:735-775 | True exactly for cyclic shifts of non-empty lists; two empty lists fail on the head item |
| `Rotations.RotationSymmetric` | bindings/python/rad_util.py:735-775 | Being a rotation is symmetric |
| `Rotations.RotationTransitive` | bindings/python/rad_util.py:735-775 | Being a rotation is transitive |
| `Rotations.RotateTwice` | bindings/python/rad_util.py:771-775 | Two shifts are one shift by the sum, wrapped around |
| `TestPool.RunInv` | test.py:965-1033 | The invariant of the pool holds after every interleaving of the threads and whenever the interrupt comes |
| `TestPool.PoolRunsEnd` | test.py:1403-1826 | No schedule has more than 6 * jobs + 7 * workers + 5 steps, and the invariant holds throughout |
| `TestPool.NoDeadlock` | test.py:965-1033 | Until `run_tests` returns some thread can always go on, without an interrupt having to come |
| `TestPool.Finished` | test.py:1825-1912 | At the end both queues are empty, every worker stopped on a pill of its own, each job was collected once, the counters are the numbers of jobs of each status and add up to all jobs with the interrupted ones, and the code is 0 if no collected job is marked interrupted and each is marked to be skipped or has code 0, and 1 otherwise |
| `TestPool.RanOnce` | test.py:972-1033 | In every schedule exactly one thing was done to a collected job, and its fields tell which: it was cut off with the interrupt flag up, without a run; or it was to be skipped, without a run; or its command ran once and gave the code it carries |
| `TestPool.ExitCodeMeans` | test.py:1686-1912 | When `run_tests` returns, exactly one thing was done to each dispatched job, and the code is 0 if each was passed over, being one to skip, or ran once and returned 0, and 1 otherwise |
| `TestPool.StepStamped` | test.py:972-1033 | Each step keeps it true that wherever a job is, what was done to it so far is nothing before it is handled, and then what its fields tell |
| `TestPool.FirstInFirstOut` | test.py:967-1687 | In every schedule the k-th take is of the k-th job dispatched, pills included, and the results collected are the first ones reported, in the order of the reports |
| `TestPool.TakenInOrder` | test.py:967 | From any state on, jobs are taken in the order of their creation, none left out |
| `TestPool.ReadInOrder` | test.py:1033-1687 | What was collected and what waits is what was reported, in order |
| `TestPool.LateRuns` | test.py:979-982 | Once `thread_exit` is up a worker completes at most the one real run it is in the middle of |
| `TestPool.InitInv` | test.py:1403-1413 | The invariant holds when the threads have been started |
| `TestPool.StepInv` | test.py:965-1033 | Each step of each thread keeps the invariant |
| `TestPool.StepConserves` | test.py:965-1033 | Each step keeps every job created so far in exactly one of input queue, a worker's hands, output queue or collected results |
| `TestPool.StepShape` | test.py:1664-1667 | The input queue stays real jobs followed by stop pills, and only pills are left once a worker holds one |
| `TestPool.StepPills` | test.py:972-973 | The pills queued and the pills taken add up to the pills put |
| `TestPool.StepWorkers` | test.py:972-1033 | Workers run only jobs that are neither pills nor to be skipped and report only dispatched jobs |
| `TestPool.StepProgress` | test.py:965-1033 | Each step of each thread uses up some of the bound on the steps left |
| `TestPool.RunsEnd` | test.py:965-1033 | A run and the steps left after it stay within the steps left before it |
| `TestPool.RealJobQueued` | test.py:1686-1687 | While results are due and no worker is busy, a job that is no pill is queued |
| `TestPool.OnePillEach` | test.py:1664-1667 | No two workers stop on the same pill |
| `TestPool.AllCollected` | test.py:1686-1687 | As many results as jobs means every job's result exactly once |
| `TestPool.TallyCounts` | test.py:1679-1720 | The collector's five counters are the numbers of collected jobs of each status |
| `TestPool.TallySums` | test.py:1679-1720 | The counters and the interrupted jobs add up to the results read; passed and skipped alone do exactly if every job succeeded |
| `TestPool.Pool.RunTests` | test.py:1403-1912 | The threads together, in any order and with any return codes: the method terminates with empty queues and every job collected once, by a schedule of the steps; the code is 0 if all collected jobs succeeded, that is, if in that schedule each job was passed over or ran once with code 0, and 1 otherwise |
| `TestPool.Pool.OneStep` | test.py:965-1033 | Until `run_tests` returns some thread can go on, and what it does is one step of the schedule |
| `TestPool.Pool.constructor` | test.py:1403-1413 | Starts from empty queues and waiting workers |
| `TestPool.Pool.SigintHook` | test.py:571-574 | Raises the flag and does nothing else, however often |
| `TestPool.Pool.PutJob` | test.py:1457-1459 | Appends a job to the input queue |
| `TestPool.Pool.PutStopPill` | test.py:1664-1667 | Appends a stop pill to the input queue |
| `TestPool.Pool.CollectResult` | test.py:1686-1720 | Takes the oldest result and counts it unless it was interrupted |
| `TestPool.Pool.JoinThread` | test.py:1825-1826 | Passes a worker that has stopped |
| `TestPool.Pool.NextLoop` | test.py:1909-1912 | Goes on to the main thread's next loop, and after the last one returns the code |
| `TestPool.Pool.WorkerGet` | test.py:967 | A worker takes the oldest job |
| `TestPool.Pool.WorkerCheck` | test.py:972-998 | A pill stops the worker; an interrupt marks the job; a job to be skipped is reported; any other is run |
| `TestPool.Pool.WorkerRan` | test.py:1007-1021 | The job gets the command's return code |
| `TestPool.Pool.WorkerPut` | test.py:1033 | The job goes to the output queue and the worker back to waiting |
| `PatchFormat.ReadBack` | utils/check-style.py:356-411 | Parsing the written lines of a patch set gives it back if and only if no text has a newline, no deleted text starts with `-- ` and no added text with `++ ` |
| `PatchFormat.WriteBack` | utils/check-style.py:367-411 | A text is parsed and written back unchanged if and only if it has the printer's shape: names in pairs, headers with the numbers of the lines after them that are marked for either side, every line terminated |
| `PatchFormat.Accepted` | utils/check-style.py:376-411 | Parsing succeeds exactly on lines of known form in which a source file name precedes destination names and chunks, and a chunk header precedes lines of chunks |
| `PatchFormat.LineClassified` | utils/check-style.py:214-227 | A written line is read as a line of a chunk exactly if it is faithful, and then as itself |
| `PatchFormat.SrcFileClassified` | utils/check-style.py:362 | A written source file name is read back exactly if it has no newline |
| `PatchFormat.DstFileClassified` | utils/check-style.py:363 | A written destination file name is read back exactly if it has no newline |
| `PatchFormat.HeaderRead` | utils/check-style.py:301-302 | A written chunk header is read as the four numbers written |
| `PatchFormat.MarkedCounts` | utils/check-style.py:283-294 | The lines of either side are those written with its mark or a space |
| `PatchText.HeaderWritten` | utils/check-style.py:301-302 | The header written for a chunk has its positions and, of the lines written after it, how many begin with `-` or a space and how many with `+` or a space, in decimal |
| `PatchText.ClassifyExact` | utils/check-style.py:368-373 | What every line is read as, with or without a final newline: which text makes it the name of a file, a header, or a line of which kind |
| `PatchText.MatchRestExact` | utils/check-style.py:368-373 | An expression that is anchored at both ends matches a line without regard to its final newline |
| `PatchText.HeaderExact` | utils/check-style.py:370 | The expression for headers matches exactly four numerals in their frame, with any text after it |
| `PatchText.ParseAlike` | utils/check-style.py:376-411 | A line is parsed alike with and without its newline, such as the last line of a file that lacks one |
| `PatchText.DigitsDecimal` | utils/check-style.py:301-302 | Numbers are written in decimal without needless zeros |
| `PatchText.OneDigit` | utils/check-style.py:248-249 | A single digit counts as itself |
| `PatchText.PlaceValue` | utils/check-style.py:248-249 | In a numeral read, the digits count by their places |
| `PatchContents.ParsedContents` | utils/check-style.py:374-411 | What is built from any accepted lines: the file names of each patch, the last destination name counting; how many chunks each patch has; the positions and lines of all chunks in a row, a chunk going on until the next header |
| `PatchContents.Refused` | utils/check-style.py:376-410 | Other lines are refused at the first one that is not acceptable, with the error of its form |
| `PatchFormat.DigitsBack` | utils/check-style.py:248-249 | A number's decimal digits are read back as the number |
| `PatchFormat.ItemBack` | utils/check-style.py:377-409 | What a line is read as determines the line |
| `PatchFormat.ParseTotal` | utils/check-style.py:376-411 | A parsed patch set has exactly as many lines as there were lines of chunks |
| `PatchFormat.ShapedIsWritten` | utils/check-style.py:356-365 | Lines in the printer's shape are the written form of a patch set |
| `WhitespacePass.SrcSurvives` | utils/check-style.py:418-426 | The source side of a chunk is unchanged if and only if no line shared by both sides is to be edited |
| `WhitespacePass.AlignedIsSafe` | utils/check-style.py:263-282 | When each context line has the same index on both sides, no shared line is edited |
| `WhitespacePass.DstOutcome` | utils/check-style.py:421-426 | If no shared line is to be edited, each destination line is untouched or becomes its source line, which it lacked only the final blank of; every such line does; the numbers of lines stay |
| `WhitespacePass.FixAgain` | utils/check-style.py:418-426 | Running the pass on the lines of a chunk again changes nothing and ends the same way if and only if no pair was reopened: no source line was edited after its own pair was judged and had the text of that pair's destination or one blank more |
| `WhitespacePass.FixTwice` | utils/check-style.py:418-426 | If no shared line is to be edited, a second pass over the lines of the chunk changes nothing, and none is to be edited then either |
| `WhitespacePass.ReopenedExample` | utils/check-style.py:418-426 | A chunk in which a second pass over the same lines edits one more line |
| `WhitespacePass.EditsAgain` | utils/check-style.py:421-426 | After the pass a pair matches again if and only if a later pair has reopened it |
| `WhitespacePass.SharedEditExample` | utils/check-style.py:418-426 | A chunk in which the pass changes the source side |
| `WhitespacePass.BlankRestores` | utils/check-style.py:414-426 | The greedy group leaves one blank to append, after which the pair no longer matches |
| `WhitespacePass.LacksBlankExact` | utils/check-style.py:414-425 | A pair matches if and only if the source text is the destination text and one blank |
| `WhitespacePass.SidesExact` | utils/check-style.py:263-282 | Either side consists of the lines of its two kinds, in order |
| `WhitespacePass.Judged` | utils/check-style.py:421-426 | Whether a pair is edited, with the lines as earlier edits have left them, told from the lines before the pass; an edit adds one blank to the destination, which no other pair touches |
| `WhitespacePass.Outcome` | utils/check-style.py:418-426 | On any chunk: each line is as it was before the pass, or has one more blank if it is the destination of a pair that fires |
| `WhitespacePass.FiresIsEdits` | utils/check-style.py:421-426 | As long as no shared line was edited, each pair is judged on the lines as they were before the pass |
| `WhitespacePass.SourcesSurvive` | utils/check-style.py:416-429 | The source sides of all patches are unchanged if and only if no shared line is edited before the pass ends |
| `WhitespacePass.OutlineKept` | utils/check-style.py:413-429 | File names, positions and both counts of every chunk stay, aligned or not |
| `WhitespacePass.PassOutcome` | utils/check-style.py:416-429 | Exactly the chunks up to the first one with fewer destination lines than source lines are edited, and all others left as they are |
| `WhitespacePass.PassAgain` | utils/check-style.py:413-429 | A second pass over the same patches changes nothing, its early return on a short destination side included, if and only if no pair is reopened in any chunk it gets to |
| `WhitespacePass.PassTwice` | utils/check-style.py:413-429 | If no shared line is edited in any chunk the pass gets to, a second pass over the same patches changes nothing |
| `WhitespacePass.AlignedPatches` | utils/check-style.py:413-429 | When in every chunk each context line has the same index in src() and dst(), all source sides stay and a second pass over the same patches changes nothing |
| `SecondRun.TextAgain` | utils/check-style.py:413-429 | Running the function on the text its result is written as gives the same patches if and only if, in the chunks the pass gets to, no pair was reopened and no added line was disguised as a file name |
| `SecondRun.AlignedTextAgain` | utils/check-style.py:413-429 | For patches with aligned context lines, if and only if no added line was disguised |
| `SecondRun.DisguisedExample` | utils/check-style.py:368-387 | A patch that is written and read back as it is, with no context lines to be misaligned, whose result is not: it deletes `++ ` and adds `++` |
| `SecondRun.StaysFaithful` | utils/check-style.py:418-426 | The pass keeps the lines of a chunk such that written they are read as themselves if and only if it gives no added `++` a space |
| `SecondRun.PassStaysFaithful` | utils/check-style.py:413-429 | The same for a patch set and the chunks the pass gets to |
| `SecondRun.BlankIs` | utils/check-style.py:421-426 | The blank a pair appends, told from the lines before the pass: the source line's last one, or the one that an earlier pair has given it |
| `SecondRun.ParseFaithful` | utils/check-style.py:376-411 | Whatever is parsed is such that written it is read as itself |
| `SecondRun.LostLine` | utils/check-style.py:356-411 | A patch set that is not such is not read back with as many lines |
| `PatchObjects.RemoveTrailingWhitespaceChanges` | utils/check-style.py:413-429 | The objects returned have the values the pass gives to the parsed patch set, or the parser's error is raised |
| `PatchObjects.ParsePatchset` | utils/check-style.py:367-411 | The loop with its current patch and chunk builds fresh objects for exactly the patch set the lines denote, and fails on the same lines with the same error |
| `PatchObjects.RemoveTrailing` | utils/check-style.py:416-429 | Editing the shared line objects in place gives every patch its value after the pass, the early return included |
| `PatchObjects.Patch.RemoveTrailing` | utils/check-style.py:417-428 | The same for the chunks of a patch |
| `PatchObjects.PatchChunk.RemoveTrailing` | utils/check-style.py:418-428 | The same for the lines of a chunk; false exactly when a source line has no partner |
| `PatchObjects.PatchChunk.PairStep` | utils/check-style.py:422-426 | One pair's edit has the right effect even if the two lines are one object |
| `PatchObjects.PatchChunk.SrcSide` | utils/check-style.py:263-272 | The very objects of the source lines, in order |
| `PatchObjects.PatchChunk.DstSide` | utils/check-style.py:273-282 | The very objects of the destination lines, in order |
| `PatchObjects.PatchChunk.Write` | utils/check-style.py:295-304 | Writes the chunk's text exactly if every line's type was set; otherwise its header and the lines before the first one without a type |
| `PatchObjects.PatchChunk.AddLine` | utils/check-style.py:256-262 | Appends the line object |
| `PatchObjects.PatchChunk.constructor` | utils/check-style.py:241-249 | A chunk with its positions and no lines |
| `PatchObjects.Patch.Write` | utils/check-style.py:356-365 | Writes the patch's text exactly if every line's type was set; otherwise what comes before the first line without a type |
| `PatchObjects.Patch.AddChunk` | utils/check-style.py:321-327 | Appends the chunk object |
| `PatchObjects.Patch.SetSrc` | utils/check-style.py:334-340 | Sets the source file name |
| `PatchObjects.Patch.SetDst` | utils/check-style.py:341-347 | Sets the destination file name |
| `PatchObjects.Patch.constructor` | utils/check-style.py:314-320 | A patch without names and chunks |
| `PatchObjects.PatchChunkLine.constructor` | utils/check-style.py:159-164 | An empty line of no type |
| `PatchObjects.PatchChunkLine.SetSrc` | utils/check-style.py:165-172 | Makes it a source line |
| `PatchObjects.PatchChunkLine.SetDst` | utils/check-style.py:173-180 | Makes it a destination line |
| `PatchObjects.PatchChunkLine.SetBoth` | utils/check-style.py:181-188 | Makes it a context line |
| `PatchObjects.PatchChunkLine.AppendToLine` | utils/check-style.py:189-195 | Extends the text and keeps the type |
| `PatchObjects.PatchChunkLine.Write` | utils/check-style.py:214-227 | The line with its mark, or the exception for a line of no type |
| `ConfigPaths.StaticInformation.DoGather` | utils/print-introspected-doxygen.cc:420-503 | Terminates on every type graph, restores both stacks, and appends exactly the entries of the walks from the type that avoid the ancestors, in order |
| `ConfigPaths.WalksExact` | utils/print-introspected-doxygen.cc:423-503 | The walks enumerated are exactly those through pairwise distinct types none of which is an ancestor |
| `ConfigPaths.WalksPreordered` | utils/print-introspected-doxygen.cc:428-503 | They come in preorder: each before its extensions, earlier edges before later ones |
| `ConfigPaths.WalksDistinct` | utils/print-introspected-doxygen.cc:428-503 | No walk is enumerated twice |
| `ConfigPaths.SearchShrinks` | utils/print-introspected-doxygen.cc:449-453 | Following an edge leaves strictly fewer types that may still be entered |
| `ConfigPaths.GatheredStep` | utils/print-introspected-doxygen.cc:449-453 | Searching an edge's target with both stacks pushed adds just the entries of the walks through this edge |
| `ConfigPaths.EdgesExact` | utils/print-introspected-doxygen.cc:429-502 | The ways out of a type: those its attributes give, then those the registered types give, then those the aggregations give, each in order and none left out |
| `ConfigPaths.EntryExact` | utils/print-introspected-doxygen.cc:341-346 | An entry has the type its walk ends in and, after the path at the start, the segments of the edges taken, in order |
| `ConfigPaths.AttributeStep` | utils/print-introspected-doxygen.cc:429-468 | An attribute leads on if it is a pointer to anything but Object, or a container; the segment is its name, with `/[i]` for containers |
| `ConfigPaths.ChildStep` | utils/print-introspected-doxygen.cc:469-481 | Registered types lead on exactly if they are children of the type, under `$` and their name |
| `ConfigPaths.AggregateStep` | utils/print-introspected-doxygen.cc:482-502 | Aggregations lead from either side to the other; one of a type with itself leads back to the type |
| `ConfigPaths.StaticInformation.Follow` | utils/print-introspected-doxygen.cc:449-453 | Push, search, pop: both stacks are as before and one more edge is done |
| `ConfigPaths.StaticInformation.Gather` | utils/print-introspected-doxygen.cc:411-417 | With no ancestors, an entry for each walk through distinct types |
| `ConfigPaths.StaticInformation.HasAlreadyBeenProcessed` | utils/print-introspected-doxygen.cc:349-361 | Whether the type is among the ancestors |
| `ConfigPaths.StaticInformation.Get` | utils/print-introspected-doxygen.cc:364-377 | All recorded paths of a type, in the order recorded |
| `ConfigPaths.PathsExact` | utils/print-introspected-doxygen.cc:364-417 | After a search without ancestors a type's paths are exactly the label sequences of the walks through distinct types that lead to it |
| `ConfigPaths.StaticInformation.RecordOutput` | utils/print-introspected-doxygen.cc:341-346 | Appends the type with the current path |
| `ConfigPaths.StaticInformation.constructor` | utils/print-introspected-doxygen.cc:270-282 | Empty stacks and output |
| `BitStrings.Int2BinExact` | bindings/python/rad_util.py:96-105 | For i >= 0 and n >= 1 succeeds exactly if i < 2^n, with the n low bits of i, through hex digits, truncation and padding |
| `BitStrings.Int2BinNegative` | bindings/python/rad_util.py:96 | A negative number fails on the x of its prefix |
| `BitStrings.NumberBack` | bindings/python/rad_util.py:96-130 | bin2int undoes int2bin |
| `BitStrings.StringBack` | bindings/python/rad_util.py:96-130 | int2bin undoes bin2int |
| `BitStrings.HexValue` | bindings/python/rad_util.py:91-96 | Mapping the hex digits to four bits each keeps the value |
| `BitStrings.BinaryRange` | bindings/python/rad_util.py:632-660 | The ripple-carry loop ends and its k-th entry has the bits of k, and is what int2bin gives for k, for all k < 2^bits; nothing for zero bits |
| `BitStrings.Ripple` | bindings/python/rad_util.py:650-659 | One round of the carry keeps the value of the bits and the carry together at k + 1 |
| `BitStrings.GrayBijection` | bindings/python/rad_util.py:612-615 | gray_encode is a bijection on the numbers below 2^n |
| `BitStrings.GrayAdjacent` | bindings/python/rad_util.py:612-615 | The n-bit strings of neighbouring codes differ in exactly one position |
| `BitStrings.GrayBit` | bindings/python/rad_util.py:612-615 | Each bit of the code tells whether the bit of the number differs from the one before it |
| `BitStrings.DecodeEncode` | bindings/python/rad_util.py:612-615 | The code determines the number |
| `BitStrings.EncodeDecode` | bindings/python/rad_util.py:612-615 | Every number is a code |
| `Permutations.Permute` | bindings/python/rad_util.py:293-326 | The recursion around two loops returns exactly the specified list of lists |
| `Permutations.PermsCount` | bindings/python/rad_util.py:310-326 | There are n! of them |
| `Permutations.PermsExact` | bindings/python/rad_util.py:310-326 | They are exactly the lists with the input's multiset, items repeated or not |
| `Permutations.PermsDistinctIff` | bindings/python/rad_util.py:310-326 | They are pairwise different if and only if the items of the input are |
| `Permutations.PermsOrder` | bindings/python/rad_util.py:315-322 | Their order: every permutation of the rest in turn, with the first item put at each position in turn |
| `Quantiles.QuantileBetween` | bindings/python/rad_util.py:358-368 | A quantile of a non-empty list lies between adjacent order statistics |
| `Quantiles.QuantileValue` | bindings/python/rad_util.py:358-368 | With the items in order, the quantile lies at the fraction f of the way from item k to the next one when p is k + f of the n - 1 steps |
| `Quantiles.OneItem` | bindings/python/rad_util.py:358-368 | Every quantile of one item is the item |
| `Quantiles.NoItems` | bindings/python/rad_util.py:358-368 | Quantiles and trimming fail on the empty list |
| `Quantiles.QuantileMonotone` | bindings/python/rad_util.py:358-368 | Quantiles are monotone in p on [0, 1] |
| `Quantiles.TrimIsSlice` | bindings/python/rad_util.py:385-404 | Trimming leaves a non-empty contiguous slice of the sorted list: exactly the values within one and a half interquartile ranges of the quartiles |
| `Quantiles.KeepIsSlice` | bindings/python/rad_util.py:402-403 | Filtering a sorted list by an interval leaves the slice of the values inside it |
| `Quantiles.SomeKept` | bindings/python/rad_util.py:397-403 | Some value always lies inside the interval |
| `Quantiles.SortIsSorted` | bindings/python/rad_util.py:358-359 | The sorted copy is sorted and has the same multiset |
| `Quantiles.SortIsOnlyOne` | bindings/python/rad_util.py:358-359 | A list is the sorted copy if and only if it is sorted and has the same multiset, so that any correct sort gives it |
| `LargeTransfer.Application.WriteUntilBufferFull` | examples/tcp/tcp-large-transfer.cc:198-219 | Terminates unless the socket accepts nothing for ever; what it has accepted stays the prefix of the stream of currentTxBytes bytes; each slice offered is the stream's from there to the end of the buffer, the stream or the room; closed exactly on leaving with everything accepted; otherwise left only when the last send was refused or without room |
| `LargeTransfer.Application.Flow` | examples/tcp/tcp-large-transfer.cc:185-219 | After any number of callbacks the k-th byte accepted is 97 + k mod 26, there are at most 2000000 of them, and the socket is closed exactly if there are as many |
| `LargeTransfer.Application.StartFlow` | examples/tcp/tcp-large-transfer.cc:185-196 | The first write keeps all these promises |
| `LargeTransfer.Application.constructor` | examples/tcp/tcp-large-transfer.cc:81-86 | The buffer holds the pattern, whose k-th byte is 97 + k mod 26 |
| `LargeTransfer.Application.SliceContinues` | examples/tcp/tcp-large-transfer.cc:203-208 | Whatever is accepted of the slice at the current offset continues the stream |
| `LargeTransfer.Application.OfferFits` | examples/tcp/tcp-large-transfer.cc:202-207 | The slice offered is the stream's from the current position on, as long as it should be |
| `LargeTransfer.BufferContinues` | examples/tcp/tcp-large-transfer.cc:50-52 | The buffer holds whole periods of the pattern, so that from any position on the bytes at the offset are those of the stream |
| `LargeTransfer.Socket.Send` | examples/tcp/tcp-large-transfer.cc:207-212 | Refuses, or accepts some of the slice from its start, possibly nothing |
| `Fairness.Sums` | examples/tcp/dctcp-example.cc:182-191 | The loop and the two products give the sums modulo 2^64 |
| `Fairness.WrapIs` | examples/tcp/dctcp-example.cc:182-183 | Numbers wrap around at 2^64 |
| `Fairness.NoWrap` | examples/tcp/dctcp-example.cc:187-191 | With n counters of at most B each and n * B < 2^32 nothing wraps around |
| `Fairness.SumsCompare` | examples/tcp/dctcp-example.cc:187-191 | The square of the sum lies between the sum of squares and n times it, reaching the latter exactly for equal counters |
| `Fairness.IndexRange` | examples/tcp/dctcp-example.cc:185-191 | Within that bound and if some byte was received, the wrapped sums and products are the exact ones, and the index lies between 1/n and 1, being 1 exactly if all counters are equal |
| `Timeline.TimelineDataRange.Search` | utils/grid.py:100-117 | For ordered ranges, which may share endpoints, finds one that holds the key, or -1 exactly if none does |
| `Timeline.TimelineDataRange.GetRangesBounds` | utils/grid.py:148-164 | For ordered ranges, with both ends held, the bounds of ranges that meet the interval; with one, of a slice up to the end of the list; with none, of nothing; what is missed only ends where the interval starts or starts where it ends. For disjoint ranges nothing is missed with an end held, and the bounds are exact if and only if `PicksExactly` |
| `Timeline.TimelineDataRange.GetRanges` | utils/grid.py:131-147 | For ordered ranges, with an end held, every range that meets the interval in more than a shared endpoint, as a slice that ends or begins with the range holding an end; nothing if none is held. For disjoint ranges, exactly those that meet the interval if and only if `PicksExactly` |
| `Timeline.GapExample` | utils/grid.py:138-141 | A range between two endpoints in gaps that meets the interval and is not returned |
| `Timeline.TimelineDataRange.AddRange` | utils/grid.py:118-124 | Appends the range |
| `Timeline.TimelineDataRange.constructor` | utils/grid.py:92-99 | No ranges |
| `Timeline.BoundsExact` | utils/grid.py:155-164 | When the bounds are exact, from what the two searches found |
| `Timeline.BoundsOrdered` | utils/grid.py:155-164 | What the bounds can miss of ranges that share endpoints, from what the two searches found |
| `Timeline.TouchExample` | utils/grid.py:106-117 | Three ranges where the search finds the second and the first, which ends on the key, is missed |
| `Timeline.TimelineEvent.Search` | utils/grid.py:195-212 | The position of the first event not before the key |
| `Timeline.TimelineEvent.GetEvents` | utils/grid.py:220-229 | Exactly the events of the interval and, if no event lies on its end, the next one after it |
| `Timeline.TimelineEvent.GetEventsBounds` | utils/grid.py:230-239 | The bounds of that slice, of which the upper one may lie one past the last event |
| `Timeline.TimelineEvent.AddEvent` | utils/grid.py:213-219 | Appends the event |
| `Timeline.TimelineEvent.constructor` | utils/grid.py:188-194 | No events |

## Left out

- The ns-3 library and all scripts that only configure it; rendering, file reading, subprocesses,
  XML and HTML output, option parsing and the evaluation of test conditions.
- Dictionaries keep no order here: every loop over one takes the keys in an arbitrary order. The
  dialect of `topsort.py` (`has_key`, `StopIteration`) is read as key membership and normal end.
- Generators are drained at once. `TopSortLevels` returns the yielded lists and how the generator
  ended, `FindCycles` all yielded cycles; a caller who changes a yielded list between two `next`
  calls is not modelled, nor is the consumption of the caller's own dictionaries by
  `topsort_levels_core`.
- FindCycles.FindCycles: in which order the cycles are yielded, and with which of its items each one
  begins, is not stated; the documentation promises neither, and both depend on the order of keys.
- TopSort.TopSortLevelsCore: asks that the two dictionaries describe one graph, which is what its
  documentation says they are; other dictionaries are not modelled.
- Rotations, permutations and cycles are about lists of items with equality; the copies Python
  makes of lists are values here.
- TestPool.PoolRunsEnd: counts the first interrupt only; a repeated signal changes nothing
  (`Pool.SigintHook`) and is no step of a schedule.
- TestPool: at least one worker, and running a job always returns some code; worker exceptions are
  left out. Job objects are values, their identity being a number, so that aliasing is not captured;
  what a worker changes in its job is changed in the one place where the job then is. `collected`
  is a history of the collector's reads. Test names, times and the printed progress, which omits
  valgrind errors and need not reach the total, are left out.
- ConfigPaths: label sequences are not joined into strings with slashes; the registry of types and
  `IsChildOf` are parameters; `RecordAggregationInfo`, the list of names without types and all
  printing are left out. `Uniquefy` takes its container by value, so that it neither sorts nor
  shrinks anything, whatever the comments on it and on `m_noTids` say: `Gather` models it as nothing.
- PatchObjects: the source's `src_start`, `src_len`, `dst_len` and `apply` are folded into their users
  or left out. The ghost fields `chunk` and `patch` and the methods that put one line, chunk or patch
  (`PutLine`, `OpenChunk`, `OpenPatch`, `NameDst`, and those for one index) are not in the source;
  they let each step be proved on its own. After a patch set was written or parsed no further
  aliasing than that of the two views of a chunk is modelled.
- PatchFormat.ReadBack: positions are natural numbers, as parsed ones are.
- Running uncrustify, git and patch, temporary files and `indent_files` in `check-style.py`.
- BitStrings.Int2BinExact: zero bits are not covered, and neither are Gray codes of negative numbers.
- BitStrings.StringBack: is about non-empty strings of bits; what Python's `int(s, 2)` makes of other
  strings is not modelled.
- Quantiles.QuantileBetween: is over the reals; the rounding of floats and p outside [0, 1] are left
  out. `list.sort` is a function that sorts, and the median that `trim` computes and never uses is
  not computed.
- LargeTransfer.Application.WriteUntilBufferFull: the socket does not accept zero bytes for ever
  without refusing, without which the loop would not end. The 32-bit counter never passes 2000000,
  so that it does not wrap around and is a natural number here.
- Fairness.IndexRange: is about the exact quotient; conversion to double, rounding when printing, the
  averages and the division by zero when no flow received anything are left out. The three loops over
  10, 20 and 10 counters are one method for any number of them.
- Timeline: sorting, `get_all`, `get_bounds` and the values carried by ranges and events. Both searches
  ask for what sorting is to provide, ordered ranges and strictly increasing events.
- The rest of `rad_util.py` (`gcf`, `lcm`, `reduce_fraction`, polygon areas, units, time stamps and the
  handling of floats).
