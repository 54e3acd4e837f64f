# System programming exercises: models and proofs

The repository is a collection of small C programs about processes, files,
pipes, shared memory, semaphores, signals and message queues. This project
models those whose behaviour is hard to see from the code and proves what they
keep, over every input, every run and every interleaving. Operating system
calls appear as a few abstract steps; bytes are `char`s.

The programs work by changing things step by step, and so do the models. Heap
structures are classes over nodes, buffers are arrays, loops are loops, and
each method is proved against a function of its inputs or of the old state.
Concurrent programs are state machines: a `Move` says which process takes its
next step, `Apply` takes it, and a run is any sequence of such states.

| module | program |
|---|---|
| `ForestModel`, `PrintOrder`, `ProcessForest` | `HW4/12_2.c`: process tree |
| `CLib`, `Dictionary` | `HW5/part3`: text dictionary to fixed records and back |
| `Processes`, `Pipeline` | `HW5/part2`: descriptors, pipelines |
| `Tokens`, `CommandLine` | `HW5/part2`: tokens, redirection, the child of a command, the loop of the shell |
| `Transfer` | `HW9/54_1`: two semaphores and one shared block |
| `Ring` | `HW10/program.c`: lossy broadcast |
| `BinarySearch` | `HW11/part1/lookup5.c`: capped search |
| `WatchList` | `HW12/19_1.c`: watch list and event decoder |
| `Tickets`, `FifoServer`, `FifoClients`, `MessageQueue` | `HW8/44_6`, `HW8/46_2`: sequence number servers over one ticket allocator, and their clients |
| `Tail` | `HW2/hw2_tail.c`: backward block scan |

## What the code does other than it says

Each of these is stated by a lemma, with the exact condition under which the
code is right.

- The tail program looks for the (n + 1)-th newline from the end, which starts
  the last n lines only if the last of them has its newline. If it has none, a
  file shorter than a block is printed rightly only if it has fewer than n
  newlines; if it has one, unless the first byte of the file is the newline
  sought (`RightIfShort`, `EmptyLineIsPrinted`, `OneLineTooMany`). In a longer
  file, blocks are counted from the end. If the last n lines start in the full
  blocks, they are printed exactly if the last line has its newline and neither
  the newline in front of them nor any behind it is byte 0 of a block
  (`RightIfInFullBlocks`, `HiddenNewline`). In all other cases the program reads
  the first block again, and may print something else, or nothing, or loop
  forever (`RightIfReread`, `FarTooManyLines`).
- Of `cat < a > b` only the input redirection takes effect
  (`OutputBehindInputIsLost`): everything from the first `<` on is cut off
  before `>` is looked for. Output redirection has no effect if descriptor 1 was
  closed and 0 was not: the file itself lands on descriptor 1 and is closed
  again (`OutputToClosedStdoutIsLost`). `redirect_in` likewise relies on
  descriptor 0 being open; the shell ensures this, as it read the command from
  there (`RunLine`).
- A message queue client with process id 1 shares its type with the requests;
  the server can take its own response for a request. With distinct ids this
  happens in some run if and only if such a client exists (`MisreadIffPidOne`).
- A client of the FIFO server makes its FIFO before it sends its request, as a
  comment says to avoid a race. The race is still there: the server opens
  without blocking and gives up on a client that has not yet opened its own
  FIFO, and this client then waits for ever. A client hangs exactly if it lost
  this race (`AnsweredUnlessRaceLost`), and any client can (`AnyoneMayLose`).
  Numbers get lost exactly if a client that asked for some dies between the
  server's open and its write (`GapIffDied`, `AnyoneMayLeaveAGap`).
- The broadcast program increments a shared counter without a lock. The count
  can end up too low exactly when there are at least two consumers and a
  message (`UndercountIffTwoConsumers`); it is never too high.
- The process tree needs no distinct ids. Processes that are their own
  ancestors, and all below them, are never printed; all others are printed
  once (`PrintedOnceOrNever`, `AllPrintedIffAcyclic`, `CycleIsNotPrinted`).
- The binary search stops moving once its interval has width one. The cap of
  100 rounds then ends it, for exactly those absent words that are greater
  than the first word of the table (`BinarySearch.Lookup`).

## Model

| member | source | states |
|---|---|---|
| ForestModel.FirstWithPid | HW4/12_2.c:41-47 | A pid stands for the first node of the list that has it; nobody else has it if there is no such node |
| ForestModel.KidsExact | HW4/12_2.c:52-61 | The children of a node are exactly the nodes whose parent it is, each once and in list order |
| ForestModel.RootIffUnlisted | HW4/12_2.c:83-91 | A process is a root exactly when no listed process has its ppid as pid |
| ForestModel.DepthUnique | HW4/12_2.c:64-81 | A node has at most one distance from a root |
| ForestModel.AcyclicHasDepth | HW4/12_2.c:49-62 | Without a cycle in the parent relation every chain of parents ends (by the pigeonhole principle) |
| ForestModel.CycleNeverEnds | HW4/12_2.c:49-62 | The chain of parents of a node on a cycle never reaches a root |
| ForestModel.AllHaveDepthIffAcyclic | HW4/12_2.c:49-62 | Every chain of parents ends if and only if nobody is their own ancestor |
| ForestModel.SubtreeCount | HW4/12_2.c:64-81 | The recursive walk from a node meets each descendant exactly once, at its distance, and nothing else |
| ForestModel.ForestCount | HW4/12_2.c:64-91 | The walk over all trees shows (node, level) once if level is the length of the node's chain of parents, and never otherwise |
| ForestModel.PrintedOnceOrNever | HW4/12_2.c:83-91 | A node is printed once if its chain of parents ends, not at all if it does not |
| ForestModel.AllPrintedIffAcyclic | HW4/12_2.c:83-91 | Every listed process is printed exactly once if and only if the parent relation has no cycle |
| ForestModel.CycleIsNotPrinted | HW4/12_2.c:83-91 | Two processes that name each other as parent are not printed |
| PrintOrder.SubtreesNested | HW4/12_2.c:69-80 | In the output of trees side by side every deeper line has, as the last line in front of it with a smaller level, the line of its parent, one level above |
| PrintOrder.SubtreesInOrder | HW4/12_2.c:74-80 | In this output nodes with the same parent stand in list order |
| PrintOrder.ForestOrder | HW4/12_2.c:83-91 | Both for the whole output, roots in list order too |
| ProcessForest.ProcTable.InsertNode | HW4/12_2.c:29-39 | The new node goes in front of the list, without parent or children; all others stay as they are |
| ProcessForest.ProcTable.FindNode | HW4/12_2.c:41-47 | Returns the first node with that pid, NULL if there is none |
| ProcessForest.AppendChild | HW4/12_2.c:57-59 | The child stands behind the children that were there, and NULL behind it |
| ProcessForest.ProcTable.Hang | HW4/12_2.c:56-59 | One parent link and one child array change, and all arrays are filled prefixes ended by NULL again |
| ProcessForest.ProcTable.Place | HW4/12_2.c:53-60 | A round of the loop turns a forest over the first i nodes into one over the first i + 1, root or not |
| ProcessForest.ProcTable.BuildPstree | HW4/12_2.c:49-62 | The parent links are the first nodes with the ppids, the child arrays hold the children in list order |
| ProcessForest.ProcTable.ChildIffParent | HW4/12_2.c:49-62 | In the built heap c stands in p's child array (then once) if and only if c.parent is p, if and only if p is what the search gives for c.ppid |
| ProcessForest.ProcTable.PrintPstreeRecursive | HW4/12_2.c:64-81 | The lines of a subtree are its preorder walk with levels; the recursion ends |
| ProcessForest.ProcTable.PrintPstree | HW4/12_2.c:83-91 | A line is one level below the last line in front of it with a smaller level, and that is the line of its parent node; lines at level 0 have no parent; siblings, and roots, stand in list order. With each node once this fixes the output |
| ProcessForest.ProcTable.BuildAndPrint | HW4/12_2.c:155-156 | From any list: one line for every node whose chain of parents ends, at its depth, no other line; each under its parent's, siblings in list order; everybody printed if and only if acyclic |
| ProcessForest.ProcTable.LinesInOrder | HW4/12_2.c:69-80 | The order of the lines by the parent links of the heap nodes they show |
| ProcessForest.ForestLines | HW4/12_2.c:83-91 | The same for the written lines, which name heap nodes instead of positions |
| CLib.LineLenOfLine | HW5/part3/convert.c:55-69 | Reading a line that fits takes it whole, newline included, and nothing of what follows |
| CLib.CFile.Fgets | HW5/part3/convert.c:55-69 | Reads up to a newline, the buffer size or the end of file; at the end the buffer keeps its old contents and the end-of-file flag is set |
| CLib.StrLen | HW5/part3/convert.c:58-67 | The length of a C string is the number of bytes before its first zero byte |
| CLib.StrEqual | HW5/part3/lookup1.c:34 | Two buffers compare equal exactly when the C strings in them are equal |
| CLib.StrCat | HW5/part3/lookup1.c:39 | The buffer then holds the concatenation of the two strings |
| CLib.CutAtNewline | HW5/part3/lookup1.c:32 | The buffer then holds what stood before the first newline, or the whole string if it has none |
| CLib.CutAtLastNewline | HW5/part3/lookup1.c:43-44 | The buffer then holds what stood before the last newline |
| Dictionary.RecordsSplit | HW5/part3/convert.c:80-81 | The records of the first k entries and of the others make up the file; each takes 512 bytes |
| Dictionary.RecordLayout | HW5/part3/lookup1.c:36-48 | Byte 512 k starts the word and byte 512 k + 32 the text of entry k, each followed by its newline and zero bytes |
| Dictionary.PaddingIsZero | HW5/part3/convert.c:80-84 | Behind the newline of its word and behind that of its text a record holds zero bytes only |
| Dictionary.LinesIsJoined | HW5/part3/lookup1.c:38-44 | Lines each ended by a newline are the lines joined by newlines and one more newline |
| Dictionary.ReadDefinition | HW5/part3/convert.c:64-73 | The text field holds the lines of the definition, zero bytes behind them, and the blank line is left in the line buffer |
| Dictionary.ReadWord | HW5/part3/convert.c:54-58 | Distinguishes a blank line, a word and the end of the file; at the end the stale blank line is seen again |
| Dictionary.WriteEntry | HW5/part3/convert.c:57-84 | One entry of the text adds exactly its record to the file and leaves the buffers blank |
| Dictionary.ConvertItem | HW5/part3/convert.c:42-85 | A round steps over one blank line or turns one entry into its record; only a round at the end of the file sets the end-of-file flag |
| Dictionary.Convert | HW5/part3/convert.c:42-85 | For every well-formed text the file written is the concatenation of its entries' records, blank lines contribute nothing |
| Dictionary.NextWord | HW5/part3/lookup1.c:31-32 | At a record start the word of that record is read, at the end of the records the loop ends |
| Dictionary.ReadText | HW5/part3/lookup1.c:37-44 | From the text field the lines come back joined, without a trailing newline |
| Dictionary.SeekText | HW5/part3/lookup1.c:36 | The seek after a match lands on the text field of the same record |
| Dictionary.SeekRecord | HW5/part3/lookup1.c:48 | The seek after a mismatch lands on the next record, whatever the length of the word |
| Dictionary.Lookup | HW5/part3/lookup1.c:28-51 | Found exactly if an entry has the word; the text is that of the first such entry; every seek lands on a record or text field |
| Dictionary.ConvertThenLookup | HW5/part3/lookup1.c:10-52 | Round trip: looking up in the converted file finds a word exactly if the text defines it, and gives its first definition, lines joined |
| Processes.Process.LowestFree | HW5/part2/pipe_command.c:74 | The descriptor returned is the lowest one that is not open |
| Processes.Process.Open | HW5/part2/redirect_in.c:43 | The file lands on the lowest free descriptor, all others stay |
| Processes.Process.Dup2 | HW5/part2/pipe_command.c:97-101 | A closed descriptor changes nothing, else the target refers to the same open file |
| Processes.Kernel.Pipe | HW5/part2/pipe_command.c:74 | The lowest free descriptor becomes the read end, the next one the write end, of a pipe never used before |
| Pipeline.JoinOfSplit | HW5/part2/pipe_command.c:48-68 | The stages with bars between them are the argument vector: no word gets lost |
| Pipeline.NoBarInStages | HW5/part2/pipe_present.c:16-22 | No stage holds a bar |
| Pipeline.PipePresent | HW5/part2/pipe_present.c:13-34 | 0 exactly for a single stage, -1 exactly for an empty first stage or a lone bar behind it, else the position that cuts off the first stage |
| Pipeline.TalkTo | HW5/part2/pipe_command.c:97-101 | Whatever was open before (even with stdin or stdout closed): the table is the old one with the write end as stdout |
| Pipeline.ListenTo | HW5/part2/pipe_command.c:115-119 | Likewise for the child: the old table with the read end as stdin |
| Pipeline.Bridge | HW5/part2/pipe_command.c:36-121 | A pipe, a fork, a stage executed on one side and the rest of the vector on the other give a wired chain |
| Pipeline.PipeAndExec | HW5/part2/pipe_command.c:16-125 | For every vector and start table: stage j runs with the read end of pipe j - 1 and the write end of pipe j, up to the first empty stage; number of processes and pipes |
| Pipeline.AllRunIffNoneEmpty | HW5/part2/pipe_command.c:24-34 | Every stage is executed if and only if no stage is empty |
| Pipeline.StageRunsIff | HW5/part2/pipe_present.c:24-29 | A stage runs if and only if it and all before it are not empty and the next one is not an empty last one |
| Pipeline.WiredMeans | HW5/part2/pipe_command.c:97-119 | For every chain: exactly these stages run; each has all descriptors behind 1 as they were, open or closed; the first has the old stdin and the last the old stdout |
| Pipeline.PipeEnds | HW5/part2/pipe_command.c:97-119 | A process holds the write end of pipe q exactly if it is stage q, on stdout, and the read end exactly if it is stage q + 1, on stdin |
| Pipeline.OneWriterOneReader | HW5/part2/pipe_command.c:97-119 | No stage empty: each pipe has exactly one writer and one reader, its neighbours |
| Pipeline.BrokenPipe | HW5/part2/pipe_command.c:24-29 | An empty stage: the last stage that runs writes to a pipe that nobody reads |
| Pipeline.StageOutput | HW5/part2/pipe_command.c:88-120 | With programs as stream functions stage j writes the composition of the stages up to j |
| Pipeline.PipelineComposes | HW5/part2/pipe_command.c:88-120 | The last stage writes the left-to-right composition of all stages, to the shell's stdout |
| Pipeline.ConsistentExists | HW5/part2/pipe_command.c:88-120 | Pipe contents that fit together exist, whatever the input, so the two rows above are not empty |
| Tokens.Tokenizer.Next | HW5/part2/parse.c:30-60 | One call returns the first token of what is left and leaves exactly the tokens behind it |
| Tokens.Parse | HW5/part2/parse.c:12-90 | The vector holds the tokens of the line in order; NULL exactly for a line without tokens |
| Tokens.ParseOfBody | HW5/part2/parse.c:30-86 | Tokens joined by any runs of blanks, tabs and newlines come back as they were |
| Tokens.EveryLineIsBody | HW5/part2/parse.c:30-86 | Every line is such a join of the tokens it is parsed into: nothing but delimiters is dropped |
| Tokens.OnlyWhiteSpaceDropped | HW5/part2/parse.c:14-30 | No word holds a blank, tab or newline, and the words one after the other are the line without its blanks, tabs and newlines |
| CommandLine.RedirectIn | HW5/part2/redirect_in.c:16-49 | The vector ends before the first `<`; stdin becomes the file exactly if it can be opened and descriptor 0 was open |
| CommandLine.RedirectOut | HW5/part2/redirect_out.c:16-54 | The vector ends before the first `>`; a file that cannot be created ends the process; stdout becomes the file unless it was closed and the file took its place |
| CommandLine.FirstInPrefix | HW5/part2/run_command.c:50-54 | In a vector cut off at a symbol another symbol is found where it was, or not at all |
| CommandLine.RunChild | HW5/part2/run_command.c:48-57 | The child becomes the pipeline of the words before the first redirection symbol; output is redirected only by a `>` in front of every `<` |
| CommandLine.RedirectedEnds | HW5/part2/run_command.c:48-57 | With stdin and stdout open the first stage reads the input file and the last one writes the output file |
| CommandLine.OutputBehindInputIsLost | HW5/part2/run_command.c:50-54 | `cat < a > b` runs `cat` without the output redirection |
| CommandLine.InputToClosedStdinIsLost | HW5/part2/redirect_in.c:43-45 | `redirect_in` taken alone: with descriptor 0 closed the file opened lands there and is closed again, with 0 open it becomes standard input |
| CommandLine.OutputToClosedStdoutIsLost | HW5/part2/redirect_out.c:42-50 | With descriptor 1 closed and 0 open `ls > b` gets no standard output |
| CommandLine.RunLine | HW5/part2/shell.c:16-35 | Any line read by a shell with descriptor 0 open. An output file that cannot be opened ends the child. Else exactly the stages run that no empty stage keeps from it, all descriptors behind 1 being the shell's; if none is empty each pipe has its two neighbours as only writer and reader, and the ends of the pipeline are the files asked for or what the shell has there, open or closed |
| CommandLine.Session | HW5/part2/shell.c:16-35 | The same holds for every line of a session, whatever pipes the lines before it made |
| Transfer.InvWriter | HW9/54_1/writer.c:137-166 | Each writer step keeps the invariant: one holder of the block, control states that fit together, no byte lost or doubled |
| Transfer.InvReader | HW9/54_1/reader.c:119-147 | Each reader step keeps it |
| Transfer.Safety | HW9/54_1/writer.c:137-166 | In every state of every run the output is a prefix of the input, semaphores and holders sum to one, the count the writer reads outside its critical section is the one it stored, and the semaphores are removed only when the reader is done |
| Transfer.Completion | HW9/54_1/writer.c:158-166 | Both done: the output is the input, and both report the same number of bytes and of transfers |
| Transfer.TransfersAreReads | HW9/54_1/writer.c:137-156 | Both report one transfer for every read that returned something, and these reads make up the input |
| Transfer.NoDeadlock | HW9/54_1/reader.c:119-147 | In every reachable state that is not final some process can move |
| Transfer.EveryStepCounts | HW9/54_1/reader.c:119-147 | Every step lowers a measure on the remaining input and the two phases |
| Transfer.EveryRunDelivers | HW9/54_1/writer.c:137-166 | Every run has at most 12 n + 17 states for n bytes, and one that cannot go on has delivered everything and agrees on the reports |
| Ring.SlotTest | HW10/program.c:199-212 | A slot holds the greatest written number that falls on it, so a message is found exactly while fewer than b newer ones were written |
| Ring.InvConsume | HW10/program.c:193-213 | Each consumer step (slot test, load, store) keeps the invariant on fates, order and counter |
| Ring.InvSend | HW10/program.c:245-259 | So does sending a signal, coalescing with a pending one, and giving up a round on a timeout |
| Ring.InvStore | HW10/program.c:234-239 | So does writing a message over the one b before it |
| Ring.FoundIffFresh | HW10/program.c:199-212 | In every run a consumer looking for message v receives it exactly if the last message written is less than v + b, and counts it as overwritten otherwise |
| Ring.NothingVanishes | HW10/program.c:193-213 | Every consumer handles values in strictly ascending order, and the messages dealt with split into received, overwritten, coalesced, skipped, pending and in hand, with sizes that add up |
| Ring.LeavesAfterLast | HW10/program.c:193-213 | In every run a consumer has left only with m - 1 as its last value, waits only while it has not taken m - 1, and until then can go on whenever a signal is pending |
| Ring.ProducerGoesOn | HW10/program.c:234-262 | The producer can go on in every state until it has written and signalled all m messages |
| Ring.LossCountNeverTooHigh | HW10/program.c:210 | The loss counter never exceeds the number of overwritten messages found, and is exact with one consumer |
| Ring.CountNeverTooHigh | HW10/program.c:204 | The shared counter never exceeds the number of receptions, nor that m n |
| Ring.ReportIsPessimistic | HW10/program.c:270-271 | Whenever it is printed the reported loss rate lies in [0, 1] and does not understate the loss |
| Ring.TwoLoadsBeforeAStore | HW10/program.c:204 | With two consumers and a message some run loses an update for good |
| Ring.UndercountIffTwoConsumers | HW10/program.c:204 | Updates can be lost if and only if there are two consumers and a message |
| BinarySearch.StrcmpIsOrder | HW11/part1/lookup5.c:21-23 | The sign of the comparison is dictionary order: at the first difference the first string ends or has the smaller character |
| BinarySearch.StrcmpZero | HW11/part1/lookup5.c:21-23 | The comparison gives zero exactly for equal words |
| BinarySearch.StrcmpTransitive | HW11/part1/lookup5.c:21-23 | The comparison is transitive in both directions |
| BinarySearch.LinearScan | HW11/part1/lookup5.c:55-77 | The reference: the first record with that word |
| BinarySearch.WidthOneAfter31 | HW11/part1/lookup5.c:58-71 | An interval of fewer than 2^31 records has width at most one after 31 rounds |
| BinarySearch.Probe | HW11/part1/lookup5.c:58-71 | A round finds the word or leaves an interval that still holds it if any does, half as wide up to width one |
| BinarySearch.Lookup | HW11/part1/lookup5.c:55-77 | In a table in dictionary order: found exactly if a linear scan finds the word, with the 31st probe at the latest, with that record's text; the cap is reached exactly for absent words that the first word comes before |
| WatchList.List.WatchSubdir | HW12/19_1.c:54-71 | Appends the new watch, in a list with or without nodes |
| WatchList.List.ParentPath | HW12/19_1.c:115-122 | The path of the first watch with that descriptor, NULL if there is none |
| WatchList.List.NodeBefore | HW12/19_1.c:94-97 | The walk stops in front of the node to be removed and never passes the end |
| WatchList.List.UnlinkRoot | HW12/19_1.c:79-93 | Root case: the first watch goes, root and tail stay consistent |
| WatchList.List.Unlink | HW12/19_1.c:97-109 | Middle and tail case: exactly the watch behind the node goes, tail follows if it was the last |
| WatchList.List.RmWatchSubdir | HW12/19_1.c:76-113 | Exactly the first watch with that descriptor goes |
| WatchList.HandledDoes | HW12/19_1.c:124-173 | The same for the function that specifies the effect of an event, and that an event is handled exactly if some watch has its descriptor |
| WatchList.RunDoes | HW12/19_1.c:202-215 | A run of events that the program survives is a chain of such effects |
| WatchList.UpdateWatches | HW12/19_1.c:153-173 | The removal comes before the addition, and finds its node |
| WatchList.DisplayLogEvent | HW12/19_1.c:124-175 | An unknown descriptor ends the program. Else the first watch of the descriptor goes exactly if bit 0x8000 of the mask is set, and one is added behind the others exactly if both bits of 0x40000100 are, with the new descriptor and the path parent/name, the name being the bytes up to the first zero |
| WatchList.DecodeOfEncode | HW12/19_1.c:210-213 | An encoded event is read back from any place in a buffer, fields, length and name |
| WatchList.ProcessEvent | HW12/19_1.c:211-213 | The loop body handles the event at p and steps to the start of the next, or stops there with the list as it was |
| WatchList.ProcessBuffer | HW12/19_1.c:202-215 | For any concatenation of events: each is handled once and in order, and the loop stops exactly at the number of bytes read, or at the first event with an unknown descriptor, the events before it handled |
| WatchList.LookupAgrees | HW12/19_1.c:115-122 | Searching the list is looking up in the map from descriptors to paths |
| WatchList.AddAgrees | HW12/19_1.c:44-74 | A fresh descriptor keeps the list duplicate-free and extends the map |
| WatchList.DistinctIffFresh | HW12/19_1.c:48-60 | Only a fresh descriptor does |
| WatchList.RemoveAgrees | HW12/19_1.c:76-113 | Removing deletes exactly that descriptor from the map |
| WatchList.EventAgrees | HW12/19_1.c:124-175 | An event does the same to the list and to the map |
| WatchList.RunAgrees | HW12/19_1.c:202-215 | Over any run of events with fresh descriptors the list stays duplicate-free and represents the map |
| Tickets.IssueKeeps | HW8/46_2/server.c:50-58 | A ticket that starts at the total of the earlier ones keeps the sequence allocated |
| Tickets.RangesInOrder | HW8/46_2/server.c:50-58 | Ranges follow one another without overlap |
| Tickets.RangesTile | HW8/46_2/server.c:50-58 | Every number below the total lies in exactly one range |
| FifoServer.Serve | HW8/44_6/fifo_seqnum_server.c:63-91 | The counter is the total of the tickets, and the answers written name the tickets of the requests whose FIFO opened and could be written |
| FifoServer.ServedIsAllocated | HW8/44_6/fifo_seqnum_server.c:63-91 | These tickets are those of the allocator: failed opens and short reads consume nothing |
| FifoServer.TicketOfRound | HW8/44_6/fifo_seqnum_server.c:74-90 | A request whose client FIFO opens gets the number that is the sum of the lengths of the earlier requests whose FIFO opened; it is delivered exactly if the write succeeds |
| FifoServer.TotalIsSum | HW8/44_6/fifo_seqnum_server.c:90 | The counter is the sum of the lengths of the requests whose FIFO opened |
| FifoServer.DeliveredDisjoint | HW8/44_6/fifo_seqnum_server.c:82-90 | No two delivered ranges overlap, whatever failed in between |
| FifoServer.AllDeliveredIffHeard | HW8/44_6/fifo_seqnum_server.c:83-90 | Every ticket issued is delivered exactly if no write to an open client FIFO failed |
| FifoServer.GapIffWriteFailed | HW8/44_6/fifo_seqnum_server.c:83-90 | Some number given out lies in no delivered range exactly if such a write failed for a request of at least one number |
| FifoClients.InvOpen | HW8/44_6/fifo_seqnum_server.c:74-78 | Opening a client's FIFO keeps the invariant: it succeeds for a client blocked in its own open, and gives up on one that is not there yet or dead |
| FifoClients.InvWrite | HW8/44_6/fifo_seqnum_server.c:82-88 | Writing a response keeps it: the reader, if it lives, gets the ticket issued to it, and nobody has two |
| FifoClients.InvSend | HW8/44_6/fifo_seqnum_client.c:60-69 | Sending a request keeps it: at most one request of each client is under way |
| FifoClients.InvProceed | HW8/44_6/fifo_seqnum_client.c:73-79 | Opening the FIFO and reading the response keep it |
| FifoClients.Service | HW8/44_6/fifo_seqnum_server.c:63-91 | In every run each answered client has the ticket issued to it, and the tickets are the allocator's, one per client at most |
| FifoClients.InvKill | HW8/44_6/fifo_seqnum_client.c:60-79 | The death of a client that has no answer yet keeps it |
| FifoClients.GapIffDied | HW8/44_6/fifo_seqnum_server.c:74-90 | In every run, between requests: some number given out lies in no delivered range exactly if a client that asked for at least one died between the server's open and its write, and some ticket is undelivered exactly if any client did |
| FifoClients.AnyoneMayLeaveAGap | HW8/44_6/fifo_seqnum_server.c:74-90 | For each client that asks for a number there is a run in which it leaves such a gap |
| FifoClients.ServedInOrder | HW8/44_6/fifo_seqnum_server.c:64-65 | Requests are dealt with in the order in which they were sent |
| FifoClients.LostIffRaceLost | HW8/44_6/fifo_seqnum_server.c:74-78 | The request of a client that lives is gone without an answer exactly if in some earlier step the server's open came before the client's own |
| FifoClients.EveryStepCounts | HW8/44_6/fifo_seqnum_client.c:60-79 | Every step of server or client, a death included, lowers a measure |
| FifoClients.AnsweredUnlessRaceLost | HW8/44_6/fifo_seqnum_client.c:60-79 | A run takes at most seven steps per client; when it can go no further, a client that lives hangs in its open if it lost the race, and has its answer if it did not |
| FifoClients.AnyoneMayLose | HW8/44_6/fifo_seqnum_client.c:46-75 | For any set of clients and each of them there is a run in which it loses the race, although its FIFO was made first |
| MessageQueue.InvReceive | HW8/46_2/server.c:44-47 | Taking a request keeps the invariant: nobody has two messages under way, every answer has its ticket |
| MessageQueue.InvReply | HW8/46_2/server.c:50-56 | So does answering it, with the counter moved on in a later step |
| MessageQueue.InvSend | HW8/46_2/client.c:34-42 | So does sending a request |
| MessageQueue.InvTake | HW8/46_2/client.c:43-47 | So does taking the answer |
| MessageQueue.Service | HW8/46_2/server.c:43-59 | In every run with distinct pids other than 1 the server never takes a response for a request, the tickets are the allocator's and one per client, and a client that is done holds the answer to its own request |
| MessageQueue.ServedInOrder | HW8/46_2/server.c:44-51 | Clients are served in the order in which they sent their requests |
| MessageQueue.NobodyStarves | HW8/46_2/client.c:34-47 | As long as a client is not done some process can move |
| MessageQueue.EverybodyServed | HW8/46_2/server.c:43-59 | A run takes at most five steps per client, and when it can go no further all clients have their answers |
| MessageQueue.PidOneMisreads | HW8/46_2/server.c:44-51 | A client with pid 1 makes a run possible in which the server takes its own response for a request |
| MessageQueue.MisreadIffPidOne | HW8/46_2/server.c:44-51 | With distinct pids this happens in some run if and only if one of them is 1 |
| Tail.NthFound | HW2/hw2_tail.c:66-73 | The m-th newline from the end exists exactly if there are m, and m newlines stand from it on |
| Tail.NthSplit | HW2/hw2_tail.c:63-93 | Counting from the end over a file is counting over its back part and on in its front part |
| Tail.ScanBlock | HW2/hw2_tail.c:66-73 | The scan of a block counts its newlines from the back, byte 0 left out, and stops at the one that completes the count |
| Tail.ReadBlock | HW2/hw2_tail.c:64-84 | After a block the outcome is settled, or the block was full and the count includes its newlines |
| Tail.Round | HW2/hw2_tail.c:63-93 | A round ends with the right offset or leads to the next block: the one in front, or the first one again |
| Tail.Tail | HW2/hw2_tail.c:58-104 | For every file and n: the start of the output, the failing seek or the endless loop, with a bound on the rounds of a loop that ends |
| Tail.LastLinesAreLines | HW2/hw2_tail.c:58-104 | In every file, its last line ended by a newline or not, exactly one place has whole lines from it on, n of them or all: the one the results below compare with |
| Tail.RightIfShort | HW2/hw2_tail.c:66-84 | File shorter than a block: the last n lines are printed if and only if, the last line having its newline, the first byte is not the newline sought, or, the last line having none, there are fewer than n newlines |
| Tail.RightIfInFullBlocks | HW2/hw2_tail.c:63-93 | Last n lines starting in the full blocks counted from the end, over any number of blocks: they are printed if and only if the last line has its newline and neither the newline in front of them nor any behind it is byte 0 of a block |
| Tail.RightIfReread | HW2/hw2_tail.c:85-92 | Last n lines starting in front of the full blocks: these show at most n newlines, and the reread is right if and only if the first block has, at one place fixed by the file's length and the start wanted, a newline with as many newlines from it on as are missing, or ends with the last newline missing while the whole file is wanted |
| Tail.MissingIsInvisible | HW2/hw2_tail.c:63-93 | What the full blocks leave missing is n + 1 less the newlines in them that are not byte 0 of a block |
| Tail.PrintedFromFullBlocks | HW2/hw2_tail.c:63-78 | Printing starts behind a place in the full blocks exactly if that is the (n + 1)-th newline from the end, those at byte 0 of a block not counted |
| Tail.PrintedFromReread | HW2/hw2_tail.c:85-92 | Printing starts at a place not behind the full blocks' start exactly if these hold at most n such newlines and the counted position in the first block leads there |
| Tail.PrintedFromShort | HW2/hw2_tail.c:66-84 | A file shorter than a block is printed from behind the (n + 1)-th newline from the end, byte 0 not counted, or from its start if there are too few |
| Tail.NeverEndsIff | HW2/hw2_tail.c:63-93 | The loop never ends exactly if the full blocks hold at most n such newlines and the first block none behind its byte 0 |
| Tail.EmptyLineIsPrinted | HW2/hw2_tail.c:66-73 | Of a file that is one empty line, no line being asked for, the line is printed |
| Tail.OneLineTooMany | HW2/hw2_tail.c:58-79 | Of two lines, the second without newline, one being asked for, both are printed |
| Tail.HiddenNewline | HW2/hw2_tail.c:66-73 | Of a block that is an empty and a long line, one being asked for, both are printed |
| Tail.FarTooManyLines | HW2/hw2_tail.c:85-99 | Asked for three times the newlines of such a file or more, nothing is printed: the seek fails, or the loop never ends if the first block has no newline behind its first byte |

## Left out

- System calls are assumed to succeed, and errno, perror and the exits behind it are not modelled, except where a property names the failure: opening and writing a client FIFO, opening a redirection file, an exec without a command, a seek before the start of a file.
- Integer overflow of sequence numbers, byte counts, offsets and counters.
- ProcessForest.ProcTable.BuildPstree: requires that no node has more than 1023 children, because the array has 1024 slots and the code does not check.
- Reading `/proc`, the wording of a printed line and the indentation buffer of the process tree.
- Dictionary.Convert: requires a non-empty text in which every entry has a word of 1 to 31 bytes, at least one line, at most 479 bytes of text and a blank line behind it. Other texts are not part of this model, nor is the truncation of long words that a comment announces.
- BinarySearch.Lookup: words are strings up to the zero byte; the newline that the converter leaves in the word field is not modelled.
- The other versions of the dictionary lookup in `HW11`, which search by other means or repeat this one.
- Malloc sizes, the fixed string buffers of `parse` and `pipe_and_exec`, and the vector `right_argv`, which is filled and never used.
- Pipeline.PipeAndExec: an exec with a command is assumed to find its program.
- What builtin commands do, `is_background`, and waiting for the child.
- Pipeline.PipelineComposes: programs are functions from the whole input to the whole output; a full pipe and SIGPIPE are not modelled.
- A reader of `HW9/54_1` that starts before the semaphores exist, and interrupted semaphore calls.
- Ring.NothingVanishes: a timeout is a free choice of the producer, as time is not modelled; consumers that wait forever for a coalesced last signal are why no termination is claimed. The message text in a slot, and the wait for one child only.
- The list node that is removed is not freed in the model; the path buffer of `PATH_MAX` bytes, paths gone stale after a rename, and directories created before their parent is watched.
- MessageQueue.EverybodyServed: the queue is unbounded, so a server blocked by a full queue is not modelled; a client that dies is not modelled either.
- FifoClients.Service: clients differ in their process ids; a short write to a client that lives, which `FifoServer` allows, does not occur among the clients.
- Tail.Tail: the loop of the program need not end, so the method takes the number of rounds as a parameter and says what holds for every number; option parsing, and files that grow while they are read.
- `HW1`, `HW3`, `HW5/part1`, `HW6`, `HW7`, `HW8/44_7`, `HW9/49_1`, `HW9/52_3` and the socket clients and servers: wrappers over system calls, earlier versions, or properties that add nothing harder.
