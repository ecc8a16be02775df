# Verified models of a ring of processes, a small shell and two MINIX routines

This project models the C programs of an operating-systems course in Dafny 4.11 and proves what
they guarantee, on all inputs and in all interleavings. `dafny verify dfyconfig.toml` checks it.

* **The token ring** (`Lab1/ring.c`). n processes pass a number around n pipes until it reaches a
  stop number, pass a stop signal around, close everything and wait for their children.
  `RingSystem` is the program as a system of interleaved processes, one step per system call, with
  a descriptor table per process and a FIFO per pipe. Its steps include what happens when a call
  goes wrong: end-of-file, a closed descriptor, SIGPIPE. `RingInvariant` has what every step keeps,
  `RingTheorems` the results, for every n >= 2 and every stop number; `RingProcess` is one process
  as sequential code; `RingHistory` shows that, at every moment, the interleaved processes have printed
  and written what that code does on the ints they have read.
* **The pipeline executor of the shell** (`Lab2/iwish/src/interpreter.c`). `PipelineLoop` says what
  the loop over two swapped descriptor pairs does, for every sequence of numbers that pipe(2) may
  return, `JobHandler` is the loop itself, with arrays, `CommandProcess` is what a child does before
  it executes. A child closes the number of a descriptor that its parent has closed already. That
  is harmless unless pipe(2) has just returned this number again for the child's own write end. And
  under the lowest-free rule (section 2.14 of POSIX.1-2017 System Interfaces) it does so for every
  command from the third on that is not the last. So pipelines of four and more commands fail, and
  shorter ones work. Both are proved, with a failing run, and so is the exact condition for every other
  behaviour of pipe(2) and every inherited table.
* **The parser of the shell** (`parser.c`, `parsertokens.c`). `Grammar` has the recursive descent
  on values and its relation to the grammar, `ParserHeap` and `Parser` the real one, which
  advances and restores a cursor and allocates, trims and frees the nodes of the AST. `AstReader` reads
  the nodes as the interpreter does, and finds the commands that were parsed. The accepted
  language is `W E* ('|' W E*)* ['&']`, with E a word or a redirection operator and a word. It differs
  from the grammar in `bash_alt.txt`: a command must start with a word, the characters `- . / _` may
  stand anywhere in a word, and there is no newline list; the code is followed.
* **The input of the shell** (`iwish.c`, `DynamicByteArray.c`). `DynamicByteArray` is the growable
  buffer, `LineInput` reads a line into it and drops continuations, `Tokeniser` splits it in place
  with strtok (section 7.21.5.8 of C99), `Shell` joins these to the parser.
* **Boot parameters** (`get_value` of the MINIX kernel) in `BootParameters`, and the **time calls** of
  the MINIX process manager in `TimeCalls`.

Some promises do not hold of the code as they stand, and are proved with their exact condition:
not every pipeline is connected (`PipelineLoop.CommandIsConnected`), readInput repeats the backslash
of an escape instead of keeping it once (`LineInput.ReadsAsIntended`) and a continuation cannot be put
between the two characters of another one (`LineInput.ContinuationAnywhere`), and get_value looks up a
key only if the name has no '=' (`BootParameters.ScanIsKeyLookup`).

## Model

| member | source | states |
|---|---|---|
| RingInvariant.StepInv | Lab1/ring.c:30-165 | every step of every process keeps the invariant: exact descriptor tables, fork order, the place of the token, the role of each process, the logs |
| RingTheorems.RunInv | Lab1/ring.c:267-286 | the invariant holds in every state of every run from the start of main |
| RingInvariant.ReaderIsThere | Lab1/ring.c:160-165 | whenever a process is about to write, its write end is open and some process still has the read end of that pipe open |
| RingInvariant.SomeoneStillForks | Lab1/ring.c:86-96 | if a process does not exist yet, one of the processes before it has not left the fork phase, and has both ends of every pipe created so far open |
| RingInvariant.WriterIsThere | Lab1/ring.c:151-157 | whenever a process is about to read, there is an int for it or some process can still write one, even when the writer is not forked yet |
| RingInvariant.TurnIsModulus | Lab1/ring.c:112-121 | the process that writes the w-th int is w mod n |
| RingTheorems.RunsAreSafe | Lab1/ring.c:86-165 | in every state of every run, no write meets a pipe without readers, no read meets end-of-file, nothing closed is used or closed again, and waitpid comes with nothing left open |
| RingTheorems.OneToken | Lab1/ring.c:208-237 | at every moment there is exactly one token, in a pipe or held by a process, and none after the last read |
| RingTheorems.TokenDisappears | Lab1/ring.c:231-236 | the only step that removes the token is the last read, by process stop mod n, and it takes the (stop + n)-th int |
| RingTheorems.OutputIsPrefix | Lab1/ring.c:218-226 | in every interleaving the output is a prefix of 0 .. stop, number k printed by process k mod n |
| RingTheorems.WritesArePrefix | Lab1/ring.c:112-121 | in every interleaving the ints written are a prefix of 1 .. stop and then n times -1, the j-th by process j mod n; those read are a prefix of them, at most one shorter, the j-th read by the next process |
| RingTheorems.StepDoesOneUnit | Lab1/ring.c:267-286 | every step, of whatever process, lowers the amount of remaining work by exactly one |
| RingTheorems.NoDeadlock | Lab1/ring.c:208-286 | as long as some process has not exited, some process can move |
| RingTheorems.EveryRunTerminates | Lab1/ring.c:208-286 | no run has more than 2n^2 + 8n + 3 stop + 1 steps; a run is stuck exactly when it has that many, and exactly then all ints are delivered, everything is printed, all is closed and the processes have exited in the order n-1 .. 0 |
| RingTheorems.EveryRunExtends | Lab1/ring.c:208-286 | every run, however it was scheduled so far, can be completed |
| RingTheorems.ExitOrder | Lab1/ring.c:279-286 | a process exits only after all the processes forked by it and below it, so when the root is gone all are |
| RingProcess.Process.CreatePipes | Lab1/ring.c:30-47 | the loop leaves both ends of exactly n pipes open |
| RingProcess.Process.InitMyPipes | Lab1/ring.c:127-141 | the closes leave exactly the read end of the input and the write end of the output open |
| RingProcess.Process.CloseMyPipes | Lab1/ring.c:144-148 | nothing stays open |
| RingProcess.Process.CycleNumber | Lab1/ring.c:208-237 | on any ints whatever: what is printed, written and left unread, and whether the process leaves the function or waits in a read for ever; if it waits, it has written one int for each that it printed, and has read all there are |
| RingProcess.WaitingHasWritten | Lab1/ring.c:218-226 | the loop writes before it reads: in a process that waits in it, as many ints are written as printed |
| RingProcess.CycleExactly | Lab1/ring.c:208-237 | on any ints whatever, all before the first stop signal or stop number are printed and passed on incremented, there the stop signal is written once, and behind the stop number one more int is read and dropped, or awaited |
| RingProcess.ProcessInRing | Lab1/ring.c:208-237 | on the ints that reach it in the ring, a process prints exactly its share of the numbers, writes exactly its hops, leaves nothing unread and finishes |
| RingProcess.InboxIsOutbox | Lab1/ring.c:112-121 | what a process writes is what the next one reads |
| RingProcess.CompleteRunIsSequential | Lab1/ring.c:208-237 | in every complete interleaved run each process reads exactly its inbox, and prints and writes what its sequential code prints and writes on it |
| RingHistory.RunFollowsCode | Lab1/ring.c:208-237 | in every state of every interleaved run, a process that is in a read has printed and written exactly what its sequential code prints and writes, on the ints it has read so far, before it waits; and one that has left cycleNumber exactly what that code does altogether |
| RingHistory.StepFollows | Lab1/ring.c:208-237 | every step of any process keeps every process where its sequential code would be on the ints it has read |
| RingHistory.StartAppend | Lab1/ring.c:208-237 | what a waiting process does with one more int: it leaves if it has printed the stop number, and else goes on as its loop does with that int |
| PipelineLoop.HandlerHoldsOneReadEnd | Lab2/iwish/src/interpreter.c:146-197 | at each loop head the handler has its inherited descriptors and the read end of the last pipe; no pipe end before the first command and after the last |
| PipelineLoop.ChildTable | Lab2/iwish/src/interpreter.c:168-178 | the exact descriptor table of every child |
| PipelineLoop.IncomingIsPrevious | Lab2/iwish/src/interpreter.c:182-193 | after the swap the incoming pair is what pipe(2) returned one iteration earlier, so the stale number is the previous write number |
| PipelineLoop.CommandIsConnected | Lab2/iwish/src/interpreter.c:72-95 | for every inherited table and every behaviour of pipe(2): command k reads from command k-1 and writes to command k+1, or keeps what was inherited at the ends, if and only if its write number is neither the previous one nor 0 and, for the last command, its read number is not 1; dup2 fails if and only if the write number is the previous one and not 0 |
| PipelineLoop.StandardDescriptorsAreSafe | Lab2/iwish/src/interpreter.c:72-95 | with 0 and 1 open at the start only the stale number matters |
| PipelineLoop.PipelineIsConnected | Lab2/iwish/src/interpreter.c:141-198 | a pipeline of any length is connected throughout if and only if the numbers of all its commands are in order; with 0 and 1 open at the start, if and only if no write number is that of the previous call |
| PipelineLoop.PipeEndsAreHeldOnce | Lab2/iwish/src/interpreter.c:168-197 | the write end of a pipe is held by its upstream command at most, the read end by its downstream command only, and neither by the handler |
| PipelineLoop.FailureReturnsLeakNothing | Lab2/iwish/src/interpreter.c:122-130 | both failure returns leave exactly the inherited descriptors, stale numbers notwithstanding |
| PipelineLoop.LowestNumbersCycle | Lab2/iwish/src/interpreter.c:146-193 | under the lowest-free rule, from any inherited table, pipe(2) returns the third-lowest free number as write end from the second call on |
| PipelineLoop.LowestFreeReuse | Lab2/iwish/src/interpreter.c:168-193 | under the lowest-free rule command k closes its own write end if and only if 2 <= k < n - 1 |
| PipelineLoop.LowestFreePipelines | Lab2/iwish/src/interpreter.c:141-198 | under the lowest-free rule, from any inherited table, exactly commands 2 .. n-2 fail at dup2 and exactly the pipelines of at most three commands get past it; the others are connected, the last one unless its read end came as 1 |
| PipelineLoop.LowestNumbersExist | Lab2/iwish/src/interpreter.c:149-157 | the lowest-free rule can be followed for any number of commands and from any table |
| PipelineLoop.FourCommandsFail | Lab2/iwish/src/interpreter.c:141-198 | a failing pipeline: with 0, 1 and 2 open, four commands get (3,4), (4,5), (3,5), and the third one fails at dup2 |
| JobHandler.JobHandler.InterpretSimpleList | Lab2/iwish/src/interpreter.c:133-198 | the loop over the two arrays, with pipe(2) and fork(2) failing anywhere: it succeeds if and only if no fork fails and no pipe but one behind the last command; the commands before the first failure are started, each with the table of PipelineLoop, the one that is not started has a failing fork or pipe, and the handler ends with the descriptors it began with |
| JobHandler.JobHandler.ForkCommand | Lab2/iwish/src/interpreter.c:168-197 | the closes on both sides of a fork and the swap are one iteration of PipelineLoop |
| JobHandler.FirstFailureIsFirst | Lab2/iwish/src/interpreter.c:151-167 | before the first failure no fork(2) fails and no pipe(2) that is needed; at the first failure one of the two does |
| CommandProcess.CommandProcess.HandleRedirection | Lab2/iwish/src/interpreter.c:17-40 | an input redirection makes the file, opened for reading, standard input, an output redirection makes the file, created, standard output; the other one is left alone if it is open; it fails, changing nothing, exactly if the file cannot be opened |
| CommandProcess.CommandProcess.HandleCommandlineArgument | Lab2/iwish/src/interpreter.c:43-46 | one more argument, or a failure if the array is full and cannot grow |
| CommandProcess.CommandProcess.HandleCommandElementList | Lab2/iwish/src/interpreter.c:49-67 | the arguments are the words in order, the last redirection in each direction wins, and it fails exactly if a file cannot be opened or an argument does not fit |
| CommandProcess.CommandProcess.ConnectPipes | Lab2/iwish/src/interpreter.c:80-95 | which dup2 calls succeed, and what standard input and output are then, for any two numbers and any table |
| CommandProcess.CommandProcess.HandleCommandList | Lab2/iwish/src/interpreter.c:72-120 | what reaches execvp, or that nothing does, for any descriptor table: exactly when it fails, the arguments, and standard input and output as the last redirection (input opened for reading, output created), else the pipe, else what was inherited; the final NULL is appended if it fits and its failure is not noticed |
| CommandProcess.SettlesFromFront | Lab2/iwish/src/interpreter.c:49-67 | handling the elements one by one from the front settles input and output by the last redirection in each direction |
| CommandProcess.LastRedirectionIsLast | Lab2/iwish/src/interpreter.c:49-67 | the redirection that settles a direction is one of the command behind which there is no other in that direction; there is none exactly if the command has none |
| CommandProcess.WordsInOrder | Lab2/iwish/src/interpreter.c:49-67 | the arguments of two element lists one behind the other are those of the first and then those of the second |
| CommandProcess.WordsOfOne | Lab2/iwish/src/interpreter.c:57-64 | a word gives one argument, a redirection none |
| CommandProcess.CommandReachesExec | Lab2/iwish/src/interpreter.c:72-120 | a command of an accepted list reaches execvp if and only if its dup2 calls, files and arguments do not fail; argv is then its words, with argv[0] not NULL, and NULL if there is room; and if its numbers are in order its input and output are its last redirection, or the neighbouring command, or what was inherited |
| Grammar.ParseIsInverseOfFlatten | Lab2/iwish/src/parser.c:101-203 | parsing a token list gives a list of commands if and only if that list is well-formed and flattens to the tokens: soundness, completeness and round trip |
| Grammar.AcceptedLanguage | Lab2/iwish/src/parser.c:186-203 | the tokens are accepted if and only if they are a sentence of the grammar |
| Grammar.AcceptedTokens | Lab2/iwish/src/parser.c:101-203 | without any tree: tokens are accepted if and only if the first is a word and every other one is a word, or a redirection operator or bar with a word right behind it, or an ampersand at the very end |
| Grammar.ExampleSentence | Lab2/iwish/src/parser.c:101-203 | a background pipeline of two commands, with an input and an output redirection: its tokens are read as these commands, each redirection in its direction |
| Grammar.FlattenIsInjective | Lab2/iwish/src/parser.c:101-203 | no sentence stands for two lists |
| Grammar.CommandIsRead | Lab2/iwish/src/parser.c:101-123 | the greedy element list reads exactly the elements of a command, up to a bar, an ampersand or the end |
| Parser.Parser.ParseWord | Lab2/iwish/src/parser.c:53-65 | succeeds exactly on strings of word characters, the empty one included, and moves only then |
| Ast.LettersAre | Lab2/iwish/src/parser.c:33-50 | the word characters are exactly the 52 letters and - . / _ |
| Ast.SomeWords | Lab2/iwish/src/parser.c:53-65 | `/bin/ls` and the empty string are words, a name with a digit is none |
| Parser.Parser.ParseRedirection | Lab2/iwish/src/parser.c:9-30 | succeeds exactly on an operator and a word, and restores the cursor otherwise |
| Parser.Parser.ParseSimpleCommandElement | Lab2/iwish/src/parser.c:68-98 | fills the node with the element, or leaves heap and cursor as they were, the redirection being freed |
| Parser.Parser.ParseSimpleCommand | Lab2/iwish/src/parser.c:101-123 | fills a list with as many elements as there are; the node allocated for one more is freed |
| Parser.Parser.ParsePipeLine2 | Lab2/iwish/src/parser.c:126-151 | appends the commands behind a bar, or leaves the heap as it was |
| Parser.Parser.ParsePipeLine | Lab2/iwish/src/parser.c:155-179 | fills the list with a whole pipeline, or leaves heap and cursor as they were; the cursor never passes the terminating NULL |
| Parser.Parser.ParseInput | Lab2/iwish/src/parser.c:186-203 | true exactly for the sentences of the grammar; on success and on failure the live nodes are the old ones and those reachable from the list; on success no node is uninitialised and the list holds the parsed commands |
| Parser.Parser.MakeNewSimpleList | Lab2/iwish/src/parsertokens.c:5-20 | an empty list at fresh addresses |
| Parser.Parser.FreeElementList | Lab2/iwish/src/parsertokens.c:75-82 | frees each element and its redirection exactly once |
| Parser.Parser.FreeCommandList | Lab2/iwish/src/parsertokens.c:49-56 | frees each command with its elements exactly once |
| Parser.Parser.FreeSimpleList | Lab2/iwish/src/parsertokens.c:23-29 | frees every node of the list exactly once and nothing else |
| Parser.Parser.ParseThenFree | Lab2/iwish/src/iwish.c:18-28 | parsing, whatever its outcome, and freeing leave the heap exactly as it was: no leak, no double free |
| AstReader.ListIsRead | Lab2/iwish/src/interpreter.c:49-80 | following the pointers of an AST and testing its flags as the interpreter does, one reads exactly the commands that it holds |
| AstReader.ListIsUnique | Lab2/iwish/src/interpreter.c:49-80 | a heap cannot be read as two different lists at one address |
| DynamicByteArray.CapacityIsPowerOfTwo | Lab2/iwish/src/DynamicByteArray.c:35-42 | the capacity is 16 times a power of two, at least the number of records, and less than twice that once it has grown |
| DynamicByteArray.GrowthIsLinear | Lab2/iwish/src/DynamicByteArray.c:35-50 | all growth over n adds copies fewer than 2n records |
| DynamicByteArray.ByteArray.CopiedIsBounded | Lab2/iwish/src/DynamicByteArray.c:23-50 | the bytes copied by all reallocations of an array are fewer than twice the bytes of its records |
| DynamicByteArray.ByteArray.Resize | Lab2/iwish/src/DynamicByteArray.c:23-32 | a failed resize changes nothing, a successful one keeps as much of the contents as fits |
| DynamicByteArray.ByteArray.Add | Lab2/iwish/src/DynamicByteArray.c:35-50 | one more record behind the others, or nothing changed; it fails exactly if the array is full and cannot grow |
| DynamicByteArray.ByteArray.GetElem | Lab2/iwish/src/DynamicByteArray.c:56-59 | element i is the i-th record that was added |
| LineInput.ReadsAsIntended | Lab2/iwish/src/iwish.c:61-92 | a line is read as the comment promises if and only if its only backslashes are continuations |
| LineInput.EscapeRepeatsBackslash | Lab2/iwish/src/iwish.c:79-91 | a line that is not: a, backslash, b is read with a second backslash at the end |
| LineInput.ContinuationIsSkipped | Lab2/iwish/src/iwish.c:76-92 | on any stream, a continuation where the reader is between two reads changes nothing |
| LineInput.ContinuationAnywhere | Lab2/iwish/src/iwish.c:76-92 | in a line whose only backslashes are continuations, inserting one changes nothing if and only if it is not put inside another |
| LineInput.SplitContinuationIsRead | Lab2/iwish/src/iwish.c:76-92 | a continuation put inside another: the line ends early and reads as three backslashes |
| LineInput.ReadInput | Lab2/iwish/src/iwish.c:65-99 | the loop fills the buffer with the text of the line and a NUL, and consumes exactly the line |
| Tokeniser.SplitYieldsTokens | Lab2/iwish/src/iwish.c:105-129 | no token is empty or contains a space |
| Tokeniser.SplitAtSpace | Lab2/iwish/src/iwish.c:105-129 | what is left and right of a space is split on its own |
| Tokeniser.SplitJoin | Lab2/iwish/src/iwish.c:105-129 | tokens written with spaces between them are read back |
| Tokeniser.Strtok | Lab2/iwish/src/iwish.c:111-125 | a call returns the next maximal run, ended by a NUL it may have to write, keeps all before it intact, and remembers where to go on |
| Tokeniser.Tokenise | Lab2/iwish/src/iwish.c:105-129 | the pointers, with their final NULL, point to the maximal space-free runs of the input in order, all intact in the buffer; NULL is returned exactly if the array cannot be grown to hold them |
| Shell.ReadAndTokenise | Lab2/iwish/src/iwish.c:174-180 | the buffer filled by readInput, split in place by tokenise, gives pointers to the tokens of the line, in order and ended by NULL; a NUL in the line hides what follows it |
| Shell.ReadAndParse | Lab2/iwish/src/iwish.c:18-28 | readInput, tokenise and parseInput one after the other, through the buffer, the pointers and the heap: the line is accepted exactly if it has commands, these are what is read back from the AST, and the heap has grown by the AST only |
| Shell.WrittenCommandsAreRead | Lab2/iwish/src/iwish.c:18-21 | a list of commands written on a line is read back as that list |
| Shell.ContinuationKeepsMeaning | Lab2/iwish/src/iwish.c:61-92 | a continuation outside of others changes neither the tokens nor the commands |
| Shell.BrokenLineIsRead | Lab2/iwish/src/iwish.c:61-92 | a written line may be broken at any place, words included |
| Shell.ReadCommandsExactly | Lab2/iwish/src/parser.c:53-65 | the commands that can be read are exactly the well-formed ones without empty words, so the empty word of parseWord is never reached |
| BootParameters.GetValue | Lab3/Exercise 1/usr/src/kernel/main.c:447-466 | on every block of entries and for every name: NULL if and only if no entry starts with the name and '='; otherwise the position of the value of the first entry that does, no entry before it matching; the scan stays in the block |
| BootParameters.MatchName | Lab3/Exercise 1/usr/src/kernel/main.c:459-461 | the inner loop finds out whether the entry starts with the name and '=' |
| BootParameters.StartsWithSplits | Lab3/Exercise 1/usr/src/kernel/main.c:459-462 | an entry matches a name if and only if it is the name, '=' and some value |
| BootParameters.ExampleBlock | Lab3/Exercise 1/usr/src/kernel/main.c:447-466 | the block of two entries, NUL by NUL, and the value found for the name `a` behind an entry for `ab` |
| BootParameters.ScanIsKeyLookup | Lab3/Exercise 1/usr/src/kernel/main.c:447-466 | the scan is the lookup of a key in an association list on every block if and only if the name has no '=' |
| TimeCalls.SplitLosesNothing | Lab3/minix_structure/usr/src/servers/pm/time.c:32-33 | seconds and microseconds together are the uptime in microseconds rounded down once, and the fraction is less than a second |
| TimeCalls.RepliesAreMonotone | Lab3/minix_structure/usr/src/servers/pm/time.c:32-33 | later replies are never earlier |
| TimeCalls.UtcStep | Lab3/minix_structure/usr/src/servers/pm/time.c:53-66 | UTC advances by two seconds right behind an entry of the table and by one elsewhere |
| TimeCalls.UtcIncreases | Lab3/minix_structure/usr/src/servers/pm/time.c:53-66 | UTC is strictly increasing |
| TimeCalls.UtcHasInverse | Lab3/minix_structure/usr/src/servers/pm/time.c:53-66 | every UTC second stands for exactly one second, or is the leap second of an entry and stands for none |
| TimeCalls.AsManySkippedAsEntries | Lab3/minix_structure/usr/src/servers/pm/time.c:53-66 | for any increasing table, the UTC seconds that stand for none are exactly as many as its entries |
| TimeCalls.TwentySevenAreSkipped | Lab3/minix_structure/usr/src/servers/pm/time.c:56-60 | with the table of the source exactly 27 UTC seconds stand for none |
| TimeCalls.EntriesAreHalfYearEnds | Lab3/minix_structure/usr/src/servers/pm/time.c:56-60 | entry i of the table is the last second of 30 June or 31 December, of the Gregorian calendar, of the year in which the i-th leap second was inserted |
| TimeCalls.DaysAreCounted | Lab3/minix_structure/usr/src/servers/pm/time.c:40-60 | the days before a year, counted year by year, are 365 a year and one for each leap year |
| TimeCalls.UtcAtTheEnds | Lab3/minix_structure/usr/src/servers/pm/time.c:61-66 | ten seconds are added through June 1972 and 37 from 2017 on |
| TimeCalls.ProcessManager.DoTime | Lab3/minix_structure/usr/src/servers/pm/time.c:19-35 | the reply is the uptime since boot, in microseconds rounded down |
| TimeCalls.ProcessManager.DoUtctime | Lab3/minix_structure/usr/src/servers/pm/time.c:40-70 | the scan with its early exit counts all entries below the time, and the reply adds ten |
| TimeCalls.ProcessManager.DoStime | Lab3/minix_structure/usr/src/servers/pm/time.c:76-96 | for the super user the time is then what was asked for; for others nothing changes |
| TimeCalls.ProcessManager.SetThenRead | Lab3/minix_structure/usr/src/servers/pm/time.c:19-96 | after the time was set, reading it gives the set time and the whole seconds that have begun since |

## Left out

- Ring: failing pipe(2) and fork(2), which end the process; stdio buffering and process ids in the output; reads and writes of an int are atomic.
- Ring: the arguments of the program; n is any number from 2 on, and the stop number any natural number, where the source has at most 16 processes and the number 50.
- Ring: the interleaved system is a transition relation on values; addresses and the array of pipes are not part of it, the loops of one process are in RingProcess.
- Pipeline executor: the wait loop and exit statuses, signals, and the parent-death signal of SafelyFork.
- CommandProcess.CommandProcess.HandleCommandElementList: does not model memory as such; how far the argument array can be grown is a parameter.
- Parser.Parser.ParseSimpleCommand: does not model a failing allocation of the next element, because the source then goes on with the cursor behind an element it has dropped, and the model assumes that nodes can be allocated.
- Parser.Parser.ParsePipeLine2: does not model a failing allocation of the next command, for the same reason.
- Parser.Parser.MakeNewSimpleList: does not model the NULL returns for a failing allocation, for the same reason.
- Parser: the error message of parsePipeLine.
- JobHandler: the children are recorded as tables at their fork; what the executed programs do is not part of the model.
- LineInput.ReadInput: does not model a stream without a line end, because the source then reads end-of-file for ever, nor characters dropped because the buffer cannot grow.
- DynamicByteArray: a failing malloc when the array is made, and the typed getters, which reinterpret the bytes of a record.
- The loop of the shell with its exit words, and the forks in interpretInput.
- Time calls: 32-bit overflow, and do_times, which copies counters.
- Lab1/duplicates.c, Lab1/execute.c, the MINIX tables and the rest of kernel main.c: file-system calls, tables and thin wrappers.
