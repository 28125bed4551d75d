# A verified model of the task server

The server hands out small tasks to clients that connect to it, shows each client the text of its task, reads the
answer and disconnects whoever is wrong or late. This project models the parts of it that compute and keep state,
from the random generation of an arithmetic task to the bytes that reach the client's socket, and the command-line
option library that configures it. `dafny verify dfyconfig.toml` checks all of it.

* **Equations** (`Equation`, `EqGenerate`, `EqSolve`, `EqReckon`, `EqPrint`, `EqRead`, `EqAnswer`, `Bitmask`). The
  generator knows no grammar; it steers by four budgets and four booleans. The equations it can produce are exactly
  the sentences of the grammar of the chosen length. The recursive-descent evaluator inverts flattening, and on every
  chain its three outcomes (a value, EILSEQ, a failed `assert`) are those of a one-pass scan with one counter. The
  printer fills the calculated buffer exactly, the text determines the equation, and a printed number is read back
  from a client's answer. What the text is worth to a reader who knows neither printer nor trees is the answer that is
  accepted.
* **Tasks** (`RcMem`, `EqTask`, `Shellcode`). The question text is printed once and shared by reference counting; the
  one accepted answer is the value of the only equation with that text. The other generator's answer buffer gives the
  verdicts of the client's byte stream exactly as long as no piece of input is longer than what is needed.
* **The byte stream** (`StreamSpec`, `StreamRuns`, `Segments`, `ByteStream`, `LinkedList`). A first-in first-out queue
  of bytes in owned 256-byte segments and borrowed ones, driven by callbacks that may move less than asked.
* **Connections** (`Connection`, `EqSession`, `ServerWorker`, `Careers`, `WorkerRuns`, `TextLoan`). One event at a
  time: what the client holds, what it was sent, when its question is dropped, when it is disconnected, on values for
  one connection and on the heap for a whole worker. With equations as tasks, the client stays connected past a
  verdict exactly by the value of the equation it was shown. In a worker, from its creation to its destruction,
  whatever clients come and whatever happens to them in whatever order, every client becomes what its own happenings
  make of it and was given what they say, and none is left with a question or a timer. No byte of a question is sent
  from a text that was freed.
* **Rings and tables** (`Ring`, `CliHash`, `HashTable`). Circular intrusive lists on the heap, and the chained hash
  table on them, which is a finite map.
* **Options** (`CliRegistry`, `CliOptions`, `CliRuns`, `CommandLine`, `CliMatch`). Two rings, two tables and the
  short-name array over the same nodes, and matching a command line against them.

The state that the C code updates in place is kept in classes: segments and streams, rings, list links, hash tables,
the option registry and the match, reference-counted blocks, tasks, clients and workers. Each of their methods is
proved against a function or a relation on values, and the properties are lemmas about those. A flag word is the set
of its 1 bits, a C `char` a Dafny `char`, a GMP number an `int`. Random draws, short counts of callbacks, outcomes of
`malloc`, `epoll_ctl` and the like, and the events epoll reports are parameters, so that every statement is for all
of them.

Where the code does something other than its comments or names say, the model follows the code:

* `bstream_read` never lowers `remain`, so it can deliver more than `len` bytes. `ReadsAtMostLenIff` gives the exact
  condition under which it does not.
* The early return of `bstream_write` does not add to `total_len`. `RunExactIff` and `StateExactIff` say exactly when
  the length is right nevertheless, `EmptyAnswerIff` when `bstream_empty` is, and `DrainedRefusesIff` what follows.
* `rand_eq_len` can leave [minlen, maxlen] by one; `PossibleLength` is what it really draws from, and
  `LengthInBoundsIff` says exactly when it does not.
* `eq_solve` succeeds as soon as a prefix is a sentence that is followed by `)`.
* `cli_remove_opt` leaves the short-name slot behind. `RemovedCanReturn` says which removed options can be added
  again, and `WildReadIff` on which command lines the code then reads a destroyed node.
* `cli_match` stores an argument that was never set for an option without one. `FailedIff` says exactly which refused
  command lines make it call through that argument's `data_free`.
* A check of the answer reads ahead through a FILE of its own and drops the surplus; `FollowsIff` says exactly when that
  loses something.
* Neither write of `client_send_task_text` is checked: when the first finds no memory and the second does, the client
  is sent a prompt without a question (`MessageIsPrefixIff`).
* `client_next_task` overwrites a question that is still unsent, which is then never destroyed (`QuestionLostIff`).
* Removing the last of several links with `list_remove_item` leaves the list without a null at its end.
* `eq_get_question` writes to the text block before it tests whether it got one.

## Model

| member | source | states |
|---|---|---|
| Bitmask.BitmaskChoose | gens/eq_gen/eq.c:53-71 | The flag chosen is a set bit with exactly `rand() % popcount` set bits below it, for every nonzero mask. |
| Bitmask.EveryBitIsChosen | gens/eq_gen/eq.c:60-68 | Every set bit is chosen by some value of `rand()`. |
| EqGenerate.GenFlagsUsable | gens/eq_gen/eq.c:144-157 | The generator's flags are empty exactly when no operator is allowed, and otherwise they have an operator and brackets come in pairs. |
| EqGenerate.PermittedIffAllowed | gens/eq_gen/eq.c:144-157 | They permit an element exactly when the caller's own flag for it is set: `+`, `-`, `*`, and one flag for both brackets; numbers are permitted below `max`. |
| EqGenerate.OfferedNonEmpty | gens/eq_gen/eq.c:186-193 | Under the budget invariant some element is always on offer, so the mask is never zero and the assert on it holds. |
| EqGenerate.SpendKeepsBalance | gens/eq_gen/eq.c:198-232 | Every element on offer keeps the budget invariant and takes one of the slots left. |
| EqGenerate.EmitSound | gens/eq_gen/eq.c:186-242 | From any balanced budgets the chain emitted has exactly as many elements as slots, passes the scan to its end, and uses permitted elements only. |
| EqGenerate.EmitComplete | gens/eq_gen/eq.c:186-242 | Every permitted chain of the right length that the scan accepts is emitted for some draws. |
| EqGenerate.ReachableIffSentence | gens/eq_gen/eq.c:173-242 | For an odd length the reachable chains are exactly the sentences of that length over the permitted elements. |
| EqGenerate.RandEqLenFailure | gens/eq_gen/eq.c:122-141 | No length is found exactly when the range is empty or one even number; otherwise the length is odd and at most one outside the bounds. |
| EqGenerate.RandEqLenReaches | gens/eq_gen/eq.c:122-141 | Every possible length is drawn, the ones just outside the bounds included. |
| EqGenerate.PossibleLengthIff | gens/eq_gen/eq.c:122-141 | The possible lengths in plain numbers, with 0 or less for no bound. |
| EqGenerate.LengthInBoundsIff | gens/eq_gen/eq.c:122-141 | The length stays within the bounds for every draw exactly when the range has at most one length or both bounds are odd. |
| EqGenerate.LengthOutOfBoundsExample | gens/eq_gen/eq.c:128-138 | Between 2 and 4 the lengths 1 and 5 are drawn. |
| EqGenerate.GeneratedIffSentence | gens/eq_gen/eq.c:159-248 | What `eq_generate` can return is exactly the sentences of a possible length whose operators and brackets the caller's flags allow and whose numbers are below `max`, provided some operator flag is set. |
| EqGenerate.GeneratedIsSentence | gens/eq_gen/eq.c:159-248 | Whatever is generated is such a sentence, for all draws. |
| EqGenerate.SentenceIsGenerated | gens/eq_gen/eq.c:159-248 | For every such sentence there is a length draw and a sequence of draws that generates it. |
| EqGenerate.OfferFlags | gens/eq_gen/eq.c:187-193 | The accumulated flag word is the set of elements on offer, and is never zero while slots are left in balanced budgets. |
| EqGenerate.Charge | gens/eq_gen/eq.c:198-232 | The branches of the budget update are the spending function, and keep balanced budgets balanced for every element on offer. |
| EqGenerate.GenerateChain | gens/eq_gen/eq.c:186-242 | The loop refines the emission function for every sequence of draws and allocation outcomes. |
| EqGenerate.Generate | gens/eq_gen/eq.c:159-248 | The whole generator refines its specification, and what it returns is a sentence of a possible length that the caller's flags allow. |
| EqSolve.SentenceLengthIsOdd | gens/eq_gen/eq.c:129-130 | Every sentence of the grammar has odd length. |
| Equation.ScanFlattenedExpression | gens/eq_gen/eq.c:261-274 | The scan reads every flattened expression as one operand, at any depth and before anything. |
| Equation.ScanBehindSentence | gens/eq_gen/eq.c:280-412 | What comes behind a sentence decides: the end and an unmatched `)` are accepted, a number or an operator without operand is EILSEQ, `(` fails the assert, and a bracket that is not closed is EILSEQ. |
| EqSolve.PrimarySound | gens/eq_gen/eq.c:280-326 | When a primary is read, what was consumed is that primary flattened. |
| EqSolve.TermSound | gens/eq_gen/eq.c:328-366 | When a term is read, what was consumed is that term flattened. |
| EqSolve.ExpressionSound | gens/eq_gen/eq.c:368-412 | On arbitrary chains, whatever is evaluated is a sentence and the rest is left. |
| EqSolve.ParseFlattenedTerm | gens/eq_gen/eq.c:328-366 | A flattened term before anything is read back whole before the loop goes on, which is left association. |
| EqSolve.ParseFlattenedExpression | gens/eq_gen/eq.c:368-412 | The same for expressions, with `*` binding tighter. |
| EqSolve.ParseInvertsFlatten | gens/eq_gen/eq.c:280-412 | A flattened tree before nothing or `)` is read back as that very tree, leaving exactly the rest. |
| EqSolve.GrammarUnambiguous | gens/eq_gen/eq.c:261-274 | A chain has at most one sentence as an admissible prefix, and that has one tree. |
| EqSolve.ScanExpression | gens/eq_gen/eq.c:368-412 | Reading an expression and scanning the rest is scanning the whole, in all three outcomes and at any depth. |
| EqSolve.ParseDecidedByScan | gens/eq_gen/eq.c:280-412 | For every chain, success with its remainder, EILSEQ and the failing assert are exactly the verdicts of the scan. |
| EqSolve.SentenceIffScan | gens/eq_gen/eq.c:261-274 | A chain is a sentence exactly when the scan accepts all of it. |
| EqSolve.GetPrimary | gens/eq_gen/eq.c:280-326 | The recursive method terminates and agrees with the parse in outcome, value and cursor. |
| EqSolve.GetTerm | gens/eq_gen/eq.c:328-366 | The loop accumulating products agrees with the parse in outcome, value and cursor. |
| EqSolve.GetExpression | gens/eq_gen/eq.c:368-412 | The loop accumulating sums and differences agrees with the parse in outcome, value and cursor, and the value is what one pass without a tree reckons. |
| EqSolve.Solve | gens/eq_gen/eq.c:509-514 | The outcome on every chain is the scan's verdict; on success the value is what one pass from left to right reckons, and on a sentence before nothing or `)` it is the sentence's value. |
| EqReckon.ReckonIsValue | gens/eq_gen/eq.c:328-412 | The value of every tree is what a pass over its chain finds that knows no tree, only a sum, a sign, a product and what waits outside each bracket. |
| EqReckon.ReckonTerm | gens/eq_gen/eq.c:328-366 | In that pass a term multiplies the product by its value. |
| EqRead.WorkedExample | gens/eq_gen/eq.c:464-503 | `20-3*(4+1)` reads as that chain and is worth 5. |
| EqPrint.IntLen | gens/eq_gen/eq.c:414-439 | The number of characters of the decimal notation, sign included, or 0 when that overflows `size_t`. |
| EqPrint.CalcStrSize | gens/eq_gen/eq.c:441-462 | Room for the text and one NUL, or 0 exactly when that overflows. |
| EqPrint.ElemPrint | gens/eq_gen/eq.c:464-488 | The buffer changes by the element's text, and after a number by one NUL behind it, and nowhere else; every operator and bracket is its own character. |
| EqPrint.Print | gens/eq_gen/eq.c:490-503 | On a buffer of the calculated size no write is outside it and the text comes out whole; it cannot fail, and a reader of the buffer finds the sentence that was printed. |
| EqPrint.PrintNew | gens/eq_gen/eq_gen.c:36-44 | Size pass and print pass together fill the buffer exactly, its last byte is its only NUL, and a reader of it finds the sentence that was printed. |
| EqPrint.NumberOfDigits | gens/eq_gen/eq.c:475-476 | A printed number consists of numerals that mean it in base 10. |
| EqPrint.ReadsBackFrom | gens/eq_gen/eq.c:464-503 | A reader who knows the characters and nothing of the printer reads every accepted chain back from its text, from any state of the scan, negative numbers included. |
| EqPrint.ReadsBack | gens/eq_gen/eq.c:464-503 | So the text of every sentence reads as that sentence. |
| EqPrint.ValueOfText | gens/eq_gen/eq.c:464-514 | What the text of an equation is worth is the equation's value. |
| EqPrint.DigitsInjective | gens/eq_gen/eq.c:478-484 | Different numbers print differently. |
| EqPrint.TextInjectiveFrom | gens/eq_gen/eq.c:464-503 | Two chains that the scan accepts from the same state and that print alike are equal. |
| EqPrint.TextInjective | gens/eq_gen/eq.c:464-503 | The text fixes the equation and its tree, negative numbers included. |
| EqPrint.TextNotInjectiveOnAllChains | gens/eq_gen/eq.c:464-503 | On chains that are not sentences it does not, by two examples. |
| RcMem.Alloc | rcmem/rcmem.c:18-27 | Null exactly when the header does not fit or memory is short; otherwise one reference is held. |
| RcMem.Block.Take | rcmem/rcmem.c:29-38 | One more reference, or the wrapped counter and the failed assert. |
| RcMem.Block.Put | rcmem/rcmem.c:40-49 | One reference less; the last one frees the block. |
| EqTask.Task.constructor | gens/eq_gen/eq_gen.c:102-107 | A new task holds no text and no references. |
| EqTask.Task.GetQuestion | gens/eq_gen/eq_gen.c:31-56 | Exactly when a question is handed out, when there is none and when the code crashes; the block holds the equation's text and its counter stays cache reference plus live questions. |
| EqTask.Task.QuestionText | gens/gen.c:39-42 | A live question's text was not freed, whether or not its task still lives, is the text of the equation, and reads as it. |
| EqTask.Task.DestroyQuestion | gens/gen.c:44-49 | The counter follows; the text is freed exactly when the task is gone and this was the last question. |
| EqTask.Task.Free | gens/eq_gen/eq_gen.c:58-64 | The cache's reference goes; the text is freed now exactly when no question is live. |
| EqTask.Lifetime | gens/eq_gen/eq_gen.c:31-64 | In any run of asking, showing, destroying and freeing, a crash comes exactly when that is specified, every text shown is the equation's, also after the task is gone, and at the end there was a text exactly when that is specified, and it was freed. |
| EqTask.Task.Check | gens/eq_gen/eq_gen.c:66-92 | On the first call and on every later one, right exactly when the number that the client's bytes begin with is what the text shown is worth, which is the value of the only equation with that text. |
| EqAnswer.PrintedIsRead | gens/eq_gen/eq_gen.c:76-82 | A number in decimal is read back, after any white space and before anything but a digit. |
| EqAnswer.ReadNumberIff | gens/eq_gen/eq_gen.c:76-82 | A number is read exactly when the bytes begin with white space, a dash or nothing, and a row of numerals that means it; so none is read exactly when they do not. |
| EqAnswer.RightIffShown | gens/eq_gen/eq_gen.c:76-91 | The verdict is right exactly for what the text shown is worth, and wrong otherwise. |
| EqAnswer.ValueIsRight | gens/eq_gen/eq_gen.c:76-91 | The value of any equation with the text that is shown, typed as a line, is right. |
| EqSession.AnsweredIff | server/server_worker.c:326-364 | When the worker asks for a verdict on an equation, the client stays connected exactly when the number is what the text shown is worth, a next task comes, and the client neither hung up nor does epoll refuse when the last byte goes out. |
| EqSession.SessionTasks | server/server_worker.c:305-382 | In every run whose judged tasks are equations, each verdict that is survived was on what the text shown is worth and brought exactly one more task, and no other event brings one. |
| Shellcode.Task.Check | gens/python_shellcode_gen/python_shellcode_gen.c:72-96 | Of the piece that the FILE of this check has read, it takes no more than is needed, asks for more exactly below 32 bytes, and is right exactly when the first 32 bytes since the last verdict are the answer; the surplus is dropped with the FILE. |
| Shellcode.VerdictsOfKept | gens/python_shellcode_gen/python_shellcode_gen.c:72-96 | Over any number of checks and any pieces, the verdicts are those of the stream of the bytes taken, one for each 32. |
| Shellcode.CutsDoNotMatter | gens/python_shellcode_gen/python_shellcode_gen.c:72-96 | While no piece is longer than what is needed when it arrives, they are those of the client's bytes, however these are cut. |
| Shellcode.FollowsIff | server/server_worker.c:57-74 | And only then: after a longer piece some later input that fits gets verdicts other than those of the client's bytes. |
| StreamSpec.BalancedPush | bstream/bstream.c:269-308 | The books stay balanced by a write: order kept, `total_len` exact modulo 2^64 up to the uncounted bytes. |
| StreamSpec.BalancedPop | bstream/bstream.c:373-399 | The books stay balanced by a read, in the wrapping subtraction too. |
| StreamSpec.AppendRunStores | bstream/bstream.c:285-308 | The segment loop stores exactly the bytes taken, in order, and falls short only through a short reader or refused memory. |
| StreamSpec.WriteRunStores | bstream/bstream.c:269-308 | So does a whole write, the filling of the last segment included. |
| StreamSpec.WriteRunShort | bstream/bstream.c:269-308 | A write falls short of `len` exactly through a short reader or refused memory. |
| StreamSpec.OneSegment | bstream/bstream.c:285-308 | At most 256 bytes in memory behind a full tail become one new segment. |
| StreamSpec.ReadRunTakesPrefix | bstream/bstream.c:373-399 | What the writer took is a prefix of what was stored and the rest stays, under every pattern of short counts. |
| StreamSpec.ReadsAtMostLenIff | bstream/bstream.c:373-399 | A read keeps to `len` under every writer exactly when all that is stored fits into `len` or the first nonempty segment holds that much. |
| StreamSpec.WillingWriterOverreads | bstream/bstream.c:375-391 | When the condition fails a writer that takes all it is offered gets more than `len`. |
| StreamSpec.OverreadExample | bstream/bstream.c:375-391 | Three bytes asked, four delivered. |
| StreamSpec.ReadRunDeliversAll | bstream/bstream.c:373-399 | When all that is stored is asked for, all is delivered unless a call falls short. |
| StreamRuns.DoSound | bstream/bstream.c:255-430 | Every operation, under every pattern of short counts and failed allocations, keeps the books: what was accepted since the last flush is what was delivered followed by what is stored. |
| StreamRuns.RunSound | bstream/bstream.c:255-430 | So it is in every state of every interleaving of copied writes, borrowed writes, reads and flushes, and the length is exact modulo 2^64 up to the uncounted bytes. |
| StreamRuns.ExactIff | bstream/bstream.c:269-308 | The length is right exactly when the uncounted bytes make up a multiple of 2^64, for contents that can be counted at all. |
| StreamRuns.StaysExactIff | bstream/bstream.c:269-308 | From a right length an operation leads to a right one exactly when it misses no byte. |
| StreamRuns.MissedIff | bstream/bstream.c:269-283 | A copied write misses bytes exactly when the tail has room, the reader puts some there, and it then falls short of the room or has moved all that was asked for; these are the bytes missed. |
| StreamRuns.MissedFromMemory | bstream/bstream.c:336-338 | A write from memory misses its bytes exactly when they fit into the tail. |
| StreamRuns.RunExactIff | bstream/bstream.c:269-308 | The length is right in every state of a run exactly when no write of the run is such a write. |
| StreamRuns.StateExactIff | bstream/bstream.c:269-308 | In any one state it is right exactly when the writes since the last flush missed a multiple of 2^64 bytes. |
| StreamRuns.RunExact | bstream/bstream.c:273-283 | In particular in every run in which no copied write meets a copied tail with room. |
| StreamRuns.EmptyAnswerIff | bstream/bstream.c:432-434 | `bstream_empty` is right exactly when the length is right modulo 2^64, or there are bytes and the wrong length is not zero. |
| StreamRuns.DrainedRefusesIff | bstream/bstream.c:255-257 | After missed bytes and a full drain, a borrowed write is refused for its length exactly when it has at least as many bytes as were missed. |
| StreamRuns.SecondWriteIff | bstream/bstream.c:269-308 | After one write from memory into an empty stream, the length is right after a second one exactly when the two do not fit into one segment. |
| StreamRuns.UncountedExample | bstream/bstream.c:275-282 | One copied write into a tail with room leaves the length one short; after all bytes are delivered it is 2^64 - 1, and one borrowed byte is refused. |
| StreamRuns.ShortCopy | bstream/bstream.c:336-338 | A write of at most 256 bytes from memory behind a tail without room does what a borrowed write of them does. |
| Segments.Reader.Fill | bstream/bstream.c:311-334 | A reader hands out its bytes in order into the place it is given and nowhere else. |
| Segments.Writer.Take | bstream/bstream.c:351-371 | A writer appends the beginning of what it is offered. |
| Segments.Segment.CopiedCreate | bstream/bstream.c:54-73 | An owned segment of 256 free bytes. |
| Segments.Segment.BorrowedCreate | bstream/bstream.c:75-88 | A borrowed segment stores the lent bytes. |
| Segments.Segment.Write | bstream/bstream.c:141-156 | The stored bytes grow by what the reader moved, at most the room; offset, length and free space still add up to 256. |
| Segments.Segment.Read | bstream/bstream.c:158-171 | The writer gets the beginning of the stored bytes and the segment keeps the rest, owned or borrowed; the sum of 256 is kept. |
| ByteStream.Stream.constructor | bstream/bstream.c:233-241 | An empty stream with empty books. |
| ByteStream.Stream.WriteBorrow | bstream/bstream.c:255-267 | All of the lent bytes are stored as one segment and counted, or nothing happens, exactly when the length overflows or memory is short; it is that operation of the runs. |
| ByteStream.Stream.Write | bstream/bstream.c:269-309 | Refines the value specification in segments, reader and memory; the accepted bytes are those taken, and they are missing from the length exactly after the early return. It is that operation of the runs. |
| ByteStream.Stream.AppendSegments | bstream/bstream.c:287-308 | The endless loop ends, because each continuing pass moves 256 bytes. |
| ByteStream.Stream.WriteMem | bstream/bstream.c:336-338 | It is the copied write of the runs, for any bytes and any tail, with a reader that moves all it is asked for. |
| ByteStream.Stream.Read | bstream/bstream.c:373-399 | The socket gets exactly a prefix of the contents, which keep the rest; first in, first out is kept, and the bound on the count under its condition. It is that operation of the runs. |
| ByteStream.Stream.ReadSegments | bstream/bstream.c:377-395 | The loop refines the value specification in segments, writer and count. |
| ByteStream.Stream.Flush | bstream/bstream.c:420-430 | Every segment is destroyed once, the stream and its books are empty. |
| ByteStream.Stream.IsEmpty | bstream/bstream.c:432-434 | Whether the length is zero, with the exact condition under which that is the right answer for the stored bytes. |
| LinkedList.LineUnlink | list/list.h:113-118 | Two writes take a link out of the middle: `next` leads through the others in order. |
| LinkedList.LineDropHead | list/list.h:128-129 | Removing the head needs no write, and leaves the new head's `prev` unspecified. |
| LinkedList.List.AddItemBack | list/list.h:102-111 | The list becomes the old one and the new link. |
| LinkedList.List.RemoveItem | list/list.h:123-135 | Takes out just the given link, order kept, everywhere but at the end of a longer list; there the new tail still points at the removed link. |
| LinkedList.List.FreeAll | list/list.h:148-150 | Safe iteration visits every link once, in order, and reads none that was freed. |
| Ring.Insert | listc/listc.h:39-46 | Adding before the head makes the ring of the old nodes and the new one, in both directions. |
| Ring.Rotate | listc/listc.h:50-58 | The same ring seen from its last node, which is why adding to the front is adding to the back and moving the head. |
| Ring.Remove | listc/listc.h:80-85 | Two writes around a node give the ring of the others, in both directions. |
| Ring.WithoutAt | listc/listc.h:96-107 | Deleting a node by identity is deleting it at its place. |
| Ring.Node.AddBefore | listc/listc.h:39-46 | The four link writes, also when the node is its own neighbour. |
| Ring.Node.Unlink | listc/listc.h:80-85 | The neighbours are joined and the node is a ring of its own. |
| Ring.Ring.AddItemBack | listc/listc.h:71-78 | Refines appending. |
| Ring.Ring.AddItemFront | listc/listc.h:50-58 | Refines prepending. |
| Ring.Ring.RemoveItem | listc/listc.h:96-107 | Refines deletion of the given node, with the right head in all cases. |
| Ring.Ring.Next | listc/listc.h:109-116 | A step of the plain iteration, and of `cli_hash_table` and `cli_match` loops: the cyclic successor. |
| Ring.Ring.FreeAll | listc/listc.h:118-126 | Safe iteration visits every node once, in order, and reads none that was freed. |
| Ring.Members.Add | listc/listc.h:71-78 | A member is linked in behind all others through its embedded link. |
| Ring.Members.Remove | listc/listc.h:96-107 | Exactly that member leaves, and the order of the others stays. |
| CliHash.HashFromStr | cli/cli.c:35-50 | The wrapping loop computes the polynomial with base 67 modulo 2^64, for signed characters too. |
| CliHash.HashStep | cli/cli.c:42-47 | One pass in wrapping arithmetic is one term in unbounded arithmetic, reduced. |
| CliHash.HashExample | cli/cli.c:35-50 | Four hashes in numbers, one of a character above 127. |
| HashTable.LookupAgrees | cli/cli_hash.c:80-94 | Searching the bucket of the hash decides membership in the map, for every key and bucket count. |
| HashTable.InsertRepresents | cli/cli_hash.c:58-78 | Appending to the bucket represents the extended map. |
| HashTable.RemoveRepresents | cli/cli_hash.c:96-112 | Deleting from the bucket represents the map without that key. |
| HashTable.Table.constructor | cli/cli_hash.c:27-43 | The empty map, for every number of buckets. |
| HashTable.Table.Search | cli/cli_hash.c:85-93 | Finds a node with the key, or there is none in the bucket. |
| HashTable.Table.Insert | cli/cli_hash.c:58-78 | Succeeds exactly with data, memory and a new key; the map is extended, or unchanged. |
| HashTable.Table.Get | cli/cli_hash.c:80-94 | The map's value, or failure exactly when it has none. |
| HashTable.Table.Remove | cli/cli_hash.c:96-112 | The map without the key, other keys kept; gives back the value. |
| HashTable.Table.Destroy | cli/cli_hash.c:45-56 | Every node of every bucket is freed. |
| CliRegistry.Registry.AddConsistent | cli/cli.c:408-438 | Adding an accepted node keeps ids and long names distinct and both tables equal to the rings. |
| CliRegistry.Registry.DropConsistent | cli/cli.c:510-534 | So does removing a listed node, and exactly that node goes. |
| CliRegistry.DropUndoesAdd | cli/cli.c:475-487 | Removing the node just added restores rings, order included, and tables. |
| CliRegistry.DropBeforeAdd | cli/cli.c:475-487 | Removing an earlier node and adding a later one commute. |
| CliRegistry.DropFirst | cli/cli.c:475-487 | Undoing from the front, as the code does, leaves what adding only the later ones gives. |
| CliRegistry.AddShorts | cli/cli.c:409-415 | The short-name array stays right under an add. |
| CliRegistry.DropShorts | cli/cli.c:510-534 | After a removal the untouched array is right outside the removed short names. |
| CliOptions.Cli.constructor | cli/cli.c:267-290 | The empty registry, of new objects only. |
| CliOptions.Cli.Index | cli/cli.c:409-437 | All three indexes are updated or none is, and exactly when. |
| CliOptions.Cli.AddOptNode | cli/cli.c:408-438 | A failed add leaves tables, rings and short-name array as they were; a successful one is the specified add. |
| CliOptions.Cli.AddOpt | cli/cli.c:440-454 | Succeeds exactly for a well-formed option with new names, a free slot and memory; then the node under the caller's id has the caller's long name, short name, flags and parser, and is last in its ring. `CLI_OPT_APPEND` is refused. |
| CliOptions.AdmitsIff | cli/cli.c:139-153 | When an option is admitted, in terms of what the caller passed, the options that are listed and the slots: a name, an id, a visible short name or none, no flag but the two public ones, new names, and memory. |
| CliOptions.Cli.AddAutoHelp | cli/cli.c:497-508 | The same for the internal help option, `-h` and `--help`. |
| CliOptions.Cli.RemoveOpt | cli/cli.c:510-534 | Fails exactly for unknown ids and internal options; otherwise exactly that node leaves rings and tables and is destroyed, and its short name becomes stale. |
| CliOptions.Cli.RemoveFirst | cli/cli.c:479-481 | The undo loop restores the registry that was there before the first add. |
| CliOptions.Cli.AddOpts | cli/cli.c:475-487 | All options are added in order, each admitted in its turn and with just the fields the caller passed, or both tables and both rings are restored, order included, and the first refused option is named; the short names of the undone ones are stale. |
| CliOptions.RemovedCanReturn | cli/cli.c:510-534 | A removed option can be added again exactly when it has no short name. |
| CliRuns.TakesIff | cli/cli.c:408-438 | Whether an option is admitted depends on the options registered and on the short names ever given away, and on memory. |
| CliRuns.NamedMany | cli/cli.c:475-487 | What `cli_add_opts` leaves and whether it succeeds, in those terms. |
| CliRuns.Turn | cli/cli.c:440-534 | Each of adding, adding many and removing refines its specification on names. |
| CliRuns.Configure | cli/cli.c:267-534 | In any run from a new registry, which changes succeed and what is registered at the end is what the names say. |
| CliRuns.ShortNamesStayTaken | cli/cli.c:510-534 | A short name that was ever given away is refused for the rest of the run, also after its option was removed or undone. |
| CommandLine.LookupFindsIff | cli/cli.c:699-717 | The lookup of any word finds exactly the listed option it names; it finds a destroyed node exactly for a removed option's short name, and leaves the array exactly for a character without a slot. |
| CommandLine.StepIff | cli/cli.c:699-766 | When a pass is refused, exits, or reads wildly, in terms of the words alone. |
| CommandLine.TakenUse | cli/cli.c:699-771 | A pass that goes on consumes one legal option with its argument, not seen before. |
| CommandLine.ScanStops | cli/cli.c:694-772 | Every command line begins with legal options without repeats, up to its end or a word at which the scan stops. |
| CommandLine.ScanReached | cli/cli.c:694-772 | Splitting off such a beginning does not change what the scan finds, whatever the words in it are. |
| CommandLine.Decided | cli/cli.c:687-782 | The beginning and the stop decide the outcome: end, help, wild read or refusal. |
| CommandLine.MatchedIff | cli/cli.c:687-782 | Matching succeeds, with a given result, exactly when the command line splits into known options without repeats, arguments present and parsed where taken, required options present, with that meaning. |
| CommandLine.SplitIsUnique | cli/cli.c:694-772 | A command line splits in at most one way. |
| CommandLine.HelpedIff | cli/cli.c:724-726 | The help handler ends the process exactly when a splittable beginning without repeats is followed by a word for an internal option, whatever follows. |
| CommandLine.WildReadIff | cli/cli.c:709-717 | A destroyed node is read exactly when such a beginning is followed by a word with a removed option's short name, and the array is left exactly for a character without a slot. Arguments and words behind a stop do not matter. |
| CommandLine.FailedIff | cli/cli.c:542-566 | A refused command line fails cleanly exactly when every option before the refusal takes an argument; otherwise destroying the match calls through a pointer that was never set. |
| CommandLine.WordForIff | cli/cli.c:699-712 | The words for an option are two dashes and its long name, and a dash and its short name with anything behind it. |
| CommandLine.OptionWithArgument | cli/cli.c:733-766 | An option with an argument, by its word and an argument that parses, gives its id and the parsed value when nothing else is required; without the argument, with a wrong one, and when repeated the line is refused. |
| CommandLine.OptionWithoutArgument | cli/cli.c:728-766 | An option without argument gives its id, and the next word is looked up as an option; what is missing then ends in the call through the unset pointer. |
| CommandLine.InternalOption | cli/cli.c:724-726 | A word for an internal option runs the help handler, whatever follows. |
| CommandLine.EmptyLine | cli/cli.c:687-782 | The empty command line matches exactly when nothing is required. |
| CommandLine.DestroyedReadExample | cli/cli.c:709-717 | After the removal of `-v`, the word `-v` reads the destroyed node. |
| CommandLine.GarbageCallExample | cli/cli.c:542-566 | `-v`, which takes no argument, followed by an unknown word ends in the call through the unset pointer. |
| CliMatch.Match.constructor | cli/cli.c:579-594 | An empty match. |
| CliMatch.Match.Present | cli/cli.c:751-751 | The id table answers for the options matched so far. |
| CliMatch.Match.AddNode | cli/cli.c:615-646 | Table and ring get the same new entry. |
| CliMatch.Match.Destroy | cli/cli.c:784-794 | Every node of the ring and of the table is freed exactly when every entry has an argument; otherwise an unset `data_free` is called. |
| CliMatch.Find | cli/cli.c:699-717 | The lookup of one word, by long or by short name, is the specified one, and what it finds has not been destroyed. |
| CliMatch.CheckRequired | cli/cli.c:665-680 | The iteration over the ring decides whether every required option was seen. |
| CliMatch.Read | cli/cli.c:699-766 | One pass up to the change of the match is the specified step. |
| CliMatch.Pass | cli/cli.c:694-772 | One pass takes the specified step, and the match grows by its entry or not at all. |
| CliMatch.Refused | cli/cli.c:778-781 | A refusal with the match so far returns or calls the unset pointer, exactly as specified. |
| CliMatch.CliMatch | cli/cli.c:687-782 | On every command line without a wild read, `cli_match` is the specified function in all four outcomes; the match returned holds exactly the options seen, in order, in ring and table. |
| CliMatch.AddAndMatch | cli/cli.c:440-782 | Registering an option with a long name and an argument and then matching its word and an argument gives just its id and the parsed value, exactly when the argument parses and nothing else is required. |
| Connection.PromptFits | server/server_worker.c:213-214 | The prompt never fills its 256-byte buffer, for every 64-bit timeout. |
| Connection.PromptReads | server/server_worker.c:212-221 | A reader of the prompt finds the timeout in it; without one there is the other text and its NUL. |
| Connection.QueueStores | server/server_worker.c:209-223 | What the two unchecked writes leave in the stream, for every outcome of each. |
| Connection.NextTaskKeeps | server/server_worker.c:225-266 | A next task leaves a valid connection when it succeeds; bytes given so far stay given, and the record of tasks grows by exactly that one. |
| Connection.SendTextKeeps | server/server_worker.c:268-296 | Sending extends what was given, and leaves a valid connection unless epoll refuses. |
| Connection.OnClientKeeps | server/server_worker.c:342-378 | Every client event does so, for all flags and answers; tasks are handed out exactly on right answers. |
| Connection.OnTimerKeeps | server/server_worker.c:326-341 | Every timer event does so, and gives the socket nothing. |
| Connection.StaysIff | server/server_worker.c:342-378 | After a client event the client stays exactly: always with an answer that is not complete yet, never with a wrong one, after a right one only with a next task; and then, or without input, unless it hung up or epoll refuses when the last byte goes out. |
| Connection.UnfinishedAnswerKeeps | server/server_worker.c:347-354 | An answer that is not complete or wrong changes nothing in the connection and sends nothing. |
| Connection.EventLeaves | server/server_worker.c:225-296 | What any other client event leaves: task, question, timers, lost questions and the bytes that the socket took; a timer starts exactly when the last byte goes out for a task with a timeout. |
| Connection.TimerLeaves | server/server_worker.c:326-341 | After a timer event the client stays exactly with a right answer and a next task; the timer is gone and nothing was sent. |
| Connection.RunValid | server/server_worker.c:305-382 | In every reachable state between events there is a current task, unsent bytes have a live question, EPOLLOUT is asked for exactly with a question, and for every task so far, in order, the socket was given a prefix of its message. |
| Connection.LastEvent | server/server_worker.c:324-378 | The event that closes the connection keeps that too, as far as the socket and the tasks go. |
| Connection.QuestionLiveIff | server/server_worker.c:272-296 | Between events the question is live exactly while EPOLLOUT is asked for, and, unless the message is empty, exactly while some of it is unsent. |
| Connection.QuestionDroppedIff | server/server_worker.c:276-287 | Sending drops the question exactly when all of the message has been handed over, also when epoll then refuses. |
| Connection.WillingSocketTakesAll | server/server_worker.c:276-282 | One EPOLLOUT event hands everything over unless the socket falls short. |
| Connection.QuestionLostIff | server/server_worker.c:253-254 | A question is overwritten exactly when its answer came while EPOLLOUT was asked for, which, unless the message is empty, is before all of it was sent. |
| Connection.EmptyMessageLost | server/server_worker.c:212-217 | When both writes fail and the answer comes first, a question is lost with nothing unsent. |
| Connection.MessageIsWholeIff | server/server_worker.c:212-217 | The message is text and prompt exactly when both writes found memory; for an empty text the second is enough. |
| Connection.MessageIsPrefixIff | server/server_worker.c:212-217 | It is a prefix of them exactly unless the first write failed, the second did not, and the text is neither empty nor begins with the prompt. |
| Connection.PromptAloneExample | server/server_worker.c:212-217 | For the text of one digit and any timeout, the client is then sent the prompt alone. |
| Connection.EquationMessage | server/server_worker.c:212-217 | So it is for the text of every equation. |
| Connection.DeliveredIsPrefix | server/server_worker.c:268-296 | With memory for the text, what the socket was given for a task is a prefix of text and prompt, under every pattern of partial writes. |
| ServerWorker.ShownQuestion.Destroy | server/server_worker.c:281-281 | A question is destroyed once, and only when the stream that borrows its text, the same from the beginning, stores nothing. |
| ServerWorker.Client.constructor | server/server_worker.c:132-150 | A new client holds nothing and has sent nothing. |
| ServerWorker.Client.SendTaskText | server/server_worker.c:209-223 | The stream holds the specified segments and its length counts all of them. |
| ServerWorker.Client.NextTask | server/server_worker.c:225-266 | Refines the specification in every outcome, and gives the socket nothing. |
| ServerWorker.Client.HandOver | server/server_worker.c:276-276 | The socket's record and the task's record grow by the same bytes. |
| ServerWorker.Client.SendText | server/server_worker.c:268-296 | Refines the specification in every outcome. |
| ServerWorker.Client.OnClient | server/server_worker.c:342-378 | The branches of the client event refine the specification; an answer that is not complete yet leaves client and socket as they were. |
| ServerWorker.Client.OnTimer | server/server_worker.c:326-341 | The branches of the timer event refine the specification. |
| ServerWorker.Client.Destroy | server/server_worker.c:196-206 | A live question is destroyed, the stream is empty and all timers go. |
| ServerWorker.Worker.Disconnect | server/server_worker.c:189-207 | Exactly that client leaves the linked ring, the count follows, the other clients are as they were. |
| ServerWorker.Worker.OnClient | server/server_worker.c:342-378 | In any worker, the client becomes what the state machine says or is disconnected when that says so, its socket was given what that says, every other client is unchanged, and the worker stays valid; with an answer that is not complete yet the client stays as it was. |
| ServerWorker.Worker.OnTimer | server/server_worker.c:326-341 | The same for a timer event; the assert on the current task holds. |
| ServerWorker.Worker.AddClient | server/server_worker.c:412-424 | The client is connected with its first task exactly when both steps succeed; otherwise the worker's clients are as they were. What the worker comes to own is new. |
| ServerWorker.Worker.Destroy | server/server_worker.c:436-450 | Every client is disconnected: the ring is empty and no client keeps a question or a timer. Clients that had left, and what sockets were given, stay as they are. |
| Careers.Career.OpenIsRun | server/server_worker.c:305-382 | A client whose events all kept it went through a run of the connection, made of its own happenings alone. |
| Careers.Career.TreatedHonestly | server/server_worker.c:305-382 | Such a client, and one whose last event closed it, was given, for every task that its own happenings brought, in order, a beginning of the task's message. |
| Careers.WorldSound | server/server_worker.c:305-424 | After any happenings everyone who was served is in the ring, with events that all kept it, or left, with one at the end that closed it. |
| Careers.AllTreatedHonestly | server/server_worker.c:305-424 | So every client of any worker was treated like that. |
| WorkerRuns.Handle | server/server_worker.c:324-378 | An event of either kind, timer or client, is worked off as one step of its connection, which determines the bytes its socket is given; any other client of this worker, there or gone, and its socket are unchanged. |
| WorkerRuns.Accept | server/server_worker.c:412-424 | A new connection starts with its first task exactly when both steps succeed; any other client and its socket are unchanged. |
| WorkerRuns.Happen | server/server_worker.c:305-382 | Each pass of the loop, or new connection, does what the specification says to the clients of the ring, to those that left, and to what all their sockets were given. |
| WorkerRuns.Serve | server/server_worker.c:305-424 | After anything that happens to an empty worker, in any order, the clients of the ring are those the specification names, each where its own happenings led it, and the socket of each that left was given exactly what those say. |
| WorkerRuns.Close | server/server_worker.c:436-450 | Destroying the worker lets everyone leave, and gives no socket anything more. |
| WorkerRuns.Lifetime | server/server_worker.c:384-450 | From creation to destruction of a worker: there are as many different clients as were served, they hold neither question nor timer, each socket was given exactly what the client's own happenings say, and that is, for every task they brought, in order, a beginning of its message. |
| TextLoan.Deliver | server/server_worker.c:276-276 | A stream that borrows a question's text is read only while the text is not freed, and gives the socket the next bytes of it. |
| TextLoan.Elsewhere | gens/eq_gen/eq_gen.c:31-64 | Whatever is done to the task and its other questions, the question whose text is lent stays live. |
| TextLoan.Send | server/server_worker.c:209-296 | Under any interleaving of sending with asking, showing and destroying other questions and with the end of the task, the socket is given a beginning of the equation's text, all of it when the stream has become empty, and never from a freed block. |

## Left out

- GMP, `gmp_sprintf` and `mpz_inp_str`: numbers are mathematical integers and their text is specified by decimal digits.
- Sockets, epoll, timerfd, pthreads: events, accepted byte counts and outcomes are parameters, one event is one step, and only interleavings of whole events are modelled. `client_create` and the first `client_next_task` are one step.
- Timers other than how many a client has: the timer of an answered task is not cancelled, so no claim is made about which task a timer ends.
- Connection.Prompt: the branch without a timeout borrows a local array that is dead when it is sent. The model keeps its bytes, so for timeout 0 the statements on message contents say less about the program than they seem to; all other statements do not depend on it.
- Segments.Segment: borrowed memory is a constant. That it is alive while borrowed is proved for the server's question text only, as far as the question object is live.
- ServerWorker.ShownQuestion: is the server's side of a question; `TextLoan` joins a stream with the reference-counted text it borrows, for the text alone and not for the prompt behind it.
- ByteStream.Stream: keeps its segments in a sequence instead of through the links of list.h, which `LinkedList` proves separately.
- Ring.Members: the way from a member to its embedded link, which the code computes from an offset, is a map.
- CliMatch.CliMatch: covers CLI_STRICT only; without it the code goes on after an error, and may read behind the end of an empty word.
- CliMatch.CliMatch: has no behaviour on command lines with a wild read, which `WildReadIff` characterizes; there the code reads freed memory or behind its array.
- CliMatch.Match.AddNode: memory is not short, and an option has one argument field instead of a ring of arguments; a second one would need `CLI_OPT_APPEND`, which registration refuses.
- CliMatch.Read: the argument of an option without one, which the code leaves uninitialized, is None; what the code can do with it is the outcome `GarbageCall`.
- CliMatch.Match.Destroy: after a successful match the caller's `cli_match_destroy` makes the same call when an option without argument is in it; the model says when, and does not follow the program behind it.
- CliMatch.Match.constructor: the two allocations succeed.
- HashTable.Table.constructor: the two allocations succeed.
- HashTable.Table.Insert: on a present key the code does not free the node it has just made; the model drops it the same way and makes no claim about leaks.
- CliOptions.Cli.constructor: leaves `CLI_AUTO_HELP` to `AddAutoHelp` and has no failing allocations; `cli_destroy` and help printing are not modelled.
- CliRuns.Turn: covers adding and removing by the caller; `AddAutoHelp` is not one of the changes of a run.
- EqGenerate.Generate: the chain is a value, so its links and the release of a partial chain on failure are not modelled.
- Shellcode.Task: its question text is handed out like that of `EqTask.Task` and is not repeated.
- EqTask.Task.Check: the bytes are those its FILE has read; what that FILE reads ahead is lost for the next check, as `Shellcode.FollowsIff` says for the other generator.
- Shellcode.Task.Check: a piece shorter than what is needed stands for all there was to read; how far a FILE reads ahead is a parameter.
- Plots, log, main program, `strtol` wrappers, help text: input, output and plumbing. The plot with a decreasing timeout is left out because its copy loop takes the first member every time.
