# Verified model of the HTTP server's core

This project models, in Dafny, the two stateful cores of the server and proves what they keep over whole runs.

**The request parser and the response builder** (`job.cpp`). `CJob` reads a request incrementally into a fixed
buffer, ends lines and tokens by writing NULs in place, and keeps pointers into the buffer while more bytes arrive.
`Job.Job` is that class, with the array, the three indices and the pointers. Its `ProcessRead` is proved for any
contents of the buffer (`ReadBuffer.ProcessBuffer`). Where reads have been appended this is `RequestMachine`, a function
on the bytes received since `init`, and that machine is proved equal to `Interpret`, which just splits the input at
CRLF, reads the first line and folds the header lines. `BodyReads` is about bodies in any number of reads, `LiveReads`
about the reads as the live callback makes them, over the start of the buffer. `Reply.Reply` is the other half of the
class, the bounded buffer that responses are printed into; `RoundTrip` prints requests and reads them back; `Server`
puts the halves together, up to whole conversations.

**The worker pools and the connection queue** (`threadpool.cpp`, `http_conn.cpp`, parts of `tcpeventserver.cpp`).
`JobPool.ThreadPool` and `ConnPool.ThreadPool` are `CThreadPool` in its two roles; `ConnQueue.ConnQueue` is the linked
list between two sentinels. The classes are proved against the state machines in `JobPoolSpec` and `ConnPoolSpec`,
whose steps are a whole call of `Run`, a whole turn of a worker, an inserted and a removed connection. `JobPoolRuns`,
the end of `ConnPoolSpec` and `Listener` are about all runs of these steps. `FineLocks` has one step per locked
section instead, with any number of callers, workers and trims in any interleaving; `FineListing` says on which lists
a worker then stands, and `FineToCoarse` that the sections of one call or one turn, in a row, are the coarse steps.

| file | content |
|---|---|
| `CTypes.dfy`, `CString.dfy` | machine integers; the C library string functions, C strings in a buffer |
| `HttpSyntax.dfy` | the request line and the header fields as functions of one line |
| `Framing.dfy` | CRLF framing |
| `RequestMachine.dfy` | the parser on values: the loop, its meaning, reads that append, missing resets |
| `BodyReads.dfy` | bodies in any number of reads |
| `ReadBuffer.dfy`, `LiveReads.dfy` | the parser's buffer, with any contents; live reads |
| `Job.dfy` | the parser on the buffer |
| `RoundTrip.dfy`, `Reply.dfy` | printing requests; the response buffer |
| `Server.dfy` | requests from their reads to their replies |
| `Lists.dfy`, `Pools.dfy` | erasing from lists; the three lists and the counter of a pool |
| `JobPoolSpec.dfy`, `JobPoolRuns.dfy`, `JobPool.dfy` | the job pool: steps, runs, class |
| `ConnQueue.dfy`, `ConnPoolSpec.dfy`, `ConnPool.dfy` | the connection pool: queue, steps and runs, class |
| `Listener.dfy` | the round-robin choice of a connection worker |
| `FineLocks.dfy`, `FineListing.dfy`, `FineToCoarse.dfy` | the job pool, one step per locked section; how often a worker is listed; how the coarse steps arise |

`dafny verify dfyconfig.toml` checks everything.

## Where the code does not do what one would expect

Each of these is a lemma, with the exact condition.

- A body that arrives in several reads may never be answered: while waiting, the parser scans the body for lines, and
  the completion test counts from where that scan stands. `BodyInReads` says, for any reads, exactly when there is an
  answer and when it is that of a single read; `BodyByteByByte` is a two-byte body that is lost.
- As long as reads append, a bare CR or LF is never reported as a bad request: the parser answers nothing, whatever
  comes (`BadLineNeverAnswered`).
- The read callback of the live server stores every read at the start of the buffer while it advances the read index,
  so it appends, as the parser needs, only for the first read (`LiveReadAppends`). What stands in the buffer after a later
  read is the read and behind it what it leaves of the bytes received before (`Standing`), and that is scanned from the
  old place on: for every read `LiveScan` and `LiveRead` say exactly when a line completes and which strings `m_url`,
  `m_version` and `m_host` then denote. A read that stays in front of the scan is not seen at all if everything received
  was scanned; otherwise the bytes left there decide, and of its own at most a carriage return just in front of them
  (`ShortRead`).
- A response without keep-alive announces `Connection: close`, but the connection is neither closed nor reset. If reads
  append, a second request on it is answered with the URL of the first (`SecondRequestGetsFirstAnswer`); with live reads
  it is answered, if at all, with what then stands at the old place of the URL (`LiveRead`, `OtherUrlAnswered`); an empty
  line left behind the first request makes any short read an answered one (`LeftoverAnswered`), and a bad line can be
  replaced (`BadLineReplaced`). The reply goes behind the earlier ones in the write buffer, and all of them are sent
  again (`SentBehind`). An error response whose body does not fit closes the connection; of a file's head the pieces that
  do not fit are missing, and the connection stays open (`RunJob`).
- `write` applies `strlen` to the address of the mapped file after every reply, but the address is stored only when a
  file was found and is zero again after each `write`. Every error reply therefore reads an unset or a null pointer
  (`Write`, `RunJob`); a call that answers is defined if and only if it found a file, not empty, in which `strlen` stops:
  at a NUL, or at the zeros behind a length that is no multiple of the page size. Of a file with a NUL only the bytes in
  front of it are sent, so the announced length is right exactly without one (`FileLengthIsBody`).
- The branch of `parse_line` for a line feed behind a scanned CR, meant for a line cut between the two, is not taken as
  long as reads append (`LateLineFeedUnreachable`). A live read takes it when it has a CRLF across the old place, and
  then completes a line where the cut line did not end (`SecondReadAtCrLf`).
- A body with a negative length is ended in front of its start, which can cut the URL short before it is used (`UrlCut`).
- Where the sum of the completion test leaves the range of `int`, an incomplete body is answered (`ProcessIsInterpret`).
- The listener's saved index can run past the end of the idle list (`IndexStaysValid` says exactly when,
  `IndexRunsPastTheEnd` reaches such a state from a pool with one worker).
- Calls of `Run` at once can pick the same worker. A job is overwritten if and only if a caller locks a worker that
  still has one and then gives its own, which it could see at the lock (`OverwrittenExactly`). A worker whose mutex is
  free stands on the busy list once for each job overwritten at it and once for the job it has; a listed one is idle if
  and only if it has none, so it is on both lists if and only if it has none and one was overwritten at it
  (`ListedExactly`). `JobLostInRace` is such a run. With one call at a time this cannot happen (`OneCallAtATime`).
- A failed write of a response piece leaves its beginning in the buffer, behind the bytes the index accounts for, so
  there the C string in the buffer is longer than the index (`AddResponse`).

## Model

| member | source | states |
|---|---|---|
| CString.AtolOfDecimal | job.cpp:329 | `atol` of a number printed with `%d` is the number |
| CString.DecimalLength | job.cpp:530 | a number below 10^k prints in at most k digits, so response heads have a bounded size |
| CString.NoCaseExactly | job.cpp:210-320 | `strcasecmp` and `strncasecmp` find equal exactly strings that differ at most by a letter of A-Z and the one 32 above it |
| CString.AtolExactly | job.cpp:329 | `atol` gives exactly the number that its argument begins with: white space, a sign or none, digits in their places, saturating at 64 bits |
| CString.NumberOfDecimal | job.cpp:554 | a number printed with `%d` denotes itself, digit by digit |
| HttpSyntax.MethodByName | job.cpp:210-262 | each of the nine methods is recognised by exactly its own name, up to letter case |
| HttpSyntax.CodeByName | job.cpp:210-258 | the code returned for a method token is the one of its name, for all nine |
| HttpSyntax.MethodAnyCase | job.cpp:210-254 | tokens that differ only in letter case are the same method or none |
| HttpSyntax.TargetPathExactly | job.cpp:277-286 | a target has a path if and only if it starts with a slash, and then it is the target, or it is `http://` in any case, something without a slash, and the path from the first slash on |
| HttpSyntax.RequestLineShape | job.cpp:200-291 | a request line is accepted, with its values, if and only if it is a method name, spaces or tabs, a target with that path, spaces or tabs, and `HTTP/1.1`, names and version in any case |
| HttpSyntax.RequestLineAnyCase | job.cpp:210-277 | the letter case of method, scheme and version makes no difference to what is recorded |
| HttpSyntax.HeaderFieldExactly | job.cpp:293-344 | a header line is a Connection, Content-Length or Host field, with its value, or none of them, exactly by its name in any case and what follows the spaces and tabs behind it |
| HttpSyntax.HeaderNameAnyCase | job.cpp:316-331 | the letter case of a field name makes no difference |
| HttpSyntax.ConnectionLine | job.cpp:316-323 | a Connection line asks to keep the connection exactly if its value is `keep-alive` in any case |
| HttpSyntax.HeadersSummary | job.cpp:316-335 | over any header lines the last Content-Length and the last Host win, and any keep-alive line sets the flag |
| Framing.ScanAppend | job.cpp:132-166 | the verdict on a line, and the bytes scanned, survive more input |
| Framing.UnlinesOfSplit | job.cpp:132-166 | joining the delivered lines with CRLF gives back the consumed bytes |
| Framing.SplitOfUnlines | job.cpp:132-166 | lines without CR and LF, joined with CRLF, are delivered as they were, followed by the lines of what comes after |
| RequestMachine.LinesDelivered | job.cpp:364-368 | repeated scans deliver exactly the lines of the split, each from behind the ones before, and stop after the last |
| RequestMachine.Take | job.cpp:364-413 | one turn of the loop keeps start <= checked <= read and no CR or LF between start and checked, moves neither index back, and lowers the measure |
| RequestMachine.Loop | job.cpp:358-417 | the loop ends, keeps these bounds, and answers only with the recorded URL |
| RequestMachine.ProcessTwice | job.cpp:358-417 | calling `process_read` again without new bytes changes nothing before the body |
| RequestMachine.ProcessAppend | job.cpp:358-417 | before a body, stopping for more bytes and resuming is the same as having had them from the start |
| RequestMachine.ChunkIndependence | job.cpp:358-417 | when no body is reached, any split into reads gives the first answer and all recorded fields of one call on the whole input |
| RequestMachine.ProcessIsInterpret | job.cpp:358-417 | the resumable parser computes the simple reading of the whole input: always the fields, and the outcome exactly unless the 32-bit completion test overflows; also where the scan stands and where the body begins |
| RequestMachine.HeaderRun | job.cpp:382-397 | the header phase folds the lines up to the first empty one and then goes to the body or answers |
| RequestMachine.BodyIncomplete | job.cpp:346-413 | while the announced body is not there, its bytes are scanned for lines, how far, and there is no answer unless the test overflows |
| RequestMachine.BodyCall | job.cpp:346-413 | a call in the body answers if and only if the body is complete counted from where the scan stands |
| RequestMachine.NextRequestGetsOldUrl | job.cpp:358-417 | if reads append: until `init`, what arrives after an accepted request line is answered with the URL of that line or not at all |
| RequestMachine.SecondRequestGetsFirstAnswer | job.cpp:466-471 | if reads append: on a connection that is not reset, a second request gets the first one's answer or none |
| RequestMachine.BadLineNeverAnswered | job.cpp:151-161 | if reads append: after a CR or LF that ends no line there is no answer |
| BodyReads.ConsumedAppend | job.cpp:346-413 | the scan over a body resumes where it stopped: later bytes are scanned as if they had been there |
| BodyReads.BodyInReads | job.cpp:346-413 | a request with a body, in any reads, is answered if and only if some read completes the body counted from where the scan over the earlier ones stands; and exactly when that is the answer of a single read |
| BodyReads.CompletesPlainly | job.cpp:348 | without overflow, a read completes the body if and only if what arrived of it is as long as the body and what the scan passed over together |
| BodyReads.BodyInTwoReads | job.cpp:346-413 | the case of a body cut in two |
| BodyReads.BodyAfterHead | job.cpp:346-413 | the case of a head and a body in two reads or one |
| ReadBuffer.LiveReadAppends | http_conn.h:60-64 | storing a read at the start of the buffer is appending it exactly for the first read, or an empty one |
| ReadBuffer.TokensKept | job.cpp:364-414 | changes at or behind the limit leave the URL, version and host strings as they were |
| ReadBuffer.LateLineFeedUnreachable | job.cpp:153-160 | where the buffer holds what was received, a line feed behind a scanned CR does not occur |
| ReadBuffer.ScanOfBuffer | job.cpp:132-166 | scanning the buffer gives the verdict and the stop of scanning the input |
| ReadBuffer.LineTerminated | job.cpp:146-148 | ending a line in place leaves it readable as a C string and everything not yet scanned as it was |
| ReadBuffer.LineDoneAgrees | job.cpp:364-368 | whatever the buffer held, after a completed line the rest of the input and the strings at the pointers are what stands there, and end in front of the next line |
| ReadBuffer.BufferLoopIsLoop | job.cpp:358-417 | where the buffer holds what was received, the loop on the buffer is the loop on the input |
| ReadBuffer.UrlCut | job.cpp:350 | a terminator in front of the body cuts the URL exactly if it falls into it |
| ReadBuffer.RealFile | job.cpp:421-423 | the looked-up path starts with the document root and fits the path buffer |
| ReadBuffer.RealFileExactly | job.cpp:421-423 | the looked-up path is the document root of the source followed by the first 178 bytes of the URL |
| LiveReads.LiveScan | tcpeventserver.cpp:172-192 | any later live read: exactly when a line completes, where the scan stops otherwise, and what the buffer then holds |
| LiveReads.LiveRead | tcpeventserver.cpp:172-192 | which line that is, which strings the three pointers then denote, and how the call goes on from there; without a line there is no answer |
| LiveReads.ShortRead | tcpeventserver.cpp:172-192 | a live read that stays in front of the scan gives no answer if everything received was scanned; if not, only the bytes left there, or a carriage return put just in front of them, can complete a line |
| LiveReads.LeftoverAnswered | tcpeventserver.cpp:172-192 | where an empty line was left behind an answered request, every such read is answered, with what stands at the old place of the URL |
| LiveReads.SecondReadAtCrLf | job.cpp:153-160 | a live read with a CRLF across the old place takes the branch for a late line feed and is answered with what stands at the old place of the URL |
| LiveReads.OtherUrlAnswered | job.cpp:153-160 | a second request that is answered with the rest of its own request line |
| LiveReads.BadLineReplaced | job.cpp:151-161 | whatever live read puts a good request line where the line begins, it is accepted, also over a bad line |
| LiveReads.LiveBodyRead | job.cpp:346-355 | in the body a live read of any length is counted by its length from where the scan stands, exactly when there is an answer, and the URL is read where it has been overwritten |
| Job.Job.constructor | job.cpp:54-59 | a fresh parser has received nothing; its buffers have the sizes of the source |
| Job.Job.Init | job.cpp:113-130 | from any state, `init` gives a parser that has received nothing, with both buffers zeroed |
| Job.Job.Read | job.cpp:179-194 | a read behind the bytes already there appends to the input and keeps all recorded strings |
| Job.Job.GetReadBuffer | http_conn.h:60-64 | in any state the live read overlays the start of the buffer; as the first read after `init` it appends |
| Job.Job.ParseLine | job.cpp:132-166 | verdict, index and buffer after a scan, for every buffer and index, all four ways to stop |
| Job.Job.GetLine | job.cpp:364-368 | on any buffer: a completed line is a C string in the buffer, and everything agrees again behind it; otherwise only the scan moved |
| Job.Job.EndToken | job.cpp:202-207 | the token and what follows the blanks are two C strings; nothing else in the buffer changed |
| Job.Job.TakePath | job.cpp:277-286 | moving the pointer over scheme and authority succeeds if and only if the target has a path, and then points to it |
| Job.Job.TakeTarget | job.cpp:264-286 | target and version are accepted exactly as specified, and the pointers denote them |
| Job.Job.ParseRequestLine | job.cpp:200-291 | a good request line is recorded as specified and the strings stand in the buffer; a bad one gives BAD_REQUEST and leaves the parser at its request line |
| Job.Job.FieldValue | job.cpp:318-334 | the pointer behind a field name and its blanks denotes the value |
| Job.Job.EndHeaders | job.cpp:295-315 | the blank line moves to the body if and only if the method is neither GET nor HEAD and the length is not zero |
| Job.Job.ParseHeaders | job.cpp:293-344 | a header line changes the recorded fields as specified and nothing else |
| Job.Job.ParseContent | job.cpp:346-355 | the completion test in 32-bit arithmetic, and the terminator it writes |
| Job.Job.CopyPath | job.cpp:421-423 | the two copies leave the document root and the URL, cut to what fits, as a C string in the path buffer |
| Job.Job.DoRequest | job.cpp:419-443 | not found, forbidden, bad request or file is answered if and only if the path is missing, unreadable, a directory or a regular file, and the address of a mapped file is stored exactly then |
| Job.Job.HandleHeader | job.cpp:382-398 | a header line is a turn of the machine, and the empty one may end the call |
| Job.Job.HandleContent | job.cpp:399-409 | in the body the call ends exactly if it is complete, and the URL is read after the terminator was written |
| Job.Job.HandleLine | job.cpp:371-413 | one completed line, in each of the three states, is one turn of the machine; in the body the URL is read after the terminator was written |
| Job.Job.NextText | job.cpp:364-368 | the loop condition: no text only where the call's result is to wait, otherwise a text on the way to that result |
| Job.Job.Turn | job.cpp:364-413 | a turn of the loop comes closer to the call's result, ends with it, and stores a file's address only with it |
| Job.Job.ProcessRead | job.cpp:358-417 | on any buffer the call gives the outcome and the state of the loop on that buffer; where reads have been appended, of the machine; the address of a file is stored exactly with the answer of a file |
| RoundTrip.FieldRoundTrip | job.cpp:316-335 | a printed Connection, Content-Length or Host line reads back as itself |
| RoundTrip.TargetRoundTrip | job.cpp:277-286 | origin-form and absolute-form targets read back as their path |
| RoundTrip.StartLineRoundTrip | job.cpp:200-291 | a printed request line reads back for all nine methods |
| RoundTrip.MeaningIs | job.cpp:200-344 | a printed message means its method, path and version, its last Host and last Content-Length, and keep-alive if any field asks for it |
| RoundTrip.RequestRoundTrip | job.cpp:200-417 | every printed request, with any fields in any order, is understood as the message; for the seven methods but GET and HEAD, unless the last length is zero, a body is awaited and framed by that length |
| RoundTrip.PrintedRequestInReads | job.cpp:358-417 | a printed request without a body is understood in however many reads it arrives |
| RoundTrip.BodyByteByByte | job.cpp:346-413 | a two-byte body sent byte by byte is never answered, in one read it is |
| Reply.Reply.constructor | job.cpp:113-130 | a fresh response buffer is empty, and of the source's size |
| Reply.Reply.Init | job.cpp:113-130 | from any state, `init` gives an empty response buffer |
| Reply.Reply.AddResponse | job.cpp:522-538 | from any state a piece is accepted exactly when it fits; the index moves by the whole piece or not at all; the buffer stays NUL-terminated, and what stands in it |
| Reply.Reply.AddStatusLine | job.cpp:540-543 | the status line is offered as one piece |
| Reply.Reply.AddContentLength | job.cpp:552-555 | the length line is offered as one piece |
| Reply.Reply.AddLinger | job.cpp:557-560 | the connection line is offered as one piece |
| Reply.Reply.AddBlankLine | job.cpp:562-565 | the blank line is offered, and accepted exactly when it fits |
| Reply.Reply.AddContent | job.cpp:567-570 | the body is offered, and accepted exactly when it fits |
| Reply.Reply.AddHeaders | job.cpp:545-550 | the three header pieces are offered in order, and what then stands in the buffer |
| Reply.Reply.ProcessWrite | job.cpp:572-678 | from any buffer: status line, headers and body are offered behind what is there, and what then stands in it; an error succeeds exactly when its body fits, a file always, an empty file and other codes never; from an empty buffer each of the four errors is there whole |
| Reply.Reply.Sent | job.cpp:456 | what the first write sends is the C string in the buffer |
| Reply.OfferAllFit | job.cpp:522-538 | pieces that fit together are all accepted, in order |
| Reply.ReplyFits | job.cpp:572-620 | status line, headers, blank line and body of every response together fit the buffer |
| Reply.ResponseFits | job.cpp:572-620 | an error response that fits is accepted whole behind what is there |
| Reply.HeadShownFits | job.cpp:628-637 | the head for a file that fits stands whole behind what is there |
| Reply.HeadReadsBack | job.cpp:545-565 | a printed response head comes back through the line splitter and the header fold with its length and keep-alive choice |
| Reply.ErrorLengthIsBody | job.cpp:572-620 | in every error response the announced length is the number of bytes behind the blank line |
| Reply.FileLengthIsBody | job.cpp:456-457 | in the response with a file the announced length is the number of bytes behind the blank line if and only if the file has no NUL |
| Reply.Wire400 | job.cpp:591-600 | the response, line by line as sent: `HTTP/1.1 400 Bad Request`, the length of its text, the connection line, the empty line, and the source's text |
| Reply.Wire403 | job.cpp:611-620 | the response, line by line as sent: `HTTP/1.1 403 Forbidden`, the length of its text, the connection line, the empty line, and the source's text |
| Reply.Wire404 | job.cpp:601-610 | the response, line by line as sent: `HTTP/1.1 404 Not Found`, the length of its text, the connection line, the empty line, and the source's text |
| Reply.Wire500 | job.cpp:581-590 | the response, line by line as sent: `HTTP/1.1 500 Internal Error`, the length of its text, the connection line, the empty line, and the source's text |
| Reply.Wire200 | job.cpp:628-637 | the response with a file: `HTTP/1.1 200 OK`, the length in decimal, the connection line, the empty line, and the file in front of its first NUL |
| Server.ReadAndProcess | job.cpp:680-687 | an appended read and `process_read` are one step of the machine |
| Server.Serve | job.cpp:680-687 | a fresh parser on the buffer, called after each appended read: without a body the answer of the whole input, with one an answer if and only if some read completes it |
| Server.ReadEvent | tcpeventserver.cpp:172-192 | in any state, a live read and `process_read` give the result of the loop on what then stands in the buffer |
| Server.Write | job.cpp:454-472 | the write buffer and the mapped file are sent up to their first NUL; defined if and only if a file is mapped in which `strlen` stops; afterwards none is mapped, and with keep-alive the connection starts over |
| Server.StopsExactly | job.cpp:457 | `strlen` stops inside the mapping if and only if the file has a NUL or its length is no multiple of the page size, and what is sent is the file in front of its first NUL |
| Server.SendReply | job.cpp:689-697 | what is sent behind the earlier replies, exactly when the connection is closed instead, and exactly when this is defined |
| Server.SentBehind | job.cpp:454-472 | the next reply on a connection that was not reset is sent after all earlier ones; when the body of an error cannot fit, the connection is closed; for an error this is `write` with its undefined call skipped |
| Server.RunJob | job.cpp:680-698 | one call of `process` in any state: exactly when it is defined, what is sent, whether the connection starts over, exactly when it is closed, and what is kept otherwise; for an error code as if the undefined call were skipped |
| Server.ReplyOnTheWire | job.cpp:419-678 | a request whose path is missing, unreadable, a directory or a file is answered with exactly the 404, 403, 400 or 200 response |
| Server.Answer | job.cpp:680-698 | a keep-alive request in any appended reads, or in one live read: nothing is sent before its last byte, then exactly the response, and exactly when the calls are defined |
| Server.Converse | job.cpp:680-698 | any number of such requests send exactly their responses one after the other and leave the connection as at the start; defined if and only if each finds a file in which `strlen` stops |
| Pools.PartitionMoved | threadpool.cpp:197-210 | appending to one list and erasing from the other keeps the partition |
| JobPoolSpec.GrowthIsPlain | threadpool.cpp:298-304 | the unsigned growth formulas never wrap and create what the plain numbers say |
| JobPoolSpec.SomeoneIdle | threadpool.cpp:154-171 | below the maximum of busy workers there is an idle worker after growth, so the wait loop is not entered |
| JobPoolSpec.DispatchStep | threadpool.cpp:291-318 | `Run` keeps the invariant, gives the job to the first in line, and leaves the others in line |
| JobPoolSpec.FinishStep | threadpool.cpp:373-383 | a finished worker joins the end of the line, and past the high mark the last `init` of the line stay, itself among them |
| JobPoolSpec.TrimStep | threadpool.cpp:264-289 | a trim removes the front of the line from both lists and the counter, nothing else |
| JobPoolRuns.StepKeepsRunInv | threadpool.cpp:291-383 | every step keeps sizes, partition, jobs and order |
| JobPoolRuns.PoolSizes | threadpool.cpp:291-383 | in every reachable state: no duplicates, idle and busy disjoint and together all workers, jobs exactly on busy workers, init <= all <= max, idle <= high, counter equals idle |
| JobPoolRuns.JobsExactlyOnce | threadpool.cpp:363-395 | in every reachable state each job given to `Run` is on one busy worker or was executed once |
| JobPoolRuns.OldestIdleFirst | threadpool.cpp:162 | dispatch takes the worker that has been idle longest |
| JobPoolRuns.TrimKeepsNewest | threadpool.cpp:268-282 | a trim keeps exactly the `init` most recently idle, in order, the caller last |
| JobPool.ThreadPool.constructor | threadpool.cpp:68-87 | a new pool has `init` workers, all idle |
| JobPool.ThreadPool.AppendToIdleList | threadpool.cpp:189-195 | the worker is appended to the idle list and to the list of all |
| JobPool.ThreadPool.MoveToBusyList | threadpool.cpp:197-210 | the lists and the counter as the machine's move |
| JobPool.ThreadPool.MoveToIdleList | threadpool.cpp:212-228 | the lists and the counter as the machine's move |
| JobPool.ThreadPool.CreateIdleThread | threadpool.cpp:247-262 | as many new idle workers as asked for, none for a negative number |
| JobPool.ThreadPool.DeleteIdleThread | threadpool.cpp:264-289 | the loop removes the front of the idle list that often, from both lists |
| JobPool.ThreadPool.SetJob | threadpool.cpp:387-395 | the worker holds the job, every other worker what it held |
| JobPool.ThreadPool.ExecuteJob | threadpool.cpp:374-377 | the job executed is the one held, and is given up |
| JobPool.ThreadPool.Run | threadpool.cpp:291-318 | the class refines Dispatch, after the turn of a worker if all were busy, and stays valid |
| JobPool.ThreadPool.WorkerTurn | threadpool.cpp:372-383 | the class refines Finish, executes the job held, and stays valid |
| ConnQueue.ConnQueue.constructor | http_conn.cpp:15-23 | an empty queue, well linked |
| ConnQueue.ConnQueue.InsertConn | http_conn.cpp:37-54 | a new connection becomes the first of the queue, links stay mutually inverse; a full queue refuses and is unchanged |
| ConnQueue.ConnQueue.DeleteConn | http_conn.cpp:64-71 | exactly that connection leaves the queue, links stay mutually inverse, the counter stays the length |
| ConnQueue.ConnQueue.Destroy | http_conn.cpp:25-35 | following the links deletes every node once, sentinels included, in order |
| ConnQueue.ConnQueue.TraversalsAgree | http_conn.cpp:15-71 | following the links forward from the head gives all nodes and ends, and backward from the tail the reverse |
| ConnPoolSpec.InsertedStep | http_conn.cpp:37-57 | an insertion for an idle worker is never refused, and leaves an idle worker |
| ConnPoolSpec.LastPlaceIsCount | http_conn.cpp:58-59 | the test for a spare worker is true exactly when n*2000-1 connections are open |
| ConnPoolSpec.AcceptStep | http_conn.cpp:37-62 | accepting keeps the invariant, touches one queue, and adds a worker exactly at n*2000-1 open connections |
| ConnPoolSpec.CloseStep | threadpool.cpp:173-187 | closing keeps the invariant, removes that connection, adds no worker, and leaves the worker idle |
| ConnPoolSpec.GrowthNeedsLoad | http_conn.cpp:55-59 | over any run, n workers more than at the start imply a peak of at least (n-1)*2000-1 open connections; open connections are accepted minus closed |
| ConnPoolSpec.SpareCapacity | http_conn.cpp:37-62 | in every reachable state there is an idle worker, a single one has two free places, busy is exactly full, the queues hold the open connections, the counter counts the idle |
| ConnPool.ThreadPool.constructor | threadpool.cpp:113-135 | a new pool has that many idle workers with empty, separate queues |
| ConnPool.ThreadPool.MoveToBusyList | threadpool.cpp:197-210 | the lists and the counter as the machine's move, queues untouched |
| ConnPool.ThreadPool.MoveToIdleList | threadpool.cpp:212-228 | the lists and the counter as the machine's move, queues untouched |
| ConnPool.ThreadPool.CreateMainIdleThread | threadpool.cpp:230-245 | one more idle worker, with an empty queue of its own |
| ConnPool.ThreadPool.AppendToIdleList | threadpool.cpp:189-195 | the worker is appended to both lists and its queue stays separate |
| ConnPool.ThreadPool.InsertConn | http_conn.cpp:37-62 | on the linked queues: never refused, and the pool becomes what Accept says, with or without a spare worker |
| ConnPool.ThreadPool.Insert | http_conn.cpp:40-50 | the connection goes into one worker's queue, every other queue keeps its connections |
| ConnPool.ThreadPool.Delete | http_conn.cpp:64-71 | the connection leaves one worker's queue, every other queue keeps its connections |
| ConnPool.ThreadPool.CheckIfInBusyList | threadpool.cpp:173-187 | on the linked queues: the pool becomes what Close says |
| Listener.TcpEventServer.ListenerEventCb | tcpeventserver.cpp:101-134 | which worker is chosen, when the index is out of range, and the index saved for the next time; the runs below use the same function |
| Listener.IndexStaysValid | tcpeventserver.cpp:112-132 | the saved index stays valid at every close, and at an arrival exactly unless the list shrinks just below it |
| Listener.RoundRobin | tcpeventserver.cpp:112-132 | while the idle list stays the same, two arrivals meet the same worker exactly when the turns between them are a multiple of the list's length |
| Listener.IndexRunsPastTheEnd | tcpeventserver.cpp:112-132 | from one worker, 2000 arrivals leave a single idle worker and the saved index 1 |
| FineLocks.StepKeeps | threadpool.cpp:189-383 | every single locked section keeps the invariant, for any callers and workers in any order |
| FineLocks.NeverLost | threadpool.cpp:197-383 | in every interleaving every listed worker is idle or busy, and a worker with a job is busy and not idle, out of reach of a trim |
| FineLocks.JobsAccountedFor | threadpool.cpp:291-395 | in every interleaving each job handed to `Run` has exactly one fate: in hand, waiting, executed, overwritten or dropped |
| FineLocks.OneCallAtATime | threadpool.cpp:291-395 | with calls one at a time no job is overwritten, and a worker whose mutex is free is busy exactly when it has a job, idle otherwise |
| FineLocks.HeldJobStays | threadpool.cpp:309-316 | while a caller holds a worker's mutex and has not given its job, the worker's job stays as it is, whatever the others do |
| FineLocks.OverwrittenExactly | threadpool.cpp:309-316 | in every interleaving the overwritten jobs are exactly those that callers found when they had locked a worker and then gave their own; none is overwritten if and only if no caller does so |
| FineLocks.RunsOn | threadpool.cpp:306-317 | the sections of `Run` after the pick, uninterrupted, hand over the job and move the worker |
| FineLocks.TurnsOnce | threadpool.cpp:368-383 | the sections of a worker's turn, uninterrupted and without a trim, run the job and move the worker back |
| FineLocks.JobLostInRace | threadpool.cpp:154-171 | two calls that pick the same worker: one job never runs, and the worker ends on both lists; when this happens is what ListedExactly says |
| FineListing.RunCounts | threadpool.cpp:197-228 | over any run a worker stands on the busy list once for its job, once for one it has just run, once for a caller that moved it and has not given its job, and once for each job overwritten at it |
| FineListing.RunAccounts | threadpool.cpp:197-228 | over any run a listed worker that is not idle has a job, has just run one, or is in the hand of a caller that took it off the idle list |
| FineListing.ListedExactly | threadpool.cpp:197-228 | in every interleaving a worker whose mutex is free is on the busy list as often as jobs were overwritten at it, and once more if it has one; listed, it is idle exactly if it has none, and on both lists exactly if it has none and one was overwritten |
| FineToCoarse.DispatchInSections | threadpool.cpp:291-318 | from a quiet state, the sections of a call of `Run` in a row are the coarse step Dispatch |
| FineToCoarse.FinishInSections | threadpool.cpp:368-383 | from a quiet state, the sections of a worker's turn in a row, with its trim, are the coarse step Finish |

## Left out

- ParseContent: where the terminator of a body falls outside the buffer, which is undefined in the source, nothing is
  written here. The sum in the completion test wraps in 32 bits; in the source signed overflow is undefined.
- ReadBuffer.ProcessBuffer: a C string that no NUL in the buffer ends is taken to end with the buffer; the source would
  read on behind it. This needs a buffer that is full.
- DoRequest: `stat` is a parameter that says whether a path is missing, unreadable, a directory or a file. Of `mmap`
  only that it stores an address is modelled, not that it can fail; `open` and `close` are left out.
- ProcessWrite: the calls on event buffers in the file branch are not modelled; file sizes are those that an `int` holds.
- Write: where `strlen` gets an unset or null pointer, which is undefined, the bytes, the state and the restart are those
  without that call. The page size is taken to be 4096, and a mapped file to end in zeros up to its last page's end.
- SendReply: for an error code the claims about sending and restarting pass over that undefined call. When `process_write`
  fails, the source goes on to use the deleted connection, and nothing is claimed about what it sends.
- SentBehind: as SendReply, for an error code.
- RunJob: as SendReply, for an error code and for an empty file.
- Answer: as SendReply, for a request that does not find a file; several reads of one request are appended ones.
- Converse: as Answer, for each of its requests.
- Serve: reads are appended, as the parser expects; later reads of the live callback are those of ReadEvent.
- Read: the read loop is commented out in the source; the model requires that the chunk fits the buffer.
- GetReadBuffer: the source does not check that a read fits the buffer; the model requires it.
- Run: the wait for a busy worker has no predicate under its lock; the model lets it end with the turn of a worker, which
  is when the source signals. Creating a thread succeeds.
- ListenerEventCb: handing the connection through a pipe is left out, so in runs the choice and the insertion are one
  step. `ThreadProcess` and `CloseEventCb` appear only as these steps.
- CheckIfInBusyList: the worker moves back before the connection leaves its queue, so between the two an idle worker
  is full; the steps do not show that moment.
- NeverLost: a trim that finds the idle list empty reads an unset pointer in the source; here it leaves the lists alone.
  The counter `m_AvailNum`, which is changed under three different mutexes, is not part of the fine-grained model.
- DispatchInSections: only the sections of one call without interruption are related to the coarse machine. The fine
  machine lets a call create any number of workers and a trim remove any number, since the source reads the sizes without
  a lock, so that a run of it with other sections in between need not be a run of Dispatch and Finish.
- FinishInSections: as DispatchInSections, for a turn of a worker.
- Condition variables, wakeups, and thread states: no liveness is claimed. The thread of a trimmed worker keeps running
  in the source; the model only follows the lists.
- Sockets, event loops, timers, signals, printing, `pthread_create` and `pthread_cancel`.
- Teardown: `TerminateAll`, destructors of workers and pools, `StopRun`, and the second `close_conn` of `process`.
- `mysqlpool.cpp` and `mysql_cpp.cpp`: a pool of database connections over a client library, which the build leaves out.
- `threadmanage.cpp`: hands calls on to one of the two pools. The nginx module forwards requests to an upstream server.
- `atol` saturates at the bounds of `long`, as the C library does; locale and encodings are those of plain bytes.
