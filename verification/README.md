# Verification of libtelegram's transport stack

libtelegram sends every request of a bot through `include/httplib.h`, receives updates by long polling, and carries
two further HTTP components: urdl's client and Boost.CGI's pipe connection. This project models the parts of them that
hold the most state and branching, and proves what they keep over every input, every run and every interleaving.

A `char` stands for one byte. Sockets, servers, content providers and receivers are oracles: they may cut data
anywhere, fail at any time, and answer in any way. Objects whose methods update fields are classes, loops are loops, and
each such method is proved against a specification function whose properties are proved as lemmas. The protocols
between threads are step systems; what is proved of them holds in every interleaving.

| file | component |
|---|---|
| `MultipartSpec`, `MultipartSlices`, `MultipartRoundTrip`, `MultipartParser`, `Disposition` | the multipart push parser, its printers, the Content-Disposition line |
| `MultipartExact`, `MultipartRestart`, `MultipartServer` | exactly which printed bodies, which first slices and which sizes get through |
| `DispositionGrammar`, `MultipartHeaders` | exactly which header lines of a part are read |
| `MultipartProvider` | the closure that streams a multipart body |
| `Streams`, `Chunked`, `ChunkedWriter`, `ChunkedRoundTrip`, `ChunkedGrammar` | the buffered socket, the line reader, chunked transfer coding in both directions, and exactly which streams are accepted |
| `EndToEnd` | one streamed body from the provider to the parser |
| `ClientSocket`, `ClientRetry` | who may close the client's socket; redirects, challenges and retries |
| `ThreadPool`, `PipeWorker` | two worker protocols with condition variables |
| `Poll`, `PollFlags` | the long-poll listener with its server; the stop flags of several listeners |
| `HostMatch`, `HttpHeaders` | urdl's certificate name matcher and header machine |
| `UrlCodec`, `QueryString`, `Base64`, `Ranges`, `PathCheck` | codecs, the single-range cut, the path check |
| `Text`, `Decimal`, `Wrappers` | searches and comparisons on strings, decimal numbers, `Option` |

## What turned out

Some natural statements are false of the code. The code is modelled as it is, and each such statement is proved with
its exact condition, or shown to fail on a concrete run.

- Slices: a body is read back exactly when its first slice holds the whole first boundary line; a shorter one is thrown
  away, and no later boundary line makes up for it (`FirstSliceMustHoldBoundary`). An epilogue in a later slice than the
  closing delimiter leaves the finished parser as it was only when it is empty or begins with another `--` and line end
  (`LateEpilogue`); a caller notices it exactly when it begins with a line end and what follows is more than whole header
  lines (`LateEpilogueNoticed`).
- The printers escape nothing: a printed body is read back exactly when no name or file name has a line break or a quote
  that can end it early, disposition lines are within the limit, content types are trimmed single lines, and no content
  holds the delimiter (`PrintedReadsBackExactly`, `ReadsBackExactly`, `QuotedNameIsMisread`). A body printed for no items
  is never valid (`ParsePrintedEmpty`).
- An empty chunk write at the end of a call ends the writer without a terminator; content and trailers get through
  exactly when no call ends so (`WriterCompletesExactly`).
- Clearing the pipe worker's flag does not stop an operation for which the worker has looked at the flag already
  (`ReadAfterFlag`); at most that one is performed (`OnlyCommittedAfterFlag`).
- A run of the listener does not confirm what its last poll dispatched; the next run on the same server begins with
  dispatching it again, and repeats nothing else (`Listener.Run`, `NextRunRepeats`).
- A send nested in a stopped request forgets the stop (`NestedSendForgetsStop`); a stop is remembered exactly as long as
  no `send_` begins after it (`FlagMeansStopPending`).
- A job given after the pool's shutdown may be lost (`LateJobIsLost`); no other job is (`ExitedMeansDone`).
- The comment on `stop_all` (include/libtelegram/listeners/poll.h:131-134) says that it stops all listeners. Reading the shared
  flag sets it again, so each call ends one (`StopAllEndsOne`).
- `parse_query_text` drops a repeated pair, so a list reads back exactly when its pairs are distinct
  (`QueryReadsBackExactly`).
- The assertion in `send` that an attempt to be made again has failed holds for every call that begins without an
  error (`Client.Perform`). A caller that passes in the retry error makes it fail exactly when the first attempt, and each
  redirect or authorization that it leads to, sends a body over the socket that is open and alive, and goes well
  (`Client.Send`, `StaleErrorAborts`).

## Model

| member | source | states |
|---|---|---|
| MultipartParser.MultipartFormDataParser.BufFind | include/httplib.h:4175-4196 | the search returns the first occurrence of a pattern in the unread bytes, or their number |
| MultipartParser.MultipartFormDataParser.BufAppend | include/httplib.h:4198-4214 | after moving the unread bytes to the front and growing the buffer, the unread bytes are the old ones followed by the new |
| MultipartParser.MultipartFormDataParser.PreamblePhase | include/httplib.h:4034-4041 | everything before the first boundary line goes, the whole buffer if it holds none; what remains is the line, or too short for one, or malformed |
| MultipartParser.MultipartFormDataParser.HeaderPhase | include/httplib.h:4047-4080 | the header phase is the specified turn: over-long lines, refused callbacks, unknown lines, missing line ends; it uses up bytes whenever it goes on |
| MultipartHeaders.ReadHeaderExact | include/httplib.h:4056-4074 | a header line is read exactly when it is Content-Type in any letter case and a value, which is trimmed, or a line of the disposition grammar, with its name and file name |
| MultipartHeaders.UnknownLineEndsParse | include/httplib.h:4056-4074 | any other line ends the parse: the call fails and the body is invalid |
| MultipartHeaders.FailureInvalidates | include/httplib.h:4050-4104 | a refused callback and an unknown header line leave the body invalid, whatever was read before |
| MultipartParser.MultipartFormDataParser.BodyPhase | include/httplib.h:4082-4104 | the body phase is the specified turn: content up to the delimiter, or all but as many bytes as a delimiter has |
| MultipartParser.MultipartFormDataParser.BoundaryPhase | include/httplib.h:4105-4122 | after a delimiter: next entry, end of the body with the rest dropped, or waiting |
| MultipartParser.MultipartFormDataParser.OneTurn | include/httplib.h:4033-4123 | one pass of the loop is the specified step of the current state |
| MultipartParser.MultipartFormDataParser.Parse | include/httplib.h:4022-4126 | one call on the array buffer does to the object what the specification does to its state, with the same result, and terminates |
| MultipartParser.MultipartFormDataParser.ParseAll | include/httplib.h:4022-4126 | calls on consecutive slices, up to the first that fails |
| MultipartSpec.ReplaySplit | include/httplib.h:4088-4101 | content delivered in two callbacks is, to an appending receiver, the content delivered in one |
| MultipartSlices.BodyTurnResume | include/httplib.h:4082-4104 | a body turn that waits keeps enough bytes to find a delimiter cut by the slice |
| MultipartSlices.Confluence | include/httplib.h:4022-4126 | from any state, parse(a) then parse(b) ends as parse(a + b): same outcome, state, unread bytes, header callbacks and content, for header lines below the limit and no epilogue, and for every receiver that answers by what it has collected and takes the beginnings of what it takes; a refusal comes in both, with at most a longer last content in the whole |
| MultipartSlices.SliceIndependence | include/httplib.h:4022-4126 | under the same conditions any number of slices deliver the same parts with the same outcome as the whole, also when the input is malformed or refused |
| MultipartSlices.LateEpilogue | include/httplib.h:4105-4116 | an epilogue in a later slice leaves the finished parser unchanged exactly when it is empty or begins like a closing delimiter |
| MultipartSlices.LateEpilogueNoticed | include/httplib.h:4105-4116 | with any receiver, the call returns true, the body stays complete and no part appears exactly when the epilogue does not begin with a line end, or has only whole header lines, the first within the limit, behind it |
| MultipartRoundTrip.SerializeFormData | include/httplib.h:4297-4310 | the loop prints the items in order and, if asked, the closing delimiter |
| MultipartRoundTrip.ParsePrinted | include/httplib.h:4022-4126 | a printed body, parsed at once, gives back the items in order and ends valid: unambiguous disposition lines, trimmed content types, single header lines below the limit, contents without the delimiter |
| MultipartRoundTrip.RoundTrip | include/httplib.h:4267-4310 | and so in any slices of which the first holds the first boundary line |
| MultipartRoundTrip.ValidBoundaryHasNoCr | include/httplib.h:4255-4265 | every boundary that passes the character check meets the round trip's condition on boundaries |
| MultipartRoundTrip.BoundaryCharsAre | include/httplib.h:4255-4265 | the characters of a valid boundary: letters, digits, `-` and `_` |
| MultipartRestart.FirstSliceMustHoldBoundary | include/httplib.h:4034-4039 | a sliced body is read back if and only if the first slice holds the whole first boundary line, for every list of items and every later boundary line |
| MultipartRestart.StepAstray | include/httplib.h:4033-4123 | once the beginning of a body was thrown away, every turn of the parser keeps that it has collected something else, that the input is ending before the last item, or that too few bytes are left for the items still missing |
| MultipartServer.ServerIsSteady | include/httplib.h:5582-5598 | the server's own receiver, with its limits on files and on the size of one, is such a receiver as slices do not matter to |
| MultipartServer.ServerReceives | include/httplib.h:5574-5601 | in any slices of which the first holds the first boundary line, the server receives exactly the printed items if there are at most 1024 and none is too large, and refuses the body otherwise |
| MultipartExact.PrintedReadsBackExactly | include/httplib.h:4267-4310 | a printed body that comes at once is read back if and only if for every item the disposition expression finds the printed quotes, its line is within the limit, the content type is a trimmed single line, and the content is free of the delimiter |
| MultipartRoundTrip.ParsePrintedEmpty | include/httplib.h:4105-4122 | the body printed for no items is never found valid |
| Disposition.ReadsBackExactly | include/httplib.h:4026-4028 | the disposition expression reads back a printed name and file name if and only if they hold no line break and no quote from which the rest of the expression matches |
| DispositionGrammar.DispositionExact | include/httplib.h:4026-4028 | for every line: it matches, with this name and file name, if and only if it is the keywords in any letter case, any white space, a quoted name, an optional quoted file name, an optional extended one and white space, and no earlier quote ends the name or the file name |
| DispositionGrammar.ExtendedIsSkipped | include/httplib.h:4026-4028 | fields without quotes are read with any extended file name behind them and any white space between |
| DispositionGrammar.PrintedExtendedIsSkipped | include/httplib.h:4026-4028 | in particular a printed line with `; filename*=` and a value appended |
| Disposition.QuotelessIsUnambiguous | include/httplib.h:4026-4028 | in particular every name and file name without quotes and line breaks |
| Disposition.SomethingIsRead | include/httplib.h:4026-4028 | every printed line without line breaks in its fields is read as some name and file name |
| Disposition.MatchIsOneLine | include/httplib.h:4026-4028 | no name or file name that is read, from any line, holds a line break |
| Disposition.QuotedNameIsMisread | include/httplib.h:4026-4028 | a concrete name with quotes that is read back as another name and a file name |
| MultipartProvider.ContentProvider.Provide | include/httplib.h:6942-6975 | each call of the closure continues the body where the last one left it, gives every provider the number of bytes it has written, has sent the whole body when it reports its end, and fails exactly where a provider fails, with the body sent up to there |
| MultipartProvider.SendOnce | include/httplib.h:3790-3815 | one pass of the chunked writer's loop over the closure keeps the writer's offset equal to the bytes sent |
| MultipartProvider.SendMultipart | include/httplib.h:6936-6976 | over any slicing of provider data into calls and writes, the chunks sent join to the serialized items followed by the provider items with their full contents; when a provider fails, to the body up to there, without a terminator and with the error for a canceled request; it terminates |
| MultipartProvider.StreamedBodyIsReadBack | include/httplib.h:6936-6976 | what was streamed is decoded and parsed back to all parts, whatever the slices |
| EndToEnd.Transfer | include/httplib.h:3783-3882 | unless a connection or a provider fails, the objects together carry a streamed body to the parser unchanged and leave the stream at the next message |
| Streams.SocketStream.Read | include/httplib.h:5024-5068 | each read gives the next bytes in order, at most as many as asked, at least one while there are any; nothing is lost or repeated between the buffer and the socket |
| Streams.SocketStream.ReadAll | include/httplib.h:5024-5068 | the same over any sequence of read sizes |
| Streams.StreamLineReader.GetLine | include/httplib.h:2309-2346 | a line is exactly the bytes through the next LF, or the rest of the stream, whatever the size of the fixed buffer |
| Chunked.ParseHeader | include/httplib.h:3417-3450 | the header field of a line: key, trimmed and decoded value, or none |
| Chunked.ReadContentWithLength | include/httplib.h:3490-3510 | the next bytes of the stream, as many as asked, under any short reads |
| Chunked.ReadContentChunked | include/httplib.h:3543-3595 | the content, trailers and remaining stream depend on the bytes alone, not on how the socket delivers them |
| ChunkedGrammar.AcceptedExactly | include/httplib.h:3543-3595 | a stream is accepted if and only if it begins with lines whose sizes count the data behind them, each followed by a line end, a line with size 0, trailer lines within the limit and an empty line, and the content fits; the content, the trailer fields and the rest are the result |
| ChunkedGrammar.NumberIsRead | include/httplib.h:3556 | a size is white space, a sign, a prefix and digits up to anything else; one that does not fit is the largest, a negative one wraps |
| ChunkedGrammar.NoNumber | include/httplib.h:3556-3559 | a line without a digit in front has no size |
| ChunkedGrammar.NoField | include/httplib.h:3417-3450 | a line without a colon, or with only blanks behind the first one, is no field |
| ChunkedWriter.FromIToHex | include/httplib.h:2016-2024 | the loop prints the number's hexadecimal digits |
| ChunkedWriter.WriteData | include/httplib.h:3694-3702 | all bytes are written, in order, under any short writes, or the connection failed |
| ChunkedWriter.ChunkedSink.Write | include/httplib.h:3790-3816 | a write sends one chunk, nothing when it is empty, and then also ends the loop |
| ChunkedWriter.ChunkedSink.DoneWithTrailer | include/httplib.h:3817-3854 | the end sends the last chunk, the trailers and the blank line |
| ChunkedWriter.WriteContentChunked | include/httplib.h:3783-3882 | the output is that of the actions performed until the sink is done |
| ChunkedRoundTrip.SizeLineRead | include/httplib.h:3553-3564 | every printed chunk size is read back, with any extension behind it |
| ChunkedRoundTrip.HexIs | include/httplib.h:2016-2024 | the notation of sizes, sixteen digits in each place |
| ChunkedRoundTrip.HexDigitIs | include/httplib.h:2017 | and its digits |
| ChunkedRoundTrip.ExtensionsAreIgnored | include/httplib.h:3553-3564 | chunk extensions on the size lines, the last one's too, make no difference to content, trailers and rest |
| ChunkedRoundTrip.FieldParts | include/httplib.h:3417-3450 | a field's value is what stands behind the first colon, trimmed at both ends, and decoded unless the field is Location |
| ChunkedRoundTrip.EncodedFieldIsRead | include/httplib.h:3437-3446 | so every non-empty byte string that is percent coded comes back |
| ChunkedRoundTrip.ChunkedRoundTrip | include/httplib.h:3543-3595 | any pieces, empty ones among them, in any calls none of which ends with an empty one, then one end with trailers: the reader delivers the concatenation and the trailers and stops exactly at the tail; trailer values are trimmed and not empty, and hold no `%` unless the field is Location |
| ChunkedRoundTrip.WriterCompletesExactly | include/httplib.h:3783-3882 | of calls that all succeed, give any pieces and finally end with trailers, the output is decoded to the content and the trailers if and only if no call ends with an empty write |
| ClientSocket.StepKeepsInvariant | include/httplib.h:6370-6457 | every step of every thread keeps: only the holder of the request mutex has frames, the in-flight count is the number of its open `send_` frames, the recorded thread is the holder; and every assertion it executes holds |
| ClientSocket.NoForeignClose | include/httplib.h:6305-6322 | while a request is in flight only the thread that makes it closes the socket |
| ClientSocket.RunsAreSafe | include/httplib.h:6360-6457 | the invariant and all assertions hold in every run of sends, nested sends, retries and stops |
| ClientSocket.FlagMeansStopPending | include/httplib.h:6374-6376 | the close flag says exactly that a request was stopped and no `send_` has begun since |
| ClientSocket.LeaveCloses | include/httplib.h:6431-6446 | leaving `send_` leaves the socket closed exactly when a stop is pending, the connection is not kept, the request failed, or it was closed before |
| ClientSocket.StopClosesAtEnd | include/httplib.h:7468-7489 | after a stop during a request and no later `send_`, the socket is closed once a `send_` has ended |
| ClientSocket.StopCloses | include/httplib.h:7468-7489 | in every run, after any stop: one of an idle client has closed the socket at once, one during a request when no request is in flight any more, and it stays closed until a `send_` finds or makes a connection |
| ClientSocket.NestedSendForgetsStop | include/httplib.h:6376 | a run in which a nested send clears the flag and the socket stays open |
| ClientRetry.Client.Perform | include/httplib.h:6464-6469 | a public call terminates within `Bound` attempts and a nesting of one more than its measure; when it succeeds it returns the response of its last attempt, no redirect it should follow, and an answerable challenge only after this call tried every remaining count of authorizations; it succeeds with exactly the requests of the chain, and the socket as the last reply leaves it, when every attempt goes well, or every one after a first whose SSL peer had gone; it fails only with the socket closed, and with the peer-closed error only after a second attempt |
| ClientRetry.Client.ChainLeads | include/httplib.h:6493-6590 | each request of a chain is the one the response before it calls for, a 303 turning it into a GET without body; the last response calls for none; there are at most as many as the measure allows |
| ClientRetry.Client.RedirectedOnce | include/httplib.h:6532-6590 | a redirect whose new place answers for good makes exactly two requests |
| ClientRetry.Client.AuthorizedOnce | include/httplib.h:6498-6525 | so does a challenge whose answer is final |
| ClientRetry.Client.Send | include/httplib.h:6360-6368 | the same for every nested send; the retry's assertion fails exactly when the caller passed in the retry error and no attempt resets it |
| ClientRetry.StaleErrorAborts | include/httplib.h:6363-6367 | a concrete client, server and request with which that assertion fails |
| ClientRetry.Client.SendOnce | include/httplib.h:6370-6457 | one attempt with all sends nested in it: the request is sent, a success returns the response of the last of them, a chain is made exactly; a failed attempt leaves the socket closed, and a chain at one server leaves it open exactly when the last reply keeps it |
| ClientRetry.Client.Connect | include/httplib.h:6393-6410 | when a connection comes about, and exactly the error left by each way it does not |
| ClientRetry.Client.ProcessRequest | include/httplib.h:6838-6934 | when an exchange succeeds, its response, the error of each failure, and that only a closing response closes the socket |
| ClientRetry.Client.HandleRequest | include/httplib.h:6471-6530 | a final response is returned as it is; a redirect, or an answerable challenge, makes exactly the next request it calls for, with a smaller measure; an error passed in survives exactly when nothing sent resets it |
| ClientRetry.Client.FollowUp | include/httplib.h:6493-6527 | what is done about a response: the redirect first, then the authorization on what came of it |
| ClientRetry.Client.Authorize | include/httplib.h:6497-6527 | an answerable challenge with authorizations left is answered by the same request with one more, whose response is the answer; a failed answer leaves the challenge as the response |
| ClientRetry.Client.Redirect | include/httplib.h:6532-6590 | no redirect left is an error; else the request for the new place is sent, a 303 turned into a GET, with one redirect less, on this client or another, and its response is the answer |
| ClientRetry.BoundBelowPower | include/httplib.h:6360-6368 | the number of attempts is below 3 to the power of the measure plus one |
| ThreadPool.StepKeepsInvariant | include/httplib.h:594-653 | every step keeps: jobs are taken in order; each is queued, held by a worker or done; while a worker sleeps every queued job has its own wake-up; nobody sleeps through the shutdown or exits while earlier jobs are left |
| ThreadPool.RunsKeepInvariant | include/httplib.h:594-653 | hence in every run of any number of workers |
| ThreadPool.QuietMeansEmpty | include/httplib.h:594-601 | no wake-up is lost: when nothing more happens by itself, no job is queued and all are done |
| ThreadPool.ExitedMeansDone | include/httplib.h:603-616 | when all workers have exited, every job given before the shutdown, and every one if none came later, has run |
| ThreadPool.GivenBeforeIsDone | include/httplib.h:603-616 | so every job that was in the list at the shutdown step, or taken before it, has run |
| ThreadPool.ShutdownProgresses | include/httplib.h:603-616 | after the shutdown every step lowers the remaining work |
| ThreadPool.ShutdownNeverSticks | include/httplib.h:603-616 | and some step is possible until all workers have exited |
| ThreadPool.ShutdownEnds | include/httplib.h:603-616 | so the joins return within a bounded number of steps |
| ThreadPool.LateJobIsLost | include/httplib.h:594-601 | a run in which a job given after the shutdown never runs |
| PipeWorker.StepKeepsInvariant | include/boost/cgi/connections/anonymous_pipe.hpp:279-360 | every step of the worker, the callers and the destructor keeps conservation, the order of checks and reads, and that neither a wake-up nor the shutdown is lost, with the flag read and set outside the mutex |
| PipeWorker.PerformedInOrder | include/boost/cgi/connections/anonymous_pipe.hpp:279-360 | in every run operations are performed at most once, each kind in order, each read directly after a locked check that found no write, and none is dropped before the destructor begins |
| PipeWorker.AsleepMeansDone | include/boost/cgi/connections/anonymous_pipe.hpp:183-196 | a worker asleep with no wake-up on its way has performed everything exactly once |
| PipeWorker.OnlyCommittedAfterFlag | include/boost/cgi/connections/anonymous_pipe.hpp:62-74 | once the flag is cleared at most one more operation is performed, the one for which the worker had looked at the flag already, and that one has been when the worker exits |
| PipeWorker.ReadAfterFlag | include/boost/cgi/connections/anonymous_pipe.hpp:333-336 | a run in which a read is performed after the destructor cleared the flag |
| PipeWorker.FlagEndsWork | include/boost/cgi/connections/anonymous_pipe.hpp:62-74 | a worker that finds the flag cleared where it would begin to wait, to work or to read leaves at once; the destructor drops what is queued |
| PipeWorker.ShutdownProgresses | include/boost/cgi/connections/anonymous_pipe.hpp:62-74 | once the flag is cleared every step but a new request brings the worker nearer to its end |
| PipeWorker.ShutdownNeverSticks | include/boost/cgi/connections/anonymous_pipe.hpp:62-74 | until the worker has exited, it or the destructor has a step to make: the join returns |
| PipeWorker.ShutdownEnds | include/boost/cgi/connections/anonymous_pipe.hpp:62-74 | the number of steps after the flag is bounded |
| Poll.Listener.KeepsRunning | include/libtelegram/listeners/poll.h:79 | the guard's result and what it does to the two flags |
| Poll.Listener.DispatchAll | include/libtelegram/listeners/poll.h:86-102 | the entries before an exception are dispatched in order, and the offset is one above the last |
| Poll.Listener.PollOnce | include/libtelegram/listeners/poll.h:80-106 | one poll keeps the listener in step with a server that discards below the offset: it dispatches exactly the next updates, and confirms exactly those of the polls before |
| Poll.Listener.Run | include/libtelegram/listeners/poll.h:58-124 | over a whole run the dispatched updates are the next arrivals without gap or repetition, ids strictly increase, the server has discarded exactly those dispatched before the last poll, and the run ends with the first poll that is stopped or throws |
| Poll.NextRunRepeats | include/libtelegram/listeners/poll.h:58-92 | the next run on the same server first dispatches again what the last poll of this one dispatched, and no other update |
| Poll.Answered | include/libtelegram/listeners/poll.h:90-92 | after a dispatch, the server's answer to the new offset begins with the first undispatched update |
| PollFlags.EachCallEndsOne | include/libtelegram/listeners/poll.h:79 | no call of stop or stop_all ends more than one listener |
| PollFlags.StopAllEndsOne | include/libtelegram/listeners/poll.h:130-135 | one stop_all ends exactly one of the running listeners, so all of them if and only if there is one |
| HostMatch.MatchPattern | include/urdl/detail/handshake.hpp:48-76 | the nested loops and recursive calls find a match if and only if every `*` can be given a run without dots, being reached with host left, and every other character matches but for case; they terminate |
| HostMatch.MatchIsAssignment | include/urdl/detail/handshake.hpp:48-76 | the recursive reading of the match is exactly the existence of such an assignment |
| HostMatch.SameLabels | include/urdl/detail/handshake.hpp:57-60 | pattern and host have equally many dots |
| HttpHeaders.ParseHttpHeaders | include/urdl/detail/parsers.hpp:189-290 | the machine accepts exactly the printed lists of fields, folded lines included, whatever follows; the outputs are the unfolded values of the last field of each name, or the old ones |
| HttpHeaders.PrintedIsAccepted | include/urdl/detail/parsers.hpp:189-290 | every printed list is accepted with the last values |
| HttpHeaders.PrintedLengthIsRead | include/urdl/detail/parsers.hpp:71-72 | a block whose last Content-Length field is a printed number, behind white space and a plus sign and with anything but a digit after it, gives that number |
| HttpHeaders.PrintedSizeIsRead | include/urdl/detail/parsers.hpp:72 | the size read from a printed number with or without a sign |
| HttpHeaders.NoDigitsIsZero | include/urdl/detail/parsers.hpp:72 | a value without a digit in front is 0 |
| HttpHeaders.TokenCharIs | include/urdl/detail/parsers.hpp:29-46 | the characters of a field name: letters, digits and fifteen marks |
| HttpHeaders.AcceptedIsPrinted | include/urdl/detail/parsers.hpp:189-290 | only printed lists are accepted |
| HttpHeaders.CheckAllIsLast | include/urdl/detail/parsers.hpp:58-75 | checking the fields one by one leaves the last value of each name, in any case |
| Text.LowerIs | include/urdl/detail/parsers.hpp:53-56 | comparing without regard to case folds the 26 letters and nothing else |
| Text.SpaceIs | include/httplib.h:2245 | blanks are space and tab; the six characters that regular expressions and number readers skip |
| UrlCodec.FromHexToI | include/httplib.h:1999-2014 | the value of the digits, or failure at the first that is none |
| UrlCodec.HexValueIs | include/httplib.h:1985-1997 | the values of the hexadecimal digits in both letter cases |
| UrlCodec.OnlyHexDigits | include/httplib.h:1985-1997 | no other character has one |
| UrlCodec.DecodeUrlText | include/httplib.h:2192-2227 | the loop decodes units from left to right |
| UrlCodec.DecodeWithoutPercent | include/httplib.h:2218-2223 | text without percent signs keeps its length and characters, but for the pluses that stand for spaces under the plus rule |
| UrlCodec.DecodeHexDigits | include/httplib.h:2196-2216 | four digits behind `%u` give the UTF-8 text of a code, two behind a percent sign a byte |
| UrlCodec.PercentStays | include/httplib.h:2196-2216 | any other percent sign stays as it is |
| UrlCodec.Utf8RoundTrip | include/httplib.h:2026-2050 | a decoder of UTF-8 gives back every code but the surrogates, from as few bytes as possible |
| UrlCodec.EncodeQueryParam | include/httplib.h:2139-2158 | the loop encodes each byte that is not plain |
| UrlCodec.EncodedCharIs | include/httplib.h:2139-2158 | letters, digits and nine marks stay, every other byte is a percent sign and two upper-case digits |
| UrlCodec.EncodedIsSafe | include/httplib.h:2139-2158 | encoded text is printable and holds no character with a meaning of its own in a URL but percent signs |
| UrlCodec.DecodeEncoded | include/httplib.h:2192-2227 | decoding inverts encoding on every byte string, with and without the plus rule |
| UrlCodec.DecodeForm | include/httplib.h:2192-2227 | with the plus rule it also inverts the encoding of forms, where a space is a plus |
| QueryString.TrimRange | include/httplib.h:2247-2256 | the ends of the trimmed text, crossing when there is none |
| QueryString.Split | include/httplib.h:2263-2281 | the trimmed fields that are not empty, in order |
| QueryString.FieldsOfJoined | include/httplib.h:2263-2281 | the fields of pieces joined with delimiters are the pieces, trimmed, without the empty ones |
| QueryString.ParseQueryText | include/httplib.h:3930-3951 | each first occurrence of a field gives its decoded key and last value |
| QueryString.LastValueCounts | include/httplib.h:3938-3944 | of several values in one field the last counts |
| QueryString.ParamsToQueryStr | include/httplib.h:3918-3928 | the loop prints the pairs with separators between them |
| QueryString.QueryRoundTrip | include/httplib.h:3918-3951 | parsing a list of pairs with plain keys and any byte values, printed by this client or as forms do, gives it back without repeated pairs |
| QueryString.QueryReadsBackExactly | include/httplib.h:3930-3934 | and gives it back exactly if and only if no pair is repeated |
| Base64.Base64Encode | include/httplib.h:2060-2086 | with an accumulator that wraps at 32 bits the loops compute the groups of RFC 4648 section 4, of length 4 * ceil(n / 3) |
| Base64.DecodeEncoded | include/httplib.h:2060-2086 | a strict decoder gives every byte string back |
| Base64.WrapKeepsLow | include/httplib.h:2071-2072 | overflow never reaches the bits that are still needed |
| Ranges.ParseRangeHeader | include/httplib.h:3971-4007 | the loop over the split list collects the ranges up to the first that is backwards or does not fit |
| Ranges.MakeRangeHeader | include/httplib.h:4805-4816 | the loop prints the ranges with separators between them |
| Decimal.ShowNatIs | include/httplib.h:4809-4812 | printed bounds are decimal, ten digits in each place |
| Ranges.RangeRoundTrip | include/httplib.h:3971-4007 | a printed non-empty list reads back if and only if every range is valid |
| Ranges.WrittenIsRead | include/httplib.h:3971-4007 | every list of ranges, with any white space behind commas and any digits, is understood exactly when each range fits and is in order, and gives the bounds that were meant |
| Ranges.GetRangeOffsetAndLength | include/httplib.h:4312-4330 | offset and length of a range on a body, with 64-bit sizes, for bounds that cross as well |
| Ranges.ApplyRange | include/httplib.h:5964-5980 | a single range gives exactly the selected bytes, and 416 exactly when the body is not empty and none is selected |
| PathCheck.IsValidPath | include/httplib.h:2102-2137 | a path is valid exactly when resolving its components on a stack never pops an empty one, and exactly when no prefix has more `..` than names |
| PathCheck.ResolveByBalance | include/httplib.h:2113-2128 | the level is the depth of that stack |

## Left out

- Regex engines: the expressions for Content-Disposition and Range are functions that say exactly what a full match of them gives; the Location expression of a redirect is part of the server's answer.
- MultipartSlices.SliceIndependence: about receivers that answer by what they have collected and take every beginning of a content that they take; a receiver that counts its callbacks can tell slices apart. The round trips are about receivers that accept every callback and about the server's own; the parser's methods are specified for any receiver.
- QueryString.ParseQueryText: parameters (and headers) are sequences in the order given; the order in which a multimap keeps its keys is not modelled.
- ChunkedWriter.WriteContentChunked: the compressor is the one that copies.
- ClientRetry.Client.Send: proxies, digest hashing and certificates are not modelled; that credentials exist and that a challenge can be parsed are given, so are the outcomes of connecting, writing and reading.
- ClientRetry.Client.Redirect: a client made for another server is a new object of the same class; its destructor is not modelled.
- ClientSocket.RunsAreSafe: each critical section under the socket mutex is one step; shutting a socket down without closing it has no effect on the state.
- MultipartParser.MultipartFormDataParser.Parse: the callbacks are recorded in a trace, and whether one is accepted is a function of the trace.
- MultipartProvider.SendMultipart: a provider that never finishes keeps the loop going for ever, and one that ends a call other than its last with an empty write ends the writer (`ChunkedRoundTrip.WriterCompletesExactly`); both are outside the contract.
- Poll.Listener.Run: dispatching an update is handing it to the callbacks or to the worker queue. Updates still queued for workers when the run ends are dropped by `context.stop()` (include/libtelegram/listeners/poll.h:109), which the model does not show. Update ids are at least 1 and below the largest `int`.
- HostMatch.MatchPattern: host names without NUL; addresses and the walk over a certificate's names are left out.
- HttpHeaders.ParseHttpHeaders: a content length too large for `int` is undefined in the source and unbounded here. The status line machine of the same file would only add an easier automaton.
- Ranges.ApplyRange: several ranges and the Content-Range field are left out.
- Server routing and file serving, the request wrappers, `sender.h`, the JSON types, Boost.CGI's forms and sessions, urdl's streams: plumbing over what is modelled, or not shown in the source.
- Pipe handles, sockets, time-outs: the outcome of each foreign call is arbitrary.
