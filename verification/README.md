# Verification models for SyncLayer

SyncLayer copies a local PostgreSQL database to a hosted one and answers health requests with an embedded HTTP
engine, cpp-httplib. This project models the parts of both that hold state, branching and arithmetic, and proves what
they are for. The model is written in Dafny 4.11; `dafny verify dfyconfig.toml` checks all of it.

A `std::string` is a Dafny `string` whose characters stand for octets; where the octet range matters (query strings,
base64) it is a precondition. Sizes are natural numbers except where the width matters: payload sums are a 64-bit
newtype, range positions are shown to stay within `ssize_t`, page offsets are a 32-bit newtype, and the base64
accumulator wraps. Environments are adversarial parameters: how octets arrive and leave, what callbacks answer, how
every database statement ends, how threads interleave.

## What is proved

- **Multipart form data** (`FormData*.dfy`, RFC 7578 and RFC 2046 section 5.1.1). The parser is a class with its sliding
  buffer; `Parse` equals a state machine on the unread octets. Chunk independence and the round trip with the serializer
  are theorems about that machine, each with the exact condition under which it holds.
- **Chunked transfer coding** (`Streams`, `LineReader`, `Dechunk`, `ContentReader`, `ChunkWriter`, `ChunkRoundTrip`,
  RFC 9112 section 7.1). Socket buffer, line reader, readers and writer are classes and loops over arbitrary short reads
  and writes; the round trip holds if and only if the payload fits the limit.
- **Byte ranges** (`Range*.dfy`, RFC 9110 sections 14.1.2 to 14.6). From the header to the body that is served: which
  requests are refused, which positions are covered, how long a multipart body is, and when the order of an unstable
  sort is visible.
- **Thread pool and client socket** (`ThreadPool`, `ClientSocket`). Step systems with invariants over all interleavings.
- **Query strings, routes, base64, paths** (`Query*`, `Route*`, `Base64`, `PathCheck`). Loops with round trips or exact
  characterisations.
- **Initial replication** (`Sync*.dfy`, `Replication.dfy`). Paging, batching and retries under any faults; at-least-once
  statements have an exactly-once effect.

## Where the code falls short of what one might expect

- A client that follows redirects and keeps connections alive loses a stop (`ClientSocket.RedirectLosesStop`,
  `ClientSocket.StopHonouredIff`).
- A job enqueued after shutdown began may be accepted and never run (`ThreadPool.LateJobIsLost`,
  `ThreadPool.AllRunIff`).
- Route patterns with a repeated parameter name, which the constructor means to refuse, are accepted, and the later value
  is lost (`RoutePatterns.RepeatedNameLosesValue`, `RoutePatterns.ReadBackIff`). A NUL in a route pattern hides what
  follows it in its fragment (`RoutePatterns.NulEndsComparison`, `RoutePatterns.AcceptsOnlyFilledIff`).
- An empty write ends a chunked body without its end marker (`ChunkRoundTrip.EmptyWriteTruncates`), and no
  reader accepts it. That a missing final line is tolerated is deliberate (`ChunkGrammar.MissingEnd`).
- A suffix range longer than the content is refused, where RFC 9110 section 14.1.2 asks for the whole content
  (`RangeCheck.NormalMeaning`).
- Coalescing ranges with duplicates can depend on the order of an unstable sort (`RangeOrder.SortOrderMatters`,
  `RangeOrder.OrderMattersIff`).
- A content provider answers range requests consistently only with the status 206: with another 2xx status it announces
  the full length and writes the ranges, and with other statuses it meets an assertion on ranges that nobody has checked
  (`RangeResponse.ProviderConsistentIff`).
- Multipart header lines at the limit, and epilogues with text behind a CRLF, are read differently depending on how the
  body arrives (`FormDataPlain.LongLineDependsOnChunks`, `FormDataPlain.EpilogueDependsOnChunks`);
  `FormDataDependence.ChunkIndependentIff` says exactly when.
- One key that cannot be quoted keeps the other rows of its batch from arriving (`SyncTheorems.RowArrivesIff`), and a
  healthy start is never repeated, so that three failures in a row can lose a row for good (`SyncFaults.SurvivesIff`,
  `SyncFaults.FailedStartIsFinal`), although the documentation speaks of retrying.

## Model

| member | source | states |
|---|---|---|
| `Text.SplitPieces` | include/httplib.h:3009-3029 | the separator scan with trimmed, non-empty pieces equals recursive splitting |
| `Text.TrimRange` | include/httplib.h:2960-2969 | the two scans leave exactly the text between its leading and trailing blanks, also when they cross |
| `FieldLine.ParseHeader` | include/httplib.h:4679-4724 | the scan over a header line equals its grammar: field name, colon, blanks, field value |
| `FieldLine.ParseFieldLine` | include/httplib.h:4679-4724 | every valid name and value, printed with colon and blank, is read back as that name and value |
| `FieldLine.ParseFieldMeans` | include/httplib.h:4679-4724 | for all lines: the text before the first colon is the name, the text behind it without blanks around is the value, and a line is a field line if and only if both are valid |
| `FieldLine.TokenCharIff` | include/httplib.h:2698-2704 | token characters are exactly letters, digits and the fifteen listed marks |
| `FieldLine.FieldValueIff` | include/httplib.h:2718-2745 | a value is valid if and only if no octet is a control octet other than tab and no blank is at an end |
| `FieldLine.EqualIgnoringCaseIff` | include/httplib.h:406-433 | two texts are equal through the table if and only if they have the same length and differ at most in the case of ASCII or ISO 8859-1 letters |
| `PartHeader.ApplyLineMeans` | include/httplib.h:5663-5720 | what any part header line does, by its name in any case and its text: type, disposition, or only kept |
| `PartHeader.RecasedLine` | include/httplib.h:5681-5720 | re-casing the name of a line changes neither acceptance nor name, file name and type |
| `FormDataParams.DispositionMeans` | include/httplib.h:5690-5718 | for every list of parameters: accepted if and only if there is a name and an extended file name, if any, is well-formed; first parameter of a name counts, extended file name wins |
| `PartHeader.ParseDispositionParams` | include/httplib.h:5410-5432 | splitting at semicolons and equals signs equals the parameter grammar; repeated pieces count once |
| `PartHeader.StartWithCaseIgnore` | include/httplib.h:5781-5790 | true if and only if the text starts with the other up to the case of letters |
| `FormDataParsing.FormDataParser.Parse` | include/httplib.h:5627-5771 | one call on any chunk, over the sliding buffer, takes the parser to exactly the outcome of the state machine `FormDataSpec.Run` on all unread octets; callbacks may refuse |
| `FormDataParsing.FormDataParser.BufAppend` | include/httplib.h:5845-5861 | compaction, growth and copy-in append the chunk to the unread octets `buf_[spos..epos]` |
| `FormDataParsing.FormDataParser.BufFind` | include/httplib.h:5822-5843 | the first-octet filter search finds the first occurrence, or the buffer size when there is none |
| `FormDataParsing.FormDataParser.HeaderEntry` | include/httplib.h:5661-5722 | one header line changes the part's file information as `ApplyLine` says, or fails |
| `FormDataParsing.FormDataParser.ParseBody` | include/httplib.h:5727-5750 | no octet of a delimiter that may still come is handed to the content callback |
| `FormDataSpec.HeldBack` | include/httplib.h:5727-5750 | inside a part no more than the length of the delimiter stays in the buffer |
| `FormDataGrammar.BodyMeans` | include/httplib.h:5627-5771 | any body of the grammar, with preamble, any header lines and any epilogue: the parts that the lines give one after the other with exactly their contents, up to the first line that is refused or part that is not admitted |
| `FormDataGrammar.BodyMeansInChunks` | include/httplib.h:5627-5771 | the same under every chunking, with nothing or a line end as epilogue |
| `FormDataChunks.SplitRun` | include/httplib.h:5627-5771 | parsing a prefix and then the rest shows the caller the same as parsing both at once |
| `FormDataChunks.ChunkIndependence` | include/httplib.h:5627-5771 | for every way to cut a tame body: same parts, same contents, same return value, same validity |
| `FormDataDependence.ChunkIndependentIff` | include/httplib.h:5627-5771 | all cuts of a body are parsed alike if and only if the body is tame: every header block is refused whole or has lines below the limit, and what follows a CRLF of the epilogue is quiet as headers |
| `FormDataDependence.SeenCut` | include/httplib.h:5627-5771 | for every body that is not tame, a cut that shows the caller something else |
| `FormDataPlain.PlainIsTame` | include/httplib.h:5627-5771 | header lines below the limit, contents without the delimiter, and nothing or a line end as epilogue: such a body is tame |
| `FormDataPlain.LongLineDependsOnChunks` | include/httplib.h:5646-5648 | a complete body whose header line has exactly the limit: valid whole, refused when the last octet of the line comes later |
| `FormDataPlain.EpilogueDependsOnChunks` | include/httplib.h:5750-5766 | a complete body whose epilogue goes on behind a line end: valid whole, refused when the epilogue comes later |
| `FormDataSerializing.Serialize` | include/httplib.h:5937-5950 | the loop over items writes the specified body |
| `FormDataSerializing.ItemBegin` | include/httplib.h:5907-5923 | boundary line and header block of one item, with filename and type only when present |
| `FormDataSerializing.LinesAre` | include/httplib.h:5907-5923 | the two header lines, written out |
| `FormDataHeaders.DispositionApplied` | include/httplib.h:5687-5720 | the disposition line written for an item is read as its name and filename |
| `FormDataRoundTrip.DelimiterBorderFree` | include/httplib.h:5792-5795 | the delimiter has no proper border, so it cannot overlap itself |
| `FormDataRoundTrip.DelimiterAfterContent` | include/httplib.h:5727-5734 | in free content followed by the delimiter the first match is at the end of the content |
| `FormDataRoundTrip.RoundTrip` | include/httplib.h:5907-5950 | any non-empty item list without the delimiter in a content, serialized and parsed under any chunking: valid, and exactly those names, filenames, types and contents |
| `FormDataRoundTrip.RoundTripIff` | include/httplib.h:5907-5950 | parsed whole, items come back exactly if and only if there is an item and no content holds the delimiter |
| `ThreadPool.StepKeeps` | include/httplib.h:871-953 | every step of every thread keeps lock ownership, job accounting, start order, wake-up and exit invariants |
| `ThreadPool.QueuedJobIsServed` | include/httplib.h:916-933 | no lost wake-up: a queued job implies an awake worker or a notification still to be sent, while a worker is left |
| `ThreadPool.JobsConserved` | include/httplib.h:884-895 | in every reachable state accepted jobs are exactly queued, running or finished, start in FIFO order, and the queue bound holds |
| `ThreadPool.AcceptedIff` | include/httplib.h:884-895 | in every reachable state a job is appended if the pool is unbounded or the queue is below the bound, and refused without a trace otherwise |
| `ThreadPool.AllRunWhenJoined` | include/httplib.h:897-910 | when the joins return and nothing was enqueued after shutdown began, every accepted job has run once and in order |
| `ThreadPool.LateJobIsLost` | include/httplib.h:884-910 | for every number of workers and every bound, a run in which a job enqueued after shutdown began is accepted and never run |
| `ThreadPool.EmptyPoolRunsNothing` | include/httplib.h:873-910 | a pool without workers accepts a job and shuts down without running it |
| `ThreadPool.AllRunIff` | include/httplib.h:871-953 | all runs that end with every worker joined have run all accepted jobs if and only if there is a worker and nothing is enqueued after shutdown began |
| `ThreadPool.NotStuck` | include/httplib.h:897-910 | while a worker is not joined, some thread can take a step other than beginning to enqueue |
| `ThreadPool.ShutdownReturns` | include/httplib.h:897-910 | every run of the joining phase has at most as many steps as a count of the work left, which never gets negative, and five for each step of an enqueuing thread; it can only stop with all workers joined |
| `ClientSocket.StepKeeps` | include/httplib.h:8822-8940 | the ownership invariant over all steps of all threads, nested requests and stops included |
| `ClientSocket.AssertionsAndCount` | include/httplib.h:8832-8940 | in every reachable state the next step passes its assertions, and the in-flight count is the nesting depth of the thread that holds the request lock |
| `ClientSocket.ClosedByOwnerOnly` | include/httplib.h:8754-8784 | `close_socket` is called, also for a stale socket that is replaced at once, only while no other thread has a request in flight |
| `ClientSocket.LeaveKeepsOpenIff` | include/httplib.h:8911-8926 | in every reachable state the end of a request leaves the socket open if and only if it was open, the request succeeded, connections are kept alive and no stop came since the last `send_` was entered |
| `ClientSocket.FailureCloses` | include/httplib.h:8911-8926 | in every run a request that fails leaves the socket closed when it ends |
| `ClientSocket.EnterNeedsSocket` | include/httplib.h:8832-8890 | a request is counted and processed if and only if there is an open socket: an old one that is alive or a new connection |
| `ClientSocket.SocketAfter` | include/httplib.h:10498-10519 | a stop closes at once if and only if no request is in flight; a closing response closes; beginning and ending leave the socket alone |
| `ClientSocket.StopCloses` | include/httplib.h:8911-8926 | a stop while requests are in flight leaves the socket closed when the first of them ends, unless another `send_` is entered in between |
| `ClientSocket.RedirectLosesStop` | include/httplib.h:8999-9002 | a run, from stop to the end of the stopped request, in which the redirected request clears the flag and the socket is left open |
| `ClientSocket.StopHonouredIff` | include/httplib.h:10498-10519 | a stop leaves the socket closed when the request that was going on ends, in every run, if and only if redirects are not followed or connections are not kept alive |
| `Streams.SocketStream.Read` | include/httplib.h:7124-7168 | octets returned, then the unread buffer, then the octets still to arrive: always the same stream, for every size and arrival, also across failed waits; a fault is reported once and what comes behind it is read next |
| `LineReader.StreamLineReader.Append` | include/httplib.h:3097-3108 | the visible content grows by the octet, also across the switch from the fixed to the growable buffer |
| `LineReader.StreamLineReader.GetLine` | include/httplib.h:3057-3095 | line, remaining octets and result depend only on the octets to come, not on how they arrive |
| `LineReader.LineIs` | include/httplib.h:3057-3095 | the line ends at its first CRLF |
| `LineReader.LineMeans` | include/httplib.h:3057-3095 | for all octets: up to the first CRLF within 32768 octets, a failure after that many, or all there is at an orderly end |
| `Numbers.FromIToHex` | include/httplib.h:2790-2798 | the digit loop prints the hexadecimal text |
| `Numbers.StrtoulOfHexText` | include/httplib.h:2790-2798 | the printed size is read back, stopping at the first octet that is no digit |
| `Numbers.StrtoulReads` | include/httplib.h:2790-2798 | blanks, sign, prefix and digits are read with the value modulo 64 bits or saturated, up to the first octet that is no digit |
| `Dechunk.DechunkedCapped` | include/httplib.h:4836-4878 | no chunked input, whatever its sizes, yields more than the limit |
| `ChunkGrammar.DechunkedIff` | include/httplib.h:4836-4959 | the reader succeeds if and only if the octets are size lines, with any extensions, each followed by that much data and a CRLF, a last size line and a readable rest, and the payload fits the limit |
| `ChunkGrammar.BodyRead` | include/httplib.h:4836-4959 | and then it delivers exactly the concatenated data and the trailers |
| `ChunkGrammar.MissingEnd` | include/httplib.h:4886-4889 | a body that breaks off behind the last size line is taken for a whole one |
| `ContentReader.ReadContentWithLength` | include/httplib.h:4772-4792 | hands over exactly the announced length, or all there was |
| `ContentReader.ReadContentWithoutLength` | include/httplib.h:4811-4834 | hands over the whole stream, or stops at the limit; success only at an orderly end |
| `ContentReader.ReadContentChunked` | include/httplib.h:4836-4959 | with an accepting receiver exactly the meaning of the octets; with a refusing one an error and a part of it; 64-bit sums never wrap |
| `ContentReader.ReadContent` | include/httplib.h:5021-5075 | in all framings at most the limit reaches the receiver; success, 413 and 400 exactly as the octets mean |
| `ContentReader.FramingOf` | include/httplib.h:2087-2103 | chunked coding, in any case, decides first, then whether there is a length; only digits are one, and what 64 bits cannot hold becomes the largest value |
| `ContentReader.FramingRecased` | include/httplib.h:4961-4964 | the case of the transfer coding does not matter |
| `ContentReader.LimitExact` | include/httplib.h:5021-5075 | a body of exactly the limit is read whole and one octet more is refused |
| `ChunkWriter.OutStream.WriteData` | include/httplib.h:5114-5122 | all of the data, however little each send takes, unless a send fails; then a prefix |
| `ChunkWriter.DataSink.Done` | include/httplib.h:5260-5299 | end marker, trailer fields and final CRLF, or a failure that sticks |
| `ChunkWriter.WriteContentChunked` | include/httplib.h:5225-5322 | succeeds for every schedule of sends that do not fail when the provider agrees and ends and the socket stays writable; if it succeeds without shutdown, the wire holds the text of the provider's calls up to the first after which nothing is available; every failure has its cause |
| `ChunkRoundTrip.SpreadText` | include/httplib.h:5225-5322 | however writes and done are spread over the provider's calls, the text is the same |
| `ChunkRoundTrip.TrailersBack` | include/httplib.h:4931-4956 | up to a hundred valid trailer fields are read back, the announced ones kept in order |
| `ChunkRoundTrip.TooManyTrailersRefused` | include/httplib.h:4937-4939 | more than a hundred announced trailer fields are refused |
| `ChunkRoundTrip.LongTrailerRefused` | include/httplib.h:4932-4934 | a trailer line of more than 8192 octets is refused |
| `ChunkRoundTrip.EmptyWriteTruncates` | include/httplib.h:5232-5240 | an empty write without `done` ends the body without its end marker: the writer succeeds, and no reader accepts the octets |
| `ChunkRoundTrip.RoundTrip` | include/httplib.h:4836-4959 | what was written is read back as the concatenated writes if and only if it fits the limit; otherwise the writes that fit, and PayloadTooLarge |
| `ChunkRoundTrip.Exchange` | include/httplib.h:5225-5322 | writer and reader over streams: everything is sent, and the same is read, for every schedule of short sends and every arrival of the octets |
| `RangeHeader.MakeRangeHeader` | include/httplib.h:6778-6790 | the loop prints the specified list |
| `RangeHeader.ParseRangeHeader` | include/httplib.h:5433-5483 | the scan accepts exactly what the grammar function accepts, with the same ranges |
| `RangeHeader.ParseRangesIff` | include/httplib.h:5433-5483 | a header value is accepted as a list of ranges if and only if it is the unit and as many pieces, each two ends in decimal around a dash that make a valid range |
| `RangeHeader.HeaderRoundTrip` | include/httplib.h:6778-6790 | a printed list is read back unchanged if it is not empty and every range is valid, and refused otherwise |
| `RangeCheck.NormalMeaning` | include/httplib.h:6023-6050 | a range passes exactly if it starts inside the content or is a suffix of 1 to n octets, and then covers exactly the positions asked for |
| `RangeCheck.CoalesceRanges` | include/httplib.h:5952-6006 | sorting and the merging loop equal the fold over a sorted permutation; no addition overflows |
| `RangeCheck.RejectedIff` | include/httplib.h:6008-6066 | refused are exactly requests of more than 1024 ranges, with a range that cannot be satisfied, or with more than two that share a position with one before them |
| `RangeCheck.Request.Validate` | include/httplib.h:6023-6066 | early exits included, the loop fails exactly if a range is outside or more than two overlap an earlier one |
| `RangeCheck.Request.RangeError` | include/httplib.h:6008-6074 | rejects exactly too many, unsatisfiable or overlapping ranges on a 2xx response; otherwise leaves the coalesced list |
| `RangeCoverage.CoalescePreservesCoverage` | include/httplib.h:5952-6006 | for every order the sort may leave: same positions covered, sorted, no longer, neighbours apart or with the same start |
| `RangeCoverage.DistinctCoalesceApart` | include/httplib.h:5952-6006 | for distinct ranges the result is pairwise disjoint and its lengths sum to the number of covered positions |
| `RangeCoverage.SortOrderIrrelevant` | include/httplib.h:5955-5957 | for distinct ranges the unstable sort cannot change the result |
| `RangeOrder.OrderMattersIff` | include/httplib.h:5952-6006 | two orders that the sort may leave give different lists if and only if a range is given twice, starts together with a longer one, and no range before it reaches its start |
| `RangeOrder.SortOrderMatters` | include/httplib.h:5952-6070 | a list that passes the check and for which the order shows |
| `RangeResponse.OffsetAndLength` | include/httplib.h:6076-6084 | offset and length cover exactly the positions of the range and stay inside the content |
| `RangeResponse.ContentRangeRead` | include/httplib.h:6086-6098 | a reader of RFC 9110 section 14.4 gets exactly first position, last position and size from the field |
| `RangeResponse.CheckedRanges` | include/httplib.h:6008-6084 | ranges that passed the check satisfy the assertions of offset and length, and cover what the request covered |
| `RangeResponse.SlicesOnce` | include/httplib.h:6008-6074 | distinct ranges transfer every requested octet once |
| `RangeResponse.PartsSplit` | include/httplib.h:6100-6135 | every part of a multipart body consists of its head and the requested slice |
| `RangeResponse.MakeMultipartRangesData` | include/httplib.h:6137-6151 | the token loop writes the specified multipart/byteranges body |
| `RangeMultipart.MultipartRoundTrip` | include/httplib.h:6100-6151 | a client that knows the boundary reads the body as exactly the served ranges: positions, size, type and octets, whatever the content holds |
| `RangeResponse.GetMultipartRangesDataLength` | include/httplib.h:6153-6169 | the computed length is the length of that body, for every list, boundary and type |
| `RangeResponse.Response.ApplyRanges` | include/httplib.h:8228-8310 | for a body: all of it, one slice with a Content-Range that reads as exactly that range, or the multipart body; for a content provider: the length announced |
| `RangeResponse.ServeRanges` | include/httplib.h:8476-8482 | from the header to the response: 416 exactly for unparsable or rejected ranges; otherwise the served ranges cover exactly the positions asked for |
| `RangeResponse.WriteContentWithProvider` | include/httplib.h:7789-7815 | what is written for the ranges as they are, whatever the status |
| `RangeResponse.ProviderConsistentIff` | include/httplib.h:7789-7815 | for every request that passes parser and check the assertions on the ranges hold and the announced length is the length written, if and only if the status is 206 |
| `RangeResponse.NotConsistent` | include/httplib.h:6008-6009 | for every other status and content a request header on which an assertion fails or the lengths differ |
| `Query.EncodeQueryComponent` | include/httplib.h:6689-6741 | the loop equals octet-wise encoding |
| `Query.EncodeOctetMeans` | include/httplib.h:6689-6741 | listed octets are copied, a space or plus sign is treated as the flag says, and all others become a percent sign and the two upper-case digits of their value |
| `Query.EncodedAlphabet` | include/httplib.h:6689-6741 | encoded text consists of listed octets, plus signs and whole escapes |
| `Query.DecodeQueryComponent` | include/httplib.h:6743-6766 | the index loop equals the recursive decoder, with the number reader's acceptance of blanks and signs |
| `Query.ComponentRoundTripIff` | include/httplib.h:6689-6766 | decoding inverts encoding if and only if the flags agree or the octet they treat differently is absent |
| `Query.EncodedPlain` | include/httplib.h:6689-6741 | encoded text holds no ampersand, equals sign, space or tab |
| `Query.ParamsToQueryStr` | include/httplib.h:5360-5370 | the loop prints the specified text |
| `Query.Divide` | include/httplib.h:2983-2997 | cut at the first separator, which neither side keeps; everything on the left when there is none |
| `Query.ParseQueryText` | include/httplib.h:5372-5397 | split, repeated text skipped, cut, decoded and inserted, as the fold over the pieces |
| `Query.EmplaceKeeps` | include/httplib.h:583 | insertion keeps the key order, adds just the pair, and puts it behind all keys that are not greater |
| `Query.LessIff` | include/httplib.h:583 | keys are ordered octet by octet, a prefix before what it begins |
| `QueryRoundTrip.QueryRoundTrip` | include/httplib.h:5360-5397 | parsing printed parameters into an empty collection gives them back with identical pairs merged and empty keys dropped, for all octet strings |
| `QueryRoundTrip.UnchangedIff` | include/httplib.h:5360-5397 | they come back unchanged if and only if no pair is repeated and no key is empty |
| `QueryRoundTrip.ParseOrdered` | include/httplib.h:5372-5397 | whatever text is parsed, the collection stays in key order |
| `RoutePatterns.NewMatcher` | include/httplib.h:7233-7280 | every pattern is accepted, since the set of names is never filled; each fragment is the slice from the end of the parameter before it to the slash of the next marker, the names are those of the parameters, and filling them in gives the pattern back |
| `RoutePatterns.CompilesUnique` | include/httplib.h:7233-7280 | there is only one such matcher: names, fragments and where they are cut are determined by the pattern |
| `Routes.Match` | include/httplib.h:7282-7323 | the loop accepts and captures as the recursive matcher; of values with the same name the first is kept |
| `Routes.MatchFits` | include/httplib.h:7282-7323 | what is accepted is the filled pattern with the captured slash-free values |
| `Routes.FitsMatch` | include/httplib.h:7282-7323 | every filling with slash-free values, whatever octets they hold, is accepted and captured as filled in |
| `RoutePatterns.RouteIff` | include/httplib.h:7233-7323 | unless path and fragment share a NUL before the end of the fragment, a path is accepted with given captures if and only if it is the pattern filled with them, up to one slash after a final parameter |
| `RoutePatterns.AcceptsOnlyFilledIff` | include/httplib.h:7299-7302 | every accepted path is the filled pattern if and only if no fragment holds a NUL before its last octet |
| `RoutePatterns.ReadBackIff` | include/httplib.h:7244-7272 | every captured value can be read back under its name on every accepted path if and only if no name is repeated in the pattern |
| `RoutePatterns.RepeatedNameLosesValue` | include/httplib.h:7244-7316 | the pattern /:a/:a is accepted, and a path that fits it keeps only its first value |
| `Routes.SameIff` | include/httplib.h:7299-7302 | texts of the same length pass the comparison if and only if they are equal, at least up to a NUL that both have |
| `RoutePatterns.NulEndsComparison` | include/httplib.h:7299-7302 | a pattern with a parameter and a different path that passes because of such a NUL |
| `Base64.Base64Encode` | include/httplib.h:2834-2860 | the 32-bit accumulator loop equals encoding by groups of three octets |
| `Base64.WrapHarmless` | include/httplib.h:2844-2853 | wrapping to 32 bits changes no bit that is looked at |
| `Base64.Base64RoundTrip` | include/httplib.h:2834-2860 | a strict decoder, which refuses other characters, misplaced padding and unused bits, recovers every octet string |
| `Base64.EncodedListed` | include/httplib.h:2834-2860 | only the alphabet of RFC 4648 section 4 is written, and padding in the last two places |
| `Base64.EncodedLength` | include/httplib.h:2834-2860 | the length is four times the number of groups, rounded up |
| `PathCheck.IsValidPath` | include/httplib.h:2862-2902 | true exactly when no NUL or backslash occurs and the depth never goes below zero; the assertion holds and the level does not wrap |
| `PathCheck.ComponentsMean` | include/httplib.h:2862-2902 | slashes only separate components |
| `PathCheck.NeverBelowIff` | include/httplib.h:2886-2893 | the depth stays at zero or above if and only if a walk below any directory but the root never leaves it |
| `PathCheck.ValidPathStays` | include/httplib.h:2862-2902 | the same for whole paths |
| `Replication.Databases.ExecuteWithRetry` | src/replication/ReplicationManager.cpp:244-258 | any pattern of failures: the effects and reply of at most the given attempts, and a live result just for a success |
| `Replication.ReplicationManager.InsertPage` | src/replication/ReplicationManager.cpp:60-122 | the batching loop equals insertion in batches of a hundred |
| `Replication.ReplicationManager.SyncTable` | src/replication/ReplicationManager.cpp:43-128 | the paging loop equals the specified synchronisation; offsets fit `int`; every result is cleared exactly once |
| `Replication.ReplicationManager.InitialSync` | src/replication/ReplicationManager.cpp:23-132 | all tables with a primary key, and no result left alive on any path |
| `Replication.ReplicationManager.Start` | src/replication/ReplicationManager.cpp:134-152 | synchronises in the first healthy call only |
| `Replication.Databases.WithExponentialBackoff` | src/utils/Retry.cpp:6-16 | the loop stops at the first accepted attempt, with the effects of all before it, clears every failed result, and sleeps 100 ms doubled after each failure |
| `SyncTheorems.SyncIsSafe` | src/replication/ReplicationManager.cpp:45-128 | under every pattern of faults hosted rows stay as they are, and every added row is a local row sent whole |
| `SyncTheorems.AttemptsMade` | src/replication/ReplicationManager.cpp:244-258 | a success of either kind ends the attempts, and anything else leads to another one, up to three |
| `SyncTheorems.UnacknowledgedInsert` | src/replication/ReplicationManager.cpp:244-258 | an insert may take effect although every attempt is reported as failed |
| `SyncTheorems.RecoveringSyncMerges` | src/replication/ReplicationManager.cpp:45-128 | if no statement fails three times in a row the run reaches the merge |
| `SyncTheorems.RowArrivesIff` | src/replication/ReplicationManager.cpp:64-122 | after such a run a local row is hosted if and only if its key was there before or every key of its batch can be quoted; existing rows win, and of a new row every column has its value, or NULL for a text that cannot be quoted |
| `SyncTheorems.MergeUnique` | src/replication/ReplicationManager.cpp:45-128 | the merge is determined by hosted and local data alone |
| `SyncTheorems.ExactlyOnce` | src/replication/ReplicationManager.cpp:45-128 | after any runs under any faults, one recovering run leaves exactly what a single fault-free run would have left at the start |
| `SyncPartition.PagesAndBatchesPartition` | src/replication/ReplicationManager.cpp:43-128 | without faults the pages are the table and the inserts, of at most a hundred rows, carry every row once and in order |
| `SyncTheorems.FirstHealthyDecides` | src/replication/ReplicationManager.cpp:148-152 | after any sequence of starts the hosted data are what the first healthy one left |
| `SyncFaults.SurvivesIff` | src/replication/ReplicationManager.cpp:244-258 | all answers with at most k failures in a row lead to the merge if and only if k is at most two or there is no row to be sent; statements refused for a null key do not count |
| `SyncFaults.FailedStartIsFinal` | src/replication/ReplicationManager.cpp:148-152 | for any data and any row to be sent some healthy start with at most three failures in a row loses the row for every later start |

## Left out

- Sockets, DNS, polling, files, TLS, compression and their branches: foreign calls; the writer and readers are modelled
  without a compressor.
- libpq, SQL texts, logging and configuration: a select is an ordered page, an insert adds what is absent, and the
  primary key is the only uniqueness constraint. A statement whose row has a null key is refused as a whole. Other
  clients of the databases are not modelled.
- Key columns of a row are kept apart from the others; the column order of the statement is not modelled.
- `TableTracker::fetchChanges` and `QueueHandler::drainTo`: placeholders in the source. Table discovery and the health
  check are parameters of `Start`.
- Random boundary generation, clocks and sleeping: the boundary is a parameter, the delay a sum.
- `std::regex` for part headers: replaced by an explicit match of the Content-Disposition prefix; the extended
  `filename*` form is not decoded.
- Percent-decoding of stored header values is a parameter of the parser, and the header map of a part is not kept beyond
  the fields that the parser reads itself.
- The server's limit of 1024 parts and its per-part callbacks appear as the arbitrary `admit` and `take` of the parser's
  configuration.
- The table of announced trailers is a parameter of the reader; splitting the `Trailer` header and the list of
  prohibited names are left out.
- Mutexes and condition variables: each critical section of the client is one step, waiting releases the lock
  atomically, and the timed wait of the client's destructor is not modelled. Exceptions thrown by jobs are not modelled.
- `std::sort` is a method of the same contract, `std::multimap` a sequence in key order.
- `RangeCheck.Request.RangeError`: takes the content length as given and below 2^63, and ranges as the header parser
  leaves them.
- `RangeResponse.Response.ApplyRanges`: compression and providers of unknown length are left out. A provider of known
  length is taken to write exactly what it is asked for.
- `RangeResponse.WriteContentWithProvider`: a provider that fails or writes something else, a stop for shutdown and short
  sends are left out here; `ChunkWriter` has them for chunked bodies.
- `Replication.Databases.WithExponentialBackoff`: the callback is the query attempt, the only one the source passes; other
  callbacks are not modelled, and neither is a delay beyond what the clock type holds.
- `FormDataChunks.ChunkIndependence`: for content callbacks that take everything; a callback that refuses content sees
  different pieces under different cuts, and `Parse` itself is specified for it.
- The request-method overloads, forwarding wrappers, MIME and status tables and `parse_accept_header`: bulk without
  further depth.
