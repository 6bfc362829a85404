# asmot: the HTTP engine, the static index and the counter readers

asmot is a system monitor in C: a small HTTP/1.1 server that answers GET requests from a directory
of files and from handlers that report what they read in /proc and /sys. This project models its
text-processing and memory-handling core and proves what that core does for every input.

- `Text`, `Fields`, `Tokenizer`, `Grammar`: C strings, CRLF splitting, `strtok` with its hidden
  position, and the line classifiers.
- `Parsing`, `RoundTrip`: the value a request text is parsed into, and printing it again.
- `Memory`, `Lists`, `Headers`: malloc and free as a ledger of live blocks, and the linked lists.
- `Request`, `Response`, `Printing`: the two records, updated in place, and the serializer that
  appends to a fixed buffer at `strlen(buffer)`.
- `Replies`, `Routing`, `Answers`, `Router`: replies as values, the router that produces them, what
  every reply satisfies, and the bytes of each kind of answer.
- `FileTree`, `Packing`, `FileList`: a directory tree, the packed arena of its paths, and the two
  walks that size and fill it.
- `Server`, `EndToEnd`: the accept loop as a run over received texts, which exchanges it answers,
  and what a client gets back.
- `Dedup`, `Sensors`, `Words64`, `NetIo`, `DiskIo`: the in-place path table and the two counter
  readers.

Functions over values say what is computed; the methods of the classes, which follow the C code
step by step, are proved equal to them, and the lemmas say what these functions mean.

How the C world is represented:

- A `char` is a byte; a C string is a sequence without NUL, and a buffer is read up to its first
  NUL (`CString`).
- A malloc'ed string is a `Block`; `Heap.live` is the set of blocks that are allocated.
  `Free` demands a live block, so nothing is freed twice or freed without being owned.
- A ghost sequence `nodes` names the nodes of a linked list in order; `IsChain` says that the
  pointers agree with it, which excludes cycles.
- Preconditions are the places where the C code has no check of its own: lines whose `strtok`
  result is NULL where it is used (`SafeLine`), a request without method or URI (`Routable`), a
  GET without an index, a path of PATH_MAX characters or a file extension of more than seven
  (`Serviceable`), a name of PATH_MAX characters for the static directory or anything in it
  (`ListingFits`), a request that fills the buffer to its last byte or a response larger than it
  (`Answerable`), more than 32 sensor paths, and a negative number of them: `temp_filepaths`
  hands on -1 after an error of `glob`, and `rm_dup` then asks `memset` for 2^64 - 128 bytes
  (`Sensors.CopySizeExact`).
- The directory tree, the lines of the counter files, the readable files, the report texts and the
  set of storage devices are parameters. `opendir` failing is `Denied`, `stat` failing is `Broken`.

Results that come with a condition, because the code does not do what one would expect on every
input:

- The stored body is the text behind the blank line exactly if the line loop stopped at a blank
  line. Otherwise it is an unfinished last line, or an overlong line less its first two characters
  (`Parsing.BodyTextExact`, with an input for each in `Parsing.UnfinishedHeaderIsBody` and
  `Parsing.OverlongHeaderLosesTwo`).
- A round of the server leaves the allocations as they were exactly if the request text holds one
  request line; a second one overwrites the method without freeing it (`Server.Server.Step`). The
  number of blocks lost is that of the tokens in all request lines less that of the fields set in
  the end (`Server.Leaked`), and adds up over a run. Every site answers the text of
  `EndToEnd.SecondRequestLineLeaks`, and loses three.
- `responseSendBytes` prints a size with `%d`, so the length it announces is right exactly below
  2^31 bytes (`Replies.ContentLengthExact`), and for 2^31 itself it announces no number
  (`Replies.LongSizeIsMisprinted`). This is a fact about that function alone: every exchange the
  server answers fits its buffer, and is framed without a condition (`EndToEnd.AnsweredIsFramed`).
- A line of /proc/net/dev with fewer than twelve columns reports in the missing places what the
  line before it left in the local array, or what the stack held: what a line reports depends on
  that line alone exactly if it has twelve (`NetIo.CompleteIffIndependent`).
- What a call reports on a whole file, and with it that the aggregate is the sum of what a separate
  call reports per interface, is independent of the stack exactly if the first interface line has
  twelve columns or there is none (`NetIo.FirstCompleteExact`, with an input on which the two modes
  can disagree in `NetIo.EmptyLineDisagrees`).
- `retrieveFiles` succeeds exactly if the directory opens and the count it is given starts at zero;
  the NULL at the end of the table survives exactly if there is a file.
- A static directory that cannot be indexed, or holds no file, loses what was allocated for it
  (`Router.Router.Static`); a directory that opens and is empty is one
  (`FileTree.EmptyDirectoryHasNoPaths`).

Two departures from section 2.2 of RFC 2616 are kept as the code has them: a header name may be
empty, and it may contain characters above 127.

## Model

| member | source | states |
|---|---|---|
| Fields.ReadField | src/http/helpers.c:4-21 | a delivered line is non-empty, CRLF-free and shorter than the buffer, and with its CRLF and the rest it is the text; a refusal means no CRLF, one at the start, or one too late |
| Fields.ReadFieldInto | src/http/helpers.c:4-21 | the buffer then reads as that line, the returned position leaves that rest, and on NULL the buffer is untouched |
| Fields.LinesDecompose | src/http/request.c:123 | repeated readField splits any text into good lines and a rest on which readField fails |
| Fields.LinesUnique | src/http/request.c:123 | there is no other such split |
| Fields.StopLeavesRest | src/http/request.c:123 | the offset at which repeated readField stops leaves exactly that rest |
| Tokenizer.TokensOfLayout | src/http/helpers.c:89-100 | a line written as tokens between gaps of spaces is tokenized into exactly those tokens |
| Tokenizer.TokensLaidOut | src/http/helpers.c:89-100 | every line can be written that way with the tokens found |
| Tokenizer.Strtok.Next | src/http/request.c:15-33 | each call consumes exactly the next pending token, and NULL comes when none is left |
| Grammar.MethodsExact | src/http/helpers.c:25-28 | the method table holds nine names, listed, and no other |
| Grammar.IsHttpMethod | src/http/helpers.c:23-36 | the search loop finds a method exactly if it is in the table |
| Grammar.NameCharExact | src/http/helpers.c:121-133 | header names are made of letters, digits, fifteen marks, listed, and the characters above 127 |
| Grammar.VersionExact | src/http/helpers.c:65-82 | the substring test accepts exactly HTTP/ digit . digit |
| Grammar.RequestLineExact | src/http/helpers.c:84-104 | request lines are the lines of at most three tokens, a listed method first and a version third |
| Grammar.IsRequestLine | src/http/helpers.c:84-104 | the strtok loop decides exactly that |
| Grammar.HeaderLineExact | src/http/helpers.c:117-137 | header lines are spaces, token characters, a colon, and then the end or a space |
| Grammar.IsHeaderToken | src/http/helpers.c:126-134 | the nested loops decide exactly whether a token is a name and a colon |
| Grammar.IsRequestHeader | src/http/helpers.c:117-137 | the classifier decides exactly the header lines |
| Grammar.Exclusive | src/http/request.c:124-127 | no line with a token is both, so the order of the two tests does not matter |
| Grammar.IsValidRequest | src/http/helpers.c:106-115 | a text is valid exactly if it has a first line and that is a request line |
| Grammar.ValidExact | src/http/helpers.c:106-115 | the valid texts are a request line of less than 8192 characters, its CRLF and anything behind |
| Parsing.BodyBehindBlankLine | src/http/request.c:47-57 | whatever follows the blank line, CRLFs and header look-alikes included, is body: no line is added and no character lost |
| Parsing.BodyTextExact | src/http/request.c:47-57 | the stored text is what follows a blank line if and only if the scan stopped at one, and what it is otherwise |
| Parsing.UnfinishedLineIsBody | src/http/request.c:47-57 | a last line without CRLF is stored as the body |
| Parsing.UnfinishedHeaderIsBody | src/http/helpers.c:139-153 | an input on which a header line becomes the body |
| Parsing.OverlongLineIsBody | src/http/request.c:47-57 | a line of 8192 characters or more ends the scan, and it and all behind it are stored less two characters |
| Parsing.OverlongHeaderLosesTwo | src/http/request.c:47-57 | an input on which that happens: 8192 characters and a CRLF behind the request line |
| Parsing.HeldAtMost | src/http/request.c:15-33 | no sequence of lines sets more fields than its request lines have tokens |
| Parsing.LeakExact | src/http/request.c:15-33 | as many tokens as fields, so no copy is lost, exactly if there is at most one request line |
| RoundTrip.RequestRoundTrip | src/http/request.c:113-137 | parsing a printed request gives back its method, URI, version, headers in order and body, none exactly if empty, for all of them at once |
| Parsing.StartLineSets | src/http/request.c:15-33 | a request line sets method, URI and version from its tokens, as far as it has them, and nothing else |
| Parsing.HeaderLineAdds | src/http/request.c:61-100 | a header line, whatever its gaps, adds its name and the rest of the line from its value on, last, and nothing else |
| Parsing.OtherLineIgnored | src/http/request.c:124-129 | a line that is neither changes nothing, wherever it stands among other lines |
| RoundTrip.RoundTripAmongOthers | src/http/request.c:113-137 | a printed request with such lines among its headers is parsed into the same message as without them |
| RoundTrip.BadLineIgnored | src/http/request.c:124-129 | an input with one: the header in front of the bad line is kept |
| RoundTrip.PrintableStartExact | src/http/helpers.c:84-104 | which start lines the round trip covers: nine methods, any token as URI, HTTP/ digit . digit, within the buffer |
| RoundTrip.PrintableExact | src/http/helpers.c:117-137 | which headers it covers: names of name characters, values that start with no space, within the buffer |
| RoundTrip.PlainRequestParsed | src/http/helpers.c:106-115 | every text that starts with GET / HTTP/1.1 and CRLF is valid |
| Request.Request.Init | src/http/request.c:104-111 | the record becomes the empty message and owns nothing |
| Request.Request.SetField | src/http/request.c:19-32 | one field changes; the block it held is lost to the record and stays allocated |
| Request.Request.SetFields | src/http/request.c:15-33 | the do-while loop sets the first fields to the tokens in order, and loses what they held |
| Request.Request.ParseLine | src/http/request.c:4-36 | a request line sets the fields from its tokens, any other line changes nothing; of the copies made, each is in a field or replaces one that is lost |
| Request.NameAndValue | src/http/request.c:66-79 | the name is the first token without its colon, the value the original line from its second token on |
| Request.Request.AddHeader | src/http/request.c:61-100 | a header line is appended to the list, any other line changes nothing, and nothing else becomes allocated or lost |
| Request.BodyOffset | src/http/request.c:47-53 | the scan of httpHasBody and requestSetBody stops at the offset where the line loop of requestParse stops, and then skips two characters, or none if no CRLF is ahead; what is left is the stored body |
| Request.HttpHasBody | src/http/helpers.c:139-153 | there is a body exactly if the text at that offset is non-empty |
| Request.Request.SetBody | src/http/request.c:38-59 | the stored body is exactly that text |
| Request.Request.TakeLines | src/http/request.c:123-130 | the loop absorbs the lines in order, stops at the common offset and, from an empty record, conserves: blocks not owned plus fields set grow by the tokens copied |
| Request.Request.Parse | src/http/request.c:113-137 | the record holds the parsed message; from an empty record the blocks allocated and not owned by it grow by exactly the leak, and by none exactly if the text has one request line |
| Request.Request.Destroy | src/http/request.c:139-161 | exactly the blocks of the record are freed, each once |
| Lists.Append | src/http/request.c:91-97 | the walk to the last node yields the old list with the new node behind it |
| Lists.DestroyList | src/http/request.c:150-160 | the loop frees exactly the nodes and strings of the list, each once |
| Printing.Print | src/http/response.c:148-151 | appending at strlen(buffer) is concatenation, with zeroes kept behind the text |
| Response.Response.Init | src/http/response.c:5-10 | the record becomes the empty reply, whatever its two lengths still hold |
| Response.Response.SetHeader | src/http/response.c:12-30 | the header goes last and nothing else changes |
| Response.Response.SendBytes | src/http/response.c:32-42 | length header, body, and 200 unless a status was set |
| Response.Response.SendStatus | src/http/response.c:44-47 | only the status changes |
| Response.Response.SendFile | src/http/response.c:49-106 | media type by the text behind the first dot, then the contents, or 404 for an unreadable file |
| Response.FindPhrase | src/http/response.c:140-143 | the unbounded search stops at the phrase, inside the table |
| Response.PrintHeaders | src/http/response.c:147-149 | the list walk prints the headers in list order |
| Response.Response.ToBuffer | src/http/response.c:108-169 | the buffer holds status line, headers with the three universal ones last, blank line and body; the two lengths are those of head and body, a stale content length included |
| Response.Response.Destroy | src/http/response.c:171-189 | exactly the blocks of the record are freed, each once |
| Replies.ContentLengthExact | src/http/response.c:34-41 | the printed length reads back as the size exactly below 2^31 |
| Replies.LongSizeIsMisprinted | src/http/response.c:34-35 | a size of 2^31 is printed as -2147483648, which is no length |
| Replies.StatusLineRead | src/http/response.c:139-145 | a reader takes the status line neither for a request line nor for a header |
| Replies.WireReadBack | src/http/response.c:108-160 | reading a response line by line recovers all headers in order and stops at the blank line with exactly the body ahead |
| Replies.StatusLineExact | src/http/response.c:119-131 | the eleven status lines, character by character, and no others |
| Replies.UniversalExact | src/http/response.c:112-115 | the three headers of every response, character by character |
| Replies.WireExact | src/http/response.c:134-160 | the bytes of a response: status line, 500 without a status, every header as name, colon, space, value and CRLF, the universal ones, a blank line, the body |
| Response.ExtensionExact | src/http/response.c:66-72 | the extension is what follows the first dot of the whole path, and empty without a dot |
| Response.MimeExact | src/http/response.c:56-77 | the six media types by extension; any other extension gets none |
| Response.WithFileExact | src/http/response.c:79-106 | a file is sent with its length, contents and 200 unless a status was set; an unreadable one with 404, no length and no body |
| Routing.HandledExact | src/asmot.c:11-27 | the redirect is 301 with location /index.html, a report application/json with its length and text |
| Routing.NotFoundExact | src/http/router.c:73-75 | the 404 page: status 404, content-length 22, and its text |
| Answers.NotImplementedBytes | src/http/router.c:51-53 | the bytes of the answer to another method |
| Answers.NotFoundBytes | src/http/router.c:73-75 | the bytes of the 404 answer |
| Answers.RedirectBytes | src/asmot.c:11-15 | the bytes of the redirect |
| Answers.ReportBytes | src/asmot.c:17-27 | the bytes of a report of less than 2^31 characters |
| Answers.FileBytes | src/http/response.c:79-106 | the bytes of a file that can be read |
| Answers.UnreadableBytes | src/http/response.c:81-84 | the bytes for an indexed file that cannot be read any more |
| Routing.FirstMatchIsEarliest | src/http/router.c:66-70 | the route found is the earliest registered one for method and path, and none is found only if there is none |
| Routing.LaterRegistrationsDoNotShadow | src/http/router.c:27-47 | registering more routes never changes the answer to a request already routed |
| Routing.DispatchExact | src/http/router.c:55-75 | a GET goes to the file of the tree its URI spells, else to the earliest route registered for it, else it gets status 404 and the 404 page with its length 22 |
| Routing.RespondSendable | src/http/response.c:134-143 | every reply has one of four statuses, all in the phrase table |
| Routing.RespondFramedExact | src/http/router.c:49-76 | the reply as a value has one length header, and a right one, exactly if it has a body, unless a report reaches 2^31 bytes |
| Routing.RespondReadBack | src/http/router.c:49-76 | every reply the router produces can be read back: its headers in order, and its body |
| Routing.RespondHeadFits | src/http/response.c:134-151 | status line and headers of any reply take at most 1024 characters, whatever was requested |
| Router.Router.SetHdl | src/http/router.c:27-47 | the route goes last in an acyclic list, in call order |
| Router.Router.FindStatic | src/http/router.c:59-63 | the table search succeeds exactly if the path is indexed |
| Router.Router.FindRoute | src/http/router.c:66-70 | the list walk finds the first match |
| Router.Router.Handle | src/http/router.c:49-76 | not GET gives 501, then static file, then route, then the 404 page; nothing else becomes allocated |
| Router.Router.Static | src/http/router.c:11-25 | the index holds the paths of the tree in order; without a file the router stays without index and what was allocated is lost |
| Router.Router.Destroy | src/http/router.c:78-102 | exactly the blocks of the router are freed, each once |
| Router.Call | src/asmot.c:11-27 | a handler redirects to the index page, or sends a JSON type and its text |
| FileTree.PathsExact | src/http/filelist.c:49-84 | a path is indexed exactly if its names lead to a file through directories that open and are not . or .. |
| FileTree.EntryContributes | src/http/filelist.c:57-80 | at its place in the listing a file adds its own path, ., .., a broken entry and a closed directory nothing, any other directory all its paths |
| FileTree.SlashedConcat | src/http/filelist.c:60 | a URI spells names by a slash in front of each |
| FileTree.PathsDistinct | src/http/filelist.c:49-84 | with slash-free names that differ among siblings no path is indexed twice |
| FileTree.EmptyDirectoryHasNoPaths | src/http/router.c:20-24 | a directory that opens and has no path to index |
| Packing.RangesApart | src/http/filelist.c:75-77 | different strings occupy disjoint ranges inside the arena |
| Packing.StartStep | src/http/filelist.c:74-78 | there are no gaps: each path starts one NUL behind the one before it |
| Packing.StartOfEnd | src/http/filelist.c:40-41 | the offsets add up to the size of the arena |
| Packing.ReadPacked | src/http/filelist.c:75-77 | reading from offset i to the next NUL yields string i |
| FileList.GetFileCount | src/http/filelist.c:13-47 | the first walk adds the number of paths and the bytes they take when packed |
| FileList.FitsExact | src/http/filelist.c:24-27 | the trees the walks are defined on: every printed path, those of skipped entries included, is below 4096 characters |
| FileList.StoreFile | src/http/filelist.c:74-79 | one path is stored behind the others, and nothing else is written |
| FileList.SetFiles | src/http/filelist.c:49-84 | the second walk stores the paths of the tree in depth-first order behind those already there, and nothing else is written |
| FileList.RetrieveFiles | src/http/filelist.c:86-118 | the two walks agree: the arena is exactly the packed paths and the table points at them; the result codes |
| FileList.IndexReads | src/http/filelist.c:97-106 | entry i of a finished index reads as path i |
| FileList.TerminatorSurvives | src/http/filelist.c:102-103 | the table ends with NULL exactly if there is a path |
| Server.Server.Accept | src/http/server.c:80-90 | after recv and parse the request record holds the parsed text, and the blocks it does not own have grown by exactly the leak, none exactly if there was one request line |
| Server.Server.Reply | src/http/server.c:92-97 | the bytes sent are those of the reply to the parsed text, and only the response record owns anything new |
| Server.Server.CleanUp | src/http/server.c:101-102 | exactly what the two records own is freed |
| Server.Server.Step | src/http/server.c:79-103 | one round sends the answer to its exchange, keeps the router, frees nothing it found, and leaves behind exactly as many blocks as the exchange leaks, none exactly if there was one request line |
| Server.Server.Serve | src/http/server.c:79-103 | in any run the n-th response depends on the router and the n-th exchange only, the blocks left behind are the sum of the leaks, and there are none exactly if no exchange leaks |
| Server.GetRoutes | src/http/server.c:16-19 | route i is GET, the path and the handler of table entry i, for all entries |
| Server.Server.Configure | src/asmot.c:466-471 | the router holds the paths of the directory and the GET routes in table order, and owns all that was allocated |
| Server.Run | src/asmot.c:466-473 | after any run the live allocations are the router's own and as many more as the exchanges leak, none exactly if every text had one request line |
| EndToEnd.FittingIsAnswerable | src/http/server.c:79-103 | a valid, safe and serviceable request is answered whenever the body of the reply leaves 1024 characters of the buffer for the head |
| EndToEnd.FittingIsRead | src/http/server.c:92-97 | and then the bytes sent read back as the headers in order, one right length header exactly if there is a body, and the body |
| EndToEnd.AnswerBegins | src/http/response.c:134-145 | every answer begins with the status line of its reply, one of four, and fits 262144 bytes |
| EndToEnd.OtherMethodsAreAnswerable | src/http/router.c:51-54 | a valid and safe request with another method than GET is answered with 501, byte for byte, whatever the site is |
| EndToEnd.AnsweredIsFramed | src/http/server.c:92-97 | every exchange the server answers has one length header, and a right one, exactly if there is a body |
| EndToEnd.FileIsServed | src/http/server.c:88-97 | a printed request for the names of a file that fits the buffers is answered by the server without a leak; the bytes sent are given, and read back as status 200, the headers in order, one right length header and the contents |
| EndToEnd.OthersAreRouted | src/http/server.c:88-97 | a printed GET for anything else that fits the buffers is answered by the server without a leak, by the earliest route or with the 404 page, byte for byte, and the bytes sent read back as its headers and body, rightly framed |
| EndToEnd.RegisteredIsServed | src/asmot.c:466-473 | on the site that main sets up, a printed GET for the path of table entry n, which no earlier entry has and no file, is answered by handler n, byte for byte |
| EndToEnd.PrintedIsReceived | src/http/server.c:86-90 | a printed request shorter than the receive buffer is read whole from the zeroed buffer, and has one request line |
| EndToEnd.SecondRequestLineLeaks | src/http/server.c:79-103 | an input on which a round leaks: every site answers it, with 501; it has two request lines and loses three blocks |
| Dedup.SieveIsFirstOccurrences | src/sensors/sensors_temperatures.c:74-83 | dropping the repetitions of each kept row in turn is stable de-duplication |
| Dedup.FirstOccurrencesExact | src/sensors/sensors_temperatures.c:65-92 | the result has the same elements, none twice |
| Dedup.FirstOccurrencesStable | src/sensors/sensors_temperatures.c:65-92 | the order is that of first occurrence: more input only extends the result |
| Dedup.FirstOccurrencesCount | src/sensors/sensors_temperatures.c:82-91 | there are as many as there are distinct elements |
| Dedup.FirstOccurrencesIdempotent | src/sensors/sensors_temperatures.c:65-92 | a second run changes nothing |
| Sensors.BeforeExact | src/sensors/sensors_temperatures.c:56-61 | a row is cut at the first delimiter and kept whole without one |
| Sensors.RowsExact | src/sensors/sensors_temperatures.c:69-71 | row i is the string at offset 128 i of the table |
| Sensors.CutRow | src/sensors/sensors_temperatures.c:50-61 | zeroing in place truncates that row and touches no other character |
| Sensors.RmLatter | src/sensors/sensors_temperatures.c:45-63 | every row is truncated, and nothing behind the rows changes |
| Sensors.DropRepetitions | src/sensors/sensors_temperatures.c:76-81 | the inner loop compacts the pointers to the rows up to i and those behind that differ from row i |
| Sensors.Compact | src/sensors/sensors_temperatures.c:74-83 | with its shrinking bound the outer loop leaves pointers to the first occurrences |
| Sensors.RmDup | src/sensors/sensors_temperatures.c:65-92 | the table starts with the distinct rows in order of first occurrence, the result is their number, and what lies behind is untouched |
| Sensors.OneRowPerSensor | src/sensors/sensors_temperatures.c:177-178 | truncation and de-duplication leave one underscore-free row per sensor, however many attribute files it has |
| Sensors.SensorsTemperatures | src/sensors/sensors_temperatures.c:170-187 | the row count is the number of sensors, and the result -1, -2 or 0 follows from it |
| NetIo.SelectColumns | src/net/net_io_counters.c:41-46 | the shifting counter stores columns 0 to 3 and 8 to 11, and leaves alone the elements whose column the line does not have |
| NetIo.CompleteColumns | src/net/net_io_counters.c:41-46 | on a line with at least twelve columns the array holds exactly those eight |
| NetIo.CompleteIffIndependent | src/net/net_io_counters.c:23-46 | what a line reports depends on nothing but that line exactly if it has at least twelve columns |
| NetIo.Accumulate | src/net/net_io_counters.c:48-55 | eight counters grow by their values modulo 2^64 and no other element changes |
| NetIo.ReadLines | src/net/net_io_counters.c:26-56 | the loop takes every line but the headings in file order, and hands the local array from line to line |
| NetIo.NetIoCounters | src/net/net_io_counters.c:10-61 | one record per interface in file order, or, in the aggregate, their field-wise sum modulo 2^64; the result codes |
| NetIo.CountedExact | src/net/net_io_counters.c:48-55 | which column sum goes to which field, the name "all" of the aggregate, and its count 1 |
| NetIo.CompleteReadings | src/net/net_io_counters.c:30-46 | a file of complete lines gives one reading a line, named without the colon, of columns 0 to 3 and 8 to 11 |
| NetIo.HeadingSkipped | src/net/net_io_counters.c:27-28 | a heading reports nothing, wherever it stands |
| NetIo.LineHandsOn | src/net/net_io_counters.c:30-46 | any other line reports what it leaves in the local array, which the next line finds |
| NetIo.FirstCompleteExact | src/net/net_io_counters.c:23-55 | what a call reports is the same for all contents of the uninitialised array exactly if the first interface line is complete; so is the aggregate, below 2^64 lines |
| NetIo.EmptyLineDisagrees | src/net/net_io_counters.c:23-55 | an input on which it is not: an interface line without columns |
| NetIo.AggregateIsSum | src/net/net_io_counters.c:17-55 | for a file whose first interface line is complete the aggregate of one call is the sum modulo 2^64 of what another call stores per interface, whatever the two find in their arrays; for other files if they find the same |
| DiskIo.Accumulate | src/disk/disk_io_counters.c:48-55 | eight counters grow by their values, sectors scaled by 512, modulo 2^64 |
| DiskIo.ReadLines | src/disk/disk_io_counters.c:32-56 | the loop ends at the first malformed line and has counted the records that qualify |
| DiskIo.DiskIoCounters | src/disk/disk_io_counters.c:16-63 | one record per disk, or the field-wise sum over the storage devices modulo 2^64, with count 1 or 0; the result codes |
| DiskIo.CountedExact | src/disk/disk_io_counters.c:37-55 | which sum goes to which field, and the count 0 or 1 of the aggregate |
| DiskIo.LineCounts | src/disk/disk_io_counters.c:32-55 | which lines count, those in front of the first malformed one and in the aggregate the storage devices, and as what, with 512 bytes to a sector |
| Words64.SumConcat | src/disk/disk_io_counters.c:48-55 | the sums the aggregates stand for are additive |
| DiskIo.AggregateIsSum | src/disk/disk_io_counters.c:37-55 | the aggregate is the sum modulo 2^64 of what the per-disk mode stores for the storage devices of the same file |
| DiskIo.AggregateCount | src/disk/disk_io_counters.c:37-46 | its count is 1 exactly if the lines read hold a storage device |

## Left out

- Sockets, `accept`, `recv` and `send` themselves, partial sends, logging and coloured output: a run is a sequence of received texts and sent bytes.
- Invalid requests on the wire: `requestParse` returns NULL for them and `routerHandle` then reads through a NULL method, so `Server.Server.Step` asks for a valid text.
- Failure of `malloc`, and with it the results -3 and -4 of `retrieveFiles`.
- A directory tree that changes between the two walks, and with it the results -5 and the other -6 of `retrieveFiles`; cycles through symbolic links.
- NUL characters that `strtok` writes into its copy of a line: the tokenizer keeps the position only.
- `isRequestUri` and its helpers accept everything, so the second token of a request line is not tested in the model.
- Request.BodyOffset: one method for the scan that `httpHasBody` and `requestSetBody` each spell out in the same words.
- Size arithmetic of the path arena and of the response lengths beyond 2^64 bytes.
- NetIo.NetIoCounters: a line is given as its first token and numeric columns, and the local array of columns is a parameter with arbitrary contents; `sscanf`, the 256-character limit of `fgets` and the 16 characters of an interface name are not modelled.
- DiskIo.DiskIoCounters: a line is given as the fields `fscanf` fills; the field that is read and not used is dropped.
- `path_append`, `set_temps` and the reading of the temperatures: string appends and file reads around the path table.
- The JSON texts of the handlers: they are parameters, and so are CPU, memory, battery, user, boot-time and system readings.
- The `routingTable` of `main` entry by entry: the table is a parameter of `Server.Server.Configure`.
