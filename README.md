# LinusWebServer core in Dafny

A model of the single-process core of LinusWebServer, a small epoll-based
HTTP/1.1 server written in C++, with proofs about that model. Five modules
follow the program's structure:

- `Kernel` (kernel.dfy) — the operating-system services the core calls: socket
  reads and writes, accept, close, and the epoll interest list as a map from
  descriptor to event mask. What the kernel decides (how many bytes arrive,
  whether a call fails) is chosen nondeterministically, so every caller is
  proved against all outcomes.
- `Buffers` (buffer.dfy) — the growable buffer of `char` with its read and
  write cursors. It covers append, retrieve, compaction or growth in `makeSpace`,
  the scatter read `readFd` with its stack overflow area, and `writeFd`.
- `HttpRequests` (httprequest.dfy) — the line-by-line request parser
  REQUEST_LINE → HEADERS → BODY → FINISH. The two `std::regex` patterns are
  replaced by explicit splitters, proved to return exactly the pattern's
  submatches. It also covers path rewriting, the keep-alive rule and the
  `application/x-www-form-urlencoded` decoder, modelled as written.
  Each step is a pure function on a `Request` value. The `HttpRequest` class
  methods are proved to move the object's fields exactly as those functions
  say.
- `HttpConns` (httpconn.dfy) — one connection:
  - the open/closed flag and the shared user counter;
  - the `read` and `write` loops;
  - the two-span `iovec` accounting, where the header bytes come from the write
    buffer and the rest from the mapped file;
  - `process`, which parses and builds the response.
- `WebServers` (webserver.dfy) — the reactor's decisions:
  - the epoll masks chosen from the trigger mode;
  - the priority in which a ready event is routed;
  - the accept loop and its "Server busy" refusal;
  - what happens to a connection after a read, a process step or a write
    (re-arm IN, re-arm OUT, process again, or close);
  - the port-range check;
  - one round of the event loop, proved to queue exactly the pool tasks that a
    reference function computes from the ready events.

The thread pool is a FIFO sequence of tasks that the event loop appends to.
The credential store behind `userVerify` is an uninterpreted function
`verify(name, password, isLogin)`; only its empty-argument guard is modelled.

Two behaviours of the code that a caller might not expect; the model follows
the code.

- **Trailing fragment.** The loop of `parse` (httprequest.cpp:37-63) does not
  wait for a whole line. A last fragment without CRLF goes to the current
  state's handler like a complete line; it is only left unconsumed.
  `FragmentParsedAsHeader` shows the consequence: a request whose
  `Connection: keep-alive` header arrives cut short parses with success,
  stores the partial value, and is not keep-alive.
- **`%XX` in form bodies.** The comment at httprequest.cpp:169 says the two
  hex digits after a `%` are turned into the character they stand for, which
  is percent-decoding as section 2.1 of RFC 3986 defines it. The code at
  httprequest.cpp:163-167 instead keeps the `%` and overwrites the two hex
  characters with two decimal-digit characters; `PercentEscapeNotDecoded`
  shows this for `%41`.

## Model

| member | source | states |
|---|---|---|
| Buffers.SpaceMade | code/buffer/buffer.cpp:125-135 | The readable bytes survive makeSpace and at least len bytes become writable. When writable plus prependable space is at least len, the bytes are compacted to the front with the size kept. Otherwise the vector grows to writePos + len + 1 with nothing moved. |
| Buffers.Compacted | code/buffer/buffer.cpp:130-133 | Copying the readable bytes to the front puts them at [0, w - r) and leaves the bytes from w - r on as they were. |
| Buffers.Buffer.constructor | code/buffer/buffer.cpp:3-4 | A zeroed vector of the initial size with both cursors at 0, so nothing is readable. |
| Buffers.Buffer.ReadableBytes | code/buffer/buffer.cpp:6-8 | The count is the length of the readable region buffer[readPos..writePos]. |
| Buffers.Buffer.WritableBytes | code/buffer/buffer.cpp:10-12 | writePos plus the writable count is the size. |
| Buffers.Buffer.PrependableBytes | code/buffer/buffer.cpp:14-16 | Prependable, readable and writable counts add up to the size. |
| Buffers.Buffer.CursorViews | code/buffer/buffer.cpp:6-16 | The three views partition the storage: the prependable bytes, then the readable region, then the writable tail. |
| Buffers.Buffer.Retrieve | code/buffer/buffer.cpp:22-25 | Needs len <= readable; only readPos moves, by len; the readable region loses exactly its first len bytes. |
| Buffers.Buffer.RetrieveUntil | code/buffer/buffer.cpp:27-30 | readPos becomes end, and the bytes between the old peek and end are exactly what leaves the readable region. |
| Buffers.Buffer.RetrieveAll | code/buffer/buffer.cpp:32-36 | The storage is zeroed with its size kept, and both cursors are 0. |
| Buffers.Buffer.RetrieveAllToStr | code/buffer/buffer.cpp:38-42 | Returns exactly the old readable bytes and leaves the buffer zeroed and empty with its size kept. |
| Buffers.Buffer.HasWritten | code/buffer/buffer.cpp:52-54 | writePos advances by len, and the readable region gains the len stored bytes after it. |
| Buffers.Buffer.MakeSpace | code/buffer/buffer.cpp:125-135 | Storage and cursors become SpaceMade of the old ones, keeping the cursor invariant. |
| Buffers.Buffer.EnsureWriteable | code/buffer/buffer.cpp:76-81 | Afterwards at least len bytes are writable and the readable bytes are unchanged. With enough room nothing changes; otherwise the result is makeSpace's. |
| Buffers.Buffer.Append | code/buffer/buffer.cpp:65-70 | The readable region becomes the old one followed by str; an empty append changes nothing at all. |
| Buffers.Buffer.AppendBuffer | code/buffer/buffer.cpp:72-74 | The other buffer's readable bytes are appended to this one's. |
| Buffers.Buffer.ReadFd | code/buffer/buffer.cpp:83-104 | On a negative result the buffer and the peer's stream are unchanged and a positive errno is saved. Otherwise the readable region grows by exactly the next len bytes of the stream, in arrival order, whether or not they overflowed into the 65535-byte stack area. |
| Buffers.Buffer.WriteFd | code/buffer/buffer.cpp:106-115 | On error the cursors and the peer's stream are unchanged. Otherwise readPos advances by exactly the count written, and the peer receives the first len readable bytes. |
| HttpRequests.InitRequest | code/http/httprequest.cpp:17-22 | State REQUEST_LINE, all four strings empty, both maps empty. |
| HttpRequests.IndexFrom | code/http/httprequest.cpp:83-99 | The search result lies in [i, \|s\|] and, when inside s, holds the searched character. |
| HttpRequests.IndexOfFirst | code/http/httprequest.cpp:83-99 | No earlier character matches, and the search reaches the end exactly when the character is absent. |
| HttpRequests.FindCrlf | code/http/httprequest.cpp:38 | std::search for CRLF returns an index whose two bytes are CRLF, or the end of the readable bytes. |
| HttpRequests.FindCrlfFirst | code/http/httprequest.cpp:38 | No CRLF starts before the index FindCrlf returns. |
| HttpRequests.FindCrlfOfLine | code/http/httprequest.cpp:38-39 | A line without '\r' followed by CRLF is found as the first line. |
| HttpRequests.SplitRequestLine | code/http/httprequest.cpp:83-85 | Definition: the explicit splitter that stands for the request-line pattern. RequestLineSound, RequestLineComplete and RequestLineIff prove it returns exactly the pattern's submatches. |
| HttpRequests.RequestLineSound | code/http/httprequest.cpp:82-91 | Anything the request-line pattern matches is M SP P SP "HTTP/" V with no space in M, P or V. |
| HttpRequests.RequestLineComplete | code/http/httprequest.cpp:82-91 | Every line M SP P SP "HTTP/" V with no space inside the parts matches, with exactly M, P and V as submatches. |
| HttpRequests.RequestLineIff | code/http/httprequest.cpp:82-94 | Both directions: a line splits into (M, P, V) exactly when it has the request-line shape with those parts. |
| HttpRequests.SplitHeader | code/http/httprequest.cpp:97-99 | Definition: the explicit splitter that stands for the header pattern. HeaderLineSound and HeaderLineComplete prove it returns exactly the pattern's two submatches. |
| HttpRequests.HeaderLineSound | code/http/httprequest.cpp:96-103 | A match is a name without ':', a colon, at most one skipped space and a value without line terminators. A non-match has no colon, or a line terminator after its first colon. |
| HttpRequests.HeaderLineComplete | code/http/httprequest.cpp:96-100 | Name: value matches with exactly that name and value, with or without the one space after the colon. |
| HttpRequests.IsListed | code/http/httprequest.cpp:73-78 | Definition: the search of the loop over DEFAULT_HTML. IsListedIff proves it is membership in the list. |
| HttpRequests.IsListedIff | code/http/httprequest.cpp:73-78 | The loop over DEFAULT_HTML finds a route exactly when it is in the list. |
| HttpRequests.DefaultHtmlUnsuffixed | code/http/httprequest.cpp:3-10 | No DEFAULT_HTML route is "/" or already ends in ".html". |
| HttpRequests.NormalizePath | code/http/httprequest.cpp:69-80 | Definition of parsePath: "/" becomes "/index.html", a DEFAULT_HTML route gains ".html", any other path is kept. NormalizePathIdempotent proves that rewriting twice changes nothing more. |
| HttpRequests.NormalizePathIdempotent | code/http/httprequest.cpp:69-80 | Rewriting a rewritten path changes nothing more: "/" → "/index.html" and route → route + ".html" are never applied twice. |
| HttpRequests.CharCode | code/http/httprequest.cpp:116 | The value a signed 8-bit char holding the byte c has as int: c itself below 128, c - 256 for 128 to 255, and always in [-128, 128). |
| HttpRequests.ToChar | code/http/httprequest.cpp:165-166 | An int stored into a char keeps its value modulo 256. |
| HttpRequests.CDiv | code/http/httprequest.cpp:166 | C++ division by a positive divisor truncates toward zero: a - d * q lies in [0, d) when a >= 0 and in (-d, 0] when a < 0. |
| HttpRequests.CRem | code/http/httprequest.cpp:165 | C++ remainder: dividend = quotient * divisor + remainder, with the remainder taking the dividend's sign. |
| HttpRequests.ConverHex | code/http/httprequest.cpp:113-117 | 'A'-'F' and 'a'-'f' map to 10-15; every other character, digits included, maps to its own character code. |
| HttpRequests.PercentRewrite | code/http/httprequest.cpp:163-166 | Only positions i+1 and i+2 change. They become '0' + num / 10 and '0' + num % 10 of num = converHex(b[i+1]) * 16 + converHex(b[i+2]), and the '%' stays. |
| HttpRequests.ScanForm | code/http/httprequest.cpp:149-183 | Whenever the scan is defined, it keeps the body's length and ends with its segment start inside the body. |
| HttpRequests.Urlencoded | code/http/httprequest.cpp:137-192 | Definition: the reference decoder, with the empty-body return, the scan and the final store of a pending pair whose key is new. FormDecodesPairs and FormDecodesTextPairs characterise it on joined pairs, and ParseFromUrlencoded is proved equal to it. |
| HttpRequests.StoredPairs | code/http/httprequest.cpp:149-190 | Definition: the map expected from k1=v1&…&kn=vn. Every pair but the last is stored in order, a later one replacing an earlier one; the last is stored only when its key is new and its value non-empty. |
| HttpRequests.ScanSkipsPlain | code/http/httprequest.cpp:179-180 | Characters other than = & + % leave the scan state untouched. |
| HttpRequests.ScanPairs | code/http/httprequest.cpp:149-183 | Scanning k1=v1&…&kn=vn stores every pair but the last, in order, and leaves the last key pending at the last value's start. |
| HttpRequests.LastValueOffset | code/http/httprequest.cpp:187-188 | The last value of a joined body starts at this offset and runs to the end. |
| HttpRequests.StoredPairsSplit | code/http/httprequest.cpp:187-190 | The reference map is all pairs but the last, plus the last pair only when its key is new and its value non-empty. |
| HttpRequests.FormDecodesPairs | code/http/httprequest.cpp:137-192 | On a body of plain pairs, including the empty body, the decoder leaves the body unchanged and stores exactly the reference map StoredPairs. A later pair replaces an earlier one; the last pair is stored only if its key is new and its value non-empty. |
| HttpRequests.ScanNoPercent | code/http/httprequest.cpp:149-183 | On a body without '%', scanning ends in the same state as scanning the body whose remaining '+' are already spaces. |
| HttpRequests.UrlencodedSpaced | code/http/httprequest.cpp:137-192 | On a body without '%', decoding gives what decoding the body with every '+' turned into a space gives. |
| HttpRequests.FormDecodesTextPairs | code/http/httprequest.cpp:137-192 | On a body of pairs whose keys and values may hold '+' but no '=', '&' or '%', the decoder turns every '+' of the body into a space and stores exactly StoredPairs of the pairs with '+' spaced. |
| HttpRequests.PlusBecomesSpace | code/http/httprequest.cpp:158-160 | b=x+y gives the body b=x y and stores "x y" for b. |
| HttpRequests.PercentEscapeNotDecoded | code/http/httprequest.cpp:163-168 | c=%41 stores "%", '0' + 88 and "1" for c, not "A": the escape is not percent-decoded. |
| HttpRequests.UserVerify | code/http/httprequest.cpp:194-197 | An empty name or password never verifies; otherwise the credential store decides. |
| HttpRequests.WithKey | code/http/httprequest.cpp:120 | Reading m[k] through operator[] inserts k with an empty value when missing and keeps every other entry. |
| HttpRequests.LoginRedirect | code/http/httprequest.cpp:119-135 | A form POST to /register.html or /login.html ends on /welcome.html exactly when both username and password are non-empty and the store accepts them (isLogin for /login.html), otherwise on /error.html. |
| HttpRequests.RequestLineStep | code/http/httprequest.cpp:82-94 | Definition of parseRequestLine: on a match, method, path and version are set and the state is HEADERS; otherwise no request. |
| HttpRequests.HeaderStep | code/http/httprequest.cpp:96-104 | Definition of parseHeader: a matching line stores name → value; any other line moves to BODY. |
| HttpRequests.PostStep | code/http/httprequest.cpp:119-135 | Definition of parsePost: the Content-Type lookup, the form decoding and the login/register redirect. LoginRedirect and PostOnlyForForms prove what it does. |
| HttpRequests.BodyStep | code/http/httprequest.cpp:106-111 | Definition of parseBody: the line becomes the body, PostStep runs, and the state is FINISH. |
| HttpRequests.HandleLine | code/http/httprequest.cpp:40-58 | Definition of one pass of the switch. HandleLineAdvances, RequestLineHandled, HeaderLineHandled, HeadersLineOutcome and BlankLineAtEnd prove its outcomes. |
| HttpRequests.PostOnlyForForms | code/http/httprequest.cpp:119-121 | A non-POST request is untouched. A POST that is not a form only gains an empty Content-Type header when it had none. |
| HttpRequests.HandleLineAdvances | code/http/httprequest.cpp:40-58 | No step of the switch returns to REQUEST_LINE. |
| HttpRequests.RequestLineHandled | code/http/httprequest.cpp:41-46 | A request line sets method, rewritten path and version and moves to HEADERS. |
| HttpRequests.HeaderLineHandled | code/http/httprequest.cpp:47-51 | In HEADERS, with more than two bytes readable, a header line stores name → value and stays in HEADERS. |
| HttpRequests.BlankLineAtEnd | code/http/httprequest.cpp:47-51 | The blank line that is the last two readable bytes moves HEADERS to FINISH. |
| HttpRequests.HeadersLineOutcome | code/http/httprequest.cpp:47-51 | In HEADERS, any line with at most two readable bytes left moves to FINISH, whatever it holds. With more left, a header line stays in HEADERS and any other line moves to BODY. Only the header map can change besides the state. |
| HttpRequests.ParseLoop | code/http/httprequest.cpp:37-63 | Definition of the while loop: an empty buffer or a FINISH request ends it with true; otherwise LoopLine runs on the first line. |
| HttpRequests.LoopLine | code/http/httprequest.cpp:38-39 | Definition: the line runs up to the first CRLF, or to the end of the readable bytes. |
| HttpRequests.LoopSwitch | code/http/httprequest.cpp:40-63 | Definition: the switch on that line, then a stop on a fragment or the consumption of the line and its CRLF. ParseLoopFailed, ParseLoopFragment, ParseLoopNext and ParseLoopStops prove its cases. |
| HttpRequests.ParseLoopFailed | code/http/httprequest.cpp:41-44 | A request line that does not match ends the parse with false, the request unchanged and nothing consumed. |
| HttpRequests.ParseLoopFragment | code/http/httprequest.cpp:38-62 | A last fragment without CRLF is handed to the handler and ends the loop, unconsumed. |
| HttpRequests.ParseLoopNext | code/http/httprequest.cpp:38-63 | A complete handled line is consumed with its CRLF and the loop goes on with the bytes after it. |
| HttpRequests.ParseLoopStops | code/http/httprequest.cpp:40-62 | A failed line or a fragment ends the loop with nothing consumed. |
| HttpRequests.ParseLoopDefined | code/http/httprequest.cpp:53-55 | A loop that is defined never reaches a body whose decoding would read past its end. |
| HttpRequests.LoopInvariantKept | code/http/httprequest.cpp:60-63 | Consuming a handled line keeps the loop's eventual result, with the line counted as consumed. |
| HttpRequests.LoopSucceedsPastRequestLine | code/http/httprequest.cpp:47-58 | Once past REQUEST_LINE the loop never returns false. |
| HttpRequests.ParseSpec | code/http/httprequest.cpp:31-67 | Definition of parse: false on an empty buffer, otherwise the loop. ParseFailsIff and ParseConsumesLines prove its result and consumption. |
| HttpRequests.ParseFailsIff | code/http/httprequest.cpp:31-67 | parse returns false exactly when the buffer is empty or, from REQUEST_LINE, the first line is not a request line; true otherwise. |
| HttpRequests.ParseConsumesLines | code/http/httprequest.cpp:60-63 | parse consumes a prefix of the readable bytes made of whole lines: nothing, or up to and including a CRLF. |
| HttpRequests.FirstLineParsed | code/http/httprequest.cpp:41-63 | From init(), a request line followed by CRLF is consumed with its CRLF, and the loop goes on in HEADERS with the three fields set. |
| HttpRequests.HeaderFragmentLoop | code/http/httprequest.cpp:47-62 | A header fragment without CRLF, last in HEADERS, is stored as a header, and nothing is consumed. |
| HttpRequests.FragmentParsedAsHeader | code/http/httprequest.cpp:31-67 | A request whose header arrives cut short parses with true. The partial value is stored and only the request line is consumed. The request is keep-alive only when the partial value is exactly keep-alive. |
| HttpRequests.KeepAlive | code/http/httprequest.cpp:24-29 | Defining rule, not a derived property: true exactly when header Connection is "keep-alive" and the version is "1.1". |
| HttpRequests.KeepAliveOneHeader | code/http/httprequest.cpp:24-29 | With a single header, keep-alive holds exactly for Connection: keep-alive and version 1.1. |
| HttpRequests.HttpRequest.constructor | code/http/httprequest.cpp:17-22 | A new request is in the init() state. |
| HttpRequests.HttpRequest.Init | code/http/httprequest.cpp:17-22 | The fields become InitRequest(): strings empty, REQUEST_LINE, maps cleared. |
| HttpRequests.HttpRequest.IsKeepAlive | code/http/httprequest.cpp:24-29 | The object's answer is the KeepAlive rule on its fields. |
| HttpRequests.HttpRequest.GetPost | code/http/httprequest.cpp:273-279 | Defining rule, not a derived property: for a non-empty key, the stored value, or "" when the key is not stored. |
| HttpRequests.HttpRequest.ParseRequestLine | code/http/httprequest.cpp:82-94 | Returns true exactly when the line matches. On a match method, path and version are set and the state is HEADERS; otherwise nothing changes. |
| HttpRequests.HttpRequest.ParsePath | code/http/httprequest.cpp:69-80 | The path becomes its rewritten form. |
| HttpRequests.HttpRequest.ParseHeader | code/http/httprequest.cpp:96-104 | A matching line stores name → value, the last value winning. Any other line switches to BODY and stores nothing. |
| HttpRequests.HttpRequest.ParseBody | code/http/httprequest.cpp:106-111 | The line becomes the body, parsePost runs and the state is FINISH. |
| HttpRequests.HttpRequest.ParsePost | code/http/httprequest.cpp:119-135 | The fields become PostStep's result: the Content-Type insertion, the form decoding and the login/register redirect. |
| HttpRequests.HttpRequest.ParseFromUrlencoded | code/http/httprequest.cpp:137-192 | The in-place loop over i and j rewrites the body and fills the map exactly as the reference decoder Urlencoded does. An empty body changes nothing. |
| HttpRequests.HttpRequest.HandleCurrentLine | code/http/httprequest.cpp:40-58 | One pass of the switch leaves the fields as HandleLine says, and reports whether the line was accepted. |
| HttpRequests.HttpRequest.ParseNextLine | code/http/httprequest.cpp:38-63 | One pass of the while loop. A failed line or a fragment stops with nothing consumed. A complete line is consumed with its CRLF, keeping the loop's eventual result. |
| HttpRequests.HttpRequest.Parse | code/http/httprequest.cpp:31-67 | The return value, the fields and the number of bytes consumed from the buffer are exactly those of the reference parse ParseSpec. |
| HttpConns.Drain | code/http/httpconn.cpp:76-87 | After a writev of len bytes the two spans hold exactly len fewer. Up to the header span's length only the header span advances; past it the header span is emptied and the file span advances by the excess. |
| HttpConns.HttpConn.Offered | code/http/httpconn.cpp:68 | writev is offered the first iovCnt spans, never more than toWriteBytes. |
| HttpConns.HttpConn.IsKeepAlive | code/http/httpconn.h:45-47 | The connection's keep-alive flag is its request's. |
| HttpConns.HttpConn.ToWriteBytes | code/http/httpconn.h:42-44 | Definition of toWriteBytes: the lengths of both spans, iov[1] included even when iovCnt is 1. Drain, Offered and Write state how it falls. |
| HttpConns.HttpConn.constructor | code/http/httpconn.cpp:7-11 | A new connection is closed with fd -1 and two fresh, distinct, empty buffers; the spans are left without a value. |
| HttpConns.HttpConn.Init | code/http/httpconn.cpp:17-26 | userCount grows by one, both buffers are emptied and zeroed, and the connection is open on fd. |
| HttpConns.HttpConn.Close | code/http/httpconn.cpp:28-36 | The file is always unmapped. Only an open connection is uncounted and has its descriptor closed, so a second close changes nothing. |
| HttpConns.HttpConn.Read | code/http/httpconn.cpp:54-63 | The readable bytes grow by exactly the prefix taken from the peer's stream. In ET mode the loop ends only on a result <= 0. In LT mode readFd runs once: a result len >= 0 took exactly len bytes, and a failure took none. A negative result carries a positive errno. |
| HttpConns.HttpConn.Advance | code/http/httpconn.cpp:76-87 | The spans become Drain's result. The write buffer drops exactly the header bytes sent, or all of them (retrieveAll) once the header span is passed, so the header span keeps covering the buffer's readable bytes. What stays readable is a suffix of the bytes it was handed and sits `dropped` bytes further into them. |
| HttpConns.HttpConn.Write | code/http/httpconn.cpp:65-90 | toWriteBytes falls by exactly the bytes the writev calls took, as the kernel counts them for the descriptor, and no other descriptor's count changes. The write buffer's readable bytes are the old ones with just their first `dropped` removed. The header span drains before the file span moves. A loop ending with len > 0 was in LT mode with at most 10240 bytes left. |
| HttpConns.HttpConn.Respond | code/http/httpconn.cpp:103-114 | iov[0] covers exactly the write buffer's readable bytes. iovCnt is 2 with iov[1] on the file only for a non-null, non-empty mapping; otherwise iovCnt is 1 and iov[1] keeps its old value. |
| HttpConns.HttpConn.Process | code/http/httpconn.cpp:92-117 | The request is reset. With nothing to read it returns false and builds nothing. Otherwise it returns true with the request and consumption of the reference parse, and a response of code 200 with the request's keep-alive flag, or 400 without keep-alive. The write buffer keeps its old readable bytes as a prefix. |
| HttpConns.HttpResponse.Init | code/http/httpresponse.h:33 | The response records the directory, path, keep-alive flag and code it was given. |
| HttpConns.HttpResponse.MakeResponse | code/http/httpresponse.h:39 | The response text is appended to the buffer after what was readable. |
| HttpConns.HttpResponse.UnmapFile | code/http/httpresponse.h:44 | No file is mapped afterwards. |
| Kernel.Os.Writev | code/http/httpconn.cpp:68 | writev takes at most the bytes offered, or fails with a positive errno and takes none. It adds what it took to the descriptor's count and leaves every other descriptor's count. |
| Kernel.Os.EpollAdd | code/server/epoller.cpp:11-17 | A non-negative, unregistered descriptor joins the interest list with the mask; otherwise the call fails and nothing changes. |
| Kernel.Os.EpollMod | code/server/epoller.cpp:19-25 | A registered descriptor gets the new mask; otherwise nothing changes. |
| Kernel.Os.EpollDel | code/server/epoller.cpp:27-31 | A registered descriptor leaves the interest list. |
| WebServers.ListenMask | code/server/webServer.cpp:50-71 | The listen mask always has RDHUP and nothing but RDHUP and ET. ET is set exactly when trigMode is neither 0 nor 1. |
| WebServers.ConnMask | code/server/webServer.cpp:50-71 | The connection mask always has ONESHOT and RDHUP and nothing but those and ET. ET is set exactly when trigMode is neither 0 nor 2. |
| WebServers.WebServer.InitEventMode | code/server/webServer.cpp:50-72 | The switch leaves the two masks of ListenMask and ConnMask, and isET is the connection mask's ET bit. |
| WebServers.Dispatch | code/server/webServer.cpp:88-101 | Definition of the routing of one ready event. DispatchRoutes proves each route's condition. |
| WebServers.DispatchRoutes | code/server/webServer.cpp:88-101 | Each route is taken exactly when its condition holds: listen fd first, then RDHUP/HUP/ERR, then IN, then OUT, and nothing otherwise. |
| WebServers.TaskFor | code/server/webServer.cpp:93-98 | One event yields at most one task: onRead for a read event, onWrite for a write event, bound to that descriptor's user. |
| WebServers.Queued | code/server/webServer.cpp:85-102 | A round queues at most one pool task per event, each bound to a known user. |
| WebServers.QueuedStep | code/server/webServer.cpp:85-102 | The queue grows by one event's task at a time, in event order. |
| WebServers.TaskForExtends | code/server/webServer.cpp:122-124 | Adding users, as the accept loop does, does not change an event's task for a known user. |
| WebServers.WaitTimeout | code/server/webServer.cpp:75-84 | The wait timeout is the timer's next tick when timers are on, and stays at its previous value, initially -1, otherwise. |
| WebServers.ReadOutcome | code/server/webServer.cpp:172-177 | The connection is closed exactly when read returned <= 0 with an errno other than EAGAIN; otherwise the input is processed. |
| WebServers.ProcessMask | code/server/webServer.cpp:181-185 | Definition of the re-arm mask: the connection mask plus OUT after a response, plus IN otherwise. ProcessMaskBits proves which bits it holds. |
| WebServers.ProcessMaskBits | code/server/webServer.cpp:180-186 | The re-armed mask keeps every bit of the connection mask. It adds OUT after a response and IN when there was nothing to read, and exactly one of the two for a mask that had neither. |
| WebServers.WriteOutcome | code/server/webServer.cpp:192-205 | Process again exactly when nothing is left on a keep-alive connection. Re-arm OUT exactly when bytes are left and the write failed with EAGAIN. Close in every other case, including a partial write with ret >= 0 and a finished write that is not keep-alive. |
| WebServers.Rearmed | code/server/epoller.cpp:19-25 | modFd changes the mask of a registered descriptor only, and keeps the set of registered descriptors. |
| WebServers.Timer.constructor | code/server/webServer.cpp:11 | A new timer has nothing armed. |
| WebServers.Timer.Add | code/server/webServer.cpp:125-127 | The descriptor's timeout is recorded. |
| WebServers.Timer.Adjust | code/server/webServer.cpp:163-165 | The descriptor's timeout is replaced. |
| WebServers.WebServer.constructor | code/server/webServer.cpp:3-41 | No users and no tasks yet, userCount 0 and srcDir set, with the masks of trigMode. The server is closed exactly when initSocket fails; otherwise the listening socket is registered with the listen mask and IN. |
| WebServers.WebServer.InitSocket | code/server/webServer.cpp:208-270 | A port outside [1024, 65535] is refused before any socket call, with nothing changed. Success needs a valid, bound socket that joins the interest list with the listen mask and IN. A failure after socket() closes it. |
| WebServers.WebServer.SendError | code/server/webServer.cpp:106-113 | At most the message is sent, as a prefix of it, no other descriptor's output changes, and the descriptor is closed. |
| WebServers.WebServer.CloseConn | code/server/webServer.cpp:115-120 | The descriptor leaves the interest list and the connection is closed: uncounted and its descriptor closed only when it was open. |
| WebServers.WebServer.ExtentTime | code/server/webServer.cpp:161-166 | The timer is adjusted to timeoutMS only when timers are on. |
| WebServers.WebServer.DealRead | code/server/webServer.cpp:149-153 | The timer is extended and exactly one onRead task for the client is queued. |
| WebServers.WebServer.DealWrite | code/server/webServer.cpp:155-159 | The timer is extended and exactly one onWrite task for the client is queued. |
| WebServers.WebServer.UserSlot | code/server/webServer.cpp:124 | m_users[fd] yields the existing user, or a fresh one added to the map, and keeps every other user. |
| WebServers.WebServer.AddClient | code/server/webServer.cpp:122-131 | The user for fd is initialised: open, counted, with empty buffers. A timer is added only when timers are on, and fd joins the interest list with IN and the connection mask. The other users are kept. |
| WebServers.WebServer.Register | code/server/webServer.cpp:125-128 | The timer, only when timers are on, then the interest list with IN and the connection mask. |
| WebServers.WebServer.AcceptOne | code/server/webServer.cpp:137-145 | The next waiting connection is taken. The pass stops exactly on a descriptor <= 0 or a full server, and a refused descriptor is sent a prefix of "Server busy" and closed, with no other output. Otherwise the descriptor becomes a counted user and no user is lost. |
| WebServers.WebServer.DealListen | code/server/webServer.cpp:133-147 | Accepts a prefix of the waiting connections: at most one in LT mode, and in ET mode until accept fails or the server is full. A refusal happens only at MAX_FD: the refused descriptor is sent a prefix of "Server busy" and closed, and it is the only output of the loop. The loop never takes userCount above MAX_FD (nor above its old value, if that was higher). |
| WebServers.WebServer.OnProcess | code/server/webServer.cpp:180-186 | After process, the descriptor is re-armed with the connection mask plus OUT when there was input to answer, and plus IN otherwise. |
| WebServers.WebServer.Rearm | code/server/webServer.cpp:181-185 | modFd with connEvent plus OUT or IN, as ProcessMask says. |
| WebServers.WebServer.OnRead | code/server/webServer.cpp:168-178 | Exactly what ReadOutcome says happens: a close that drops the descriptor from the interest list, or processing followed by the re-arm for what has been read. A close of an open connection lowers the user count by one; processing leaves the count and the closed flag alone. |
| WebServers.WebServer.OnWrite | code/server/webServer.cpp:188-206 | Exactly what WriteOutcome says happens: close, re-arm OUT, or process again with its re-arm. A close of an open connection lowers the user count by one; the other outcomes leave the count and the closed flag alone. What is left is toWriteBytes less the bytes the kernel counts as taken by writev. |
| WebServers.WebServer.Round | code/server/webServer.cpp:80-103 | One pass of start's loop: the wait timeout of WaitTimeout, then the queue grows by exactly Queued of the ready events, in order. Users are never lost. |
| WebServers.WebServer.DealEvent | code/server/webServer.cpp:86-101 | One ready event, by the route Dispatch picks: the queue grows by exactly that event's TaskFor, and users are never lost. On the listening socket the accepted descriptors are a prefix of the backlog, at most one in LT mode; an ET loop ends on an empty backlog, a refusal or a failed accept; a refused descriptor is closed after receiving a prefix of "Server busy", and otherwise nothing is sent. A hang-up or error closes the user, drops it from the interest list and, if it was open, lowers the user count by one. A read, write or unexpected event leaves the kernel state, the users and the count unchanged. |

## Left out

- Logging is not modelled: the LOG_* macros and the log writer are no-ops.
- Concurrency is not modelled. The thread pool is a FIFO sequence of tasks
  and nothing runs them concurrently; how the threads and the locked queue
  interleave is not modelled, and neither are the `std::atomic` qualifiers
  on the buffer cursors and the user counter.
- The credential store (MySQL) behind `userVerify` is an uninterpreted
  function `verify`. Only the guard that rejects an empty name or password
  is modelled.
- `HttpResponse` is abstract: httpresponse.cpp is not part of this model.
  `makeResponse` appends some text and maps some file, chosen freely.
  Status tables, MIME types, stat and mmap are not modelled.
- The heap timer (timer/heaptimer.h) is not part of this model. The timer
  records, per descriptor, the timeout last asked for. Expiry, its callback
  and `getNextTick` are not modelled; the next tick is a parameter of `Round`.
- Socket plumbing is left out. `socket`, `setsockopt`, `bind` and `listen`
  in `initSocket` are the `sock` and `bound` parameters; `setFdNonblock`,
  `sockaddr_in`, `getIP` and `getPort` are left out.
- The destructor of `WebServer` and the working-directory and SQL-pool setup
  in its constructor are not modelled.
- `start` is modelled as one pass of its `while (!m_isClose)` loop (`Round`).
  `epoll_wait` supplies the ready events as a parameter.
- The EPOLLONESHOT disarming done by the kernel after an event is not
  modelled: the interest list keeps the mask until it is modified or closed.
- `writev` reports only a count, which the kernel adds up per descriptor;
  the bytes from the two spans that reach the peer are not tracked.
- The end-of-transfer test at httpconn.cpp:73 is modelled as written. It
  follows a writev that took at least one byte, so it never holds. The model
  has no lemma saying so, but `Write`'s `len > 0 ==> !statics.isET` shows
  that the test never ends an edge-triggered loop.
- `toWriteBytes` converts `size_t` to `int`, which can truncate; the model
  keeps the exact sum.
- `HttpConn.Write` and `OnWrite` require the connection to be in the state
  `process` leaves (`Ready`). `iov[1]` may then hold a stale span from an
  earlier response, and `toWriteBytes` counts it even when iovCnt is 1, as
  the code does. The uninitialised `iov[1]` of a connection that never
  processed anything is not given a value.
- `Parse`, `Process`, `OnProcess` and `OnWrite` require that the form decoder
  does not index past the body. The source reads past the end of the string
  for a '%' within two characters of the end of a form body; the model makes
  that reference undefined (`ScanPercentAtEnd`) and requires it away.
  `OnRead` requires the same of every amount the read might take
  (`ParsableAfterRead`).
- Characters: a `char` of the model stands for one byte of the source's
  `char`. Dafny's `char` goes up to U+10FFFF, so only values below 256
  correspond to inputs the source can see. The sign of the source's 8-bit
  `char` is modelled only where it shows, in `CharCode`.
- Round: it states only the wait timeout, the queue and that users are kept;
  `DealEvent` states each event's effect. There is no per-batch statement
  that hung-up users end closed, because a descriptor closed by one event can
  be accepted again by a later event of the same batch.
- DealListen: it does not state that every accepted descriptor became a
  user. `AcceptOne` states that for each pass instead.
- Write: it does not state the bytes the peer receives, because `writev`'s
  data is not tracked; only their count is.
