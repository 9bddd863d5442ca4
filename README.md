# HTTP/1.1 framing in a small Python client and server

The repository has a threaded HTTP/1.1 file server (`Server/server.py`) and a
command-line client (`Client/client.py`). Neither uses an HTTP library: both
build and read messages by hand from a socket's octets. This project models
that hand-written protocol code in Dafny and proves what it does.

- **Framing.** The server's `Separator` and the client's `Response` are
  nearly the same class, so they are modelled once. `Framing.Framer` is
  parameterised by `Frames.Side`.
  - The framer reads the header one octet at a time until CR LF CR LF has
    arrived (modelled by `Framing.ReadThrough`).
  - It takes the status token and the header map from the header.
  - It then reads a chunked body when `Transfer-Encoding` is present, else
    exactly `Content-Length` octets in reads of at most 1024, else no body.
  - The socket is a `Transport.Stream`: the peer's octets, a read position,
    and how many octets are already buffered.
  - A `recv(n)` returns anywhere from 1 to `min(n, remaining)` octets. The
    drain `empty_socket` discards what is buffered.
  - Each imperative method is proved against a specification function on the
    octets still to come: `Frames.ScanHeader`, `Frames.ReadHead`,
    `Frames.Chunked`, `Frames.LengthBody`, `Frames.FrameBody` and
    `Frames.Frame`.
- **The server.**
  - `Request.parse` is the method `ServerRequest.ParseRequest`, proved
    equal to the function `ServerRequest.RequestOf`.
  - The `getattr` dispatch is the closed table in `Handlers`.
  - `response_line` and `response_headers` are in `Responses`. The header
    dictionary is a list of pairs, because insertion order is what the
    response shows.
  - The handlers work on a file map, in `Handlers`.
  - The keep-alive loop of `ServerThread.run` is `ServerLoop.Serve`. It is
    proved against `ServerLoop.Replay`, which answers a sequence of framed
    requests in turn.
- **The client.**
  - `Request` is the class `ClientRequest.Request`, covering the target
    split, the port, `make_request` and `change_resource`.
  - The `src` rules of `import_images` and the image-import test of `main`
    are in `ClientMain`.
- **Both sides together.** `Exchange` proves that the octets the client's
  `make_request` writes are framed and parsed by the server as the same
  method, target and body.

Inputs the programs take from outside are parameters of the model:
- the date text of `formatdate`;
- the MIME guess of `mimetypes.guess_type`;
- the path extractor `urlparse(...).path`;
- the file to upload, which the client asks for with `input()`;
- the directory tree, as a map from path to contents.

The model follows the code wherever the repository's own description of it
says otherwise:
- A peer that closes inside a body makes the size-line, chunk and
  `Content-Length` read loops wait forever in the code, and `empty_socket`
  spins once the close has arrived. The model reports each of these as
  `Hangs` rather than as a connection error.
- The header loop alone stops at the close (`if not chunk: break`). What
  arrived up to then is read as the header, as the code does.
- The code has no conditional requests and no 412 or 505 responses, so the
  model has none. The 304 reason phrase is in the status table, but no
  handler sends it.

## Model

| member | source | states |
|---|---|---|
| Bytes.EncodeDecode | Server/server.py:46-62 | Decoding the received header and encoding it again gives back the same octets. |
| Bytes.DecodeConcat | Server/server.py:46 | Decoding distributes over concatenation, so the text of a header block is the text of its parts. |
| Text.Find | Client/client.py:24 | `find` returns the first index where the needle occurs, and `None` exactly when it occurs nowhere. |
| Text.RFind | Server/server.py:148 | `rfind` returns the last index where the needle occurs, and `None` exactly when it occurs nowhere. |
| Text.SplitJoin | Server/server.py:120 | Joining the pieces of `split(sep)` with `sep` gives back the text. |
| Text.SplitPiecesFree | Server/server.py:120 | No piece of `split(sep)` contains `sep`. |
| Text.SplitLines | Server/server.py:132 | No line of `splitlines()` holds a line boundary character. |
| Text.ParseRendered | Server/server.py:58 | A number written in decimal or hexadecimal reads back as that number under `int(s, base)`. |
| Text.ParseSizeLine | Server/server.py:70 | A hexadecimal size followed by CR LF reads back as that size, as `int` strips the line end. |
| Transport.Stream.Recv | Server/server.py:79-86 | A `recv(n)` returns the next 1 to `n` octets of what the peer sends (none only at the end, when the peer's close has arrived), moves the position past them, and logs a request for `n`. |
| Transport.Stream.Drain | Server/server.py:14-19 | `empty_socket` discards exactly what is buffered, one octet per request. It spins for good exactly when the peer's close has arrived, and then everything the peer sent has been received. |
| HeaderFields.FieldsOfHas | Server/server.py:52-53 | A key is in the header map exactly when some line holds `:` and has that key before its first `:`. |
| HeaderFields.FieldsOfLastWins | Server/server.py:52-53 | The value of a key is the stripped text after the first `:` of the last line that defines it. |
| HeaderFields.StatusToken | Server/server.py:49 | The second word of the start line exists exactly when the start line holds a space. |
| HeaderFields.FirstLine | Server/server.py:49 | The start line is a prefix of the header text. |
| Frames.ScanTo | Server/server.py:41-44 | The one-octet scan takes a prefix of what the peer sends. |
| Frames.HeaderStopsAtFirstBlankLine | Server/server.py:41-44 | When CR LF CR LF arrives, the header ends with it and has no earlier CR LF CR LF; otherwise the header is everything the peer sent. |
| Frames.ReadHeadFields | Server/server.py:46-60 | The head's code is the status token, chunking is the presence of `Transfer-Encoding`, and the length is `Content-Length` in decimal. Reading fails exactly for a start line without a space, or else for a non-numeric `Content-Length`. |
| Frames.EncodingDetected | Client/client.py:129-134 | The encoding is `UTF-8` or `ISO-8859-1`. The server keeps `ISO-8859-1`; the client takes `UTF-8` exactly when `Content-Type` contains it, case-sensitively. |
| Frames.LengthBody | Server/server.py:90-102 | A `Content-Length` body is exactly `n` octets from the front (none for `n <= 0`), and exists exactly when that many octets arrive. |
| Frames.SizeLine | Server/server.py:66-70 | A size line ends after its first CR LF and is at least that CR LF long. |
| Frames.SizeLineRead | Server/server.py:66-70 | The size line's length is that of the octets up to the first CR LF, and its value is that text read in hexadecimal. |
| Frames.ChunkedBadLine | Server/server.py:70 | A size line that is not hexadecimal ends chunked decoding with an error. |
| Frames.ChunkedLastLine | Server/server.py:73-75 | A size of 0 ends decoding with nothing added, the size line being the last octets counted before the final `recv(2)`. |
| Frames.ChunkedShort | Server/server.py:76-86 | A non-zero chunk whose `n + 2` octets never all arrive leaves the read loop stuck. |
| Frames.ChunkedNext | Server/server.py:76-88 | A non-zero chunk of size `n` contributes all of its `n + 2` octets, trailing CR LF included, and decoding resumes right after them. |
| Frames.ChunkedTakesPrecedence | Server/server.py:31-34 | With `Transfer-Encoding` present the body is chunked, whatever `Content-Length` says. |
| Frames.NoLengthNoBody | Server/server.py:31-34 | With neither header, nothing after the header is used and the body is empty. |
| Frames.LengthBodyExact | Server/server.py:90-102 | A `Content-Length` of `n` takes exactly the first `n` octets after the header as the body. |
| Frames.ChunkedWithin | Server/server.py:64-88 | A decoded chunked body never counts more octets than the peer sent. |
| Frames.ChunkedRoundTrip | Server/server.py:64-88 | Chunks written in the chunked encoding decode to the chunks each followed by CR LF, using exactly the encoded octets. |
| Frames.FrameParts | Server/server.py:30-34 | A framed message is its header and then the body framing found after it; its length is the header's plus the body's. |
| Frames.FrameConsumes | Server/server.py:30-34 | A framed message uses at least one and at most all of the octets the peer sent. |
| Frames.FrameOf | Server/server.py:30-34 | A header that reads, followed by a body that frames, is the framed message. |
| Framing.InspectFields | Server/server.py:56-60 | The loop over the header map finds the length, chunking and encoding that `Frames.FieldsHead` defines, or the `int` error. |
| Framing.InspectHeader | Server/server.py:46-60 | Decoding the header, taking the status token and passing over the fields give exactly `Frames.ReadHead`, the missing token and the `int` error included. |
| Framing.ReadThrough | Server/server.py:41-44 | The one-octet loop receives exactly the scan up to the terminator, and reports whether it arrived; every request is for one octet. |
| Framing.ReadExactly | Server/server.py:94-100 | The counted loop receives exactly `Frames.LengthBody`'s octets, asking for at most 1024 at a time, or reports that the peer closed first. |
| Framing.ReceiveSizeLine | Server/server.py:67-70 | The size-line loop receives exactly `Frames.SizeLine`'s octets and its value. |
| Framing.ReceiveChunk | Server/server.py:66-88 | One turn of the chunked loop receives a last size line, a whole chunk as `Frames.Chunked` unfolds it, or the error it stops with. |
| Framing.Framer.constructor | Server/server.py:23-28 | A framer starts with no header or body, no code or length, not chunked, and `ISO-8859-1`. |
| Framing.Framer.ReceiveHeader | Server/server.py:36-62 | The header is `Frames.ScanHeader` of what the peer sends; code, length, chunking and encoding are what `Frames.ReadHead` reads from it, or its error is returned. |
| Framing.Framer.ReceiveChunkedBody | Server/server.py:64-88 | The body grows by what `Frames.Chunked` decodes, using its octets plus at most the final 2; a bad size or an early close is the error. |
| Framing.Framer.ReceiveContentLengthBody | Server/server.py:90-103 | The body is what `Frames.LengthBody` gives, or `Hangs` when the peer closed first. After it the buffer is drained, and the outcome is `Hangs` exactly when the peer's close had arrived, because `empty_socket` then spins. |
| Framing.Framer.ReceiveBody | Server/server.py:31-34 | The body is `Frames.FrameBody` of what follows: chunked, else by length, else nothing with no octet received. A length body ends in `Hangs` exactly when the peer's close had arrived by the drain. The header fields are unchanged. |
| Framing.Framer.Receive | Server/server.py:23-34 | A whole `Separator`: the header and the fields as `Frames.ReadHead` reads them, then, only when the header was read, the body as `Frames.FrameBody` frames it, with each error and the drain's `Hangs`; the extra out-parameters are the header's own outcome, its `Frames.ReadHead` result, and where its body starts. |
| ServerRequest.ParseRequest | Server/server.py:119-144 | The pass over the request line and the header map yields exactly `ServerRequest.RequestOf`, including the `IndexError` of a short request line. |
| ServerRequest.HostFlag | Server/server.py:134-136 | The Host flag is set exactly when some header line defines `Host`. |
| ServerRequest.KeepAliveByDefault | Server/server.py:110 | Without a `Connection` line the connection is kept. |
| ServerRequest.KeepAliveByLastLine | Server/server.py:137-139 | The connection is kept exactly when the last `Connection` value is not exactly `close`. |
| ServerRequest.EncodingByLastLine | Server/server.py:140-144 | The encoding is `utf-8` when the last `Content-Type` value contains `utf-8`, and `iso-8859-1` otherwise. |
| ServerRequest.EncodingByDefault | Server/server.py:111 | Without `Content-Type` the encoding is `iso-8859-1`. |
| ServerRequest.DecodeSplit | Server/server.py:120-122 | Splitting octets and then decoding the pieces equals decoding and then splitting the text. |
| ServerRequest.WordsAgree | Server/server.py:120-125 | The words of the request line split as octets are those of the decoded start line split as text. |
| ServerRequest.TargetIsStatusToken | Server/server.py:125-128 | The URI `parse` records is the second word of the start line, the same token the framer read as the status code. |
| Responses.Lookup | Server/server.py:235 | A key is found exactly when it is in the list, and its value is that of an entry with that key. |
| Responses.PutLookup | Server/server.py:235 | After setting `k` to `v`, `k` maps to `v` and every other key is unchanged. |
| Responses.PutKeys | Server/server.py:235 | Setting a key adds that key and no other. |
| Responses.PutUnique | Server/server.py:235 | Setting a key keeps the keys distinct. |
| Responses.PutKeepsOrder | Server/server.py:235 | Setting a key keeps every existing key in its place. |
| Responses.OverrideKeys | Server/server.py:232-235 | The updated copy has distinct keys, and its keys are exactly the defaults' and the extras'. |
| Responses.OverrideKeepsOrder | Server/server.py:232-235 | Updating keeps the default keys first, in their order. |
| Responses.OverrideLookup | Server/server.py:232-235 | An extra's value wins over a default's; other keys keep their default value. |
| Responses.WriteLines | Server/server.py:239-240 | The loop writes one `key: value` line per entry, in order. |
| Responses.ResponseHeaders | Server/server.py:231-244 | The header block is the lines of the defaults updated by the extras, then the `Date` line last. |
| Responses.ResponseLine | Server/server.py:224-229 | The status line's octets are its text one character per octet, so it has that text's length; what the text says is `Responses.StatusLineOfResponse`. |
| Responses.StatusLineOfResponse | Server/server.py:224-229 | Whatever follows it, the status line reads back as the start line `HTTP/1.1`, the code and the code's reason phrase from the table. |
| Responses.StatusTokenOfResponse | Server/server.py:224-229 | Whatever follows the status line, the peer reads the code back as the status token. |
| LocalFiles.ContentTypeFor | Server/server.py:278 | The content type is the guess when there is a non-empty one, and is never empty. |
| Handlers.HandlerNamedExactly | Server/server.py:192 | The lookup finds a handler exactly when the method is that handler's name suffix. |
| Handlers.NoHostIsBadRequest | Server/server.py:189-190 | A request without `Host` gets the 400 handler whatever its method. |
| Handlers.DispatchByName | Server/server.py:188-194 | With `Host`, a request gets the handler of its method's name, and 501 exactly when no handler has that name. |
| Handlers.Handle | Server/server.py:196 | Every handler's reply can be written with its status table, and only PUT and POST change the files. |
| Handlers.LengthMatchesBody | Server/server.py:246-313 | A reply with a body declares that body's length in `Content-Length`; a reply without one declares the default `0`. |
| Handlers.GetServesFile | Server/server.py:273-281 | GET of an existing file answers 200 with the file's contents and its guessed type. |
| Handlers.GetMissingFile | Server/server.py:282-292 | GET of a missing file answers 404 with body `<h1>404 Not Found</h1>`, type `text/html` and length `22`. |
| Handlers.TypedBodyType | Server/server.py:289-290 | A handler's `Content-Type` extra is the type the response carries. |
| Handlers.HeadLikeGet | Server/server.py:294-313 | HEAD answers with GET's code and content type, and with no body. |
| Handlers.PutStores | Server/server.py:315-335 | PUT answers 200, stores the body under `documents` and the URI, names that path in `Content-Location`, and leaves every other file as it was. |
| Handlers.PostCreatesOrAppends | Server/server.py:337-362 | POST answers 201 and creates the file exactly when it is absent, and answers 200 and appends the body exactly when it exists; other files are unchanged. |
| Handlers.LocalNameOfStored | Server/server.py:271 | GET's `strip('/')` of a stored path with a leading `/` is that stored path. |
| Handlers.PutThenGet | Server/server.py:315-326 | A GET of the path PUT stored serves back the body that was put. |
| Handlers.EndRemovalCuts | Server/server.py:147-150 | `end_removal` keeps the text before the last occurrence of `a`, and `a` occurs nowhere further on. |
| Handlers.EndRemovalWithout | Server/server.py:149 | Without `a` in the text, `end_removal` gives the empty text. |
| Handlers.EndRemovalJoined | Server/server.py:147-150 | For `x`, `a`, `y` with no later `a`, `end_removal` gives back `x`. |
| ServerLoop.WireCarriesStatus | Server/server.py:246-256 | The peer reads the handler's status code back from any response it writes. |
| ServerLoop.AnswerOfRequest | Server/server.py:186-200 | A parsed request is answered, the response carries its handler's code, and the loop goes on exactly when the request keeps the connection. |
| ServerLoop.Respond | Server/server.py:256 | The response is the status line, the header block and a blank line, then the body and two CR LF, or one more CR LF without a body. |
| ServerLoop.AnswerRequest | Server/server.py:186-196 | One round after framing answers as `ServerLoop.Answer` with the round's date. |
| ServerLoop.ReceiveRequest | Server/server.py:181-184 | Receiving a request either frames exactly `Frames.Frame` of what the peer sends from here, or returns its error. After a request with no body the read stands right after its octets. After a chunked one it stands at most the 2 octets of the final `recv(2)` further on. After a `Content-Length` body it stands where `empty_socket` stopped, at everything that had arrived. The one exception is `spun`: the request frames with a `Content-Length` body, but the peer's close has arrived and `empty_socket` spins after everything was received. |
| ServerLoop.ReceivedFrame | Server/server.py:23-34 | The piecewise outcome of `Framer.Receive` is exactly `Frames.Frame`'s result, and the read stands where `ServerLoop.Follows` says: right after a request with no body, at most 2 octets after a chunked one, at what had arrived after a drain. |
| ServerLoop.ReplaySnoc | Server/server.py:180-203 | Answering one more request extends the responses and files, as one more turn of the loop does. |
| ServerLoop.ReplayAnswersAll | Server/server.py:180-203 | A loop still running has answered every request; a closed one at least one and at most all; a crashed one fewer than all. |
| ServerLoop.FailureEnding | Server/server.py:181-184 | Framing that raises `Hangs` leaves the loop hung in a read loop, and any other error breaks it with that error. Either way no answer is added to the run. |
| ServerLoop.EndingOf | Server/server.py:188-203 | A run of answers that stopped on `Connection: close` ends the loop closed on request, and one that stopped on a parse error ends it crashed with that error. |
| ServerLoop.AdjacentSnoc | Server/server.py:180-182 | A request framed from where the last one left the read, and leaving it as `ServerLoop.Follows` says, keeps every request followed by the next one's start. |
| ServerLoop.Round | Server/server.py:180-203 | One turn frames the next request in order after the earlier ones, leaves the read where `ServerLoop.Follows` says, and extends the run of answers as `ServerLoop.Replay` would, with the response sent and the files after it. Otherwise it stops with the framing error, or with `Hangs` in the drain (`ServerLoop.DrainSpins`). A request answered with a `Content-Length` body never had the peer's close arrive before its drain. |
| ServerLoop.Serve | Server/server.py:178-207 | The responses sent and the files left are `ServerLoop.Replay` of the requests framed one after another. Each request starts where the one before left the read (`ServerLoop.Adjacent`). After a request with no body that is exactly its end, so two back-to-back GETs are both framed whole. After a chunked one it is at most 2 octets past its end. The loop closes on `Connection: close`, dies on a parse error, and otherwise ends on the framing error of the next octets. It also ends `Hung` when the next request frames but its drain spins at the peer's close (`ServerLoop.DrainSpins`). That request gets no response. |
| ClientRequest.TargetSplit | Client/client.py:24-30 | Without `/`, the host is the whole target and the resource `/`; otherwise host and resource make up the target, the resource starts with `/`, and the host has none. |
| ClientRequest.Request.constructor | Client/client.py:18-36 | The method is the first argument, host and resource are the target's split, and the port is the third argument or 80. |
| ClientRequest.Request.MakeRequest | Client/client.py:41-67 | The request is the start lines, the upload lines, a blank line and the body when the body is non-empty, and a last CR LF. A missing upload file is the exception, with only the start lines built. |
| ClientRequest.Request.ChangeResource | Client/client.py:70-73 | Only the method and resource change; host and port are kept, and the request is rebuilt from the new fields. |
| ClientRequest.NewRequest | Client/client.py:18-38 | Constructing a request sets its fields and then builds it. |
| ClientRequest.PlainRequest | Client/client.py:42-67 | Without an upload, the request is its two start lines and a CR LF, so it ends in CR LF CR LF. |
| ClientRequest.UploadedRequest | Client/client.py:60-67 | With an upload, `Content-Length` reads back as the body length; a non-empty body follows one blank line and is followed by one CR LF. |
| Exchange.PlainBlock | Client/client.py:42-67 | A request without an upload is the header block of its two lines. |
| Exchange.UploadBlock | Client/client.py:42-67 | A request with an upload is the header block of its four lines, followed by the body and a CR LF if the body is non-empty. |
| Exchange.PlainKeys | Server/server.py:132 | Read back, the client's request defines `Host` and no other key without a space in it. The request line can add a key with a space, such as `GET /a` for the target `/a:b`. |
| Exchange.UploadKeys | Server/server.py:132 | Read back, an upload defines `Host`, `Content-Type` and `Content-Length`, and no other key without a space in it. |
| Exchange.UploadLength | Client/client.py:60 | Read back, an upload's `Content-Length` value is the body length in decimal. |
| Exchange.ServerFramesPlainRequest | Server/server.py:30-34 | The server frames the client's plain request as exactly its octets, with the resource as token and no body, whatever follows. |
| Exchange.ServerParsesPlainRequest | Server/server.py:119-144 | The server parses the client's plain request as its method and resource, version `HTTP/1.1`, Host present, keep-alive and `iso-8859-1`. |
| Exchange.ServerFramesUpload | Server/server.py:30-34 | The server frames the client's upload as its header block with the body length as `Content-Length`, and takes exactly the uploaded file as the body. |
| Exchange.ServerParsesUpload | Server/server.py:119-144 | The server parses the client's upload as its method, resource and body, with Host, keep-alive and the encoding its content type selects. |
| HeaderBlocks.SplitLinesOf | Server/server.py:132 | `splitlines()` of a header block gives back its lines and the empty line of the blank line. |
| HeaderBlocks.FindBlank | Server/server.py:41 | In a header block made of header lines, the first CR LF CR LF is its last four characters. |
| HeaderBlocks.BlockScanned | Server/server.py:41-46 | The framer's scan of a header block, whatever follows, is the block, and decoding it gives its text. |
| HeaderBlocks.BlockLines | Server/server.py:49-53 | The start line of a header block is its first line, and its header map is that of its lines. |
| ClientMain.Rooted | Client/client.py:202-203 | The fetched path starts with `/`, and exists exactly when `src` is not empty. |
| ClientMain.RootedIdempotent | Client/client.py:202-203 | A `/` is put in front exactly when there was none, and doing it twice changes nothing. |
| ClientMain.SavedSrcUnrooted | Client/client.py:224-225 | The `src` written back is the fetched path without its leading `/`, which is the original `src` with any leading `/` dropped. |
| ClientMain.EmptySrc | Client/client.py:202 | An empty `src` raises before anything is fetched. |
| ClientMain.SavedImage | Client/client.py:198-225 | The first loop saves an image exactly when it has a non-empty `src`. |
| ClientMain.SavedLowsrc | Client/client.py:229-255 | The second loop, with `lowsrc` written back, succeeds exactly when any `lowsrc` is non-empty. |
| ClientMain.LowsrcOverwritesSrc | Client/client.py:254-255 | As written, an image with `src` and `lowsrc` has its `src` replaced by the `lowsrc` path, and its `lowsrc` left rooted. |
| ClientMain.SavedImageBothAttributes | Client/client.py:198-255 | With `lowsrc` written back, each of `src` and `lowsrc` becomes its own path without a leading `/`, and no other attribute changes. |
| ClientMain.ImportsImages | Client/client.py:291 | The number error can only come from a GET. |
| ClientMain.ImportsImagesExactly | Client/client.py:291 | Images are fetched exactly for a GET whose code reads as 200; never for another method. |
| ClientMain.ImportsOnNumber | Client/client.py:291 | For a code written in decimal, the images are fetched exactly for a GET with code 200. |
| ClientMain.ImportsOnReply | Client/client.py:291 | For any response the server writes, the client fetches images exactly when the request was a GET and the server answered 200. |

## Left out

- Sockets, `select`, threads, `print` and `sys.exit`: transport and concurrency. The connection is the abstract `Transport.Stream`. `Server.start` and the client's `connect`, `sendall` and `close` are not modelled.
- A connection kept open by a live peer: the model knows only what the peer sends before it closes. Whether the close has reached the receive buffer when `empty_socket` runs is left to the network (`Transport.Stream.closed`). A read loop that would wait forever, in `recv` or in `empty_socket`, ends with `Hangs`.
- `bytes.decode` and `str.encode` are the Latin-1 identity. This agrees with the UTF-8 default on the ASCII text framing uses; non-ASCII text is outside the model.
- `int()`: signs, white space, and a `0x` prefix for base 16 are modelled. Underscores and non-ASCII digits are not.
- `formatdate`, `mimetypes.guess_type` and `urlparse(...).path` are parameters (`date`/`dateAt`, `guess`, `urlPath`). The test `"http" in uri` is modelled; what `urlparse` returns is not.
- `input()` in `make_request` is the parameter `name`. Directory creation, `open` and `os.path.exists` act on the file map `LocalFiles.FileSystem`. `os` errors and `main`'s clean-up of the output folder are not modelled.
- The server's PUT and POST write `request.body.decode(request.encoding)`. The model stores the body octets, since text mode re-encodes them.
- The client's `Response.header` is returned as text, and the server's `Separator.header` as octets. The model keeps octets on both sides.
- BeautifulSoup parsing and serialisation in `import_images`: an image is its attribute map `ClientMain.Attributes`. Fetching and saving each image is not modelled. Only the string rules on `src` and `lowsrc` are.
- Conditional requests and the 304, 412 and 505 responses: no handler in the code produces them.
- The client framing a whole server response end to end: only the status token the client reads back is proved (`ServerLoop.WireCarriesStatus`, `ClientMain.ImportsOnReply`).
- ClientRequest.Request.constructor: requires at least two arguments. With fewer, the source raises `IndexError`, which the model does not represent.
- ClientRequest.NewRequest: requires at least two arguments, for the same reason.
- ServerLoop.Serve: takes the way a request is answered as a parameter (`ServerLoop.ServerAnswers` is the server's own), so that the loop's proof does not depend on the handlers.
- Framing.Framer.Receive: its contract is stated piecewise, header first (`Frames.ReadHead`) and then body (`Frames.FrameBody`), rather than through `Frames.Frame`. `ServerLoop.ReceivedFrame` joins the pieces into `Frames.Frame`.
- Exchange.ServerFramesUpload: states that framing succeeds and what its value is, rather than one equality between results.

## Findings

| source | as written | input that shows it | evidently intended | confidence | as-written member | corrected member |
|---|---|---|---|---|---|---|
| Client/client.py:254-255 | The `lowsrc` loop writes the unrooted `lowsrc` path back into the image's `src` attribute. | An image with `src` `a.png` and `lowsrc` `/b.png` is saved with `src` `b.png` and `lowsrc` `/b.png`. | The loop ("the same as above, but with lowsrc") writes the path back into `lowsrc`. The page then keeps `src` `a.png` and gets `lowsrc` `b.png`. | not executed | ClientMain.LowsrcOverwritesSrc | ClientMain.SavedImageBothAttributes |
