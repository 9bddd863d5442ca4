/**
 * The message framer shared by both sides: the server's `Separator` and the
 * client's `Response` are one class here, told apart by `Side`. It reads the
 * header block one octet at a time up to the first CR LF CR LF, reads the
 * status token and the header map, and then reads a chunked body when
 * `Transfer-Encoding` is present, else a `Content-Length` body when that is
 * present, else nothing. Only the client looks at `Content-Type`.
 *
 * Where the source would wait forever (`recv` keeps returning nothing once the
 * peer has closed, or `empty_socket` finds the closed socket readable for
 * good) the model stops with `Hangs`.
 */
module Framing {
  import opened Wrappers
  import opened Bytes
  import opened Text
  import opened HeaderFields
  import opened Transport
  import opened Frames

  /**
   * The `for key in header_elements` pass of `receive_header`, in whatever
   * order the map yields its keys.
   */
  method InspectFields(side: Side, fields: map<string, string>) returns (r: Result<(Option<int>, bool, string), FrameError>)
    ensures r == FieldsHead(side, fields)
  {
    var contentLength: Option<int> := None;
    var isChunked := false;
    var encoding := DefaultEncoding;
    var keys := fields.Keys;
    while keys != {}
      invariant keys <= fields.Keys
      invariant "Content-Length" !in keys && "Content-Length" in fields ==>
                  ParseInt(fields["Content-Length"], 10).Some? && contentLength == ParseInt(fields["Content-Length"], 10)
      invariant "Content-Length" in keys || "Content-Length" !in fields ==> contentLength == None
      invariant isChunked == ("Transfer-Encoding" in fields && "Transfer-Encoding" !in keys)
      invariant encoding == if "Content-Type" in keys then DefaultEncoding else EncodingFor(side, fields)
      decreases keys
    {
      var key :| key in keys;
      if side == ClientSide && key == "Content-Type" {
        if Contains(fields[key], "UTF-8") {
          encoding := "UTF-8";
        } else if Contains(fields[key], "ISO-8859-1") {
          encoding := "ISO-8859-1";
        }
      }
      if key == "Content-Length" {
        var n := ParseInt(fields[key], 10);
        if n.None? {
          return Failure(BadContentLength);
        }
        contentLength := n;
      }
      if key == "Transfer-Encoding" {
        isChunked := true;
      }
      keys := keys - {key};
    }
    r := Success((contentLength, isChunked, encoding));
  }

  /**
   * What `receive_header` does with the octets it received: the status
   * token, then the pass over the header map.
   */
  method InspectHeader(side: Side, data: seq<byte>) returns (r: Result<Head, FrameError>)
    ensures r == ReadHead(side, data)
  {
    var text := Decode(data);
    var token := StatusToken(text);
    if token.None? {
      return Failure(NoStatusToken);
    }
    var found := InspectFields(side, Fields(text));
    match found
    case Failure(e) =>
      r := Failure(e);
    case Success(f) =>
      r := Success(Head(token.value, f.0, f.1, f.2));
  }

  // ---------------------------------------------------------------------
  // The read loop shared by the header and the chunk-size lines

  /**
   * Receive one octet at a time until what was received contains `t`, or the
   * peer has closed; `found` tells which.
   */
  method ReadThrough(conn: Stream, t: seq<byte>) returns (data: seq<byte>, found: bool)
    requires conn.Valid() && |t| > 0
    modifies conn
    ensures conn.Valid()
    ensures data == ScanTo(old(conn.Remaining()), t)
    ensures found == Find(old(conn.Remaining()), t).Some?
    ensures conn.pos == old(conn.pos) + |data|
    ensures old(conn.arrived) <= conn.arrived
    ensures AsksWithin(old(conn.asks), conn.asks, 1)
  {
    ghost var rest := conn.Remaining();
    data := [];
    found := false;
    while !Contains(data, t)
      invariant conn.Valid()
      invariant conn.pos == old(conn.pos) + |data|
      invariant data == rest[..|data|]
      invariant forall j: nat :: j + |t| < |data| ==> !OccursAt(rest, t, j)
      invariant old(conn.arrived) <= conn.arrived
      invariant AsksWithin(old(conn.asks), conn.asks, 1)
      decreases |conn.data| - conn.pos
    {
      forall j: nat | j + |t| <= |data| ensures !OccursAt(rest, t, j) {
        OccursInPrefix(rest, t, |data|, j);
      }
      ghost var before := conn.asks;
      ghost var left := conn.Remaining();
      DropDrop(conn.data, old(conn.pos), |data|);
      var chunk := conn.Recv(1);
      AsksChain(old(conn.asks), before, conn.asks, 1, 1, 1);
      if chunk == [] {
        assert data == rest;
        return;
      }
      assert chunk == left[..|chunk|] && left == rest[|data|..];
      data := data + chunk;
    }
    var i := Find(data, t).value;
    OccursInPrefix(rest, t, |data|, i);
    FindFirst(rest, t, i);
    found := true;
  }

  /**
   * The loop both body readers share: ask for at most 1024 of the octets
   * still wanted until none are wanted; `ok` is false when the peer closed first.
   */
  method ReadExactly(conn: Stream, n: int) returns (data: seq<byte>, ok: bool)
    requires conn.Valid()
    modifies conn
    ensures conn.Valid() && old(conn.arrived) <= conn.arrived && old(conn.pos) <= conn.pos
    ensures AsksWithin(old(conn.asks), conn.asks, ChunkSize)
    ensures match LengthBody(old(conn.Remaining()), n)
            case None => !ok
            case Some(b) => ok && data == b && conn.pos == old(conn.pos) + |b|
  {
    ghost var rest := conn.Remaining();
    data := [];
    var length := n;
    while length > 0
      invariant conn.Valid()
      invariant length == n - |data|
      invariant n > 0 ==> length >= 0
      invariant n <= 0 ==> data == []
      invariant conn.pos == old(conn.pos) + |data|
      invariant data == rest[..|data|]
      invariant old(conn.arrived) <= conn.arrived
      invariant AsksWithin(old(conn.asks), conn.asks, ChunkSize)
      decreases length
    {
      var ask := if length > ChunkSize then ChunkSize else length;
      ghost var before := conn.asks;
      var part := conn.Recv(ask);
      AsksChain(old(conn.asks), before, conn.asks, ChunkSize, ask, ChunkSize);
      if part == [] {
        return data, false;
      }
      data := data + part;
      length := length - |part|;
    }
    ok := true;
  }

  /** What one pass of the `while True` loop of `receive_chunked_body` ends with. */
  datatype ChunkRead = Last(lineLength: nat) | Piece(chunk: seq<byte>) | Failed(error: FrameError)

  /** The size line of a chunk: the octets up to the first CR LF, read as hexadecimal. */
  method ReceiveSizeLine(conn: Stream) returns (found: bool, size: Option<int>)
    requires conn.Valid()
    modifies conn
    ensures conn.Valid() && old(conn.pos) <= conn.pos
    ensures old(conn.arrived) <= conn.arrived
    ensures AsksWithin(old(conn.asks), conn.asks, 1)
    ensures found <==> SizeLine(old(conn.Remaining())).Some?
    ensures found ==> SizeLine(old(conn.Remaining())) == Some((conn.pos - old(conn.pos), size))
  {
    ghost var cur := conn.Remaining();
    var line;
    line, found := ReadThrough(conn, CRLF);
    SizeLineRead(cur, line);
    size := ParseInt(Decode(line), 16);
  }

  /**
   * One pass of `receive_chunked_body`'s loop: the size line, then either the
   * `recv(2)` after size 0 or the `n + 2` octets of the chunk.
   */
  method ReceiveChunk(conn: Stream) returns (step: ChunkRead)
    requires conn.Valid()
    modifies conn
    ensures conn.Valid() && old(conn.pos) <= conn.pos
    ensures old(conn.arrived) <= conn.arrived
    ensures AsksWithin(old(conn.asks), conn.asks, ChunkSize)
    ensures step == Failed(Hangs) ==> Chunked(old(conn.Remaining())) == Stuck
    ensures step == Failed(BadChunkSize) ==> Chunked(old(conn.Remaining())) == BadSize
    ensures step.Failed? ==> step.error == Hangs || step.error == BadChunkSize
    ensures step.Last? ==>
              Chunked(old(conn.Remaining())) == Decoded([], step.lineLength)
              && old(conn.pos) + step.lineLength <= conn.pos <= old(conn.pos) + step.lineLength + 2
              && (old(conn.pos) + step.lineLength < |conn.data| ==> old(conn.pos) + step.lineLength < conn.pos)
    ensures step.Piece? ==>
              old(conn.pos) < conn.pos
              && Chunked(old(conn.Remaining())) == Extend(Chunked(conn.Remaining()), step.chunk, conn.pos - old(conn.pos))
  {
    ghost var cur := conn.Remaining();
    var start := conn.pos;
    var found, length := ReceiveSizeLine(conn);
    var k := conn.pos - start;
    if !found {
      assert Chunked(cur) == Stuck;
      return Failed(Hangs);
    }
    if length.None? {
      ChunkedBadLine(cur, k);
      return Failed(BadChunkSize);
    }
    var n := length.value;
    if n == 0 {
      ChunkedLastLine(cur, k);
      ghost var before := conn.asks;
      var _ := conn.Recv(2);
      AsksChain(old(conn.asks), before, conn.asks, 1, 2, ChunkSize);
      return Last(k);
    }
    assert conn.Remaining() == cur[k..];
    ghost var lined := conn.asks;
    var chunk, ok := ReadExactly(conn, n + 2);
    AsksChain(old(conn.asks), lined, conn.asks, 1, ChunkSize, ChunkSize);
    if !ok {
      ChunkedShort(cur, k, n);
      return Failed(Hangs);
    }
    ChunkedNext(cur, k, n, chunk);
    assert conn.Remaining() == cur[k + |chunk|..];
    step := Piece(chunk);
  }

  /**
   * What receiving a body did, against what `Frames.FrameBody` says of the
   * octets after the header: its error, or its body with the octets it
   * used taken from `from` on. Without a body no octet is taken; after a
   * chunked body at most the CR LF after the size-0 line is taken; after a
   * `Content-Length` body the buffer is `drained`, and if the peer's close
   * had arrived (`closed`) the drain spins: the outcome is then `Hangs`.
   */
  predicate BodyReceived(framed: Result<(seq<byte>, nat), FrameError>, outcome: Outcome<FrameError>, body: seq<byte>,
                         chunked: bool, length: Option<int>, from: int, to: int, drained: bool, closed: bool)
  {
    match framed
    case Failure(e) => outcome == Fail(e)
    case Success((got, used)) =>
      && body == got && from + used <= to
      && (!chunked && length.None? ==> to == from)
      && (chunked ==> to <= from + used + 2)
      && (!chunked && length.Some? ==> drained)
      && outcome == (if !chunked && length.Some? && closed then Fail(Hangs) else Pass)
  }

  /**
   * What reading a header did, against what `Frames.ReadHead` says of it:
   * its error, or the code, framing and encoding stored from its head.
   */
  predicate HeaderRead(read: Result<Head, FrameError>, outcome: Outcome<FrameError>, code: Option<string>,
                       length: Option<int>, chunked: bool, encoding: string)
  {
    match read
    case Failure(e) => outcome == Fail(e)
    case Success(h) =>
      outcome == Pass && code == Some(h.code) && length == h.contentLength && chunked == h.chunked && encoding == h.encoding
  }

  // ---------------------------------------------------------------------
  // The framer

  class Framer {
    const side: Side
    var header: seq<byte>
    var code: Option<string>
    var encoding: string
    var contentLength: Option<int>
    var isChunked: bool
    var body: seq<byte>

    /** The defaults `__init__` sets before reading. */
    constructor (side: Side)
      ensures this.side == side && header == [] && code == None && encoding == DefaultEncoding
      ensures contentLength == None && !isChunked && body == []
    {
      this.side := side;
      header := [];
      code := None;
      encoding := DefaultEncoding;
      contentLength := None;
      isChunked := false;
      body := [];
    }

    /** `receive_header`: the header loop, the status token and the pass over the header map. */
    method ReceiveHeader(conn: Stream) returns (outcome: Outcome<FrameError>)
      requires conn.Valid()
      modifies this, conn
      ensures conn.Valid() && body == old(body)
      ensures header == ScanHeader(old(conn.Remaining()))
      ensures conn.pos == old(conn.pos) + |header|
      ensures old(conn.arrived) <= conn.arrived
      ensures AsksWithin(old(conn.asks), conn.asks, 1)
      ensures HeaderRead(ReadHead(side, header), outcome, code, contentLength, isChunked, encoding)
    {
      var data, _ := ReadThrough(conn, CRLFCRLF);
      header := data;
      var read := InspectHeader(side, data);
      match read
      case Failure(e) =>
        outcome := Fail(e);
      case Success(h) =>
        code, contentLength, isChunked, encoding := Some(h.code), h.contentLength, h.chunked, h.encoding;
        outcome := Pass;
    }

    /** `receive_chunked_body`: size lines and their chunks until the size-0 line. */
    method ReceiveChunkedBody(conn: Stream) returns (outcome: Outcome<FrameError>)
      requires conn.Valid()
      modifies this`body, conn
      ensures conn.Valid() && old(conn.pos) <= conn.pos
      ensures old(conn.arrived) <= conn.arrived
      ensures AsksWithin(old(conn.asks), conn.asks, ChunkSize)
      ensures match Chunked(old(conn.Remaining()))
              case Decoded(b, used) =>
                outcome == Pass && body == old(body) + b
                && old(conn.pos) + used <= conn.pos <= old(conn.pos) + used + 2
                && (old(conn.pos) + used < |conn.data| ==> old(conn.pos) + used < conn.pos)
              case BadSize => outcome == Fail(BadChunkSize)
              case Stuck => outcome == Fail(Hangs)
    {
      ghost var rest := conn.Remaining();
      ghost var got: seq<byte> := [];
      ghost var used: nat := 0;
      while true
        invariant conn.Valid() && conn.pos == old(conn.pos) + used
        invariant body == old(body) + got
        invariant Chunked(rest) == Extend(Chunked(conn.Remaining()), got, used)
        invariant old(conn.arrived) <= conn.arrived
        invariant AsksWithin(old(conn.asks), conn.asks, ChunkSize)
        decreases |conn.data| - conn.pos
      {
        ghost var here := conn.pos;
        ghost var asked := conn.asks;
        ghost var cur := conn.Remaining();
        var step := ReceiveChunk(conn);
        AsksChain(old(conn.asks), asked, conn.asks, ChunkSize, ChunkSize, ChunkSize);
        match step
        case Failed(e) =>
          return Fail(e);
        case Last(_) =>
          return Pass;
        case Piece(chunk) =>
          ExtendTwice(Chunked(conn.Remaining()), got, used, chunk, conn.pos - here);
          body := body + chunk;
          got := got + chunk;
          used := used + (conn.pos - here);
      }
    }

    /**
     * `receive_content_length_body` followed by `empty_socket`, which spins
     * when the peer's close has arrived by the time the buffer is empty.
     */
    method ReceiveContentLengthBody(conn: Stream) returns (outcome: Outcome<FrameError>)
      requires conn.Valid() && contentLength.Some?
      modifies this`body, conn
      ensures conn.Valid() && old(conn.pos) <= conn.pos && old(conn.arrived) <= conn.arrived
      ensures AsksWithin(old(conn.asks), conn.asks, ChunkSize)
      ensures match LengthBody(old(conn.Remaining()), contentLength.value)
              case None => outcome == Fail(Hangs)
              case Some(b) =>
                body == b && old(conn.pos) + |b| <= conn.pos
                && old(conn.arrived) <= conn.pos == conn.arrived
                && outcome == (if conn.closed then Fail(Hangs) else Pass)
    {
      var data, ok := ReadExactly(conn, contentLength.value);
      if !ok {
        return Fail(Hangs);
      }
      body := data;
      ghost var before := conn.asks;
      var spins := conn.Drain();
      AsksChain(old(conn.asks), before, conn.asks, ChunkSize, 1, ChunkSize);
      outcome := if spins then Fail(Hangs) else Pass;
    }

    /** The body reading of `__init__`: chunked, by `Content-Length`, or none. */
    method ReceiveBody(conn: Stream) returns (outcome: Outcome<FrameError>)
      requires conn.Valid() && body == []
      modifies this`body, conn
      ensures conn.Valid() && old(conn.pos) <= conn.pos && old(conn.arrived) <= conn.arrived
      ensures header == old(header) && code == old(code) && encoding == old(encoding)
      ensures contentLength == old(contentLength) && isChunked == old(isChunked)
      ensures AsksWithin(old(conn.asks), conn.asks, ChunkSize)
      ensures BodyReceived(FrameBody(isChunked, contentLength, old(conn.Remaining())), outcome, body,
                           isChunked, contentLength, old(conn.pos), conn.pos, conn.pos == conn.arrived, conn.closed)
    {
      if isChunked {
        outcome := ReceiveChunkedBody(conn);
      } else if contentLength.Some? {
        outcome := ReceiveContentLengthBody(conn);
      } else {
        outcome := Pass;
      }
    }

    /**
     * `Separator(connection)` / `Response(connection)`: the header, then the
     * body its headers call for. `Frames.FrameOf` and its two failing
     * companions put this together as `Frame(side, rest)`.
     */
    method Receive(conn: Stream, ghost rest: seq<byte>)
      returns (outcome: Outcome<FrameError>, ghost headed: Outcome<FrameError>, ghost read: Result<Head, FrameError>,
               ghost mid: int, ghost tail: seq<byte>)
      requires conn.Valid() && rest == conn.Remaining()
      requires encoding == DefaultEncoding && contentLength == None && !isChunked && body == []
      modifies this, conn
      ensures conn.Valid() && old(conn.pos) <= conn.pos
      ensures AsksWithin(old(conn.asks), conn.asks, ChunkSize)
      ensures header == ScanHeader(rest) && read == ReadHead(side, header)
      ensures mid == old(conn.pos) + |header| && tail == rest[|header|..]
      ensures HeaderRead(read, headed, code, contentLength, isChunked, encoding)
      ensures headed.Fail? ==> outcome == headed
      ensures headed.Pass? ==>
                BodyReceived(FrameBody(isChunked, contentLength, tail), outcome, body,
                             isChunked, contentLength, mid, conn.pos, conn.pos == conn.arrived, conn.closed)
    {
      outcome := ReceiveHeader(conn);
      headed, read, mid, tail := outcome, ReadHead(side, header), conn.pos, conn.Remaining();
      DropDrop(conn.data, old(conn.pos), |header|);
      if outcome.Pass? {
        ghost var asked := conn.asks;
        outcome := ReceiveBody(conn);
        AsksChain(old(conn.asks), asked, conn.asks, 1, ChunkSize, ChunkSize);
      }
    }
  }
}
