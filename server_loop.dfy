/**
 * `ServerThread.run`: frame a request, parse it, pick and run its handler,
 * send the response, and go round again while the request keeps the
 * connection alive. A framing exception ends the loop without a response;
 * an exception in `parse` ends the thread.
 *
 * The `n`-th response's `Date` text is `dateAt(n)`.
 */
module ServerLoop {
  import opened Wrappers
  import opened Bytes
  import opened Transport
  import opened Frames
  import opened Framing
  import opened Responses
  import opened ServerRequest
  import opened Handlers
  import opened LocalFiles
  import opened HeaderFields
  import opened Text

  /** How a connection's loop ends. */
  datatype Ending =
    | ClosedOnRequest          // a request said `Connection: close`
    | ClosedAfter(failure: FrameError)  // framing raised: the loop breaks and closes
    | Crashed(fault: ParseError)        // `parse` raised: the thread dies
    | Hung                     // the peer closed inside a body, or before `empty_socket` ran: a read loop spins

  /** One request answered: the response, the files afterwards, and whether to read another. */
  datatype Exchange = Exchange(response: seq<byte>, files: FileSystem, keepAlive: bool)

  /** Answering one framed request with header `header` and body `body`. */
  function Answer(header: seq<byte>, body: seq<byte>, files: FileSystem, guess: string -> Option<string>,
                  urlPath: string -> string, date: string): Result<Exchange, ParseError>
  {
    match RequestOf(header, body, urlPath)
    case Failure(e) => Failure(e)
    case Success(req) =>
      var (reply, after) := Handle(SelectHandler(req), req, files, guess);
      Success(Exchange(Wire(reply, date), after, req.keepAlive))
  }

  /** Whatever a handler answers, the peer's framer reads the handler's status code back from the response. */
  lemma WireCarriesStatus(reply: Reply, date: string)
    requires Writable(reply)
    ensures StatusToken(Decode(Wire(reply, date))) == Some(NatToString(reply.code))
  {
    var rest := HeaderBlock(reply.extras, date) + CRLF
                + (if reply.body.Some? then reply.body.value + CRLF + CRLF else CRLF);
    assert Wire(reply, date) == ResponseLine(reply.code) + rest;
    StatusTokenOfResponse(reply.code, rest);
  }

  /**
   * An answered request's response carries the status code its handler
   * chose, and the loop goes on exactly when the request keeps the
   * connection alive; a request line with too few words is never answered.
   */
  lemma AnswerOfRequest(header: seq<byte>, body: seq<byte>, files: FileSystem, guess: string -> Option<string>,
                        urlPath: string -> string, date: string, req: Request)
    requires RequestOf(header, body, urlPath) == Success(req)
    ensures Answer(header, body, files, guess, urlPath, date).Success?
    ensures Answer(header, body, files, guess, urlPath, date).value.keepAlive == KeepAlive(Fields(Decode(header)))
    ensures StatusToken(Decode(Answer(header, body, files, guess, urlPath, date).value.response))
            == Some(NatToString(Handle(SelectHandler(req), req, files, guess).0.code))
  {
    WireCarriesStatus(Handle(SelectHandler(req), req, files, guess).0, date);
  }

  /** How the server answers the `n`-th request of a connection. */
  type Answering = (seq<byte>, seq<byte>, FileSystem, nat) -> Result<Exchange, ParseError>

  function ServerAnswers(guess: string -> Option<string>, urlPath: string -> string, dateAt: nat -> string): Answering
  {
    (header: seq<byte>, body: seq<byte>, files: FileSystem, n: nat) => Answer(header, body, files, guess, urlPath, dateAt(n))
  }

  /** Where answering a run of requests stops. */
  datatype Stop = Continue | Close | Crash(error: ParseError)

  datatype Replayed = Replayed(sent: seq<seq<byte>>, files: FileSystem, stop: Stop)

  /**
   * Answering the framed requests `msgs` in turn, the first as the `n`-th:
   * the responses sent, the files afterwards, and whether the loop would go
   * on reading.
   */
  function Replay(msgs: seq<Message>, files: FileSystem, answer: Answering, n: nat): Replayed
    decreases |msgs|
  {
    if msgs == [] then Replayed([], files, Continue)
    else
      match answer(msgs[0].header, msgs[0].body, files, n)
      case Failure(e) => Replayed([], files, Crash(e))
      case Success(x) =>
        if !x.keepAlive then Replayed([x.response], x.files, Close)
        else
          var r := Replay(msgs[1..], x.files, answer, n + 1);
          Replayed([x.response] + r.sent, r.files, r.stop)
  }

  /** One more request after a run that went on: its answer is added at the end. */
  lemma {:induction false} ReplaySnoc(msgs: seq<Message>, m: Message, files: FileSystem, answer: Answering, n: nat)
    requires Replay(msgs, files, answer, n).stop == Continue
    ensures var r := Replay(msgs, files, answer, n);
            Replay(msgs + [m], files, answer, n) ==
              match answer(m.header, m.body, r.files, n + |msgs|)
              case Failure(e) => Replayed(r.sent, r.files, Crash(e))
              case Success(x) => Replayed(r.sent + [x.response], x.files, if x.keepAlive then Continue else Close)
    decreases |msgs|
  {
    if msgs == [] {
      assert [] + [m] == [m];
    } else {
      var x := answer(msgs[0].header, msgs[0].body, files, n).value;
      assert (msgs + [m])[0] == msgs[0] && (msgs + [m])[1..] == msgs[1..] + [m];
      ReplaySnoc(msgs[1..], m, x.files, answer, n + 1);
      var r := Replay(msgs[1..], x.files, answer, n + 1);
      match answer(m.header, m.body, r.files, n + 1 + |msgs[1..]|)
      case Failure(e) =>
      case Success(y) =>
        assert [x.response] + (r.sent + [y.response]) == [x.response] + r.sent + [y.response];
    }
  }

  /** A run that goes on answered every request; one that closed or crashed stopped at its last request. */
  lemma {:induction false} ReplayAnswersAll(msgs: seq<Message>, files: FileSystem, answer: Answering, n: nat)
    ensures var r := Replay(msgs, files, answer, n);
            (r.stop == Continue ==> |r.sent| == |msgs|)
            && (r.stop == Close ==> 1 <= |r.sent| <= |msgs|)
            && (r.stop.Crash? ==> |r.sent| < |msgs|)
    decreases |msgs|
  {
    if msgs != [] {
      match answer(msgs[0].header, msgs[0].body, files, n)
      case Failure(e) =>
      case Success(x) =>
        ReplayAnswersAll(msgs[1..], x.files, answer, n + 1);
    }
  }

  /** The loop's step: the next request's answer extends a run that went on. */
  lemma ReplayStep(msgs: seq<Message>, m: Message, files: FileSystem, answer: Answering,
                   sent: seq<seq<byte>>, after: FileSystem, x: Result<Exchange, ParseError>)
    requires Replay(msgs, files, answer, 0) == Replayed(sent, after, Continue)
    requires x == answer(m.header, m.body, after, |sent|)
    ensures |sent| == |msgs|
    ensures x.Failure? ==> Replay(msgs + [m], files, answer, 0) == Replayed(sent, after, Crash(x.error))
    ensures x.Success? ==>
              Replay(msgs + [m], files, answer, 0)
              == Replayed(sent + [x.value.response], x.value.files, if x.value.keepAlive then Continue else Close)
  {
    ReplayAnswersAll(msgs, files, answer, 0);
    ReplaySnoc(msgs, m, files, answer, 0);
  }

  function StopOf(e: Ending): Stop
  {
    match e
    case ClosedOnRequest => Close
    case Crashed(p) => Crash(p)
    case _ => Continue
  }

  /** How the loop ends when framing raises `e`: it hangs in a read loop, or breaks and closes. */
  function FailureEnding(e: FrameError): (r: Ending)
    ensures StopOf(r) == Continue && (r == Hung <==> e == Hangs) && (r.ClosedAfter? ==> r.failure == e)
  {
    if e == Hangs then Hung else ClosedAfter(e)
  }

  /** How the loop ends when a run of answers stops. */
  function EndingOf(s: Stop): (e: Ending)
    requires s != Continue
    ensures StopOf(e) == s
  {
    if s == Close then ClosedOnRequest else Crashed(s.error)
  }

  /**
   * The framed requests sit one after another in what the peer sent: the
   * first is framed from `start`, each is what framing from its own start
   * gives, each ends before the next starts, and all end by `end`.
   * `Adjacent` says how close each is to the next.
   */
  ghost predicate FramedInOrder(data: seq<byte>, start: nat, msgs: seq<Message>, starts: seq<nat>, end: nat)
  {
    Placed(start, msgs, starts, end) && end <= |data| && EachFramed(data, msgs, starts) && InOrder(msgs, starts)
  }

  /** The first request starts at `start`, and every one lies between `start` and `end`. */
  ghost predicate Placed(start: nat, msgs: seq<Message>, starts: seq<nat>, end: nat)
  {
    |starts| == |msgs| && start <= end
    && (msgs == [] ==> end == start)
    && (forall i {:trigger starts[i]} :: 0 <= i < |msgs| ==>
          (i == 0 ==> starts[i] == start) && start <= starts[i] && starts[i] + msgs[i].length <= end)
  }

  /** Each request is what framing from its own start gives. */
  ghost predicate EachFramed(data: seq<byte>, msgs: seq<Message>, starts: seq<nat>)
  {
    |starts| == |msgs|
    && forall i {:trigger starts[i]} :: 0 <= i < |msgs| ==>
         starts[i] <= |data| && Frame(ServerSide, data[starts[i]..]) == Success(msgs[i])
  }

  /** Each request ends before the next starts. */
  ghost predicate InOrder(msgs: seq<Message>, starts: seq<nat>)
  {
    |starts| == |msgs|
    && forall i, j {:trigger starts[i], starts[j]} :: 0 <= i < j < |msgs| ==> starts[i] + msgs[i].length <= starts[j]
  }

  /** The head of a request that has neither `Transfer-Encoding` nor `Content-Length`: no body is read. */
  predicate NoBody(head: Head)
  {
    !head.chunked && head.contentLength.None?
  }

  /**
   * Where the read stands after request `m` framed from `s`: right after it
   * when it has no body, and at most the two octets of the final `recv(2)`
   * after it when it is chunked. After a `Content-Length` body it stands
   * wherever the drain stopped.
   */
  predicate Follows(m: Message, s: int, next: int)
  {
    (NoBody(m.head) ==> next == s + m.length) && (m.head.chunked ==> next <= s + m.length + 2)
  }

  /** Request `i` is followed by the next one's start, or by `end` when it is the last, as `Follows` says. */
  ghost predicate FollowsAt(msgs: seq<Message>, starts: seq<nat>, end: nat, i: nat)
    requires |starts| == |msgs| && i < |msgs|
  {
    Follows(msgs[i], starts[i], if i + 1 < |msgs| then starts[i + 1] else end)
  }

  /** Each request is followed by the start of the one after it, and the last by `end`. */
  ghost predicate Adjacent(msgs: seq<Message>, starts: seq<nat>, end: nat)
  {
    |starts| == |msgs| && forall i :: 0 <= i < |msgs| ==> FollowsAt(msgs, starts, end, i)
  }

  /**
   * The request framed from `start` has a `Content-Length` body, and the
   * peer's close arrived before `empty_socket` ran after it: everything was
   * received and the drain spins, so no response is sent.
   */
  ghost predicate DrainSpins(data: seq<byte>, start: nat, closed: bool, pos: nat)
  {
    start <= |data| && Frame(ServerSide, data[start..]).Success?
    && DrainsAfter(Frame(ServerSide, data[start..]).value.head) && closed && pos == |data|
  }

  /** The response to one request, built as the handler builds it. */
  method Respond(reply: Reply, date: string) returns (response: seq<byte>)
    requires Writable(reply)
    ensures response == Wire(reply, date)
  {
    var headers := ResponseHeaders(reply.extras, date);
    response := ResponseLine(reply.code) + headers + CRLF;
    if reply.body.Some? {
      response := response + reply.body.value + CRLF + CRLF;
    } else {
      response := response + CRLF;
    }
  }

  /** One round of the loop after framing: `Request(header, body)`, the handler, the response. */
  method AnswerRequest(header: seq<byte>, body: seq<byte>, files: FileSystem, guess: string -> Option<string>,
                       urlPath: string -> string, dateAt: nat -> string, n: nat) returns (r: Result<Exchange, ParseError>)
    ensures r == ServerAnswers(guess, urlPath, dateAt)(header, body, files, n)
  {
    assert ServerAnswers(guess, urlPath, dateAt)(header, body, files, n) == Answer(header, body, files, guess, urlPath, dateAt(n));
    var parsed := ParseRequest(header, body, urlPath);
    if parsed.Failure? {
      return Failure(parsed.error);
    }
    var req := parsed.value;
    var (reply, next) := Handle(SelectHandler(req), req, files, guess);
    var response := Respond(reply, dateAt(n));
    r := Success(Exchange(response, next, req.keepAlive));
  }

  /** `Separator(self.connection)` inside the loop's `try`: the request framed, or what framing raised. */
  method ReceiveRequest(conn: Stream, ghost rest: seq<byte>)
    returns (outcome: Outcome<FrameError>, header: seq<byte>, body: seq<byte>, ghost m: Message, ghost spun: bool)
    requires conn.Valid() && rest == conn.Remaining()
    modifies conn
    ensures conn.Valid() && old(conn.pos) <= conn.pos
    ensures outcome.Fail? && !spun ==> Frame(ServerSide, rest) == Failure(outcome.error)
    ensures outcome.Pass? || spun ==> FramedAs(ServerSide, rest, m, header, body, old(conn.pos), conn.pos)
    ensures outcome.Pass? ==> !(DrainsAfter(m.head) && conn.closed)
    ensures outcome.Pass? && DrainsAfter(m.head) ==> conn.pos == conn.arrived
    ensures spun ==> outcome == Fail(Hangs) && DrainsAfter(m.head) && conn.closed && conn.pos == |conn.data|
  {
    var framer := new Framer(ServerSide);
    ghost var start := conn.pos;
    ghost var headed, read, mid, tail;
    outcome, headed, read, mid, tail := framer.Receive(conn, rest);
    header, body := framer.header, framer.body;
    m, spun := ReceivedFrame(ServerSide, rest, header, body, outcome, headed, read, framer.code, framer.contentLength,
                             framer.isChunked, framer.encoding, start, conn.pos, conn.pos == conn.arrived, conn.closed);
  }

  /** After this head's body `empty_socket` runs: it calls for a `Content-Length` body and is not chunked. */
  predicate DrainsAfter(head: Head)
  {
    !head.chunked && head.contentLength.Some?
  }

  /**
   * `m` is what framing `rest` gives, with this header and body, taken from
   * `before` on and ending by `after`, and the read stands at `after` as
   * `Follows` says.
   */
  ghost predicate FramedAs(side: Side, rest: seq<byte>, m: Message, header: seq<byte>, body: seq<byte>, before: int, after: int)
  {
    Frame(side, rest) == Success(m) && header == m.header && body == m.body && before < before + m.length <= after
    && Follows(m, before, after)
  }

  /**
   * What `Framer.Receive` promises, read as the frame of the octets it was
   * given. `spun` is the case where the request framed but `empty_socket`
   * spins after its `Content-Length` body because the peer's close had
   * arrived.
   */
  lemma ReceivedFrame(side: Side, rest: seq<byte>, header: seq<byte>, body: seq<byte>, outcome: Outcome<FrameError>,
                      headed: Outcome<FrameError>, read: Result<Head, FrameError>, code: Option<string>,
                      length: Option<int>, chunked: bool,
                      encoding: string, before: int, after: int, drained: bool, closed: bool)
    returns (m: Message, spun: bool)
    requires header == ScanHeader(rest) && read == ReadHead(side, header)
    requires HeaderRead(read, headed, code, length, chunked, encoding)
    requires headed.Fail? ==> outcome == headed
    requires headed.Pass? ==>
               BodyReceived(FrameBody(chunked, length, rest[|header|..]), outcome, body, chunked, length,
                            before + |header|, after, drained, closed)
    ensures outcome.Fail? && !spun ==> Frame(side, rest) == Failure(outcome.error)
    ensures outcome.Pass? || spun ==> FramedAs(side, rest, m, header, body, before, after)
    ensures outcome.Pass? ==> !(DrainsAfter(m.head) && closed)
    ensures outcome.Pass? && DrainsAfter(m.head) ==> drained
    ensures spun ==> outcome == Fail(Hangs) && DrainsAfter(m.head) && closed && drained
  {
    m, spun := Message(header, Frames.Head("", None, false, DefaultEncoding), body, 0), false;
    var h := ReadHead(side, header);
    if h.Failure? {
      FrameHeadFails(side, rest, header, h.error);
    } else {
      m, spun := ReceivedBody(side, rest, header, h.value, body, outcome, before, after, drained, closed);
    }
  }

  /** `ReceivedFrame` once the head has been read. */
  lemma ReceivedBody(side: Side, rest: seq<byte>, header: seq<byte>, head: Head, body: seq<byte>,
                     outcome: Outcome<FrameError>, before: int, after: int, drained: bool, closed: bool)
    returns (m: Message, spun: bool)
    requires header == ScanHeader(rest) && ReadHead(side, header).Success? && ReadHead(side, header).value == head
    requires BodyReceived(FrameBody(head.chunked, head.contentLength, rest[|header|..]), outcome, body,
                          head.chunked, head.contentLength, before + |header|, after, drained, closed)
    ensures outcome.Fail? && !spun ==> Frame(side, rest) == Failure(outcome.error)
    ensures outcome.Pass? || spun ==> FramedAs(side, rest, m, header, body, before, after)
    ensures outcome.Pass? ==> !(DrainsAfter(m.head) && closed)
    ensures outcome.Pass? && DrainsAfter(m.head) ==> drained
    ensures spun ==> outcome == Fail(Hangs) && DrainsAfter(m.head) && closed && drained
  {
    var b := FrameBody(head.chunked, head.contentLength, rest[|header|..]);
    if b.Failure? {
      m, spun := Message(header, head, body, 0), false;
      FrameBodyFails(side, rest, header, head, b.error);
    } else {
      m := ReceivedWhole(side, rest, header, head, b.value.0, b.value.1, before, after);
      spun := DrainsAfter(head) && closed;
    }
  }

  /** `ReceivedBody` once the body has been read as well. */
  lemma ReceivedWhole(side: Side, rest: seq<byte>, header: seq<byte>, head: Head, body: seq<byte>, used: nat,
                      before: int, after: int) returns (m: Message)
    requires header == ScanHeader(rest) && ReadHead(side, header) == Success(head)
    requires FrameBody(head.chunked, head.contentLength, rest[|header|..]) == Success((body, used))
    requires before + |header| + used <= after
    requires NoBody(head) ==> after == before + |header|
    requires head.chunked ==> after <= before + |header| + used + 2
    ensures Frame(side, rest) == Success(m) && m.head == head && header == m.header && body == m.body
    ensures before < before + m.length <= after && Follows(m, before, after)
  {
    m := Message(header, head, body, |header| + used);
    FrameOf(side, rest, header, head, body, used);
    HeadNotEmpty(side, header);
  }

  /** One more request, framed from where the loop stood. */
  lemma FramedSnoc(data: seq<byte>, start: nat, msgs: seq<Message>, starts: seq<nat>, m: Message, s: nat, end: nat)
    requires FramedInOrder(data, start, msgs, starts, s)
    requires Frame(ServerSide, data[s..]) == Success(m)
    requires s + m.length <= end <= |data|
    ensures FramedInOrder(data, start, msgs + [m], starts + [s], end)
  {
    PlacedSnoc(start, msgs, starts, m, s, end);
    EachFramedSnoc(data, msgs, starts, m, s);
    InOrderSnoc(start, msgs, starts, m, s);
  }

  /** One more request, followed by `end`: the last one before it was followed by its start. */
  lemma AdjacentSnoc(msgs: seq<Message>, starts: seq<nat>, m: Message, s: nat, end: nat)
    requires Adjacent(msgs, starts, s) && Follows(m, s, end)
    ensures Adjacent(msgs + [m], starts + [s], end)
  {
    var ms, ss := msgs + [m], starts + [s];
    forall i | 0 <= i < |ms| ensures FollowsAt(ms, ss, end, i) {
      if i < |msgs| {
        assert FollowsAt(msgs, starts, s, i);
        assert ms[i] == msgs[i] && ss[i] == starts[i];
        if i + 1 < |msgs| {
          assert ss[i + 1] == starts[i + 1];
        }
      }
    }
  }

  lemma PlacedSnoc(start: nat, msgs: seq<Message>, starts: seq<nat>, m: Message, s: nat, end: nat)
    requires Placed(start, msgs, starts, s)
    requires s + m.length <= end
    ensures Placed(start, msgs + [m], starts + [s], end)
  {
    var ms, ss := msgs + [m], starts + [s];
    forall i | 0 <= i < |ms|
      ensures (i == 0 ==> ss[i] == start) && start <= ss[i] && ss[i] + ms[i].length <= end
    {
      if i < |msgs| {
        assert ss[i] == starts[i] && ms[i] == msgs[i];
      }
    }
  }

  lemma EachFramedSnoc(data: seq<byte>, msgs: seq<Message>, starts: seq<nat>, m: Message, s: nat)
    requires EachFramed(data, msgs, starts)
    requires s <= |data| && Frame(ServerSide, data[s..]) == Success(m)
    ensures EachFramed(data, msgs + [m], starts + [s])
  {
    var ms, ss := msgs + [m], starts + [s];
    forall i | 0 <= i < |ms|
      ensures ss[i] <= |data| && Frame(ServerSide, data[ss[i]..]) == Success(ms[i])
    {
      if i < |msgs| {
        assert ss[i] == starts[i] && ms[i] == msgs[i];
      }
    }
  }

  lemma InOrderSnoc(start: nat, msgs: seq<Message>, starts: seq<nat>, m: Message, s: nat)
    requires Placed(start, msgs, starts, s) && InOrder(msgs, starts)
    ensures InOrder(msgs + [m], starts + [s])
  {
    var ms, ss := msgs + [m], starts + [s];
    forall i, j | 0 <= i < j < |ms| ensures ss[i] + ms[i].length <= ss[j] {
      assert ss[i] == starts[i] && ms[i] == msgs[i];
      if j < |msgs| {
        assert ss[j] == starts[j];
      }
    }
  }

  /**
   * One round of the loop: frame the next request, answer it and send the
   * response. The requests so far stay in order with the new one after
   * them, and the run of answers is extended by this one.
   */
  method Round(conn: Stream, files: FileSystem, answer: Answering, sent: seq<seq<byte>>, after: FileSystem,
               ghost base: nat, ghost msgs: seq<Message>, ghost starts: seq<nat>)
    returns (outcome: Outcome<FrameError>, sent': seq<seq<byte>>, after': FileSystem, stop: Stop,
             ghost m: Message, ghost start: nat, ghost spun: bool, ghost msgs': seq<Message>, ghost starts': seq<nat>)
    requires conn.Valid()
    requires Replay(msgs, files, answer, 0) == Replayed(sent, after, Continue)
    requires FramedInOrder(conn.data, base, msgs, starts, conn.pos) && Adjacent(msgs, starts, conn.pos)
    modifies conn
    ensures conn.Valid() && old(conn.pos) <= conn.pos && start == old(conn.pos)
    ensures outcome.Fail? && !spun ==> Frame(ServerSide, conn.data[start..]) == Failure(outcome.error)
    ensures spun ==> outcome == Fail(Hangs) && DrainSpins(conn.data, start, conn.closed, conn.pos)
    ensures outcome.Pass? ==>
              start < conn.pos && !(DrainsAfter(m.head) && conn.closed) && Follows(m, start, conn.pos)
              && msgs' == msgs + [m] && starts' == starts + [start]
              && FramedInOrder(conn.data, base, msgs', starts', conn.pos) && Adjacent(msgs', starts', conn.pos)
              && Replay(msgs', files, answer, 0) == Replayed(sent', after', stop)
  {
    start := conn.pos;
    assert conn.data[start..] == conn.Remaining();
    var header, body;
    outcome, header, body, m, spun := ReceiveRequest(conn, conn.data[start..]);
    sent', after', stop := sent, after, Continue;
    msgs', starts' := msgs + [m], starts + [start];
    if outcome.Pass? {
      FramedSnoc(conn.data, base, msgs, starts, m, start, conn.pos);
      AdjacentSnoc(msgs, starts, m, start, conn.pos);
      var x := answer(header, body, after, |sent|);
      ReplayStep(msgs, m, files, answer, sent, after, x);
      match x
      case Failure(e) =>
        stop := Crash(e);
      case Success(y) =>
        sent', after' := sent + [y.response], y.files;
        stop := if y.keepAlive then Continue else Close;
    }
  }

  /**
   * `ServerThread.run` on one connection, `answer` being how it answers a
   * framed request: frame, answer, send, and go round while the request
   * keeps the connection open.
   */
  method Serve(conn: Stream, files: FileSystem, answer: Answering)
    returns (sent: seq<seq<byte>>, after: FileSystem, ending: Ending,
             ghost msgs: seq<Message>, ghost starts: seq<nat>, ghost tried: nat)
    requires conn.Valid()
    modifies conn
    ensures conn.Valid()
    ensures Replay(msgs, files, answer, 0) == Replayed(sent, after, StopOf(ending))
    ensures FramedInOrder(conn.data, old(conn.pos), msgs, starts, tried) && Adjacent(msgs, starts, tried)
    ensures ending == Hung ==> Frame(ServerSide, conn.data[tried..]) == Failure(Hangs) || DrainSpins(conn.data, tried, conn.closed, conn.pos)
    ensures ending.ClosedAfter? ==> ending.failure != Hangs && Frame(ServerSide, conn.data[tried..]) == Failure(ending.failure)
  {
    sent, after, msgs, starts, tried := [], files, [], [], conn.pos;
    while true
      invariant conn.Valid() && old(conn.pos) <= conn.pos
      invariant Replay(msgs, files, answer, 0) == Replayed(sent, after, Continue)
      invariant FramedInOrder(conn.data, old(conn.pos), msgs, starts, conn.pos) && Adjacent(msgs, starts, conn.pos)
      decreases |conn.data| - conn.pos
    {
      var outcome, sent', after', stop, m, start, _, msgs', starts' := Round(conn, files, answer, sent, after, old(conn.pos), msgs, starts);
      if outcome.Fail? {
        ending := FailureEnding(outcome.error);
        tried := start;
        return;
      }
      msgs, starts, tried, sent, after := msgs', starts', conn.pos, sent', after';
      if stop != Continue {
        ending := EndingOf(stop);
        return;
      }
    }
  }
}
