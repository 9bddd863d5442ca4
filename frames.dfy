/**
 * What framing one HTTP/1.1 message means, as functions of the octets the
 * peer will send: the header block up to the first CR LF CR LF, what it says,
 * and the body it calls for.
 */
module Frames {
  import opened Wrappers
  import opened Bytes
  import opened Text
  import opened HeaderFields

  datatype Side = ServerSide | ClientSide

  datatype FrameError =
    | NoStatusToken      // the start line has no space: `split(" ")[1]` raises IndexError
    | BadContentLength   // `int(Content-Length)` raises ValueError
    | BadChunkSize       // `int(size line, 16)` raises ValueError
    | Hangs              // the peer has closed and a read loop would spin forever

  /** What the header block tells the framer. */
  datatype Head = Head(code: string, contentLength: Option<int>, chunked: bool, encoding: string)

  /** A framed message: its header octets, what they say, its body, and how many octets framing consumed before any drain. */
  datatype Message = Message(header: seq<byte>, head: Head, body: seq<byte>, length: nat)

  /** The largest `recv` a body read asks for. */
  const ChunkSize: nat := 1024

  const DefaultEncoding: string := "ISO-8859-1"

  // ---------------------------------------------------------------------
  // Specification functions over the octets still to be received

  /** The octets a one-at-a-time read loop takes while `t` has not yet appeared. */
  function ScanTo(rest: seq<byte>, t: seq<byte>): (r: seq<byte>)
    ensures |r| <= |rest| && r == rest[..|r|]
  {
    match Find(rest, t)
    case None => rest
    case Some(i) => rest[..i + |t|]
  }

  /** The header block: everything up to and including the first CR LF CR LF, or all of it. */
  function ScanHeader(rest: seq<byte>): seq<byte>
  {
    ScanTo(rest, CRLFCRLF)
  }

  /** The encoding a side records for a header map: only the client looks at `Content-Type`. */
  function EncodingFor(side: Side, fields: map<string, string>): string
  {
    if side == ClientSide && "Content-Type" in fields then
      if Contains(fields["Content-Type"], "UTF-8") then "UTF-8"
      else if Contains(fields["Content-Type"], "ISO-8859-1") then "ISO-8859-1"
      else DefaultEncoding
    else DefaultEncoding
  }

  /** What the pass over the header map finds: the content length, chunking and the encoding, or the exception. */
  function FieldsHead(side: Side, fields: map<string, string>): Result<(Option<int>, bool, string), FrameError>
  {
    if "Content-Length" in fields && ParseInt(fields["Content-Length"], 10).None? then
      Failure(BadContentLength)
    else
      var length := if "Content-Length" in fields then ParseInt(fields["Content-Length"], 10) else None;
      Success((length, "Transfer-Encoding" in fields, EncodingFor(side, fields)))
  }

  /** What `receive_header` makes of a header block, or the exception it raises. */
  function ReadHead(side: Side, header: seq<byte>): Result<Head, FrameError>
  {
    var text := Decode(header);
    match StatusToken(text)
    case None => Failure(NoStatusToken)
    case Some(code) =>
      match FieldsHead(side, Fields(text))
      case Failure(e) => Failure(e)
      case Success(f) => Success(Head(code, f.0, f.1, f.2))
  }

  /** The result of chunked decoding: the body and the octets used up to the end of the size-0 line. */
  datatype ChunkedResult = Decoded(body: seq<byte>, used: nat) | BadSize | Stuck

  /** `r` with `pre` put before its body and `k` octets before its count. */
  function Extend(r: ChunkedResult, pre: seq<byte>, k: nat): ChunkedResult
  {
    match r
    case Decoded(b, u) => Decoded(pre + b, k + u)
    case BadSize => BadSize
    case Stuck => Stuck
  }

  /** `receive_content_length_body`'s count: exactly `n` octets, none for `n <= 0`, `None` when the peer closes first. */
  function LengthBody(rest: seq<byte>, n: int): (r: Option<seq<byte>>)
    ensures r.Some? <==> n <= |rest|
    ensures r.Some? ==> |r.value| == (if n <= 0 then 0 else n) && r.value == rest[..|r.value|]
  {
    if n <= 0 then Some([])
    else if |rest| < n then None
    else Some(rest[..n])
  }

  /**
   * The size line of `rest`, searched for from index `i` on the way the
   * one-octet read loop does: its length up to and including the first
   * CR LF, and its value read as hexadecimal; `None` when no CR LF ever
   * arrives.
   */
  function SizeLineFrom(rest: seq<byte>, i: nat): (r: Option<(nat, Option<int>)>)
    requires i <= |rest|
    ensures r.Some? ==> i + 2 <= r.value.0 <= |rest|
    decreases |rest| - i
  {
    if i + 2 > |rest| then None
    else if rest[i] == CR && rest[i + 1] == LF then Some((i + 2, ParseInt(Decode(rest[..i + 2]), 16)))
    else SizeLineFrom(rest, i + 1)
  }

  /** The size line at the front of `rest`. */
  function SizeLine(rest: seq<byte>): (r: Option<(nat, Option<int>)>)
    ensures r.Some? ==> 2 <= r.value.0 <= |rest|
  {
    SizeLineFrom(rest, 0)
  }

  /**
   * `receive_chunked_body`: a size line; size 0 ends the body; any other
   * size `n` takes the next `n + 2` octets (the chunk and its CR LF, none
   * when `n + 2 <= 0`) and appends all of them.
   */
  function Chunked(rest: seq<byte>): ChunkedResult
    decreases |rest|
  {
    match SizeLine(rest)
    case None => Stuck
    case Some((lineLen, size)) =>
      match size
      case None => BadSize
      case Some(n) =>
        if n == 0 then Decoded([], lineLen)
        else
          match LengthBody(rest[lineLen..], n + 2)
          case None => Stuck
          case Some(c) => Extend(Chunked(rest[lineLen + |c|..]), c, lineLen + |c|)
  }

  /** Extending twice is extending once by both. */
  lemma ExtendTwice(r: ChunkedResult, p1: seq<byte>, k1: nat, p2: seq<byte>, k2: nat)
    ensures Extend(Extend(r, p2, k2), p1, k1) == Extend(r, p1 + p2, k1 + k2)
  {
    if r.Decoded? {
      assert p1 + (p2 + r.body) == (p1 + p2) + r.body;
    }
  }

  /**
   * The body the header calls for, and how many octets it takes: chunked when
   * `Transfer-Encoding` was present, else `Content-Length` octets when that
   * was, else none.
   */
  function FrameBody(chunked: bool, contentLength: Option<int>, after: seq<byte>): Result<(seq<byte>, nat), FrameError>
  {
    if chunked then
      match Chunked(after)
      case Decoded(b, used) => Success((b, used))
      case BadSize => Failure(BadChunkSize)
      case Stuck => Failure(Hangs)
    else if contentLength.Some? then
      match LengthBody(after, contentLength.value)
      case None => Failure(Hangs)
      case Some(b) => Success((b, |b|))
    else Success(([], 0))
  }

  /** The whole of `Separator.__init__` / `Response.__init__` over the octets still to come. */
  function Frame(side: Side, rest: seq<byte>): Result<Message, FrameError>
  {
    var header := ScanHeader(rest);
    match ReadHead(side, header)
    case Failure(e) => Failure(e)
    case Success(head) =>
      match FrameBody(head.chunked, head.contentLength, rest[|header|..])
      case Failure(e) => Failure(e)
      case Success((b, used)) => Success(Message(header, head, b, |header| + used))
  }

  // ---------------------------------------------------------------------
  // Unfolding chunked decoding one size line at a time

  /** The size-line scan finds the first CR LF, as `Find` does. */
  lemma {:induction false} SizeLineFind(rest: seq<byte>, i: nat)
    requires i <= |rest|
    requires forall j :: 0 <= j < i ==> !OccursAt(rest, CRLF, j)
    ensures Find(rest, CRLF).None? ==> SizeLineFrom(rest, i).None?
    ensures Find(rest, CRLF).Some? ==>
              var k := Find(rest, CRLF).value;
              SizeLineFrom(rest, i) == Some((k + 2, ParseInt(Decode(rest[..k + 2]), 16)))
    decreases |rest| - i
  {
    if i + 2 > |rest| {
      assert forall j: nat :: !OccursAt(rest, CRLF, j);
    } else if rest[i] == CR && rest[i + 1] == LF {
      assert rest[i..i + 2] == CRLF;
      FindFirst(rest, CRLF, i);
    } else {
      assert !OccursAt(rest, CRLF, i);
      SizeLineFind(rest, i + 1);
    }
  }

  /** The line a read through the first CR LF returns is the size line `Chunked` reads. */
  lemma SizeLineRead(rest: seq<byte>, line: seq<byte>)
    requires line == ScanTo(rest, CRLF)
    ensures Find(rest, CRLF).None? ==> SizeLine(rest).None?
    ensures Find(rest, CRLF).Some? ==> SizeLine(rest) == Some((|line|, ParseInt(Decode(line), 16)))
  {
    SizeLineFind(rest, 0);
  }

  /** A size line that is not hexadecimal ends decoding with `BadSize`. */
  lemma ChunkedBadLine(rest: seq<byte>, k: nat)
    requires SizeLine(rest) == Some((k, None))
    ensures Chunked(rest) == BadSize
  {
  }

  /** Size 0 ends decoding right after its line. */
  lemma ChunkedLastLine(rest: seq<byte>, k: nat)
    requires SizeLine(rest) == Some((k, Some(0)))
    ensures Chunked(rest) == Decoded([], k)
  {
  }

  /** Any other size is stuck when the peer closes before its `n + 2` octets are there. */
  lemma ChunkedShort(rest: seq<byte>, k: nat, n: int)
    requires SizeLine(rest) == Some((k, Some(n))) && n != 0
    requires LengthBody(rest[k..], n + 2).None?
    ensures Chunked(rest) == Stuck
  {
  }

  /** A size `n` other than 0 whose `n + 2` octets are there: the chunk, then decoding resumes after it. */
  lemma ChunkedNext(rest: seq<byte>, k: nat, n: int, chunk: seq<byte>)
    requires SizeLine(rest) == Some((k, Some(n))) && n != 0
    requires LengthBody(rest[k..], n + 2) == Some(chunk)
    ensures Chunked(rest) == Extend(Chunked(rest[k + |chunk|..]), chunk, k + |chunk|)
  {
  }

  // ---------------------------------------------------------------------
  // Properties of framing

  /**
   * The header read one octet at a time stops at the first CR LF CR LF: it
   * ends with it and contains no earlier one. Without one it is everything
   * the peer sent.
   */
  lemma HeaderStopsAtFirstBlankLine(rest: seq<byte>)
    ensures var h := ScanHeader(rest);
            if Contains(rest, CRLFCRLF) then
              |h| >= 4 && h[|h| - 4..] == CRLFCRLF && Find(h, CRLFCRLF) == Some(|h| - 4)
            else h == rest
  {
    var h := ScanHeader(rest);
    if Contains(rest, CRLFCRLF) {
      var i := Find(rest, CRLFCRLF).value;
      assert h == rest[..i + 4];
      assert h[|h| - 4..] == rest[i..i + 4];
      OccursInPrefix(rest, CRLFCRLF, i + 4, i);
      forall j | 0 <= j < i ensures !OccursAt(h, CRLFCRLF, j) {
        OccursInPrefix(rest, CRLFCRLF, i + 4, j);
      }
      FindFirst(h, CRLFCRLF, i);
    }
  }

  /**
   * What a header block says: the code is the second word of its first
   * line, chunking is the presence of `Transfer-Encoding`, the length is
   * `Content-Length` read in decimal; it fails exactly for a first line
   * without a space, or else for a `Content-Length` that is not a number.
   */
  lemma ReadHeadFields(side: Side, header: seq<byte>)
    ensures var text := Decode(header);
            var f := Fields(text);
            var r := ReadHead(side, header);
            && (r == Failure(NoStatusToken) <==> StatusToken(text).None?)
            && (r == Failure(BadContentLength) <==>
                  StatusToken(text).Some? && "Content-Length" in f && ParseInt(f["Content-Length"], 10).None?)
            && (r.Failure? ==> r.error == NoStatusToken || r.error == BadContentLength)
            && (r.Success? ==>
                  && r.value.code == StatusToken(text).value
                  && r.value.chunked == ("Transfer-Encoding" in f)
                  && r.value.contentLength == (if "Content-Length" in f then ParseInt(f["Content-Length"], 10) else None)
                  && r.value.encoding == EncodingFor(side, f))
  {
  }

  /**
   * The recorded encoding is `UTF-8` or `ISO-8859-1`. The server always
   * keeps the default; the client takes `UTF-8` exactly when `Content-Type`
   * holds that text, matched case-sensitively.
   */
  lemma EncodingDetected(side: Side, fields: map<string, string>)
    ensures var e := EncodingFor(side, fields);
            && (e == "UTF-8" || e == "ISO-8859-1")
            && (side == ServerSide ==> e == DefaultEncoding)
            && (side == ClientSide ==>
                  (e == "UTF-8" <==> "Content-Type" in fields && Contains(fields["Content-Type"], "UTF-8")))
  {
  }

  /** With `Transfer-Encoding` present the body is chunked whatever `Content-Length` says. */
  lemma ChunkedTakesPrecedence(a: Option<int>, b: Option<int>, after: seq<byte>)
    ensures FrameBody(true, a, after) == FrameBody(true, b, after)
  {
  }

  /** With neither header, nothing after the header is consumed and the body is empty. */
  lemma NoLengthNoBody(after: seq<byte>)
    ensures FrameBody(false, None, after) == Success(([], 0))
  {
  }

  /** A `Content-Length` body is exactly that many octets, taken from the front. */
  lemma LengthBodyExact(rest: seq<byte>, n: int)
    requires 0 <= n <= |rest|
    ensures FrameBody(false, Some(n), rest) == Success((rest[..n], n))
  {
  }

  /** A framed message is its header, then the body framing found after it. */
  lemma FrameParts(side: Side, rest: seq<byte>)
    requires Frame(side, rest).Success?
    ensures ReadHead(side, ScanHeader(rest)).Success?
    ensures var head := ReadHead(side, ScanHeader(rest)).value;
            var body := FrameBody(head.chunked, head.contentLength, rest[|ScanHeader(rest)|..]);
            body.Success? && Frame(side, rest).value.length == |ScanHeader(rest)| + body.value.1
  {
  }

  /** A header block that does not read makes framing fail the same way. */
  lemma FrameHeadFails(side: Side, rest: seq<byte>, hdr: seq<byte>, e: FrameError)
    requires ScanHeader(rest) == hdr && ReadHead(side, hdr) == Failure(e)
    ensures Frame(side, rest) == Failure(e)
  {
  }

  /** A body that does not frame makes framing fail the same way. */
  lemma FrameBodyFails(side: Side, rest: seq<byte>, hdr: seq<byte>, head: Head, e: FrameError)
    requires ScanHeader(rest) == hdr && ReadHead(side, hdr) == Success(head)
    requires FrameBody(head.chunked, head.contentLength, rest[|hdr|..]) == Failure(e)
    ensures Frame(side, rest) == Failure(e)
  {
  }

  /** The message framing yields, field by field. */
  lemma FrameValue(side: Side, rest: seq<byte>, hdr: seq<byte>, head: Head, body: seq<byte>, used: nat)
    requires ScanHeader(rest) == hdr && ReadHead(side, hdr) == Success(head)
    requires var b := FrameBody(head.chunked, head.contentLength, rest[|hdr|..]);
             b.Success? && b.value.0 == body && b.value.1 == used
    ensures Frame(side, rest).Success? && Frame(side, rest).value == Message(hdr, head, body, |hdr| + used)
  {
  }

  /** Framing in three steps: the header block, what it says, and the body it calls for. */
  lemma FrameOf(side: Side, rest: seq<byte>, hdr: seq<byte>, head: Head, body: seq<byte>, used: nat)
    requires ScanHeader(rest) == hdr && ReadHead(side, hdr) == Success(head)
    requires FrameBody(head.chunked, head.contentLength, rest[|hdr|..]) == Success((body, used))
    ensures Frame(side, rest) == Success(Message(hdr, head, body, |hdr| + used))
  {
    FrameValue(side, rest, hdr, head, body, used);
  }

  /** A header with a status token is not empty. */
  lemma HeadNotEmpty(side: Side, header: seq<byte>)
    requires ReadHead(side, header).Success?
    ensures |header| >= 1
  {
    var text := Decode(header);
    assert StatusToken(text).Some?;
    assert ' ' in FirstLine(text);
  }

  /** Body framing takes no more octets than there are. */
  lemma BodyWithin(chunked: bool, contentLength: Option<int>, after: seq<byte>)
    requires FrameBody(chunked, contentLength, after).Success?
    ensures FrameBody(chunked, contentLength, after).value.1 <= |after|
  {
    if chunked {
      ChunkedWithin(after);
    }
  }

  /** A framed message takes at least one octet and no more than were sent. */
  lemma FrameConsumes(side: Side, rest: seq<byte>)
    requires Frame(side, rest).Success?
    ensures 1 <= Frame(side, rest).value.length <= |rest|
  {
    var header := ScanHeader(rest);
    FrameParts(side, rest);
    var head := ReadHead(side, header).value;
    HeadNotEmpty(side, header);
    BodyWithin(head.chunked, head.contentLength, rest[|header|..]);
  }

  /** Chunked decoding never counts more octets than there are. */
  lemma {:induction false} ChunkedWithin(rest: seq<byte>)
    ensures Chunked(rest).Decoded? ==> Chunked(rest).used <= |rest|
    decreases |rest|
  {
    match SizeLine(rest)
    case None =>
    case Some((k, size)) =>
      if size.Some? && size.value != 0 && LengthBody(rest[k..], size.value + 2).Some? {
        var c := LengthBody(rest[k..], size.value + 2).value;
        ChunkedWithin(rest[k + |c|..]);
      }
  }

  /**
   * A reference chunked encoder: each chunk as its size in hexadecimal, CR LF,
   * the chunk and CR LF, then the size-0 line.
   */
  function ChunkedEncoding(chunks: seq<seq<byte>>): seq<byte>
  {
    if chunks == [] then Encode("0\r\n")
    else Encode(NatToDigits(|chunks[0]|, 16) + "\r\n") + chunks[0] + CRLF + ChunkedEncoding(chunks[1..])
  }

  /** What the decoder keeps of each chunk: the chunk and its CR LF. */
  function WithLineEnds(chunks: seq<seq<byte>>): seq<byte>
  {
    if chunks == [] then [] else chunks[0] + CRLF + WithLineEnds(chunks[1..])
  }

  /** A CR LF ending at `e` with no CR between `i` and it is where the size line from `i` ends. */
  lemma {:induction false} SizeLineEnds(rest: seq<byte>, i: nat, e: nat)
    requires i + 2 <= e <= |rest| && rest[e - 2] == CR && rest[e - 1] == LF
    requires forall j :: i <= j < e - 2 ==> rest[j] != CR
    ensures SizeLineFrom(rest, i).Some? && SizeLineFrom(rest, i).value.0 == e
    decreases e - i
  {
    if i + 2 < e {
      SizeLineEnds(rest, i + 1, e);
    }
  }

  /** A line ending in its first CR, followed by anything, is the size line at the front. */
  lemma SizeLineOfLine(line: seq<byte>, more: seq<byte>)
    requires |line| >= 2 && line[|line| - 2] == CR && line[|line| - 1] == LF
    requires forall j :: 0 <= j < |line| - 2 ==> line[j] != CR
    ensures SizeLineFrom(line + more, 0).Some? && SizeLineFrom(line + more, 0).value.0 == |line|
  {
    var rest := line + more;
    forall j | 0 <= j < |line| ensures rest[j] == line[j] {
    }
    SizeLineEnds(rest, 0, |line|);
  }

  /** A size line's value is its text read in hexadecimal. */
  lemma {:induction false} SizeLineValue(rest: seq<byte>, i: nat)
    requires i <= |rest| && SizeLineFrom(rest, i).Some?
    ensures SizeLineFrom(rest, i).value.1 == ParseInt(Decode(rest[..SizeLineFrom(rest, i).value.0]), 16)
    decreases |rest| - i
  {
    if !(rest[i] == CR && rest[i + 1] == LF) {
      SizeLineValue(rest, i + 1);
    }
  }

  /** A rendered size line: its digits, then CR LF, and no CR among the digits. */
  lemma RenderedLineShape(n: nat)
    ensures var line := Encode(NatToDigits(n, 16) + "\r\n");
            |line| == |NatToDigits(n, 16)| + 2 && line[|line| - 2] == CR && line[|line| - 1] == LF
            && (forall j :: 0 <= j < |line| - 2 ==> line[j] != CR)
            && Decode(line) == NatToDigits(n, 16) + "\r\n"
  {
    var digits := NatToDigits(n, 16);
    var text := digits + "\r\n";
    var line := Encode(text);
    forall j | 0 <= j < |text| ensures text[j] as int < 256 && (j < |digits| ==> text[j] != '\r') {
      if j < |digits| {
        assert text[j] == digits[j] && IsDigitChar(digits[j]);
      }
    }
    DecodeEncode(text);
  }

  /** The size line of a rendered size reads back as that size. */
  lemma RenderedSizeLine(n: nat, more: seq<byte>)
    ensures SizeLine(Encode(NatToDigits(n, 16) + "\r\n") + more) == Some((|NatToDigits(n, 16)| + 2, Some(n)))
  {
    var line := Encode(NatToDigits(n, 16) + "\r\n");
    RenderedLineShape(n);
    SizeLineOfLine(line, more);
    SizeLineValue(line + more, 0);
    ConcatParts(line, more);
    ParseSizeLine(n);
  }

  /** The size-0 line of a reference encoding ends decoding after its three octets. */
  lemma ChunkedEncodingLast(tail: seq<byte>)
    ensures Chunked(ChunkedEncoding([]) + tail) == Decoded([], 3)
  {
    var rest := Encode("0\r\n") + tail;
    assert NatToDigits(0, 16) == "0";
    assert NatToDigits(0, 16) + "\r\n" == "0\r\n";
    RenderedSizeLine(0, tail);
    assert SizeLine(rest) == Some((3, Some(0)));
    ChunkedLastLine(rest, 3);
  }

  /** A size line whose chunk and CR LF are all there, followed by `next`: decoding resumes at `next`. */
  lemma ChunkedAfterChunk(rest: seq<byte>, k: nat, chunk: seq<byte>, next: seq<byte>)
    requires |chunk| > 2 && SizeLine(rest) == Some((k, Some(|chunk| - 2)))
    requires rest[k..] == chunk + next
    ensures Chunked(rest) == Extend(Chunked(next), chunk, k + |chunk|)
  {
    var n := |chunk| - 2;
    ConcatParts(chunk, next);
    assert LengthBody(rest[k..], n + 2) == Some(chunk);
    ChunkedNext(rest, k, n, chunk);
    assert rest[k + |chunk|..] == rest[k..][|chunk|..];
  }

  /** One rendered chunk before `next`: the chunk and its CR LF, then whatever `next` decodes to. */
  lemma ChunkedEncodingStep(line: seq<byte>, c: seq<byte>, next: seq<byte>)
    requires |c| > 0 && line == Encode(NatToDigits(|c|, 16) + "\r\n")
    ensures Chunked(line + (c + CRLF + next)) == Extend(Chunked(next), c + CRLF, |line| + |c| + 2)
  {
    var chunk := c + CRLF;
    var more := chunk + next;
    var digits := NatToDigits(|c|, 16);
    assert |line| == |digits| + 2 && |chunk| - 2 == |c|;
    RenderedSizeLine(|c|, more);
    assert SizeLine(line + more) == Some((|line|, Some(|chunk| - 2)));
    ConcatParts(line, more);
    ChunkedAfterChunk(line + more, |line|, chunk, next);
  }

  /**
   * Decoding a reference encoding gives back every chunk with its CR LF, and
   * counts the octets up to the end of the size-0 line.
   */
  lemma {:induction false} ChunkedRoundTrip(chunks: seq<seq<byte>>, tail: seq<byte>)
    requires forall i :: 0 <= i < |chunks| ==> |chunks[i]| > 0
    ensures Chunked(ChunkedEncoding(chunks) + tail) == Decoded(WithLineEnds(chunks), |ChunkedEncoding(chunks)|)
    decreases |chunks|
  {
    if chunks == [] {
      ChunkedEncodingLast(tail);
    } else {
      var c := chunks[0];
      var line := Encode(NatToDigits(|c|, 16) + "\r\n");
      var next := ChunkedEncoding(chunks[1..]);
      var whole := ChunkedEncoding(chunks);
      assert whole == line + c + CRLF + next;
      assert whole + tail == line + (c + CRLF + (next + tail));
      ChunkedEncodingStep(line, c, next + tail);
      ChunkedRoundTrip(chunks[1..], tail);
      var w := WithLineEnds(chunks[1..]);
      assert Chunked(next + tail) == Decoded(w, |next|);
      calc {
        Chunked(whole + tail);
        Chunked(line + (c + CRLF + (next + tail)));
        Extend(Chunked(next + tail), c + CRLF, |line| + |c| + 2);
        Extend(Decoded(w, |next|), c + CRLF, |line| + |c| + 2);
      }
      assert WithLineEnds(chunks) == c + CRLF + w;
    }
  }
}
