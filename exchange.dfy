/**
 * What the server's framer and `Request.parse` make of the octets the
 * client's `make_request` builds: the header block the client writes is the
 * one the server reads, its start line gives back the method, the target and
 * the version, and an upload's `Content-Length` makes the server read
 * exactly the uploaded file as the body.
 */
module Exchange {
  import opened Wrappers
  import opened Bytes
  import opened Text
  import opened HeaderFields
  import opened Frames
  import opened ServerRequest
  import opened ClientRequest
  import opened HeaderBlocks

  // ---------------------------------------------------------------------
  // The client's lines

  /** A word of the request line: octet text without spaces or line boundaries. */
  predicate Word(x: string)
  {
    IsOctetText(x) && Unbroken(x) && ' ' !in x
  }

  function RequestLineText(verb: string, resource: string): string
  {
    verb + " " + resource + " HTTP/1.1"
  }

  /** A `key: value` line as the client writes one. */
  function FieldText(key: string, value: string): string
  {
    key + ": " + value
  }

  /** The lines of a request without an upload. */
  function PlainLines(verb: string, resource: string, host: string): seq<string>
  {
    [RequestLineText(verb, resource), FieldText("Host", host)]
  }

  /** The lines of a request with an upload. */
  function UploadLines(verb: string, resource: string, host: string, contentType: string, length: nat): seq<string>
  {
    PlainLines(verb, resource, host) + [FieldText("Content-Type", contentType), FieldText("Content-Length", NatToString(length))]
  }

  /** The request line splits on spaces into the method, the resource and the version. */
  lemma RequestLineWords(verb: string, resource: string)
    requires ' ' !in verb && ' ' !in resource
    ensures Words(RequestLineText(verb, resource)) == [verb, resource, "HTTP/1.1"]
  {
    var version := "HTTP/1.1";
    var tail := resource + " " + version;
    assert RequestLineText(verb, resource) == verb + " " + tail;
    OneWord(version);
    SplitAfter(resource, " ", version);
    assert Split(tail, " ") == [resource, version];
    SplitAfter(verb, " ", tail);
  }

  /** A text with no space in it splits on spaces into itself. */
  lemma OneWord(w: string)
    requires ' ' !in w
    ensures Split(w, " ") == [w]
  {
    ContainsChar(w, ' ');
    SplitNone(w, " ");
  }

  /** With no `:` in the method, a key read from the request line holds a space. */
  lemma RequestLineKey(verb: string, resource: string)
    requires ':' !in verb
    ensures var l := RequestLineText(verb, resource);
            ':' in l ==> ' ' in FieldKey(l)
  {
    var l := RequestLineText(verb, resource);
    if ':' in l {
      assert l[|verb|] == ' ';
      assert forall j :: 0 <= j < |verb| ==> l[j] == verb[j];
      assert IndexOf(l, ':') > |verb|;
      assert FieldKey(l)[|verb|] == ' ';
    }
  }

  /** A `key: value` line, with no `:` in the key, defines that key with the value stripped. */
  lemma FieldTextRead(key: string, value: string)
    requires ':' !in key
    ensures ':' in FieldText(key, value)
    ensures FieldKey(FieldText(key, value)) == key
    ensures FieldValue(FieldText(key, value)) == Strip(" " + value)
  {
    var l := FieldText(key, value);
    assert l[..|key|] == key;
    assert l[|key|] == ':';
    IndexOfFirst(l, ':', |key|);
    assert l[|key| + 1..] == " " + value;
  }

  /** `strip` of a value after the one space the client puts after `:`. */
  lemma StripOneSpace(x: string)
    requires x == [] || (!IsSpace(x[0]) && !IsSpace(x[|x| - 1]))
    ensures Strip(" " + x) == x
  {
    var t := " " + x;
    assert KeptFrom(t, 0, IsSpace) == 1;
    assert TrimStart(t, IsSpace) == x;
    StripUnpadded(x);
  }

  /** A number in decimal has no space at either end, so `strip` leaves it as it is. */
  lemma StripDigits(n: nat)
    ensures Strip(" " + NatToString(n)) == NatToString(n)
  {
    var d := NatToString(n);
    assert IsDigitChar(d[0]) && IsDigitChar(d[|d| - 1]);
    StripOneSpace(d);
  }

  /** Without an upload the client writes its two lines and the blank line, nothing more. */
  lemma PlainBlock(verb: string, resource: string, host: string)
    ensures Serialised(verb, resource, host, None) == Encode(LinesText(PlainLines(verb, resource, host)))
  {
    var a := RequestLineText(verb, resource);
    var b := FieldText("Host", host);
    var lines := PlainLines(verb, resource, host);
    assert lines[1..] == [b] && lines[1..][1..] == [];
    assert LinesText([b]) == b + "\r\n" + "\r\n";
    assert LinesText(lines) == a + "\r\n" + LinesText([b]);
    assert StartText(verb, resource, host) + "\r\n" == a + "\r\n" + (b + "\r\n" + "\r\n");
    EncodeConcat(StartText(verb, resource, host), "\r\n");
  }

  lemma LinesTextCons(l: string, rest: seq<string>)
    ensures LinesText([l] + rest) == l + "\r\n" + LinesText(rest)
  {
    assert ([l] + rest)[1..] == rest;
  }

  /** The two upload lines and the blank line are the upload's text and CR LF. */
  lemma UploadTail(contentType: string, body: seq<byte>)
    ensures LinesText([FieldText("Content-Type", contentType), FieldText("Content-Length", NatToString(|body|))])
            == UploadText(contentType, body) + "\r\n"
  {
    var c := FieldText("Content-Type", contentType);
    var d := FieldText("Content-Length", NatToString(|body|));
    LinesTextCons(d, []);
    LinesTextCons(c, [d]);
    assert [c] + [d] == [c, d];
  }

  /** The four lines of an upload and the blank line are the start lines, the upload's lines, and CR LF. */
  lemma UploadLinesText(verb: string, resource: string, host: string, contentType: string, body: seq<byte>)
    ensures LinesText(UploadLines(verb, resource, host, contentType, |body|))
            == StartText(verb, resource, host) + UploadText(contentType, body) + "\r\n"
  {
    var a := RequestLineText(verb, resource);
    var b := FieldText("Host", host);
    var tail := [FieldText("Content-Type", contentType), FieldText("Content-Length", NatToString(|body|))];
    var lines := UploadLines(verb, resource, host, contentType, |body|);
    assert lines == [a] + ([b] + tail);
    LinesTextCons(a, [b] + tail);
    LinesTextCons(b, tail);
    UploadTail(contentType, body);
    var u := UploadText(contentType, body);
    assert StartText(verb, resource, host) == a + "\r\n" + (b + "\r\n");
    assert LinesText(lines) == a + "\r\n" + (b + "\r\n" + (u + "\r\n"));
  }

  /** With an upload the client writes its four lines and the blank line, then a non-empty body and CR LF. */
  lemma UploadBlock(verb: string, resource: string, host: string, contentType: string, body: seq<byte>)
    ensures Serialised(verb, resource, host, Some((contentType, body)))
            == Encode(LinesText(UploadLines(verb, resource, host, contentType, |body|)))
               + (if body == [] then [] else body + CRLF)
  {
    var start := StartText(verb, resource, host);
    var up := UploadText(contentType, body);
    UploadLinesText(verb, resource, host, contentType, body);
    EncodeConcat(start, up);
    EncodeConcat(start + up, "\r\n");
    assert Encode("\r\n") == CRLF;
    var e := Encode(start + up);
    if body == [] {
      assert Serialised(verb, resource, host, Some((contentType, body))) == e + CRLF;
    } else {
      assert Serialised(verb, resource, host, Some((contentType, body))) == e + (CRLF + body) + CRLF;
      assert e + (CRLF + body) + CRLF == (e + CRLF) + (body + CRLF);
    }
  }

  /** What the client may put in a request without breaking its lines. */
  predicate Sendable(verb: string, resource: string, host: string)
  {
    Word(verb) && Word(resource) && ':' !in verb && IsOctetText(host) && Unbroken(host)
  }

  lemma PlainLinesFit(verb: string, resource: string, host: string)
    requires Sendable(verb, resource, host)
    ensures forall k :: 0 <= k < 2 ==> HeaderLine(PlainLines(verb, resource, host)[k])
  {
    var lines := PlainLines(verb, resource, host);
    var a := RequestLineText(verb, resource);
    var b := FieldText("Host", host);
    assert forall j :: 0 <= j < |a| ==> a[j] == (if j < |verb| then verb[j] else if j == |verb| then ' '
                                          else if j <= |verb| + |resource| then resource[j - |verb| - 1]
                                          else " HTTP/1.1"[j - |verb| - |resource| - 1]);
    assert forall j :: 0 <= j < |b| ==> b[j] == (if j < 6 then "Host: "[j] else host[j - 6]);
  }

  /** The keys the server finds in a request without an upload: `Host` and no other key without a space. */
  lemma PlainKeys(verb: string, resource: string, host: string, k: string)
    requires ':' !in verb && ' ' !in k
    ensures k in FieldsOf(PlainLines(verb, resource, host)) <==> k == "Host"
  {
    var lines := PlainLines(verb, resource, host);
    RequestLineKey(verb, resource);
    FieldTextRead("Host", host);
    FieldsOfHas(lines, k);
    assert k == "Host" ==> DefinesAt(lines, k, 1);
  }

  /** A `key: value` line made of a plain key and a plain value is a header line. */
  lemma FieldLine(key: string, value: string)
    requires |key| > 0 && IsOctetText(key) && Unbroken(key) && IsOctetText(value) && Unbroken(value)
    ensures HeaderLine(FieldText(key, value))
  {
    var l := FieldText(key, value);
    forall j | 0 <= j < |l| ensures l[j] as int < 256 && !IsLineBreak(l[j]) {
      if j < |key| {
        assert l[j] == key[j];
      } else if j >= |key| + 2 {
        assert l[j] == value[j - |key| - 2];
      }
    }
  }

  lemma UploadLinesFit(verb: string, resource: string, host: string, contentType: string, length: nat)
    requires Sendable(verb, resource, host) && IsOctetText(contentType) && Unbroken(contentType)
    ensures forall k :: 0 <= k < 4 ==> HeaderLine(UploadLines(verb, resource, host, contentType, length)[k])
  {
    PlainLinesFit(verb, resource, host);
    var digits := NatToString(length);
    assert forall j :: 0 <= j < |digits| ==> IsDigitChar(digits[j]);
    assert IsOctetText("Content-Type") && Unbroken("Content-Type");
    assert IsOctetText("Content-Length") && Unbroken("Content-Length");
    FieldLine("Content-Type", contentType);
    FieldLine("Content-Length", digits);
  }

  /** Which line of an upload defines a key without a space. */
  lemma UploadDefines(verb: string, resource: string, host: string, contentType: string, length: nat, k: string, i: int)
    requires ':' !in verb && ' ' !in k
    ensures DefinesAt(UploadLines(verb, resource, host, contentType, length), k, i)
            <==> (i == 1 && k == "Host") || (i == 2 && k == "Content-Type") || (i == 3 && k == "Content-Length")
  {
    var lines := UploadLines(verb, resource, host, contentType, length);
    assert |lines| == 4;
    if i == 0 {
      RequestLineKey(verb, resource);
    } else if i == 1 {
      FieldTextRead("Host", host);
    } else if i == 2 {
      FieldTextRead("Content-Type", contentType);
    } else if i == 3 {
      FieldTextRead("Content-Length", NatToString(length));
    }
  }

  /** The keys the server finds in an upload: `Host`, `Content-Type`, `Content-Length`, and no other key without a space. */
  lemma UploadKeys(verb: string, resource: string, host: string, contentType: string, length: nat, k: string)
    requires ':' !in verb && ' ' !in k
    ensures k in FieldsOf(UploadLines(verb, resource, host, contentType, length))
            <==> k == "Host" || k == "Content-Type" || k == "Content-Length"
  {
    var lines := UploadLines(verb, resource, host, contentType, length);
    FieldsOfHas(lines, k);
    forall i ensures DefinesAt(lines, k, i) <==> (i == 1 && k == "Host") || (i == 2 && k == "Content-Type") || (i == 3 && k == "Content-Length") {
      UploadDefines(verb, resource, host, contentType, length, k, i);
    }
    if k == "Host" {
      assert DefinesAt(lines, k, 1);
    } else if k == "Content-Type" {
      assert DefinesAt(lines, k, 2);
    } else if k == "Content-Length" {
      assert DefinesAt(lines, k, 3);
    }
  }

  /** The server reads back the length the client wrote: the last line defines it. */
  lemma UploadLength(verb: string, resource: string, host: string, contentType: string, length: nat)
    ensures var fields := FieldsOf(UploadLines(verb, resource, host, contentType, length));
            "Content-Length" in fields && fields["Content-Length"] == NatToString(length)
  {
    var lines := UploadLines(verb, resource, host, contentType, length);
    var digits := NatToString(length);
    FieldTextRead("Content-Length", digits);
    assert lines[3] == FieldText("Content-Length", digits);
    FieldsOfLastWins(lines, "Content-Length", 3);
    StripDigits(length);
  }

  /** The server reads back the content type the client wrote, stripped: the line after it defines another key. */
  lemma UploadType(verb: string, resource: string, host: string, contentType: string, length: nat)
    ensures var fields := FieldsOf(UploadLines(verb, resource, host, contentType, length));
            "Content-Type" in fields && fields["Content-Type"] == Strip(" " + contentType)
  {
    var lines := UploadLines(verb, resource, host, contentType, length);
    var c := FieldText("Content-Type", contentType);
    var d := FieldText("Content-Length", NatToString(length));
    assert |lines| == 4 && lines[2] == c && lines[3] == d;
    FieldTextRead("Content-Type", contentType);
    FieldTextRead("Content-Length", NatToString(length));
    assert |"Content-Length"| != |"Content-Type"|;
    forall j | 2 < j < |lines| ensures !DefinesAt(lines, "Content-Type", j) {
      assert j == 3;
    }
    FieldsOfLastWins(lines, "Content-Type", 2);
  }

  // ---------------------------------------------------------------------
  // The server reads what the client sends

  /** A header block that calls for no body frames as just itself. */
  lemma FrameOfHeaderOnly(side: Side, rest: seq<byte>, hdr: seq<byte>, head: Frames.Head)
    requires ScanHeader(rest) == hdr && ReadHead(side, hdr) == Success(head)
    requires !head.chunked && head.contentLength.None?
    ensures Frame(side, rest) == Success(Message(hdr, head, [], |hdr|))
  {
    NoLengthNoBody(rest[|hdr|..]);
    FrameValue(side, rest, hdr, head, [], 0);
  }

  /** A server-side header block naming neither `Content-Length` nor `Transfer-Encoding`. */
  lemma HeadWithout(hdr: seq<byte>, text: string, token: string)
    requires Decode(hdr) == text && StatusToken(text) == Some(token)
    requires "Content-Length" !in Fields(text) && "Transfer-Encoding" !in Fields(text)
    ensures ReadHead(ServerSide, hdr) == Success(Frames.Head(token, None, false, DefaultEncoding))
  {
    assert FieldsHead(ServerSide, Fields(text)) == Success((None, false, DefaultEncoding));
  }

  /** A server-side header block whose `Content-Length` reads as `n`, without `Transfer-Encoding`. */
  lemma HeadWithLength(hdr: seq<byte>, token: string, n: int)
    requires StatusToken(Decode(hdr)) == Some(token)
    requires "Content-Length" in Fields(Decode(hdr)) && ParseInt(Fields(Decode(hdr))["Content-Length"], 10) == Some(n)
    requires "Transfer-Encoding" !in Fields(Decode(hdr))
    ensures ReadHead(ServerSide, hdr) == Success(Frames.Head(token, Some(n), false, DefaultEncoding))
  {
    var f := Fields(Decode(hdr));
    assert FieldsHead(ServerSide, f) == Success((Some(n), false, DefaultEncoding));
  }

  /** The body of a `Content-Length` header that reads as `n`. */
  lemma BodyWithLength(after: seq<byte>, n: nat, body: seq<byte>)
    requires LengthBody(after, n) == Some(body)
    ensures FrameBody(false, Some(n), after) == Success((body, |body|))
  {
    assert FrameBody(false, Some(n), after).Success? && FrameBody(false, Some(n), after).value == (body, |body|);
  }

  /** The start line of a request's lines gives the resource as the status token. */
  lemma TokenOfLines(lines: seq<string>, verb: string, resource: string)
    requires |lines| > 0 && forall k :: 0 <= k < |lines| ==> HeaderLine(lines[k])
    requires lines[0] == RequestLineText(verb, resource) && ' ' !in verb && ' ' !in resource
    ensures StatusToken(LinesText(lines)) == Some(resource)
  {
    BlockLines(lines);
    RequestLineWords(verb, resource);
  }

  /** The header block of a request without an upload decodes to its lines. */
  lemma PlainDecodes(verb: string, resource: string, host: string)
    requires Sendable(verb, resource, host)
    ensures Decode(Serialised(verb, resource, host, None)) == LinesText(PlainLines(verb, resource, host))
  {
    PlainLinesFit(verb, resource, host);
    PlainBlock(verb, resource, host);
    LinesOctet(PlainLines(verb, resource, host));
    DecodeEncode(LinesText(PlainLines(verb, resource, host)));
  }

  /** The text of a request without an upload names neither `Content-Length` nor `Transfer-Encoding`. */
  lemma PlainAbsent(verb: string, resource: string, host: string)
    requires Sendable(verb, resource, host)
    ensures var text := LinesText(PlainLines(verb, resource, host));
            "Content-Length" !in Fields(text) && "Transfer-Encoding" !in Fields(text)
  {
    assert ' ' !in "Content-Length" && ' ' !in "Transfer-Encoding";
    PlainLinesFit(verb, resource, host);
    BlockLines(PlainLines(verb, resource, host));
    PlainKeys(verb, resource, host, "Content-Length");
    PlainKeys(verb, resource, host, "Transfer-Encoding");
  }

  /** The framer stops right after the blank line of a request without an upload. */
  lemma PlainScanned(verb: string, resource: string, host: string, more: seq<byte>)
    requires Sendable(verb, resource, host)
    ensures ScanHeader(Serialised(verb, resource, host, None) + more) == Serialised(verb, resource, host, None)
  {
    PlainLinesFit(verb, resource, host);
    PlainBlock(verb, resource, host);
    BlockScanned(PlainLines(verb, resource, host), more);
  }

  /** The status token of a request without an upload is its resource. */
  lemma PlainToken(verb: string, resource: string, host: string)
    requires Sendable(verb, resource, host)
    ensures StatusToken(LinesText(PlainLines(verb, resource, host))) == Some(resource)
  {
    PlainLinesFit(verb, resource, host);
    TokenOfLines(PlainLines(verb, resource, host), verb, resource);
  }

  /** The header block of a request without an upload, and what the server's framer reads from it. */
  lemma PlainHead(verb: string, resource: string, host: string, more: seq<byte>)
    requires Sendable(verb, resource, host)
    ensures ScanHeader(Serialised(verb, resource, host, None) + more) == Serialised(verb, resource, host, None)
    ensures ReadHead(ServerSide, Serialised(verb, resource, host, None)) == Success(Frames.Head(resource, None, false, DefaultEncoding))
  {
    PlainScanned(verb, resource, host, more);
    PlainDecodes(verb, resource, host);
    PlainToken(verb, resource, host);
    PlainAbsent(verb, resource, host);
    HeadWithout(Serialised(verb, resource, host, None), LinesText(PlainLines(verb, resource, host)), resource);
  }

  /**
   * A request without an upload, followed by anything: the server's framer
   * reads exactly it as the header, its status token is the resource, and
   * there is no body.
   */
  lemma ServerFramesPlainRequest(verb: string, resource: string, host: string, more: seq<byte>)
    requires Sendable(verb, resource, host)
    ensures Frame(ServerSide, Serialised(verb, resource, host, None) + more)
            == Success(Message(Serialised(verb, resource, host, None), Frames.Head(resource, None, false, DefaultEncoding),
                               [], |Serialised(verb, resource, host, None)|))
  {
    var hdr := Serialised(verb, resource, host, None);
    PlainHead(verb, resource, host, more);
    FrameOfHeaderOnly(ServerSide, hdr + more, hdr, Frames.Head(resource, None, false, DefaultEncoding));
  }

  /** `Request.parse` of a header block whose start line has three words, given what its header map says. */
  lemma ParsedFrom(header: seq<byte>, body: seq<byte>, urlPath: string -> string, text: string,
                   verb: string, resource: string, host: bool, keep: bool, encoding: string)
    requires Decode(header) == text && Words(FirstLine(text)) == [verb, resource, "HTTP/1.1"]
    requires HostPresent(Fields(text)) == host && KeepAlive(Fields(text)) == keep && RequestEncoding(Fields(text)) == encoding
    ensures RequestOf(header, body, urlPath)
            == Success(ServerRequest.Request(verb, Target(resource, urlPath), Encode("HTTP/1.1"), host, keep, encoding, body))
  {
    WordsAgree(header);
    var w := RequestWords(header);
    assert Decode(w[0]) == verb && Decode(w[1]) == resource && Decode(w[2]) == "HTTP/1.1";
    EncodeDecode(w[2]);
    var r := RequestOf(header, body, urlPath);
    assert r.Success? && r.value == ServerRequest.Request(verb, Target(resource, urlPath), Encode("HTTP/1.1"), host, keep, encoding, body);
  }

  /** The start line of a request without an upload splits into the method, the resource and the version. */
  lemma PlainWords(verb: string, resource: string, host: string)
    requires Sendable(verb, resource, host)
    ensures Words(FirstLine(LinesText(PlainLines(verb, resource, host)))) == [verb, resource, "HTTP/1.1"]
  {
    PlainLinesFit(verb, resource, host);
    BlockLines(PlainLines(verb, resource, host));
    RequestLineWords(verb, resource);
  }

  /** The header map of a request without an upload: `Host` present, no `Connection`, no `Content-Type`. */
  lemma PlainFlags(verb: string, resource: string, host: string)
    requires Sendable(verb, resource, host)
    ensures var fields := Fields(LinesText(PlainLines(verb, resource, host)));
            HostPresent(fields) && KeepAlive(fields) && RequestEncoding(fields) == DefaultRequestEncoding
  {
    PlainLinesFit(verb, resource, host);
    BlockLines(PlainLines(verb, resource, host));
    assert ' ' !in "Host" && ' ' !in "Connection" && ' ' !in "Content-Type";
    PlainKeys(verb, resource, host, "Host");
    PlainKeys(verb, resource, host, "Connection");
    PlainKeys(verb, resource, host, "Content-Type");
  }

  /**
   * `Request.parse` of such a request: the client's method, its resource as
   * the target, version `HTTP/1.1`, `Host` present, kept alive and the
   * default encoding.
   */
  lemma ServerParsesPlainRequest(verb: string, resource: string, host: string, urlPath: string -> string)
    requires Sendable(verb, resource, host)
    ensures RequestOf(Serialised(verb, resource, host, None), [], urlPath)
            == Success(ServerRequest.Request(verb, Target(resource, urlPath), Encode("HTTP/1.1"), true, true, DefaultRequestEncoding, []))
  {
    PlainDecodes(verb, resource, host);
    PlainWords(verb, resource, host);
    PlainFlags(verb, resource, host);
    ParsedFrom(Serialised(verb, resource, host, None), [], urlPath, LinesText(PlainLines(verb, resource, host)),
               verb, resource, true, true, DefaultRequestEncoding);
  }

  // ---------------------------------------------------------------------
  // Uploads

  /** What the client may put in an upload's `Content-Type` line. */
  predicate SendableType(contentType: string)
  {
    IsOctetText(contentType) && Unbroken(contentType)
  }

  /** The header block of an upload: its four lines and the blank line. */
  function UploadHeader(verb: string, resource: string, host: string, contentType: string, body: seq<byte>): seq<byte>
  {
    Encode(LinesText(UploadLines(verb, resource, host, contentType, |body|)))
  }

  /** What follows an upload's header block: a non-empty body and CR LF, or nothing. */
  function UploadTrailer(body: seq<byte>): seq<byte>
  {
    if body == [] then [] else body + CRLF
  }

  /** The lines of an upload are header lines, four of them. */
  lemma UploadLinesAll(verb: string, resource: string, host: string, contentType: string, length: nat)
    requires Sendable(verb, resource, host) && SendableType(contentType)
    ensures var lines := UploadLines(verb, resource, host, contentType, length);
            |lines| == 4 && lines[0] == RequestLineText(verb, resource)
            && forall k :: 0 <= k < |lines| ==> HeaderLine(lines[k])
  {
    UploadLinesFit(verb, resource, host, contentType, length);
  }

  /** The header map of an upload names `Content-Length` as the body's length in decimal, and no `Transfer-Encoding`. */
  lemma UploadFraming(verb: string, resource: string, host: string, contentType: string, body: seq<byte>)
    requires Sendable(verb, resource, host) && SendableType(contentType)
    ensures var fields := Fields(LinesText(UploadLines(verb, resource, host, contentType, |body|)));
            && "Content-Length" in fields && ParseInt(fields["Content-Length"], 10) == Some(|body|)
            && "Transfer-Encoding" !in fields
  {
    assert ' ' !in "Content-Length" && ' ' !in "Transfer-Encoding";
    var lines := UploadLines(verb, resource, host, contentType, |body|);
    UploadLinesAll(verb, resource, host, contentType, |body|);
    BlockLines(lines);
    UploadLength(verb, resource, host, contentType, |body|);
    ParseRendered(|body|, 10);
    UploadKeys(verb, resource, host, contentType, |body|, "Transfer-Encoding");
  }

  /** The header block of an upload, and what the server's framer reads from it. */
  lemma UploadHead(verb: string, resource: string, host: string, contentType: string, body: seq<byte>, more: seq<byte>)
    requires Sendable(verb, resource, host) && SendableType(contentType)
    ensures var hdr := UploadHeader(verb, resource, host, contentType, body);
            && ScanHeader(hdr + more) == hdr
            && ReadHead(ServerSide, hdr) == Success(Frames.Head(resource, Some(|body|), false, DefaultEncoding))
  {
    var lines := UploadLines(verb, resource, host, contentType, |body|);
    var hdr := UploadHeader(verb, resource, host, contentType, body);
    UploadLinesAll(verb, resource, host, contentType, |body|);
    BlockScanned(lines, more);
    TokenOfLines(lines, verb, resource);
    UploadFraming(verb, resource, host, contentType, body);
    HeadWithLength(hdr, resource, |body|);
  }

  /** After the header block the framer takes the body's length in octets: the body, whatever follows it. */
  lemma UploadBody(body: seq<byte>, more: seq<byte>)
    ensures FrameBody(false, Some(|body|), UploadTrailer(body) + more) == Success((body, |body|))
  {
    var after := UploadTrailer(body) + more;
    if body != [] {
      assert after[..|body|] == body;
    }
    BodyWithLength(after, |body|, body);
  }

  /**
   * An upload, followed by anything: the server's framer reads the four
   * lines and the blank line as the header, the resource as its status
   * token and the `Content-Length` the client wrote, and then exactly the
   * uploaded octets as the body. A non-empty body's closing CR LF is not
   * part of the message.
   */
  lemma ServerFramesUpload(verb: string, resource: string, host: string, contentType: string, body: seq<byte>, more: seq<byte>)
    requires Sendable(verb, resource, host) && SendableType(contentType)
    ensures var framed := Frame(ServerSide, Serialised(verb, resource, host, Some((contentType, body))) + more);
            var hdr := UploadHeader(verb, resource, host, contentType, body);
            framed.Success?
            && framed.value == Message(hdr, Frames.Head(resource, Some(|body|), false, DefaultEncoding), body, |hdr| + |body|)
  {
    var hdr := UploadHeader(verb, resource, host, contentType, body);
    var tail := UploadTrailer(body) + more;
    UploadSplit(verb, resource, host, contentType, body, more);
    UploadHead(verb, resource, host, contentType, body, tail);
    UploadBody(body, more);
    FrameAfterHeader(hdr, tail, Frames.Head(resource, Some(|body|), false, DefaultEncoding), body, |body|);
  }

  /** An upload and what follows it: the header block, then the trailer and the rest. */
  lemma UploadSplit(verb: string, resource: string, host: string, contentType: string, body: seq<byte>, more: seq<byte>)
    ensures Serialised(verb, resource, host, Some((contentType, body))) + more
            == UploadHeader(verb, resource, host, contentType, body) + (UploadTrailer(body) + more)
  {
    UploadBlock(verb, resource, host, contentType, body);
  }

  /** A header block the framer stops at, and a body read from what follows it. */
  lemma FrameAfterHeader(hdr: seq<byte>, tail: seq<byte>, head: Frames.Head, body: seq<byte>, used: nat)
    requires ScanHeader(hdr + tail) == hdr && ReadHead(ServerSide, hdr) == Success(head)
    requires FrameBody(head.chunked, head.contentLength, tail) == Success((body, used))
    ensures Frame(ServerSide, hdr + tail) == Success(Message(hdr, head, body, |hdr| + used))
  {
    ConcatParts(hdr, tail);
    FrameOf(ServerSide, hdr + tail, hdr, head, body, used);
  }

  /** The header map of an upload: `Host` present, no `Connection`, and the `Content-Type` the client wrote. */
  lemma UploadFlags(verb: string, resource: string, host: string, contentType: string, length: nat)
    requires Sendable(verb, resource, host) && SendableType(contentType)
    ensures var fields := Fields(LinesText(UploadLines(verb, resource, host, contentType, length)));
            && HostPresent(fields) && KeepAlive(fields)
            && RequestEncoding(fields) == (if Contains(Strip(" " + contentType), "utf-8") then "utf-8" else DefaultRequestEncoding)
  {
    var lines := UploadLines(verb, resource, host, contentType, length);
    UploadLinesAll(verb, resource, host, contentType, length);
    BlockLines(lines);
    assert ' ' !in "Host" && ' ' !in "Connection";
    UploadKeys(verb, resource, host, contentType, length, "Host");
    UploadKeys(verb, resource, host, contentType, length, "Connection");
    UploadType(verb, resource, host, contentType, length);
  }

  /**
   * `Request.parse` of an upload's header block and the body the framer
   * read: the client's method, its resource as the target, version
   * `HTTP/1.1`, `Host` present, kept alive, the uploaded octets as the body,
   * and `utf-8` exactly when the content type the client wrote mentions it.
   */
  lemma ServerParsesUpload(verb: string, resource: string, host: string, contentType: string, body: seq<byte>,
                           urlPath: string -> string)
    requires Sendable(verb, resource, host) && SendableType(contentType)
    ensures var encoding := if Contains(Strip(" " + contentType), "utf-8") then "utf-8" else DefaultRequestEncoding;
            RequestOf(UploadHeader(verb, resource, host, contentType, body), body, urlPath)
            == Success(ServerRequest.Request(verb, Target(resource, urlPath), Encode("HTTP/1.1"), true, true, encoding, body))
  {
    var lines := UploadLines(verb, resource, host, contentType, |body|);
    var text := LinesText(lines);
    UploadLinesAll(verb, resource, host, contentType, |body|);
    BlockScanned(lines, []);
    BlockLines(lines);
    RequestLineWords(verb, resource);
    UploadFlags(verb, resource, host, contentType, |body|);
    var encoding := if Contains(Strip(" " + contentType), "utf-8") then "utf-8" else DefaultRequestEncoding;
    ParsedFrom(UploadHeader(verb, resource, host, contentType, body), body, urlPath, text,
               verb, resource, true, true, encoding);
  }
}
