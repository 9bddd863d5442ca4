/**
 * The server's `Request`: what `Request.parse` reads from a framed header
 * block. The request line, the octets before the first CR LF, is split
 * into words at each space octet; the header map is the one both framers
 * build, and one pass over its keys sets the `Host`, keep-alive and
 * encoding flags.
 *
 * `urlparse(uri).path` is outside the model: it is the parameter `urlPath`.
 */
module ServerRequest {
  import opened Wrappers
  import opened Bytes
  import opened Text
  import opened HeaderFields

  /** What `parse` records, and the body the framer received. */
  datatype Request = Request(
    verb: string,
    uri: string,
    version: seq<byte>,
    hostPresent: bool,
    keepAlive: bool,
    encoding: string,
    body: seq<byte>)

  /** The `IndexError` of `words[1]` or `words[2]` on a request line with too few words. */
  datatype ParseError = NoTarget | NoVersion

  const SP: byte := 32

  const DefaultRequestEncoding: string := "iso-8859-1"

  // ---------------------------------------------------------------------
  // Specification functions

  /** The words of the request line, split on octets. */
  function RequestWords(header: seq<byte>): (w: seq<seq<byte>>)
    ensures |w| >= 1
  {
    Split(Split(header, CRLF)[0], [SP])
  }

  /** The recorded target: an absolute URL (one containing `http`) is cut down to its path. */
  function Target(uri: string, urlPath: string -> string): string
  {
    if Contains(uri, "http") then urlPath(uri) else uri
  }

  /** The `Host` flag: set by a `Host` key. */
  predicate HostPresent(fields: map<string, string>)
  {
    "Host" in fields
  }

  /** The keep-alive flag: cleared by a `Connection` value of exactly `close`. */
  predicate KeepAlive(fields: map<string, string>)
  {
    !("Connection" in fields && fields["Connection"] == "close")
  }

  /** The encoding: `utf-8` when `Content-Type` mentions it, else the default. */
  function RequestEncoding(fields: map<string, string>): string
  {
    if "Content-Type" in fields && Contains(fields["Content-Type"], "utf-8") then "utf-8"
    else DefaultRequestEncoding
  }

  /** `Request(header, body)`, or the exception `parse` raises. */
  function RequestOf(header: seq<byte>, body: seq<byte>, urlPath: string -> string): Result<Request, ParseError>
  {
    var w := RequestWords(header);
    if |w| < 2 then Failure(NoTarget)
    else if |w| < 3 then Failure(NoVersion)
    else
      var fields := Fields(Decode(header));
      Success(Request(Decode(w[0]), Target(Decode(w[1]), urlPath), w[2],
                      HostPresent(fields), KeepAlive(fields), RequestEncoding(fields), body))
  }

  // ---------------------------------------------------------------------
  // The parse

  /** `Request.__init__` and `parse`: the request line, then one pass over the header map. */
  method ParseRequest(header: seq<byte>, body: seq<byte>, urlPath: string -> string) returns (r: Result<Request, ParseError>)
    ensures r == RequestOf(header, body, urlPath)
  {
    var words := RequestWords(header);
    if |words| < 2 {
      return Failure(NoTarget);
    }
    var verb := Decode(words[0]);
    var uri := Decode(words[1]);
    if Contains(uri, "http") {
      uri := urlPath(uri);
    }
    if |words| < 3 {
      return Failure(NoVersion);
    }
    var version := words[2];
    var fields := Fields(Decode(header));
    var hostPresent := false;
    var keepAlive := true;
    var encoding := DefaultRequestEncoding;
    var keys := fields.Keys;
    while keys != {}
      invariant keys <= fields.Keys
      invariant hostPresent == ("Host" in fields && "Host" !in keys)
      invariant keepAlive == ("Connection" in keys || KeepAlive(fields))
      invariant encoding == if "Content-Type" in keys then DefaultRequestEncoding else RequestEncoding(fields)
      decreases keys
    {
      var key :| key in keys;
      if key == "Host" {
        hostPresent := true;
      } else if key == "Connection" {
        if fields[key] == "close" {
          keepAlive := false;
        }
      } else if key == "Content-Type" {
        if Contains(fields[key], "utf-8") {
          encoding := "utf-8";
        } else if Contains(fields[key], "iso-8859-1") {
          encoding := "iso-8859-1";
        }
      }
      keys := keys - {key};
    }
    r := Success(Request(verb, uri, version, hostPresent, keepAlive, encoding, body));
  }

  // ---------------------------------------------------------------------
  // The flags in terms of the header lines

  /** The `Host` flag is set exactly when some header line has the key `Host`. */
  lemma HostFlag(text: string)
    ensures HostPresent(Fields(text)) <==> exists i :: DefinesAt(SplitLines(text), "Host", i)
  {
    assert Fields(text) == FieldsOf(SplitLines(text));
    FieldsOfHas(SplitLines(text), "Host");
  }

  /** Without a `Connection` line the connection is kept open. */
  lemma KeepAliveByDefault(text: string)
    requires forall i :: !DefinesAt(SplitLines(text), "Connection", i)
    ensures KeepAlive(Fields(text))
  {
    FieldsOfHas(SplitLines(text), "Connection");
  }

  /** With `Connection` lines, the last one decides: the connection closes exactly when its value strips to `close`. */
  lemma KeepAliveByLastLine(text: string, i: int)
    requires DefinesAt(SplitLines(text), "Connection", i)
    requires forall j :: i < j < |SplitLines(text)| ==> !DefinesAt(SplitLines(text), "Connection", j)
    ensures KeepAlive(Fields(text)) <==> FieldValue(SplitLines(text)[i]) != "close"
  {
    FieldsOfLastWins(SplitLines(text), "Connection", i);
  }

  /** The last `Content-Type` line decides the encoding: `utf-8` exactly when its value contains `utf-8`. */
  lemma EncodingByLastLine(text: string, i: int)
    requires DefinesAt(SplitLines(text), "Content-Type", i)
    requires forall j :: i < j < |SplitLines(text)| ==> !DefinesAt(SplitLines(text), "Content-Type", j)
    ensures RequestEncoding(Fields(text)) == if Contains(FieldValue(SplitLines(text)[i]), "utf-8") then "utf-8" else "iso-8859-1"
  {
    FieldsOfLastWins(SplitLines(text), "Content-Type", i);
  }

  /** Without a `Content-Type` line the encoding is `iso-8859-1`. */
  lemma EncodingByDefault(text: string)
    requires forall i :: !DefinesAt(SplitLines(text), "Content-Type", i)
    ensures RequestEncoding(Fields(text)) == "iso-8859-1"
  {
    FieldsOfHas(SplitLines(text), "Content-Type");
  }

  // ---------------------------------------------------------------------
  // Splitting octets and splitting text agree

  lemma DecodeInjective(a: seq<byte>, b: seq<byte>)
    requires Decode(a) == Decode(b)
    ensures a == b
  {
    EncodeDecode(a);
    EncodeDecode(b);
  }

  lemma DecodeOccurs(s: seq<byte>, t: seq<byte>, i: nat)
    ensures OccursAt(Decode(s), Decode(t), i) <==> OccursAt(s, t, i)
  {
    if i + |t| <= |s| {
      DecodeSlice(s, i, i + |t|);
      if Decode(s)[i..i + |t|] == Decode(t) {
        DecodeInjective(s[i..i + |t|], t);
      }
    }
  }

  /** Searching decoded text finds what searching the octets finds. */
  lemma DecodeFind(s: seq<byte>, t: seq<byte>)
    ensures Find(Decode(s), Decode(t)) == Find(s, t)
  {
    var a := Find(Decode(s), Decode(t));
    var b := Find(s, t);
    if a.Some? {
      DecodeOccurs(s, t, a.value);
      forall j | 0 <= j < a.value ensures !OccursAt(s, t, j) {
        DecodeOccurs(s, t, j);
      }
      FindFirst(s, t, a.value);
    } else if b.Some? {
      DecodeOccurs(s, t, b.value);
    }
  }

  /** One step of splitting decoded text, where the octets' first separator is. */
  lemma DecodeSplitStep(s: seq<byte>, sep: seq<byte>, i: nat)
    requires |sep| > 0 && Find(s, sep) == Some(i)
    ensures Split(Decode(s), Decode(sep)) == [Decode(s[..i])] + Split(Decode(s[i + |sep|..]), Decode(sep))
  {
    var d := Decode(s);
    var ds := Decode(sep);
    var a := Decode(s[..i]);
    var b := Decode(s[i + |sep|..]);
    DecodeFind(s, sep);
    DecodePrefix(s, i);
    DecodeSuffix(s, i + |sep|);
    assert |ds| == |sep|;
    assert a == d[..i];
    assert b == d[i + |ds|..];
    SplitAt(d, ds, i);
  }

  /** Splitting decoded text gives the decoded pieces of splitting the octets. */
  lemma {:induction false} DecodeSplit(s: seq<byte>, sep: seq<byte>)
    requires |sep| > 0
    ensures |Split(Decode(s), Decode(sep))| == |Split(s, sep)|
    ensures forall k :: 0 <= k < |Split(s, sep)| ==> Split(Decode(s), Decode(sep))[k] == Decode(Split(s, sep)[k])
    decreases |s|
  {
    match Find(s, sep)
    case None =>
      DecodeFind(s, sep);
      SplitNone(s, sep);
      SplitNone(Decode(s), Decode(sep));
    case Some(i) =>
      var rest := s[i + |sep|..];
      DecodeSplit(rest, sep);
      DecodeSplitStep(s, sep, i);
      SplitAt(s, sep, i);
      var tail := Split(rest, sep);
      var parts := [s[..i]] + tail;
      var texts := [Decode(s[..i])] + Split(Decode(rest), Decode(sep));
      forall k | 0 <= k < |parts| ensures texts[k] == Decode(parts[k]) {
        if k > 0 {
          assert parts[k] == tail[k - 1];
        }
      }
  }

  /**
   * The request line's words are the words the framer saw: a request the
   * framer accepted has a target, and it is the framer's status token.
   */
  lemma WordsAgree(header: seq<byte>)
    ensures var w := Words(FirstLine(Decode(header)));
            |w| == |RequestWords(header)|
            && forall k :: 0 <= k < |w| ==> w[k] == Decode(RequestWords(header)[k])
  {
    assert Decode(CRLF) == "\r\n";
    assert Decode([SP]) == " ";
    DecodeSplit(header, CRLF);
    var line := Split(header, CRLF)[0];
    assert FirstLine(Decode(header)) == Decode(line);
    DecodeSplit(line, [SP]);
  }

  /** After the framer read a status token, `parse` cannot fail on the target, and its target is that token. */
  lemma TargetIsStatusToken(header: seq<byte>, body: seq<byte>, urlPath: string -> string)
    requires StatusToken(Decode(header)).Some?
    ensures RequestOf(header, body, urlPath) != Failure(NoTarget)
    ensures RequestOf(header, body, urlPath).Success? ==>
              RequestOf(header, body, urlPath).value.uri == Target(StatusToken(Decode(header)).value, urlPath)
  {
    WordsAgree(header);
  }
}
