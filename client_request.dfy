/**
 * The client's `Request`: the command-line target split into host and
 * resource, the port, and the octets `make_request` builds from the method,
 * resource and host. For PUT and POST the file to upload is named by the
 * user (the `input()` prompt is the parameter `name`) and read from the
 * local files; a missing file is the `Exception` `make_request` raises.
 */
module ClientRequest {
  import opened Wrappers
  import opened Bytes
  import opened Text
  import opened LocalFiles

  /** `self.port`: the third argument as given, or the number 80. */
  datatype Port = PortText(text: string) | PortNumber(number: nat)

  /** The `raise Exception` of `make_request` when the file to upload does not exist. */
  datatype UploadError = NoSuchFile(name: string)

  // ---------------------------------------------------------------------
  // The target and the port

  /** The host: the target up to its first `/`, or all of it. */
  function HostOf(target: string): string
  {
    match Find(target, "/")
    case None => target
    case Some(p) => target[..p]
  }

  /** The resource: the target from its first `/`, or `/` when it has none. */
  function ResourceOf(target: string): string
  {
    match Find(target, "/")
    case None => "/"
    case Some(p) => target[p..]
  }

  function PortOf(args: seq<string>): Port
  {
    if |args| == 3 then PortText(args[2]) else PortNumber(80)
  }

  /**
   * A target without `/` is all host and asks for `/`; otherwise host and
   * resource put back together are the target, the resource starts with
   * `/` and the host has none.
   */
  lemma TargetSplit(target: string)
    ensures '/' !in target ==> HostOf(target) == target && ResourceOf(target) == "/"
    ensures '/' in target ==>
              HostOf(target) + ResourceOf(target) == target
              && |ResourceOf(target)| > 0 && ResourceOf(target)[0] == '/'
              && '/' !in HostOf(target)
  {
    ContainsChar(target, '/');
    match Find(target, "/")
    case None =>
    case Some(p) =>
      assert target[p..p + 1] == "/";
      forall j | 0 <= j < p ensures target[j] != '/' {
        if target[j] == '/' {
          assert target[j..j + 1] == "/";
          assert OccursAt(target, "/", j);
        }
      }
      assert target[..p] + target[p..] == target;
  }

  // ---------------------------------------------------------------------
  // The octets of a request

  /** The methods that upload a file. */
  predicate Uploads(verb: string)
  {
    verb == "PUT" || verb == "POST"
  }

  /** The request line and the `Host` line. */
  function StartText(verb: string, resource: string, host: string): string
  {
    verb + " " + resource + " HTTP/1.1\r\n" + "Host: " + host + "\r\n"
  }

  /** The two lines describing an upload. */
  function UploadText(contentType: string, body: seq<byte>): string
  {
    "Content-Type: " + contentType + "\r\n" + "Content-Length: " + NatToString(|body|) + "\r\n"
  }

  /**
   * The file a request uploads: none for a method other than PUT and POST,
   * else its content type and contents, or the error of a missing file.
   */
  function UploadFor(verb: string, name: string, local: FileSystem, guess: string -> Option<string>)
    : Result<Option<(string, seq<byte>)>, UploadError>
  {
    if !Uploads(verb) then Success(None)
    else if Exists(local, name) then Success(Some((ContentTypeFor(guess, name), local[name])))
    else Failure(NoSuchFile(name))
  }

  /**
   * The octets `make_request` builds: start lines, the upload's lines, a
   * blank line and the body when the body is not empty, and a last CR LF.
   */
  function Serialised(verb: string, resource: string, host: string, upload: Option<(string, seq<byte>)>): seq<byte>
  {
    Encode(StartText(verb, resource, host))
    + (if upload.Some? then Encode(UploadText(upload.value.0, upload.value.1)) else [])
    + (if upload.Some? && upload.value.1 != [] then CRLF + upload.value.1 else [])
    + CRLF
  }

  // ---------------------------------------------------------------------
  // The object

  class Request {
    var verb: string
    var host: string
    var resource: string
    var port: Port
    var request: seq<byte>

    /** `__init__` up to its call of `make_request`: the method, the split target and the port. */
    constructor (args: seq<string>)
      requires |args| >= 2
      ensures verb == args[0] && host == HostOf(args[1]) && resource == ResourceOf(args[1])
      ensures port == PortOf(args) && request == []
    {
      verb := args[0];
      var p := Find(args[1], "/");
      if p.None? {
        host := args[1];
        resource := "/";
      } else {
        host := args[1][0..p.value];
        resource := args[1][p.value..];
      }
      if |args| == 3 {
        port := PortText(args[2]);
      } else {
        port := PortNumber(80);
      }
      request := [];
    }

    /**
     * `make_request`: the octets for the current method, resource and host.
     * When the upload is missing, the start lines are all that was built.
     */
    method MakeRequest(name: string, local: FileSystem, guess: string -> Option<string>) returns (outcome: Outcome<UploadError>)
      modifies this`request
      ensures match UploadFor(verb, name, local, guess)
              case Failure(e) => outcome == Fail(e) && request == Encode(StartText(verb, resource, host))
              case Success(u) => outcome == Pass && request == Serialised(verb, resource, host, u)
    {
      request := Encode(StartText(verb, resource, host));
      var upload: Option<(string, seq<byte>)> := None;
      if Uploads(verb) {
        if !Exists(local, name) {
          return Fail(NoSuchFile(name));
        }
        var contentType := ContentTypeFor(guess, name);
        upload := Some((contentType, local[name]));
        request := request + Encode(UploadText(contentType, local[name]));
      }
      if upload.Some? && upload.value.1 != [] {
        request := request + CRLF + upload.value.1;
      }
      request := request + CRLF;
      assert UploadFor(verb, name, local, guess) == Success(upload);
      outcome := Pass;
    }

    /** `change_resource`: a new method and resource for the same host and port, and the request rebuilt. */
    method ChangeResource(newVerb: string, newResource: string, name: string, local: FileSystem,
                          guess: string -> Option<string>) returns (outcome: Outcome<UploadError>)
      modifies this`verb, this`resource, this`request
      ensures verb == newVerb && resource == newResource && host == old(host) && port == old(port)
      ensures match UploadFor(newVerb, name, local, guess)
              case Failure(e) => outcome == Fail(e) && request == Encode(StartText(newVerb, newResource, host))
              case Success(u) => outcome == Pass && request == Serialised(newVerb, newResource, host, u)
    {
      verb := newVerb;
      resource := newResource;
      outcome := MakeRequest(name, local, guess);
    }
  }

  /** `Request(list_of_input_element)`: the fields, then `make_request`. */
  method NewRequest(args: seq<string>, name: string, local: FileSystem, guess: string -> Option<string>)
    returns (r: Request, outcome: Outcome<UploadError>)
    requires |args| >= 2
    ensures fresh(r)
    ensures r.verb == args[0] && r.host == HostOf(args[1]) && r.resource == ResourceOf(args[1]) && r.port == PortOf(args)
    ensures match UploadFor(args[0], name, local, guess)
            case Failure(e) => outcome == Fail(e) && r.request == Encode(StartText(r.verb, r.resource, r.host))
            case Success(u) => outcome == Pass && r.request == Serialised(r.verb, r.resource, r.host, u)
  {
    r := new Request(args);
    outcome := r.MakeRequest(name, local, guess);
  }

  // ---------------------------------------------------------------------
  // Properties of the octets

  /** Without an upload a request is its two start lines and a blank line, so it ends in CR LF CR LF. */
  lemma PlainRequest(verb: string, resource: string, host: string)
    ensures Serialised(verb, resource, host, None) == Encode(StartText(verb, resource, host)) + CRLF
    ensures var s := Serialised(verb, resource, host, None);
            |s| >= 4 && s[|s| - 4..] == CRLFCRLF
  {
    var t := StartText(verb, resource, host);
    var s := Encode(t) + CRLF;
    assert t[|t| - 2..] == "\r\n";
  }

  /**
   * With an upload, the lines end with a `Content-Length` in decimal that
   * reads back as the body's length; a non-empty body follows one blank
   * line and is followed by one CR LF, and an empty one leaves just the
   * blank line.
   */
  lemma UploadedRequest(verb: string, resource: string, host: string, contentType: string, body: seq<byte>)
    ensures var head := Encode(StartText(verb, resource, host) + UploadText(contentType, body));
            Serialised(verb, resource, host, Some((contentType, body)))
            == if body == [] then head + CRLF else head + CRLF + body + CRLF
    ensures ParseInt(NatToString(|body|), 10) == Some(|body|)
  {
    EncodeConcat(StartText(verb, resource, host), UploadText(contentType, body));
    ParseRendered(|body|, 10);
  }
}
