/**
 * The server's handlers and how `ServerThread.run` picks one. The
 * `getattr` lookup of `handle_` and the method name is the closed table
 * of the six `handle_` methods the class defines. The handlers work on a map from
 * path to file contents; `mimetypes.guess_type` is the parameter `guess`.
 */
module Handlers {
  import opened Wrappers
  import opened Bytes
  import opened Text
  import opened Responses
  import opened ServerRequest
  import opened LocalFiles

  datatype Handler = Get | Head | Put | Post | BadRequest | NotImplemented

  /** The part of each handler's name after `handle_`. */
  function HandlerSuffix(h: Handler): string
  {
    match h
    case Get => "GET"
    case Head => "HEAD"
    case Put => "PUT"
    case Post => "POST"
    case BadRequest => "400"
    case NotImplemented => "501"
  }

  /** `getattr(self, 'handle_' + verb)`: the handler of that name, or the `AttributeError`. */
  function HandlerNamed(verb: string): Option<Handler>
  {
    if verb == "GET" then Some(Get)
    else if verb == "HEAD" then Some(Head)
    else if verb == "PUT" then Some(Put)
    else if verb == "POST" then Some(Post)
    else if verb == "400" then Some(BadRequest)
    else if verb == "501" then Some(NotImplemented)
    else None
  }

  /** The lookup finds a handler exactly for a verb that is some handler's suffix, and then that handler. */
  lemma HandlerNamedExactly(verb: string, h: Handler)
    ensures HandlerNamed(verb) == Some(h) <==> verb == HandlerSuffix(h)
  {
  }

  /** How `run` picks the handler for a parsed request. */
  function SelectHandler(req: Request): Handler
  {
    if !req.hostPresent then BadRequest
    else match HandlerNamed(req.verb)
      case Some(h) => h
      case None => NotImplemented
  }

  /** Without `Host` the answer is 400, whatever the method. */
  lemma NoHostIsBadRequest(req: Request)
    requires !req.hostPresent
    ensures SelectHandler(req) == BadRequest
  {
  }

  /** With `Host`, a method is served by the handler whose name it completes, and by 501 when there is none. */
  lemma DispatchByName(req: Request, h: Handler)
    requires req.hostPresent
    ensures SelectHandler(req) == h <==>
              (req.verb == HandlerSuffix(h) || (h == NotImplemented && forall g :: req.verb != HandlerSuffix(g)))
  {
    if HandlerNamed(req.verb).Some? {
      HandlerNamedExactly(req.verb, HandlerNamed(req.verb).value);
    } else {
      forall g ensures req.verb != HandlerSuffix(g) {
        HandlerNamedExactly(req.verb, g);
      }
    }
  }

  // ---------------------------------------------------------------------
  // Replies

  /** What a handler answers: a status, the extra header fields, and a body only where the handler writes one. */
  datatype Reply = Reply(code: nat, extras: HeaderList, body: Option<seq<byte>>)

  predicate Writable(r: Reply)
  {
    r.code in StatusReasons
  }

  /**
   * The octets a handler returns: status line, header lines, a blank line,
   * then the body and two more CR LF, or just one more CR LF without a body.
   */
  function Wire(r: Reply, date: string): seq<byte>
    requires Writable(r)
  {
    ResponseLine(r.code) + HeaderBlock(r.extras, date) + CRLF
    + (if r.body.Some? then r.body.value + CRLF + CRLF else CRLF)
  }

  const NotFoundBody: seq<byte> := Encode("<h1>404 Not Found</h1>")
  const BadRequestBody: seq<byte> := Encode("<h1>400 Bad request</h1>")
  const NotImplementedBody: seq<byte> := Encode("<h1>501 Not implemented</h1>")

  /** The `Content-Length` extra for a body: its length in decimal. */
  function LengthField(body: seq<byte>): (string, string)
  {
    ("Content-Length", NatToString(|body|))
  }

  /** The file GET and HEAD read: the target with its slashes stripped from both ends. */
  function LocalName(uri: string): string
  {
    StripChar(uri, '/')
  }

  /** The file PUT and POST write, also sent back as `Content-Location`. */
  function StoredName(uri: string): string
  {
    "documents" + uri
  }

  function HandleGet(req: Request, files: FileSystem, guess: string -> Option<string>): Reply
  {
    var name := LocalName(req.uri);
    if Exists(files, name) then
      Reply(200, [("Content-Type", ContentTypeFor(guess, name)), LengthField(files[name])], Some(files[name]))
    else
      Reply(404, [("Content-Type", "text/html"), LengthField(NotFoundBody)], Some(NotFoundBody))
  }

  function HandleHead(req: Request, files: FileSystem, guess: string -> Option<string>): Reply
  {
    var name := LocalName(req.uri);
    if Exists(files, name) then Reply(200, [("Content-Type", ContentTypeFor(guess, name))], None)
    else Reply(404, [], None)
  }

  function HandlePut(req: Request, files: FileSystem): (Reply, FileSystem)
  {
    var name := StoredName(req.uri);
    (Reply(200, [("Content-Location", name)], None), files[name := req.body])
  }

  function HandlePost(req: Request, files: FileSystem): (Reply, FileSystem)
  {
    var name := StoredName(req.uri);
    if Exists(files, name) then (Reply(200, [("Content-Location", name)], None), files[name := files[name] + req.body])
    else (Reply(201, [("Content-Location", name)], None), files[name := req.body])
  }

  const BadRequestReply: Reply := Reply(400, [LengthField(BadRequestBody)], Some(BadRequestBody))
  const NotImplementedReply: Reply := Reply(501, [LengthField(NotImplementedBody)], Some(NotImplementedBody))

  /** Running handler `h` on a request: the reply and the files afterwards. */
  function Handle(h: Handler, req: Request, files: FileSystem, guess: string -> Option<string>): (r: (Reply, FileSystem))
    ensures Writable(r.0)
    ensures h !in {Put, Post} ==> r.1 == files
  {
    match h
    case Get => (HandleGet(req, files, guess), files)
    case Head => (HandleHead(req, files, guess), files)
    case Put => HandlePut(req, files)
    case Post => HandlePost(req, files)
    case BadRequest => (BadRequestReply, files)
    case NotImplemented => (NotImplementedReply, files)
  }

  // ---------------------------------------------------------------------
  // Properties of the handlers

  /** The declared `Content-Length` of the response a reply is written as. */
  function DeclaredLength(r: Reply): Option<string>
  {
    Lookup(ResponseFields(r.extras), "Content-Length")
  }

  /** A reply declares the length of its body, or the default 0 when it has none. */
  predicate DeclaresItsLength(r: Reply)
  {
    DeclaredLength(r) == Some(if r.body.Some? then NatToString(|r.body.value|) else "0")
  }

  /** A reply declares its length when its extras give the body's length, or no length for no body. */
  lemma DeclaredFromExtras(r: Reply)
    requires UniqueKeys(r.extras)
    requires r.body.Some? ==> Lookup(r.extras, "Content-Length") == Some(NatToString(|r.body.value|))
    requires r.body.None? ==> "Content-Length" !in Keys(r.extras)
    ensures DeclaresItsLength(r)
  {
    OverrideLookup(DefaultHeaders, r.extras, "Content-Length");
    assert Lookup(DefaultHeaders, "Content-Length") == Some("0");
  }

  /** A body with its type and its length as the only extras. */
  lemma TypedBodyDeclared(code: nat, contentType: string, body: seq<byte>)
    ensures DeclaresItsLength(Reply(code, [("Content-Type", contentType), LengthField(body)], Some(body)))
  {
    var extras := [("Content-Type", contentType), LengthField(body)];
    assert extras[0].0 != extras[1].0;
    DeclaredFromExtras(Reply(code, extras, Some(body)));
  }

  /** A bodiless reply whose one extra is not a length. */
  lemma BodilessDeclared(code: nat, key: string, value: string)
    requires key != "Content-Length"
    ensures DeclaresItsLength(Reply(code, [(key, value)], None))
  {
    assert Keys([(key, value)]) == [key];
    DeclaredFromExtras(Reply(code, [(key, value)], None));
  }

  /** Every reply that carries a body declares its length; one without declares the default 0. */
  lemma LengthMatchesBody(h: Handler, req: Request, files: FileSystem, guess: string -> Option<string>)
    ensures DeclaresItsLength(Handle(h, req, files, guess).0)
  {
    match h
    case Get =>
      var name := LocalName(req.uri);
      if Exists(files, name) {
        TypedBodyDeclared(200, ContentTypeFor(guess, name), files[name]);
      } else {
        TypedBodyDeclared(404, "text/html", NotFoundBody);
      }
    case Head =>
      var name := LocalName(req.uri);
      if Exists(files, name) {
        BodilessDeclared(200, "Content-Type", ContentTypeFor(guess, name));
      } else {
        DeclaredFromExtras(Reply(404, [], None));
      }
    case Put =>
      BodilessDeclared(200, "Content-Location", StoredName(req.uri));
    case Post =>
      BodilessDeclared(200, "Content-Location", StoredName(req.uri));
      BodilessDeclared(201, "Content-Location", StoredName(req.uri));
    case BadRequest =>
      DeclaredFromExtras(BadRequestReply);
    case NotImplemented =>
      DeclaredFromExtras(NotImplementedReply);
  }

  /** GET of an existing file: 200, the file as the body, its guessed type. */
  lemma GetServesFile(req: Request, files: FileSystem, guess: string -> Option<string>)
    requires Exists(files, LocalName(req.uri))
    ensures var r := HandleGet(req, files, guess);
            r.code == 200 && r.body == Some(files[LocalName(req.uri)])
            && Lookup(ResponseFields(r.extras), "Content-Type") == Some(ContentTypeFor(guess, LocalName(req.uri)))
  {
    var r := HandleGet(req, files, guess);
    OverrideLookup(DefaultHeaders, r.extras, "Content-Type");
  }

  /** GET of a missing file: 404 with the fixed page, sent as HTML. */
  lemma GetMissingFile(req: Request, files: FileSystem, guess: string -> Option<string>)
    requires !Exists(files, LocalName(req.uri))
    ensures var r := HandleGet(req, files, guess);
            r.code == 404 && r.body == Some(Encode("<h1>404 Not Found</h1>"))
            && Lookup(ResponseFields(r.extras), "Content-Type") == Some("text/html")
            && DeclaredLength(r) == Some("22")
  {
    assert |NotFoundBody| == 22 && NatToDigits(22, 10) == "22";
    TypedBodyDeclared(404, "text/html", NotFoundBody);
    TypedBodyType(404, "text/html", NotFoundBody);
  }

  /** The extras of a body with its type name that type. */
  lemma TypedBodyType(code: nat, contentType: string, body: seq<byte>)
    ensures Lookup(ResponseFields([("Content-Type", contentType), LengthField(body)]), "Content-Type") == Some(contentType)
  {
    var extras := [("Content-Type", contentType), LengthField(body)];
    assert extras[0].0 != extras[1].0;
    OverrideLookup(DefaultHeaders, extras, "Content-Type");
  }

  /** HEAD answers with GET's status and content type, and no body. */
  lemma HeadLikeGet(req: Request, files: FileSystem, guess: string -> Option<string>)
    ensures var head := HandleHead(req, files, guess);
            var get := HandleGet(req, files, guess);
            head.code == get.code && head.body.None?
            && Lookup(ResponseFields(head.extras), "Content-Type") == Lookup(ResponseFields(get.extras), "Content-Type")
  {
    var name := LocalName(req.uri);
    if Exists(files, name) {
      OverrideLookup(DefaultHeaders, [("Content-Type", ContentTypeFor(guess, name))], "Content-Type");
      TypedBodyType(200, ContentTypeFor(guess, name), files[name]);
    } else {
      OverrideLookup(DefaultHeaders, [], "Content-Type");
      TypedBodyType(404, "text/html", NotFoundBody);
    }
  }

  /** PUT stores the body under `documents` + target, touches no other file, and names the file it wrote. */
  lemma PutStores(req: Request, files: FileSystem)
    ensures var (r, after) := HandlePut(req, files);
            var name := StoredName(req.uri);
            r.code == 200 && after[name] == req.body
            && Lookup(ResponseFields(r.extras), "Content-Location") == Some(name)
            && (forall n :: n != name ==> (n in after <==> n in files) && (n in files ==> after[n] == files[n]))
  {
    var r := HandlePut(req, files).0;
    OverrideLookup(DefaultHeaders, r.extras, "Content-Location");
  }

  /** POST creates a missing file (201) or appends to an existing one (200), and touches no other file. */
  lemma PostCreatesOrAppends(req: Request, files: FileSystem)
    ensures var (r, after) := HandlePost(req, files);
            var name := StoredName(req.uri);
            (r.code == 201 <==> name !in files) && (r.code == 200 <==> name in files)
            && after[name] == (if name in files then files[name] + req.body else req.body)
            && Lookup(ResponseFields(r.extras), "Content-Location") == Some(name)
            && (forall n :: n != name ==> (n in after <==> n in files) && (n in files ==> after[n] == files[n]))
  {
    var r := HandlePost(req, files).0;
    OverrideLookup(DefaultHeaders, r.extras, "Content-Location");
  }

  /** The path `/documents` + target reads back what PUT stored under that target. */
  lemma LocalNameOfStored(uri: string)
    requires uri == [] || uri[|uri| - 1] != '/'
    ensures LocalName("/" + StoredName(uri)) == StoredName(uri)
  {
    var s := "/" + StoredName(uri);
    var drop := (x: char) => x == '/';
    assert s[0] == '/' && s[1] == 'd';
    assert KeptFrom(s, 1, drop) == 1;
    assert KeptFrom(s, 0, drop) == 1;
    var t := s[1..];
    assert t == StoredName(uri);
    assert t[|t| - 1] != '/';
    assert KeptUntil(t, |t|, drop) == |t|;
  }

  /** A GET of `/documents` + target after a PUT of that target serves what was put. */
  lemma PutThenGet(req: Request, files: FileSystem, guess: string -> Option<string>)
    requires req.uri == [] || req.uri[|req.uri| - 1] != '/'
    ensures var after := HandlePut(req, files).1;
            var get := HandleGet(req.(uri := "/" + StoredName(req.uri)), after, guess);
            get.code == 200 && get.body == Some(req.body)
  {
    LocalNameOfStored(req.uri);
  }

  // ---------------------------------------------------------------------
  // end_removal

  /** `end_removal(value, a)`: the text before the last `a`, or the empty text when there is none. */
  function EndRemoval(value: string, a: string): string
  {
    match RFind(value, a)
    case None => ""
    case Some(p) => value[..p]
  }

  /** Cutting at the last `a`: what is left is followed by `a` in `value`, and `a` does not occur further on. */
  lemma EndRemovalCuts(value: string, a: string)
    requires Contains(value, a)
    ensures var r := EndRemoval(value, a);
            OccursAt(value, a, |r|) && r == value[..|r|]
            && forall j: nat :: |r| < j ==> !OccursAt(value, a, j)
  {
    ContainsIff(value, a);
    var j :| OccursAt(value, a, j);
  }

  /** With no `a` in `value`, nothing is left. */
  lemma EndRemovalWithout(value: string, a: string)
    requires !Contains(value, a)
    ensures EndRemoval(value, a) == ""
  {
    ContainsIff(value, a);
  }

  /** Removing the last `a` and what follows it from `x + a + y` gives `x` back when `a` occurs nowhere later. */
  lemma EndRemovalJoined(x: string, a: string, y: string)
    requires forall j: nat :: |x| < j ==> !OccursAt(x + a + y, a, j)
    ensures EndRemoval(x + a + y, a) == x
  {
    var v := x + a + y;
    assert v[|x|..|x| + |a|] == a;
    assert OccursAt(v, a, |x|);
    var p := RFind(v, a).value;
    assert p == |x|;
    assert v[..|x|] == x;
  }
}
