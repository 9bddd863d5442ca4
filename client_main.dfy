/**
 * The client's `main` and `import_images` as far as they are string rules:
 * whether the images of a page are fetched, the path an image's `src` is
 * fetched under, and the `src` written back into the saved page.
 */
module ClientMain {
  import opened Wrappers
  import opened Bytes
  import opened Text
  import opened HeaderFields
  import opened Handlers
  import opened ServerLoop

  // ---------------------------------------------------------------------
  // The `src` of an image

  /**
   * The path the image is fetched under: `src` with a `/` put in front
   * unless it already starts with one. `None` is the `IndexError` of an
   * empty `src`.
   */
  function Rooted(src: string): (path: Option<string>)
    ensures path.Some? <==> src != []
    ensures path.Some? ==> |path.value| > 0 && path.value[0] == '/'
  {
    if src == [] then None
    else if src[0] != '/' then Some("/" + src)
    else Some(src)
  }

  /** The path written back into the page: its leading `/` dropped, or the `IndexError` of an empty one. */
  function Unrooted(path: string): Option<string>
  {
    if path == [] then None
    else if path[0] == '/' then Some(path[1..])
    else Some(path)
  }

  /** The `src` the saved page ends up with: rooted to fetch the image, then unrooted. */
  function SavedSrc(src: string): Option<string>
  {
    match Rooted(src)
    case None => None
    case Some(path) => Unrooted(path)
  }

  /** Rooting a rooted path changes nothing; rooting adds a `/` exactly when there was none. */
  lemma RootedIdempotent(src: string)
    requires src != []
    ensures Rooted(Rooted(src).value) == Rooted(src)
    ensures src[0] == '/' ==> Rooted(src) == Some(src)
    ensures src[0] != '/' ==> Rooted(src) == Some("/" + src)
  {
  }

  /**
   * The path written back is the fetched path without its leading `/`, and
   * it is the original `src` with any leading `/` dropped.
   */
  lemma SavedSrcUnrooted(src: string)
    requires src != []
    ensures var path := Rooted(src).value;
            && SavedSrc(src) == Some(path[1..])
            && "/" + SavedSrc(src).value == path
            && SavedSrc(src) == Some(if src[0] == '/' then src[1..] else src)
  {
    var path := Rooted(src).value;
    if src[0] != '/' {
      assert path[1..] == src;
    }
    assert "/" + path[1..] == path;
  }

  /** An empty `src` raises before anything is fetched or written back. */
  lemma EmptySrc()
    ensures Rooted("") == None && SavedSrc("") == None
  {
  }

  // ---------------------------------------------------------------------
  // The attributes of an image tag

  /** An `<img>` tag's attributes, as BeautifulSoup hands them out. */
  type Attributes = map<string, string>

  /**
   * The first loop of `import_images` on one image: its `src` read, rooted
   * and fetched, and written back unrooted. `None` is the `KeyError` of an
   * image without `src` or the `IndexError` of an empty one.
   */
  function SavedImage(image: Attributes): (r: Option<Attributes>)
    ensures r.Some? <==> "src" in image && image["src"] != []
  {
    if "src" !in image then None
    else
      match SavedSrc(image["src"])
      case None => None
      case Some(s) => Some(image["src" := s])
  }

  /**
   * The second loop on one image, as written: the `lowsrc` is read, rooted
   * and fetched, and the result is written back into `src`.
   */
  function SavedLowsrcAsWritten(image: Attributes): Option<Attributes>
  {
    if "lowsrc" !in image then Some(image)
    else
      match SavedSrc(image["lowsrc"])
      case None => None
      case Some(s) => Some(image["src" := s])
  }

  /** The second loop on one image, as its comment says it should be: the result is written back into `lowsrc`. */
  function SavedLowsrc(image: Attributes): (r: Option<Attributes>)
    ensures r.Some? <==> "lowsrc" !in image || image["lowsrc"] != []
  {
    if "lowsrc" !in image then Some(image)
    else
      match SavedSrc(image["lowsrc"])
      case None => None
      case Some(s) => Some(image["lowsrc" := s])
  }

  /** Both loops on one image, with the second one as written. */
  function SavedImageAsWritten(image: Attributes): Option<Attributes>
  {
    match SavedImage(image)
    case None => None
    case Some(i) => SavedLowsrcAsWritten(i)
  }

  /** Both loops on one image, with the second one writing back `lowsrc`. */
  function SavedImageBoth(image: Attributes): Option<Attributes>
  {
    match SavedImage(image)
    case None => None
    case Some(i) => SavedLowsrc(i)
  }

  /**
   * As written, an image with both attributes loses its `src`: the saved
   * page's `src` is the image's `lowsrc`, and its `lowsrc` is left rooted.
   */
  lemma LowsrcOverwritesSrc()
    ensures var image := map["src" := "a.png", "lowsrc" := "/b.png"];
            SavedImageAsWritten(image) == Some(map["src" := "b.png", "lowsrc" := "/b.png"])
  {
    var image := map["src" := "a.png", "lowsrc" := "/b.png"];
    assert "lowsrc" != "src";
    SavedSrcUnrooted("a.png");
    SavedSrcUnrooted("/b.png");
    assert image["src" := "a.png"] == image;
    assert image["src" := "b.png"] == map["src" := "b.png", "lowsrc" := "/b.png"];
  }

  /**
   * With the second loop writing back `lowsrc`, each attribute the page had
   * is replaced by its own path without a leading `/`, and nothing else in
   * the tag changes.
   */
  lemma SavedImageBothAttributes(image: Attributes)
    requires "src" in image && image["src"] != []
    requires "lowsrc" in image ==> image["lowsrc"] != []
    ensures var saved := SavedImageBoth(image);
            && saved.Some?
            && "src" in saved.value && saved.value["src"] == SavedSrc(image["src"]).value
            && ("lowsrc" in image ==> "lowsrc" in saved.value && saved.value["lowsrc"] == SavedSrc(image["lowsrc"]).value)
            && saved.value.Keys == image.Keys
            && forall k :: k in image && k != "src" && k != "lowsrc" ==> k in saved.value && saved.value[k] == image[k]
  {
    assert "lowsrc" != "src";
    SavedSrcUnrooted(image["src"]);
    if "lowsrc" in image {
      SavedSrcUnrooted(image["lowsrc"]);
    }
  }

  // ---------------------------------------------------------------------
  // Whether `main` fetches the images

  /**
   * `main` imports the images of a GET answered with code 200. Python's `and`
   * reads the code as a number only for a GET, so `None`, the `ValueError` of a
   * code that does not read as a number, can only come from a GET.
   */
  function ImportsImages(verb: string, code: string): (r: Option<bool>)
    ensures r.None? ==> verb == "GET"
  {
    if verb != "GET" then Some(false)
    else
      match ParseInt(code, 10)
      case None => None
      case Some(n) => Some(n == 200)
  }

  /** Images are fetched exactly for a GET whose code reads as 200. */
  lemma ImportsImagesExactly(verb: string, code: string)
    ensures ImportsImages(verb, code) == Some(true) <==> verb == "GET" && ParseInt(code, 10) == Some(200)
    ensures verb != "GET" ==> ImportsImages(verb, code) == Some(false)
  {
  }

  /** A code written as a number in decimal: the decision is made, a GET and 200. */
  lemma ImportsOnNumber(verb: string, code: nat)
    ensures ImportsImages(verb, NatToString(code)) == Some(verb == "GET" && code == 200)
  {
    ParseRendered(code, 10);
  }

  /**
   * For a response the server writes, the status token the client reads off
   * its first line is the reply's code, so the images are fetched exactly
   * when the request was a GET and the server answered 200.
   */
  lemma ImportsOnReply(verb: string, reply: Reply, date: string)
    requires Writable(reply)
    ensures var token := StatusToken(Decode(Wire(reply, date)));
            token.Some? && ImportsImages(verb, token.value) == Some(verb == "GET" && reply.code == 200)
  {
    WireCarriesStatus(reply, date);
    ImportsOnNumber(verb, reply.code);
  }
}
