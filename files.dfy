/**
 * A directory tree as a map from path to contents, as both programs see it
 * through `os.path.exists`, `open` and `mimetypes.guess_type`.
 */
module LocalFiles {
  import opened Wrappers
  import opened Bytes

  /** The files a program reads and writes, by path. */
  type FileSystem = map<string, seq<byte>>

  /** `os.path.exists(name)` on the file map; the empty path never exists. */
  predicate Exists(files: FileSystem, name: string)
  {
    name != "" && name in files
  }

  /** The guessed MIME type, falling back to `text/html` when there is no guess or an empty one. */
  function ContentTypeFor(guess: string -> Option<string>, name: string): (t: string)
    ensures t != ""
    ensures guess(name).Some? && guess(name).value != "" ==> t == guess(name).value
  {
    var g := guess(name);
    if g.Some? && g.value != "" then g.value else "text/html"
  }
}
