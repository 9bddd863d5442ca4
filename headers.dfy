/**
 * Reading a decoded header block, as both sides of the connection do it:
 * the start line is the text before the first CR LF, its space-separated
 * words are Python's `split(" ")`, and the header map takes every line of
 * `splitlines()` that holds a `:`, cuts it at its first `:`, and maps the
 * unstripped key to the stripped value.
 */
module HeaderFields {
  import opened Wrappers
  import opened Text

  /** The text before the first `:` of a header line; it is not stripped. */
  function FieldKey(line: string): string
    requires ':' in line
  {
    line[..IndexOf(line, ':')]
  }

  /** The text after the first `:` of a header line, stripped of white space. */
  function FieldValue(line: string): string
    requires ':' in line
  {
    Strip(line[IndexOf(line, ':') + 1..])
  }

  /** The dictionary built from `lines`: lines without `:` are ignored, a later key replaces an earlier one. */
  function FieldsOf(lines: seq<string>): map<string, string>
    decreases |lines|
  {
    if lines == [] then map[]
    else
      var m := FieldsOf(lines[..|lines| - 1]);
      var line := lines[|lines| - 1];
      if ':' in line then m[FieldKey(line) := FieldValue(line)] else m
  }

  /** The header map of a decoded header block. */
  function Fields(text: string): map<string, string>
  {
    FieldsOf(SplitLines(text))
  }

  /** Line `i` of `lines` defines key `k`. */
  ghost predicate DefinesAt(lines: seq<string>, k: string, i: int)
  {
    0 <= i < |lines| && ':' in lines[i] && FieldKey(lines[i]) == k
  }

  /** The header map has key `k` exactly when some line defines it. */
  lemma {:induction false} FieldsOfHas(lines: seq<string>, k: string)
    ensures k in FieldsOf(lines) <==> exists i :: DefinesAt(lines, k, i)
    decreases |lines|
  {
    if lines != [] {
      var n := |lines| - 1;
      var init := lines[..n];
      FieldsOfHas(init, k);
      var line := lines[n];
      if ':' in line {
        assert FieldsOf(lines) == FieldsOf(init)[FieldKey(line) := FieldValue(line)];
      } else {
        assert FieldsOf(lines) == FieldsOf(init);
      }
      if k in FieldsOf(init) {
        var i :| DefinesAt(init, k, i);
        assert DefinesAt(lines, k, i);
      }
      if ':' in line && FieldKey(line) == k {
        assert DefinesAt(lines, k, n);
      }
      if exists i :: DefinesAt(lines, k, i) {
        var i :| DefinesAt(lines, k, i);
        if i < n {
          assert init[i] == lines[i];
          assert DefinesAt(init, k, i);
        } else {
          assert ':' in line && FieldKey(line) == k;
        }
      }
    }
  }

  /** A later line defining the same key overrides every earlier one: the value is the last line's. */
  lemma {:induction false} FieldsOfLastWins(lines: seq<string>, k: string, i: int)
    requires DefinesAt(lines, k, i)
    requires forall j :: i < j < |lines| ==> !DefinesAt(lines, k, j)
    ensures k in FieldsOf(lines) && FieldsOf(lines)[k] == FieldValue(lines[i])
    decreases |lines|
  {
    var n := |lines| - 1;
    var init := lines[..n];
    if i < n {
      assert DefinesAt(init, k, i);
      forall j | i < j < |init| ensures !DefinesAt(init, k, j) {
        assert !DefinesAt(lines, k, j);
      }
      FieldsOfLastWins(init, k, i);
      assert !DefinesAt(lines, k, n);
    }
  }

  /** The start line: the text before the first CR LF, or all of it. */
  function FirstLine(text: string): (line: string)
    ensures |line| <= |text| && line == text[..|line|]
  {
    Split(text, "\r\n")[0]
  }

  /** The space-separated words of a start line: Python's `line.split(" ")`. */
  function Words(line: string): (w: seq<string>)
    ensures |w| >= 1
  {
    Split(line, " ")
  }

  /**
   * The second word of the start line: the status code of a response, the
   * target of a request. `None` is the `IndexError` of a start line
   * without a space.
   */
  function StatusToken(text: string): (token: Option<string>)
    ensures token.Some? <==> ' ' in FirstLine(text)
  {
    var w := Words(FirstLine(text));
    ContainsChar(FirstLine(text), ' ');
    if |w| >= 2 then Some(w[1]) else None
  }
}
