/**
 * A header block written as lines: each line followed by CR LF and a blank
 * line at the end. Python's `splitlines()` gives back its lines, the
 * framer's search for CR LF CR LF finds its end, and the header map read
 * from it is the one built from its lines.
 */
module HeaderBlocks {
  import opened Wrappers
  import opened Bytes
  import opened Text
  import opened HeaderFields
  import opened Frames
  import opened ServerRequest

  /** Header lines, each followed by CR LF, and the blank line that ends the block. */
  function LinesText(lines: seq<string>): string
    decreases |lines|
  {
    if lines == [] then "\r\n" else lines[0] + "\r\n" + LinesText(lines[1..])
  }

  /** Text with no line boundary in it. */
  predicate Unbroken(s: string)
  {
    forall j :: 0 <= j < |s| ==> !IsLineBreak(s[j])
  }

  /** A header line as the client writes one: not empty, one octet per character, no line boundary. */
  predicate HeaderLine(l: string)
  {
    |l| > 0 && IsOctetText(l) && Unbroken(l)
  }

  lemma {:induction false} FirstBreakAfter(l: string, rest: string)
    requires Unbroken(l)
    ensures FirstBreak(l + "\r\n" + rest) == |l|
    decreases |l|
  {
    var s := l + "\r\n" + rest;
    if l == [] {
      assert s[0] == '\r';
    } else {
      assert s[1..] == l[1..] + "\r\n" + rest;
      FirstBreakAfter(l[1..], rest);
    }
  }

  /** `splitlines()` takes an unbroken line ended by CR LF off the front. */
  lemma SplitLinesStep(l: string, rest: string)
    requires Unbroken(l)
    ensures SplitLines(l + "\r\n" + rest) == [l] + SplitLines(rest)
  {
    var s := l + "\r\n" + rest;
    FirstBreakAfter(l, rest);
    assert s[|l|] == '\r' && s[|l| + 1] == '\n';
    assert s[..|l|] == l && s[|l| + 2..] == rest;
  }

  lemma SplitLinesBlank()
    ensures SplitLines("\r\n") == [""]
  {
    var s := "\r\n";
    assert FirstBreak(s) == 0;
    assert s[2..] == [];
    assert s[..0] == "";
  }

  /** `splitlines()` of a header block takes its first line off the front. */
  lemma SplitLinesCons(lines: seq<string>)
    requires |lines| > 0 && Unbroken(lines[0])
    ensures SplitLines(LinesText(lines)) == [lines[0]] + SplitLines(LinesText(lines[1..]))
  {
    SplitLinesStep(lines[0], LinesText(lines[1..]));
  }

  /** `splitlines()` gives back the lines, and the empty line of the blank line last. */
  lemma {:induction false} SplitLinesOf(lines: seq<string>)
    requires forall k :: 0 <= k < |lines| ==> Unbroken(lines[k])
    ensures SplitLines(LinesText(lines)) == lines + [""]
    decreases |lines|
  {
    if lines == [] {
      SplitLinesBlank();
    } else {
      SplitLinesOf(lines[1..]);
      SplitLinesCons(lines);
      AppendToTail(lines, "");
    }
  }

  /** No CR LF CR LF starts in a line without CR, or in its CR LF when the next line does not start with CR. */
  lemma NoBlankInLine(l: string, b: string)
    requires forall j :: 0 <= j < |l| ==> l[j] != '\r'
    requires |b| > 0 && b[0] != '\r'
    ensures forall j :: 0 <= j < |l + "\r\n"| ==> !OccursAt(l + "\r\n" + b, "\r\n\r\n", j)
  {
    var s := l + "\r\n" + b;
    forall j | 0 <= j < |l + "\r\n"| ensures !OccursAt(s, "\r\n\r\n", j) {
      if j + 4 <= |s| {
        if j < |l| {
          assert s[j..j + 4][0] == s[j] == l[j];
        } else if j == |l| {
          assert s[j..j + 4][2] == s[j + 2] == b[0];
        } else {
          assert s[j..j + 4][0] == s[j] == '\n';
        }
      }
    }
  }

  /** An occurrence after `a` in `a + b` is one in `b`, and the other way round. */
  lemma OccursPast<T>(a: seq<T>, b: seq<T>, t: seq<T>, j: nat)
    requires |a| <= j
    ensures OccursAt(a + b, t, j) <==> OccursAt(b, t, j - |a|)
  {
    if j + |t| <= |a + b| {
      assert (a + b)[j..j + |t|] == b[j - |a|..j - |a| + |t|];
    }
  }

  /** `t` found in `b` is found after `a` when no occurrence starts inside `a`. */
  lemma FindShift<T>(a: seq<T>, b: seq<T>, t: seq<T>, i: nat)
    requires Find(b, t) == Some(i)
    requires forall j :: 0 <= j < |a| ==> !OccursAt(a + b, t, j)
    ensures Find(a + b, t) == Some(|a| + i)
  {
    OccursPast(a, b, t, |a| + i);
    forall j | |a| <= j < |a| + i ensures !OccursAt(a + b, t, j) {
      OccursPast(a, b, t, j);
    }
    FindFirst(a + b, t, |a| + i);
  }

  /**
   * A line without CR in front of text whose first CR LF CR LF is at `i`:
   * that one, shifted past the line. The search text is a parameter equal
   * to CR LF CR LF, which keeps the generic `FindShift` from working on a
   * literal.
   */
  lemma FindBlankAfterLine(l: string, tail: string, blank: string, i: nat)
    requires blank == "\r\n\r\n"
    requires forall j :: 0 <= j < |l| ==> l[j] != '\r'
    requires |tail| > 0 && tail[0] != '\r'
    requires Find(tail, blank) == Some(i)
    ensures Find(l + "\r\n" + tail, blank) == Some(|l| + 2 + i)
  {
    NoBlankInLine(l, tail);
    FindShift(l + "\r\n", tail, blank, i);
  }

  /** A block of one line: its blank line ends it. */
  lemma FindBlankLast(l: string, rest: string)
    requires forall j :: 0 <= j < |l| ==> l[j] != '\r'
    ensures |LinesText([l])| == |l| + 4
    ensures Find(LinesText([l]) + rest, "\r\n\r\n") == Some(|l|)
  {
    assert [l][1..] == [];
    assert LinesText([l]) + rest == l + "\r\n\r\n" + rest;
    FindAfter(l, "\r\n\r\n", rest);
  }

  /** A block of more lines: the end found in the rest of the block, shifted past the first line. */
  lemma FindBlankNext(lines: seq<string>, rest: string)
    requires |lines| > 1 && HeaderLine(lines[0]) && HeaderLine(lines[1])
    requires |LinesText(lines[1..])| >= 4
    requires Find(LinesText(lines[1..]) + rest, "\r\n\r\n") == Some(|LinesText(lines[1..])| - 4)
    ensures |LinesText(lines)| >= 4
    ensures Find(LinesText(lines) + rest, "\r\n\r\n") == Some(|LinesText(lines)| - 4)
  {
    var l := lines[0];
    var tail := LinesText(lines[1..]);
    assert LinesText(lines) + rest == l + "\r\n" + (tail + rest);
    assert forall j :: 0 <= j < |l| ==> l[j] != '\r';
    assert lines[1..][0] == lines[1];
    assert (tail + rest)[0] == lines[1][0];
    FindBlankAfterLine(l, tail + rest, "\r\n\r\n", |tail| - 4);
  }

  /** The first CR LF CR LF of a header block is its end, whatever follows. */
  lemma {:induction false} FindBlank(lines: seq<string>, rest: string)
    requires |lines| > 0 && forall k :: 0 <= k < |lines| ==> HeaderLine(lines[k])
    ensures |LinesText(lines)| >= 4
    ensures Find(LinesText(lines) + rest, "\r\n\r\n") == Some(|LinesText(lines)| - 4)
    decreases |lines|
  {
    if |lines| == 1 {
      assert lines == [lines[0]];
      assert forall j :: 0 <= j < |lines[0]| ==> lines[0][j] != '\r';
      FindBlankLast(lines[0], rest);
    } else {
      FindBlank(lines[1..], rest);
      FindBlankNext(lines, rest);
    }
  }

  /** Header lines with octet characters make octet text. */
  lemma {:induction false} LinesOctet(lines: seq<string>)
    requires forall k :: 0 <= k < |lines| ==> HeaderLine(lines[k])
    ensures IsOctetText(LinesText(lines))
    decreases |lines|
  {
    if lines != [] {
      LinesOctet(lines[1..]);
      var t := LinesText(lines);
      var l := lines[0];
      var tail := LinesText(lines[1..]);
      assert t == l + "\r\n" + tail;
      forall j | 0 <= j < |t| ensures t[j] as int < 256 {
        if j < |l| {
          assert t[j] == l[j];
        } else if j >= |l| + 2 {
          assert t[j] == tail[j - |l| - 2];
        }
      }
    }
  }

  lemma BlankLineText()
    ensures Decode(CRLFCRLF) == "\r\n\r\n"
  {
    var d := Decode(CRLFCRLF);
    assert d[0] == '\r' && d[1] == '\n' && d[2] == '\r' && d[3] == '\n';
  }

  /** The framer reads exactly a header block whose first CR LF CR LF is its end, whatever follows it. */
  lemma TextScanned(t: string, rest: seq<byte>)
    requires IsOctetText(t) && |t| >= 4
    requires Find(t + Decode(rest), "\r\n\r\n") == Some(|t| - 4)
    ensures ScanHeader(Encode(t) + rest) == Encode(t)
  {
    var b := Encode(t);
    DecodeEncode(t);
    DecodeConcat(b, rest);
    BlankLineText();
    DecodeFind(b + rest, CRLFCRLF);
    assert (b + rest)[..|t|] == b;
  }

  /** The framer reads exactly a header block made of header lines, whatever follows it. */
  lemma BlockScanned(lines: seq<string>, rest: seq<byte>)
    requires |lines| > 0 && forall k :: 0 <= k < |lines| ==> HeaderLine(lines[k])
    ensures ScanHeader(Encode(LinesText(lines)) + rest) == Encode(LinesText(lines))
    ensures Decode(Encode(LinesText(lines))) == LinesText(lines)
  {
    LinesOctet(lines);
    DecodeEncode(LinesText(lines));
    FindBlank(lines, Decode(rest));
    TextScanned(LinesText(lines), rest);
  }

  /** The start line of such a block is its first line, and its map is built from its lines. */
  lemma BlockLines(lines: seq<string>)
    requires |lines| > 0 && forall k :: 0 <= k < |lines| ==> HeaderLine(lines[k])
    ensures FirstLine(LinesText(lines)) == lines[0]
    ensures Fields(LinesText(lines)) == FieldsOf(lines)
  {
    assert forall j :: 0 <= j < |lines[0]| ==> lines[0][j] != '\r';
    SplitAfter(lines[0], "\r\n", LinesText(lines[1..]));
    SplitLinesOf(lines);
    var all := lines + [""];
    assert all[..|lines|] == lines;
    assert ':' !in all[|lines|];
  }
}
