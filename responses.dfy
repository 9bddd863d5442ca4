/**
 * How the server writes a response head: `response_line` looks the reason
 * phrase up in `status_codes`, and `response_headers` copies the ordered
 * default header dictionary, updates it with the handler's extras, writes one
 * `key: value` line per entry and a `Date` line last. The date text is an
 * input (`formatdate` is outside the model).
 */
module Responses {
  import opened Wrappers
  import opened Bytes
  import opened Text
  import opened HeaderFields

  /** `ServerThread.status_codes`. */
  const StatusReasons: map<nat, string> := map[
    200 := "OK",
    201 := "Created",
    304 := "Not Modified",
    400 := "Bad Request",
    404 := "Not Found",
    501 := "Not Implemented"]

  /** The status line text: version, code, reason, CR LF. */
  function StatusText(code: nat): string
    requires code in StatusReasons
  {
    "HTTP/1.1 " + NatToString(code) + " " + StatusReasons[code] + "\r\n"
  }

  /** `response_line(status_code)`; a code outside the table is the `KeyError` the caller never triggers. */
  function ResponseLine(code: nat): (line: seq<byte>)
    requires code in StatusReasons
    ensures |line| == |StatusText(code)|
  {
    Encode(StatusText(code))
  }

  // ---------------------------------------------------------------------
  // Ordered dictionaries of header fields

  /** A Python dictionary of header fields, in insertion order. */
  type HeaderList = seq<(string, string)>

  function Keys(h: HeaderList): (ks: seq<string>)
    ensures |ks| == |h| && forall i :: 0 <= i < |h| ==> ks[i] == h[i].0
  {
    seq(|h|, i requires 0 <= i < |h| => h[i].0)
  }

  /** No key is listed twice, as in any dictionary. */
  predicate UniqueKeys(h: HeaderList)
  {
    forall i, j :: 0 <= i < j < |h| ==> h[i].0 != h[j].0
  }

  /** `h.get(k)`: the value of the first entry with key `k`. */
  function Lookup(h: HeaderList, k: string): (v: Option<string>)
    ensures v.None? <==> k !in Keys(h)
    ensures v.Some? ==> exists i :: 0 <= i < |h| && h[i] == (k, v.value)
  {
    if h == [] then None
    else if h[0].0 == k then
      assert h[0] == (k, h[0].1);
      Some(h[0].1)
    else
      var v := Lookup(h[1..], k);
      assert Keys(h) == [h[0].0] + Keys(h[1..]);
      if v.Some? then
        var i :| 0 <= i < |h[1..]| && h[1..][i] == (k, v.value);
        assert h[i + 1] == (k, v.value);
        v
      else v
  }

  /** `h[k] = v`: an existing key keeps its place and takes the new value, a new key goes last. */
  function Put(h: HeaderList, k: string, v: string): HeaderList
  {
    if h == [] then [(k, v)]
    else if h[0].0 == k then [(k, v)] + h[1..]
    else [h[0]] + Put(h[1..], k, v)
  }

  /** `h.update(extras)`: the extras put one after another. */
  function Override(h: HeaderList, extras: HeaderList): HeaderList
    decreases |extras|
  {
    if extras == [] then h else Override(Put(h, extras[0].0, extras[0].1), extras[1..])
  }

  /** `ServerThread.headers`. */
  const DefaultHeaders: HeaderList := [("Server", "Localhost"), ("Content-Type", "text/html"), ("Content-Length", "0")]

  function FieldLine(f: (string, string)): string
  {
    f.0 + ": " + f.1 + "\r\n"
  }

  /** The lines written for `h`, in its order. */
  function RenderLines(h: HeaderList): string
  {
    if h == [] then "" else FieldLine(h[0]) + RenderLines(h[1..])
  }

  function DateLine(date: string): string
  {
    "Date: " + date + "\r\n"
  }

  /** The header dictionary a response is written with. */
  function ResponseFields(extras: HeaderList): HeaderList
  {
    Override(DefaultHeaders, extras)
  }

  /** What `response_headers(extras)` returns when `formatdate` gives `date`. */
  function HeaderBlock(extras: HeaderList, date: string): seq<byte>
  {
    Encode(RenderLines(ResponseFields(extras)) + DateLine(date))
  }

  /** The `for h in headers_copy` loop: one line per entry, in order. */
  method WriteLines(fields: HeaderList) returns (text: string)
    ensures text == RenderLines(fields)
  {
    text := "";
    var i := 0;
    while i < |fields|
      invariant i <= |fields|
      invariant text + RenderLines(fields[i..]) == RenderLines(fields)
      decreases |fields| - i
    {
      assert fields[i..] == [fields[i]] + fields[i + 1..];
      text := text + FieldLine(fields[i]);
      i := i + 1;
    }
  }

  /** `response_headers`: copy, update, one line per entry in order, `Date` last. */
  method ResponseHeaders(extras: HeaderList, date: string) returns (block: seq<byte>)
    ensures block == HeaderBlock(extras, date)
  {
    var fields := DefaultHeaders;
    if extras != [] {
      fields := Override(fields, extras);
    }
    assert fields == ResponseFields(extras);
    var headers := WriteLines(fields);
    headers := headers + DateLine(date);
    block := Encode(headers);
  }

  // ---------------------------------------------------------------------
  // Properties of the header dictionary

  /** Putting a key keeps every other entry's place, and the key ends up with the new value. */
  lemma {:induction false} PutLookup(h: HeaderList, k: string, v: string, q: string)
    ensures Lookup(Put(h, k, v), q) == if q == k then Some(v) else Lookup(h, q)
    decreases |h|
  {
    if h != [] && h[0].0 != k {
      PutLookup(h[1..], k, v, q);
    }
  }

  /** Putting adds the key and no other. */
  lemma {:induction false} PutKeys(h: HeaderList, k: string, v: string)
    ensures forall q :: q in Keys(Put(h, k, v)) <==> q in Keys(h) || q == k
    decreases |h|
  {
    if h == [] {
      assert Keys(Put(h, k, v)) == [k];
    } else {
      assert h == [h[0]] + h[1..];
      KeysCons(h[0], h[1..]);
      if h[0].0 == k {
        KeysCons((k, v), h[1..]);
      } else {
        PutKeys(h[1..], k, v);
        KeysCons(h[0], Put(h[1..], k, v));
      }
    }
  }

  /** The keys of a list with one more entry in front. */
  lemma KeysCons(e: (string, string), h: HeaderList)
    ensures Keys([e] + h) == [e.0] + Keys(h)
  {
  }

  /** Putting keeps keys unique. */
  lemma {:induction false} PutUnique(h: HeaderList, k: string, v: string)
    requires UniqueKeys(h)
    ensures UniqueKeys(Put(h, k, v))
    decreases |h|
  {
    if h != [] && h[0].0 != k {
      PutUnique(h[1..], k, v);
      PutKeys(h[1..], k, v);
      var p := Put(h, k, v);
      var t := Put(h[1..], k, v);
      assert p == [h[0]] + t;
      forall j | 0 < j < |p| ensures p[0].0 != p[j].0 {
        assert p[j] == t[j - 1];
        assert p[j].0 in Keys(t);
        if p[j].0 != k {
          var m :| 0 <= m < |h[1..]| && Keys(h[1..])[m] == p[j].0;
          assert h[m + 1].0 == p[j].0;
        }
      }
      forall i, j | 0 < i < j < |p| ensures p[i].0 != p[j].0 {
        assert p[i] == t[i - 1] && p[j] == t[j - 1];
      }
    }
  }

  /** Putting keeps the place of every entry already there. */
  lemma {:induction false} PutKeepsOrder(h: HeaderList, k: string, v: string)
    ensures |Put(h, k, v)| >= |h|
    ensures forall i :: 0 <= i < |h| ==> Put(h, k, v)[i].0 == h[i].0
    decreases |h|
  {
    if h != [] && h[0].0 != k {
      PutKeepsOrder(h[1..], k, v);
      assert forall i :: 1 <= i < |h| ==> Put(h, k, v)[i] == Put(h[1..], k, v)[i - 1];
    }
  }

  /** After the update the keys are those of the defaults and the extras, and none twice. */
  lemma {:induction false} OverrideKeys(h: HeaderList, extras: HeaderList)
    requires UniqueKeys(h)
    ensures UniqueKeys(Override(h, extras))
    ensures forall q :: q in Keys(Override(h, extras)) <==> q in Keys(h) || q in Keys(extras)
    decreases |extras|
  {
    if extras != [] {
      PutUnique(h, extras[0].0, extras[0].1);
      PutKeys(h, extras[0].0, extras[0].1);
      OverrideKeys(Put(h, extras[0].0, extras[0].1), extras[1..]);
      assert Keys(extras) == [extras[0].0] + Keys(extras[1..]);
    }
  }

  /** The update keeps every default where it was, so the defaults come first and in their order. */
  lemma {:induction false} OverrideKeepsOrder(h: HeaderList, extras: HeaderList)
    ensures |Override(h, extras)| >= |h|
    ensures forall i :: 0 <= i < |h| ==> Override(h, extras)[i].0 == h[i].0
    decreases |extras|
  {
    if extras != [] {
      var p := Put(h, extras[0].0, extras[0].1);
      PutKeepsOrder(h, extras[0].0, extras[0].1);
      OverrideKeepsOrder(p, extras[1..]);
    }
  }

  /** The extras win: a key they name has their value, any other key keeps the default's. */
  lemma {:induction false} OverrideLookup(h: HeaderList, extras: HeaderList, q: string)
    requires UniqueKeys(extras)
    ensures Lookup(Override(h, extras), q) == if q in Keys(extras) then Lookup(extras, q) else Lookup(h, q)
    decreases |extras|
  {
    if extras != [] {
      var k := extras[0].0;
      var p := Put(h, k, extras[0].1);
      PutLookup(h, k, extras[0].1, q);
      OverrideLookup(p, extras[1..], q);
      assert Keys(extras) == [k] + Keys(extras[1..]);
      if q == k {
        forall m | 0 <= m < |extras[1..]| ensures Keys(extras[1..])[m] != q {
          assert extras[1..][m] == extras[m + 1];
        }
      }
    }
  }

  // ---------------------------------------------------------------------
  // The status line as a reader sees it

  /** Every reason phrase is one line of octet text. */
  lemma ReasonIsPlain(code: nat)
    requires code in StatusReasons
    ensures forall j :: 0 <= j < |StatusReasons[code]| ==> StatusReasons[code][j] != '\r' && StatusReasons[code][j] as int < 256
  {
  }

  /** The status line without its CR LF, as three words. */
  function StatusWords(code: nat): string
    requires code in StatusReasons
  {
    "HTTP/1.1" + " " + (NatToString(code) + " " + StatusReasons[code])
  }

  /** A status line over octet text is octet text, and is its three words and CR LF. */
  lemma LinePlain(digits: string, reason: string)
    requires IsOctetText(digits) && IsOctetText(reason)
    ensures IsOctetText("HTTP/1.1 " + digits + " " + reason + "\r\n")
    ensures "HTTP/1.1 " + digits + " " + reason + "\r\n" == "HTTP/1.1" + " " + (digits + " " + reason) + "\r\n"
  {
    var v := "HTTP/1.1 ";
    var t := v + digits + " " + reason + "\r\n";
    forall j | 0 <= j < |t| ensures t[j] as int < 256 {
      if j < |v| {
      } else if j < |v| + |digits| {
        assert t[j] == digits[j - |v|];
      } else if j == |v| + |digits| {
      } else if j < |v| + |digits| + 1 + |reason| {
        assert t[j] == reason[j - |v| - |digits| - 1];
      }
    }
    assert v == "HTTP/1.1" + " ";
  }

  /** The status line is octet text: the status words and CR LF. */
  lemma StatusTextPlain(code: nat)
    requires code in StatusReasons
    ensures IsOctetText(StatusText(code)) && StatusText(code) == StatusWords(code) + "\r\n"
  {
    var digits := NatToString(code);
    ReasonIsPlain(code);
    forall j | 0 <= j < |digits| ensures digits[j] as int < 256 {
      assert IsDigitChar(digits[j]);
    }
    LinePlain(digits, StatusReasons[code]);
  }

  /** A response decodes to its status words, CR LF, and whatever follows. */
  lemma DecodedResponse(code: nat, more: seq<byte>)
    requires code in StatusReasons
    ensures Decode(ResponseLine(code) + more) == StatusWords(code) + "\r\n" + Decode(more)
  {
    StatusTextPlain(code);
    DecodeEncode(StatusText(code));
    DecodeConcat(ResponseLine(code), more);
  }

  /** A first line of three space-separated words has the middle one as its status token. */
  lemma MiddleWord(a: string, b: string, c: string, x: string)
    requires forall j :: 0 <= j < |a| ==> a[j] != ' ' && a[j] != '\r'
    requires forall j :: 0 <= j < |b| ==> b[j] != ' ' && b[j] != '\r'
    requires forall j :: 0 <= j < |c| ==> c[j] != '\r'
    ensures StatusToken(a + " " + (b + " " + c) + "\r\n" + x) == Some(b)
  {
    var line := a + " " + (b + " " + c);
    forall j | 0 <= j < |line| ensures line[j] != '\r' {
      if j > |a| {
        assert line[j] == (b + " " + c)[j - |a| - 1];
      }
    }
    SplitAfter(line, "\r\n", x);
    SplitAfter(a, " ", b + " " + c);
    SplitAfter(b, " ", c);
  }

  /** The version word holds no space and no CR. */
  lemma VersionPlain()
    ensures forall j :: 0 <= j < |"HTTP/1.1"| ==> "HTTP/1.1"[j] != ' ' && "HTTP/1.1"[j] != '\r'
  {
  }

  /**
   * Whatever follows it, a response starting with `response_line(code)`
   * has the code as its status token: the second word of its first line.
   */
  lemma StatusTokenOfResponse(code: nat, more: seq<byte>)
    requires code in StatusReasons
    ensures StatusToken(Decode(ResponseLine(code) + more)) == Some(NatToString(code))
  {
    var digits := NatToString(code);
    ReasonIsPlain(code);
    forall j | 0 <= j < |digits| ensures digits[j] != ' ' && digits[j] != '\r' {
      assert IsDigitChar(digits[j]);
    }
    VersionPlain();
    DecodedResponse(code, more);
    MiddleWord("HTTP/1.1", digits, StatusReasons[code], Decode(more));
  }

  /** Three words with no CR in them make one line. */
  lemma WordsOneLine(version: string, digits: string, reason: string)
    requires forall j :: 0 <= j < |version| ==> version[j] != '\r'
    requires forall j :: 0 <= j < |digits| ==> digits[j] != '\r'
    requires forall j :: 0 <= j < |reason| ==> reason[j] != '\r'
    ensures var line := version + " " + (digits + " " + reason);
            line == version + " " + digits + " " + reason && forall j :: 0 <= j < |line| ==> line[j] != '\r'
  {
    var line := version + " " + (digits + " " + reason);
    forall j | 0 <= j < |line| ensures line[j] != '\r' {
      if |version| < j <= |version| + |digits| {
        assert line[j] == digits[j - |version| - 1];
      } else if |version| + |digits| + 1 < j {
        assert line[j] == reason[j - |version| - |digits| - 2];
      }
    }
  }

  /** The status words spelled out, and they hold no CR. */
  lemma StatusWordsOneLine(code: nat)
    requires code in StatusReasons
    ensures StatusWords(code) == "HTTP/1.1" + " " + NatToString(code) + " " + StatusReasons[code]
    ensures forall j :: 0 <= j < |StatusWords(code)| ==> StatusWords(code)[j] != '\r'
  {
    var digits := NatToString(code);
    ReasonIsPlain(code);
    VersionPlain();
    forall j | 0 <= j < |digits| ensures digits[j] != '\r' {
      assert IsDigitChar(digits[j]);
    }
    WordsOneLine("HTTP/1.1", digits, StatusReasons[code]);
  }

  /**
   * Whatever follows it, a response starting with `response_line(code)`
   * has as its start line the version, the code and the code's reason phrase.
   */
  lemma StatusLineOfResponse(code: nat, more: seq<byte>)
    requires code in StatusReasons
    ensures FirstLine(Decode(ResponseLine(code) + more)) == "HTTP/1.1" + " " + NatToString(code) + " " + StatusReasons[code]
  {
    StatusWordsOneLine(code);
    DecodedResponse(code, more);
    SplitAfter(StatusWords(code), "\r\n", Decode(more));
  }
}
