/**
 * The Python string operations the protocol code leans on, each with the
 * semantics CPython gives it: `in` (substring search), `str.split(sep)`,
 * `str.rfind`, `str.strip()` / `str.strip(chars)`, `str.splitlines()`,
 * `int(s, base)` and the decimal and hexadecimal rendering of a number.
 */
module Text {
  import opened Wrappers

  /** `t` occurs in `s` starting at index `i`. */
  predicate OccursAt<T(==)>(s: seq<T>, t: seq<T>, i: nat)
  {
    i + |t| <= |s| && s[i..i + |t|] == t
  }

  /** Shifting the search one element to the right. */
  lemma OccursShift<T>(s: seq<T>, t: seq<T>)
    requires |s| > 0
    ensures forall j: nat :: 0 < j ==> (OccursAt(s, t, j) <==> OccursAt(s[1..], t, j - 1))
  {
    forall j: nat | 0 < j ensures OccursAt(s, t, j) <==> OccursAt(s[1..], t, j - 1) {
      if j + |t| <= |s| {
        assert s[1..][j - 1..j - 1 + |t|] == s[j..j + |t|];
      }
    }
  }

  /** The first index at which `t` occurs in `s` (`str.find`). */
  function Find<T(==)>(s: seq<T>, t: seq<T>): (r: Option<nat>)
    ensures r.Some? ==> OccursAt(s, t, r.value)
    ensures r.Some? ==> forall j :: 0 <= j < r.value ==> !OccursAt(s, t, j)
    ensures r.None? ==> forall j: nat :: !OccursAt(s, t, j)
    decreases |s|
  {
    if |t| > |s| then None
    else if s[..|t|] == t then Some(0)
    else
      OccursShift(s, t);
      match Find(s[1..], t)
      case None => None
      case Some(i) => Some(i + 1)
  }

  /** Python's `t in s` on strings and bytes. */
  predicate Contains<T(==)>(s: seq<T>, t: seq<T>)
  {
    Find(s, t).Some?
  }

  lemma ContainsIff<T>(s: seq<T>, t: seq<T>)
    ensures Contains(s, t) <==> exists j: nat :: OccursAt(s, t, j)
  {
    if Contains(s, t) {
      assert OccursAt(s, t, Find(s, t).value);
    }
  }

  /** A one-character pattern occurs exactly when the character does. */
  lemma ContainsChar(s: string, c: char)
    ensures Contains(s, [c]) <==> c in s
  {
    ContainsIff(s, [c]);
    if c in s {
      var j :| 0 <= j < |s| && s[j] == c;
      assert OccursAt(s, [c], j);
    }
    if Contains(s, [c]) {
      var j := Find(s, [c]).value;
      assert s[j..j + 1] == [c];
      assert s[j] == c;
    }
  }

  /** An occurrence that no earlier one precedes is what `Find` returns. */
  lemma FindFirst<T>(s: seq<T>, t: seq<T>, i: nat)
    requires OccursAt(s, t, i)
    requires forall j :: 0 <= j < i ==> !OccursAt(s, t, j)
    ensures Find(s, t) == Some(i)
  {
  }

  /** An occurrence inside a prefix is an occurrence in the whole. */
  lemma OccursInPrefix<T>(s: seq<T>, t: seq<T>, k: nat, j: nat)
    requires k <= |s|
    ensures OccursAt(s[..k], t, j) <==> (j + |t| <= k && OccursAt(s, t, j))
  {
    if j + |t| <= k {
      assert s[..k][j..j + |t|] == s[j..j + |t|];
    }
  }

  /** Python's `s.split(sep)` for a non-empty separator. */
  function Split<T(==)>(s: seq<T>, sep: seq<T>): (parts: seq<seq<T>>)
    requires |sep| > 0
    ensures |parts| >= 1
    decreases |s|
  {
    match Find(s, sep)
    case None => [s]
    case Some(i) => [s[..i]] + Split(s[i + |sep|..], sep)
  }

  /** Appending to a non-empty sequence appends to its tail. */
  lemma AppendToTail<T>(s: seq<T>, x: T)
    requires |s| > 0
    ensures s + [x] == [s[0]] + (s[1..] + [x])
  {
  }

  /** A concatenation cut where its parts meet. */
  lemma ConcatParts<T>(a: seq<T>, b: seq<T>)
    ensures (a + b)[..|a|] == a && (a + b)[|a|..] == b
  {
  }

  /** Splitting where the first separator is: the piece before it, then the rest split. */
  lemma SplitAt<T>(s: seq<T>, sep: seq<T>, i: nat)
    requires |sep| > 0 && Find(s, sep) == Some(i)
    ensures Split(s, sep) == [s[..i]] + Split(s[i + |sep|..], sep)
  {
  }

  /** Without a separator there is one piece: all of it. */
  lemma SplitNone<T>(s: seq<T>, sep: seq<T>)
    requires |sep| > 0 && Find(s, sep).None?
    ensures Split(s, sep) == [s]
  {
  }

  /** Python's `sep.join(parts)`. */
  function Join<T>(parts: seq<seq<T>>, sep: seq<T>): seq<T>
  {
    if parts == [] then []
    else if |parts| == 1 then parts[0]
    else parts[0] + sep + Join(parts[1..], sep)
  }

  /** Splitting loses nothing: joining the pieces gives the text back. */
  lemma {:induction false} SplitJoin<T>(s: seq<T>, sep: seq<T>)
    requires |sep| > 0
    ensures Join(Split(s, sep), sep) == s
    decreases |s|
  {
    match Find(s, sep)
    case None =>
    case Some(i) =>
      var rest := s[i + |sep|..];
      var tail := Split(rest, sep);
      SplitJoin(rest, sep);
      var parts := [s[..i]] + tail;
      assert Split(s, sep) == parts;
      assert |parts| >= 2 && parts[0] == s[..i] && parts[1..] == tail;
      calc {
        Join(parts, sep);
        parts[0] + sep + Join(parts[1..], sep);
        s[..i] + sep + rest;
        { assert s[i..i + |sep|] == sep; }
        s;
      }
  }

  /** No piece of a split still holds the separator. */
  lemma {:induction false} SplitPiecesFree<T>(s: seq<T>, sep: seq<T>)
    requires |sep| > 0
    ensures forall k :: 0 <= k < |Split(s, sep)| ==> !Contains(Split(s, sep)[k], sep)
    decreases |s|
  {
    match Find(s, sep)
    case None =>
    case Some(i) =>
      var rest := s[i + |sep|..];
      SplitPiecesFree(rest, sep);
      forall j: nat ensures !OccursAt(s[..i], sep, j) {
        OccursInPrefix(s, sep, i, j);
      }
      var parts := Split(s, sep);
      assert parts == [s[..i]] + Split(rest, sep);
      forall k | 0 <= k < |parts| ensures !Contains(parts[k], sep) {
        if k > 0 {
          assert parts[k] == Split(rest, sep)[k - 1];
        }
      }
  }

  /** A separator after a piece that does not hold its first element is found right after that piece. */
  lemma FindAfter<T>(a: seq<T>, t: seq<T>, b: seq<T>)
    requires |t| > 0 && forall j :: 0 <= j < |a| ==> a[j] != t[0]
    ensures Find(a + t + b, t) == Some(|a|)
  {
    var s := a + t + b;
    assert s[|a|..|a| + |t|] == t;
    forall j | 0 <= j < |a| ensures !OccursAt(s, t, j) {
      if j + |t| <= |s| {
        assert s[j..j + |t|][0] == s[j] == a[j];
      }
    }
    FindFirst(s, t, |a|);
  }

  /** Splitting such a text gives the piece first. */
  lemma SplitAfter<T>(a: seq<T>, t: seq<T>, b: seq<T>)
    requires |t| > 0 && forall j :: 0 <= j < |a| ==> a[j] != t[0]
    ensures Split(a + t + b, t) == [a] + Split(b, t)
  {
    FindAfter(a, t, b);
    var s := a + t + b;
    assert s[..|a|] == a && s[|a| + |t|..] == b;
  }

  /** The first index of character `c` in `s`. */
  function IndexOf(s: string, c: char): (i: nat)
    requires c in s
    ensures i < |s| && s[i] == c && c !in s[..i]
  {
    if s[0] == c then 0 else IndexOf(s[1..], c) + 1
  }

  /** The first `c` is at `i` when `s[i]` is `c` and no `c` comes before it. */
  lemma IndexOfFirst(s: string, c: char, i: nat)
    requires i < |s| && s[i] == c && c !in s[..i]
    ensures IndexOf(s, c) == i
  {
    var k := IndexOf(s, c);
    assert forall j :: 0 <= j < i ==> s[..i][j] == s[j] != c;
    assert forall j :: 0 <= j < k ==> s[..k][j] == s[j] != c;
  }

  /** Python's `s.rfind(t)`: the last index at which `t` occurs. */
  function RFind<T(==)>(s: seq<T>, t: seq<T>): (r: Option<nat>)
    ensures r.Some? ==> OccursAt(s, t, r.value)
    ensures r.Some? ==> forall j: nat :: r.value < j ==> !OccursAt(s, t, j)
    ensures r.None? ==> forall j: nat :: !OccursAt(s, t, j)
    decreases |s|
  {
    if |t| > |s| then None
    else if s[|s| - |t|..] == t then Some(|s| - |t|)
    else
      var r := RFind(s[..|s| - 1], t);
      assert forall j: nat :: j + |t| < |s| ==> (OccursAt(s, t, j) <==> OccursAt(s[..|s| - 1], t, j)) by {
        forall j: nat | j + |t| < |s|
          ensures OccursAt(s, t, j) <==> OccursAt(s[..|s| - 1], t, j)
        {
          OccursInPrefix(s, t, |s| - 1, j);
        }
      }
      r
  }

  // ---------------------------------------------------------------------
  // Stripping

  /** The characters Python's `str.strip()` removes (`str.isspace()`). */
  predicate IsSpace(c: char)
  {
    var n := c as int;
    (9 <= n <= 13) || (28 <= n <= 32) || n == 0x85 || n == 0xA0 || n == 0x1680
    || (0x2000 <= n <= 0x200A) || n == 0x2028 || n == 0x2029 || n == 0x202F
    || n == 0x205F || n == 0x3000
  }

  /** The first index from `i` on whose character `drop` does not accept, or `|s|`. */
  function KeptFrom(s: string, i: nat, drop: char -> bool): (k: nat)
    requires i <= |s|
    ensures i <= k <= |s|
    ensures forall j :: i <= j < k ==> drop(s[j])
    ensures k == |s| || !drop(s[k])
    decreases |s| - i
  {
    if i < |s| && drop(s[i]) then KeptFrom(s, i + 1, drop) else i
  }

  /** The end of `s[..j]` once every trailing character `drop` accepts is cut off. */
  function KeptUntil(s: string, j: nat, drop: char -> bool): (k: nat)
    requires j <= |s|
    ensures k <= j
    ensures forall m :: k <= m < j ==> drop(s[m])
    ensures k == 0 || !drop(s[k - 1])
    decreases j
  {
    if j > 0 && drop(s[j - 1]) then KeptUntil(s, j - 1, drop) else j
  }

  /** `s.lstrip(...)` for the characters `drop` accepts. */
  function TrimStart(s: string, drop: char -> bool): string
  {
    s[KeptFrom(s, 0, drop)..]
  }

  /** `s.rstrip(...)` for the characters `drop` accepts. */
  function TrimEnd(s: string, drop: char -> bool): string
  {
    s[..KeptUntil(s, |s|, drop)]
  }

  /** Python's `s.strip()`. */
  function Strip(s: string): string
  {
    TrimEnd(TrimStart(s, IsSpace), IsSpace)
  }

  /** Python's `s.strip(c)` for a single character `c`. */
  function StripChar(s: string, c: char): string
  {
    TrimEnd(TrimStart(s, x => x == c), x => x == c)
  }

  /** A string whose ends are not white space is left as it is by `strip`. */
  lemma StripUnpadded(s: string)
    requires s == [] || (!IsSpace(s[0]) && !IsSpace(s[|s| - 1]))
    ensures Strip(s) == s
  {
    assert TrimStart(s, IsSpace) == s[0..] == s;
  }

  /** Cutting trailing white space back from `j` stops at the first non-space `t[n - 1]`. */
  lemma {:induction false} KeptUntilPad(t: string, n: nat, j: nat)
    requires 0 < n <= j <= |t| && !IsSpace(t[n - 1])
    requires forall m :: n <= m < j ==> IsSpace(t[m])
    ensures KeptUntil(t, j, IsSpace) == n
    decreases j
  {
    if j > n {
      KeptUntilPad(t, n, j - 1);
    }
  }

  /** Stripping removes a trailing run of white space and nothing of an unpadded text before it. */
  lemma StripTrailingSpace(s: string, pad: string)
    requires s != [] && !IsSpace(s[0]) && !IsSpace(s[|s| - 1])
    requires forall j :: 0 <= j < |pad| ==> IsSpace(pad[j])
    ensures Strip(s + pad) == s
  {
    var t := s + pad;
    assert t[0] == s[0];
    assert TrimStart(t, IsSpace) == t[0..] == t;
    forall m | |s| <= m < |t| ensures IsSpace(t[m]) {
      assert t[m] == pad[m - |s|];
    }
    KeptUntilPad(t, |s|, |t|);
    assert t[..|s|] == s;
  }

  // ---------------------------------------------------------------------
  // Lines

  /** The line boundaries of `str.splitlines()`. */
  predicate IsLineBreak(c: char)
  {
    var n := c as int;
    n == 10 || n == 11 || n == 12 || n == 13 || n == 28 || n == 29 || n == 30
    || n == 0x85 || n == 0x2028 || n == 0x2029
  }

  /** Index of the first line boundary of `s`, or `|s|` when there is none. */
  function FirstBreak(s: string): (i: nat)
    ensures i <= |s|
    ensures forall j :: 0 <= j < i ==> !IsLineBreak(s[j])
    ensures i < |s| ==> IsLineBreak(s[i])
  {
    if s == [] || IsLineBreak(s[0]) then 0 else FirstBreak(s[1..]) + 1
  }

  /** Python's `s.splitlines()`: `\r\n` is one boundary, and a final boundary opens no empty line. */
  function SplitLines(s: string): (lines: seq<string>)
    ensures forall k, j :: 0 <= k < |lines| && 0 <= j < |lines[k]| ==> !IsLineBreak(lines[k][j])
    decreases |s|
  {
    if s == [] then []
    else
      var i := FirstBreak(s);
      if i == |s| then [s]
      else
        var next := if s[i] == '\r' && i + 1 < |s| && s[i + 1] == '\n' then i + 2 else i + 1;
        [s[..i]] + SplitLines(s[next..])
  }

  // ---------------------------------------------------------------------
  // Numbers

  /** Value of an ASCII digit or letter digit (`0-9`, `a-f`, `A-F`). */
  function DigitValue(c: char): (d: Option<nat>)
    ensures d.Some? ==> d.value < 16
  {
    if '0' <= c <= '9' then Some(c as int - '0' as int)
    else if 'a' <= c <= 'f' then Some(c as int - 'a' as int + 10)
    else if 'A' <= c <= 'F' then Some(c as int - 'A' as int + 10)
    else None
  }

  /** The value of a non-empty run of digits below `base`, most significant first. */
  function DigitsValue(s: string, base: nat): Option<nat>
    decreases |s|
  {
    if s == [] then None
    else
      var d := DigitValue(s[|s| - 1]);
      if d.None? || d.value >= base then None
      else if |s| == 1 then Some(d.value)
      else match DigitsValue(s[..|s| - 1], base)
        case None => None
        case Some(v) => Some(v * base + d.value)
  }

  /**
   * Python's `int(s, base)` for base 10 or 16: surrounding white space, an
   * optional sign, for base 16 an optional `0x`/`0X` prefix, then digits.
   * `None` is the `ValueError` Python raises.
   */
  function ParseInt(s: string, base: nat): Option<int>
  {
    var t := Strip(s);
    var neg := |t| > 0 && t[0] == '-';
    var u := if |t| > 0 && (t[0] == '-' || t[0] == '+') then t[1..] else t;
    var v := if base == 16 && |u| >= 2 && u[0] == '0' && (u[1] == 'x' || u[1] == 'X') then u[2..] else u;
    match DigitsValue(v, base)
    case None => None
    case Some(n) => var k: int := n; Some(if neg then -k else k)
  }

  /** The characters `NatToDigits` writes. */
  predicate IsDigitChar(c: char)
  {
    '0' <= c <= '9' || 'a' <= c <= 'f'
  }

  /** The digit character for `d` (lower-case letters above nine). */
  function DigitChar(d: nat): (c: char)
    requires d < 16
    ensures DigitValue(c) == Some(d) && IsDigitChar(c)
    ensures c == '0' <==> d == 0
  {
    if d < 10 then ('0' as int + d) as char else ('a' as int + d - 10) as char
  }

  lemma DivMod(n: nat, base: nat)
    requires 2 <= base && base <= n
    ensures 1 <= n / base < n && n % base < base
    ensures (n / base) * base + n % base == n
  {
  }

  /** `n` written in `base` without leading zeros (`"%s" % n`, `"%x" % n`). */
  function NatToDigits(n: nat, base: nat): (s: string)
    requires 2 <= base <= 16
    ensures |s| >= 1
    ensures forall j :: 0 <= j < |s| ==> IsDigitChar(s[j])
    ensures s[0] == '0' ==> n == 0 && |s| == 1
    decreases n
  {
    if n < base then [DigitChar(n)]
    else
      DivMod(n, base);
      NatToDigits(n / base, base) + [DigitChar(n % base)]
  }

  /** Decimal rendering, as Python's `"%s" % n` prints a non-negative int. */
  function NatToString(n: nat): string
  {
    NatToDigits(n, 10)
  }

  lemma {:induction false} DigitsRoundTrip(n: nat, base: nat)
    requires 2 <= base <= 16
    ensures DigitsValue(NatToDigits(n, base), base) == Some(n)
    decreases n
  {
    var s := NatToDigits(n, base);
    if n >= base {
      DivMod(n, base);
      DigitsRoundTrip(n / base, base);
      assert s[..|s| - 1] == NatToDigits(n / base, base);
      assert DigitValue(s[|s| - 1]) == Some(n % base);
    }
  }

  /** `int(str(n))` gives `n` back in both bases the protocol uses. */
  lemma ParseRendered(n: nat, base: nat)
    requires base == 10 || base == 16
    ensures ParseInt(NatToDigits(n, base), base) == Some(n)
  {
    var s := NatToDigits(n, base);
    StripUnpadded(s);
    DigitsRoundTrip(n, base);
  }

  /** A number rendered in hexadecimal and followed by CR LF, as a chunk-size line, parses back. */
  lemma ParseSizeLine(n: nat)
    ensures ParseInt(NatToDigits(n, 16) + "\r\n", 16) == Some(n)
  {
    var s := NatToDigits(n, 16);
    StripTrailingSpace(s, "\r\n");
    DigitsRoundTrip(n, 16);
  }
}
