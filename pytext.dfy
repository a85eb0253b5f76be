/**
 * The few Python `str` operations the device-IP lookup and the battery filter
 * use, with the meaning CPython gives them: `isspace`, `strip`, `startswith`,
 * the `in` substring test, `split(sep)`, `split()` and `splitlines()`.
 */
module PyText {
  import opened Wrappers

  /** `str.isspace` for one character: the Unicode whitespace CPython recognises. */
  predicate IsSpace(c: char)
  {
    var n := c as int;
    (9 <= n <= 13) || (28 <= n <= 32) || n == 0x85 || n == 0xA0 || n == 0x1680
    || (0x2000 <= n <= 0x200A) || n == 0x2028 || n == 0x2029 || n == 0x202F
    || n == 0x205F || n == 0x3000
  }

  /** Space, tab, newline and carriage return are whitespace; digits, ASCII
      letters, `.` and `:` are not, so an IPv4 address is a single token. */
  lemma IsSpaceChars(c: char)
    ensures c == ' ' || c == '\t' || c == '\n' || c == '\r' ==> IsSpace(c)
    ensures '0' <= c <= '9' || 'a' <= c <= 'z' || 'A' <= c <= 'Z' || c == '.' || c == ':' ==> !IsSpace(c)
  {
  }

  predicate AllSpace(s: string) {
    forall i :: 0 <= i < |s| ==> IsSpace(s[i])
  }

  predicate NoSpace(s: string) {
    forall i :: 0 <= i < |s| ==> !IsSpace(s[i])
  }

  lemma AllSpaceAppend(a: string, b: string)
    requires AllSpace(a) && AllSpace(b)
    ensures AllSpace(a + b)
  {
  }

  // ---------------------------------------------------------------------
  // strip
  // ---------------------------------------------------------------------

  /** How many whitespace characters `s` starts with: `s.lstrip()` is `s[LeadingSpaces(s)..]`. */
  function LeadingSpaces(s: string): (n: nat)
    ensures n <= |s| && AllSpace(s[..n])
    ensures n == |s| || !IsSpace(s[n])
  {
    if s != [] && IsSpace(s[0]) then
      var m := LeadingSpaces(s[1..]);
      assert s[..m + 1] == [s[0]] + s[1..][..m];
      AllSpaceAppend([s[0]], s[1..][..m]);
      m + 1
    else
      assert s[..0] == [];
      0
  }

  /** `s.rstrip()`: the prefix of `s` before its trailing whitespace. */
  function RStrip(s: string): (r: string)
    ensures |r| <= |s| && r == s[..|r|]
    ensures AllSpace(s[|r|..])
    ensures r == [] || !IsSpace(r[|r| - 1])
  {
    if s != [] && IsSpace(s[|s| - 1]) then
      var r := RStrip(s[..|s| - 1]);
      assert s[..|s| - 1][..|r|] == s[..|r|];
      assert s[|r|..] == s[..|s| - 1][|r|..] + [s[|s| - 1]];
      AllSpaceAppend(s[..|s| - 1][|r|..], [s[|s| - 1]]);
      r
    else
      assert s[|s|..] == [];
      s
  }

  /** `s.strip()`: `s` is its result with whitespace only on either side, and the
      result neither starts nor ends with whitespace. */
  function Strip(s: string): (r: string)
    ensures LeadingSpaces(s) + |r| <= |s| && s[LeadingSpaces(s)..LeadingSpaces(s) + |r|] == r
    ensures AllSpace(s[..LeadingSpaces(s)]) && AllSpace(s[LeadingSpaces(s) + |r|..])
    ensures r == [] || (!IsSpace(r[0]) && !IsSpace(r[|r| - 1]))
  {
    var a := LeadingSpaces(s);
    var l := s[a..];
    var r := RStrip(l);
    assert s[a..a + |r|] == l[..|r|];
    assert s[a + |r|..] == l[|r|..];
    assert r != [] ==> r[0] == l[0];
    r
  }

  /** The stripped text is empty exactly when the text is all whitespace
      (so `if s.strip():` tests for a non-blank string). */
  lemma StripEmpty(s: string)
    ensures Strip(s) == [] <==> AllSpace(s)
  {
    var a := LeadingSpaces(s);
    var l := s[a..];
    if RStrip(l) == [] {
      assert l[0..] == l;
      assert l == [] && s[..a] == s;
    } else {
      assert s[a] == l[0];
    }
  }

  /** Stripping twice is stripping once. */
  lemma StripIdempotent(s: string)
    ensures Strip(Strip(s)) == Strip(s)
  {
    var r := Strip(s);
    if r != [] {
      assert LeadingSpaces(r) == 0 && r[0..] == r;
      assert RStrip(r) == r;
    }
  }

  // ---------------------------------------------------------------------
  // startswith and `in`
  // ---------------------------------------------------------------------

  /** `s.startswith(p)`: `p` occurs at the start of `s`. */
  predicate StartsWith(s: string, p: string)
    ensures StartsWith(s, p) <==> OccursAt(s, p, 0)
  {
    |p| <= |s| && s[..|p|] == p
  }

  /** `sub` occurs in `s` at index `i`. */
  ghost predicate OccursAt(s: string, sub: string, i: int) {
    0 <= i <= |s| - |sub| && s[i..i + |sub|] == sub
  }

  /** `sub in s`: `sub` occurs somewhere in `s`. */
  predicate Contains(s: string, sub: string)
    ensures Contains(s, sub) <==> exists i :: OccursAt(s, sub, i)
    decreases |s|
  {
    if StartsWith(s, sub) then
      assert OccursAt(s, sub, 0);
      true
    else if |s| <= |sub| then
      assert forall i :: OccursAt(s, sub, i) ==> i == 0;
      false
    else
      assert forall i :: OccursAt(s, sub, i) && i > 0 ==> OccursAt(s[1..], sub, i - 1);
      assert forall i :: OccursAt(s[1..], sub, i) ==> OccursAt(s, sub, i + 1);
      Contains(s[1..], sub)
  }

  /** A substring of a substring is a substring. */
  lemma OccursWithin(s: string, t: string, u: string, i: int, j: int)
    requires OccursAt(s, t, i) && OccursAt(t, u, j)
    ensures OccursAt(s, u, i + j)
  {
    assert forall k :: 0 <= k < |t| ==> s[i + k] == t[k];
    assert forall k :: 0 <= k < |u| ==> t[j + k] == u[k];
    assert forall k :: 0 <= k < |u| ==> s[i + j..i + j + |u|][k] == u[k];
  }

  // ---------------------------------------------------------------------
  // split(sep)
  // ---------------------------------------------------------------------

  /** Index of the first `c` in `s`, if any. */
  function IndexOf(s: string, c: char): (r: Option<nat>)
    ensures r.None? <==> c !in s
    ensures r.Some? ==> r.value < |s| && s[r.value] == c && c !in s[..r.value]
  {
    if s == [] then None
    else if s[0] == c then Some(0)
    else
      var t := IndexOf(s[1..], c);
      if t.None? then None
      else
        assert s[..t.value + 1] == [s[0]] + s[1..][..t.value];
        Some(t.value + 1)
  }

  /** The first `c` after a `c`-free prefix is the one that ends it. */
  lemma {:induction false} IndexOfAfter(l: string, c: char, rest: string)
    requires c !in l
    ensures IndexOf(l + [c] + rest, c) == Some(|l|)
  {
    if l != [] {
      assert (l + [c] + rest)[1..] == l[1..] + [c] + rest;
      IndexOfAfter(l[1..], c, rest);
    }
  }

  /** `s.split(sep)` for a one-character separator: the pieces between the
      separators, always at least one. */
  function Split(s: string, sep: char): (parts: seq<string>)
    ensures |parts| >= 1
    ensures forall k :: 0 <= k < |parts| ==> sep !in parts[k]
    decreases |s|
  {
    match IndexOf(s, sep)
    case None => [s]
    case Some(i) => [s[..i]] + Split(s[i + 1..], sep)
  }

  /** The first piece is the text up to the first separator, and there is more
      than one piece exactly when the separator occurs. */
  lemma SplitFirstPiece(s: string, sep: char)
    ensures StartsWith(s, Split(s, sep)[0])
    ensures |Split(s, sep)[0]| == |s| || s[|Split(s, sep)[0]|] == sep
    ensures |Split(s, sep)| >= 2 <==> sep in s
  {
    match IndexOf(s, sep)
    case None =>
      assert s[..|s|] == s;
    case Some(i) =>
      SplitAt(s, sep, i);
  }

  /** `sep.join(parts)` */
  function Join(parts: seq<string>, sep: char): string
    requires |parts| >= 1
  {
    if |parts| == 1 then parts[0] else parts[0] + [sep] + Join(parts[1..], sep)
  }

  /** Joining the pieces back with the separator gives the original text. */
  lemma {:induction false} SplitJoin(s: string, sep: char)
    ensures Join(Split(s, sep), sep) == s
    decreases |s|
  {
    match IndexOf(s, sep)
    case None =>
    case Some(i) =>
      var parts := Split(s, sep);
      assert parts == [s[..i]] + Split(s[i + 1..], sep);
      assert parts[0] == s[..i] && parts[1..] == Split(s[i + 1..], sep);
      SplitJoin(s[i + 1..], sep);
      assert Join(parts, sep) == s[..i] + [sep] + s[i + 1..];
      assert s == s[..i] + [sep] + s[i + 1..];
  }

  /** Splitting a join of separator-free pieces gives the pieces back. */
  lemma {:induction false} JoinSplit(parts: seq<string>, sep: char)
    requires |parts| >= 1 && forall k :: 0 <= k < |parts| ==> sep !in parts[k]
    ensures Split(Join(parts, sep), sep) == parts
    decreases |parts|
  {
    if |parts| > 1 {
      var p0, tail := parts[0], parts[1..];
      var rest := Join(tail, sep);
      JoinSplit(tail, sep);
      var s := p0 + [sep] + rest;
      assert Join(parts, sep) == s;
      IndexOfAfter(p0, sep, rest);
      SplitAt(s, sep, |p0|);
      assert s[..|p0|] == p0 && s[|p0| + 1..] == rest;
      assert parts == [p0] + tail;
    }
  }

  /** Where the first separator is at `i`, the split is the text before it and
      the split of the text after it. */
  lemma SplitAt(s: string, sep: char, i: nat)
    requires IndexOf(s, sep) == Some(i)
    ensures Split(s, sep) == [s[..i]] + Split(s[i + 1..], sep)
  {
  }

  // ---------------------------------------------------------------------
  // split() and its first token
  // ---------------------------------------------------------------------

  /** The longest prefix of `s` without whitespace. */
  function Word(s: string): (w: string)
    ensures |w| <= |s| && w == s[..|w|] && NoSpace(w)
    ensures |w| == |s| || IsSpace(s[|w|])
  {
    if s == [] || IsSpace(s[0]) then []
    else
      var w := Word(s[1..]);
      assert [s[0]] + w == s[..|w| + 1];
      [s[0]] + w
  }

  /** `s.split()[0]`: the first whitespace-delimited token, or `None` where Python
      raises IndexError because `s` holds no token. */
  function FirstToken(s: string): (r: Option<string>)
    ensures r.None? <==> AllSpace(s)
    ensures r.Some? ==> r.value != [] && NoSpace(r.value)
    ensures r.Some? ==> OccursAt(s, r.value, LeadingSpaces(s))
    ensures r.Some? ==> LeadingSpaces(s) + |r.value| == |s| || IsSpace(s[LeadingSpaces(s) + |r.value|])
  {
    var a := LeadingSpaces(s);
    var t := s[a..];
    if t == [] then
      assert s[..|s|] == s;
      None
    else
      var w := Word(t);
      assert s[a..a + |w|] == w;
      assert !IsSpace(s[a]);
      Some(w)
  }

  // ---------------------------------------------------------------------
  // splitlines()
  // ---------------------------------------------------------------------

  /** The line boundaries of `str.splitlines`. */
  predicate IsLineBreak(c: char)
  {
    var n := c as int;
    (10 <= n <= 13) || (28 <= n <= 30) || n == 0x85 || n == 0x2028 || n == 0x2029
  }

  /** Newline and carriage return are line boundaries, and every line boundary
      is also whitespace (so `strip` removes a stray one). */
  lemma LineBreakIsSpace(c: char)
    ensures c == '\n' || c == '\r' ==> IsLineBreak(c)
    ensures IsLineBreak(c) ==> IsSpace(c)
  {
  }

  predicate NoLineBreak(s: string) {
    forall i :: 0 <= i < |s| ==> !IsLineBreak(s[i])
  }

  /** Index of the first line break in `s`, if any. */
  function FirstBreak(s: string): (r: Option<nat>)
    ensures r.None? <==> NoLineBreak(s)
    ensures r.Some? ==> r.value < |s| && IsLineBreak(s[r.value]) && NoLineBreak(s[..r.value])
  {
    if s == [] then None
    else if IsLineBreak(s[0]) then Some(0)
    else
      var t := FirstBreak(s[1..]);
      if t.None? then None
      else
        assert s[..t.value + 1] == [s[0]] + s[1..][..t.value];
        Some(t.value + 1)
  }

  /** The first line break after a break-free prefix is the one that ends it. */
  lemma {:induction false} FirstBreakAfter(l: string, c: char, rest: string)
    requires NoLineBreak(l) && IsLineBreak(c)
    ensures FirstBreak(l + [c] + rest) == Some(|l|)
  {
    if l != [] {
      assert (l + [c] + rest)[1..] == l[1..] + [c] + rest;
      assert (l + [c] + rest)[0] == l[0];
      FirstBreakAfter(l[1..], c, rest);
    }
  }

  /** `s.splitlines()`: the lines of `s` without their line ends; `"\r\n"` is one
      line end, and a final line end does not start an empty last line. */
  function SplitLines(s: string): (lines: seq<string>)
    ensures forall k :: 0 <= k < |lines| ==> NoLineBreak(lines[k])
    ensures lines == [] <==> s == []
    decreases |s|
  {
    match FirstBreak(s)
    case None => if s == [] then [] else [s]
    case Some(i) =>
      var n := if s[i] == '\r' && i + 1 < |s| && s[i + 1] == '\n' then 2 else 1;
      [s[..i]] + SplitLines(s[i + n..])
  }

  /** The text of `lines`, each followed by a newline. */
  function Unlines(lines: seq<string>): string {
    if lines == [] then [] else lines[0] + "\n" + Unlines(lines[1..])
  }

  /** Lines without line breaks, each ended by a newline, split back into themselves. */
  lemma {:induction false} SplitLinesUnlines(lines: seq<string>)
    requires forall k :: 0 <= k < |lines| ==> NoLineBreak(lines[k])
    ensures SplitLines(Unlines(lines)) == lines
  {
    if lines != [] {
      var rest := Unlines(lines[1..]);
      assert Unlines(lines) == lines[0] + ['\n'] + rest;
      SplitLinesBreak(lines[0], '\n', rest);
      SplitLinesUnlines(lines[1..]);
      assert lines == [lines[0]] + lines[1..];
    }
  }

  /** A break-free line ended by any one-character line end comes off as the
      first line; a `'\r'` counts alone unless a `'\n'` follows it. */
  lemma SplitLinesBreak(l: string, c: char, rest: string)
    requires NoLineBreak(l) && IsLineBreak(c)
    requires c == '\r' ==> rest == [] || rest[0] != '\n'
    ensures SplitLines(l + [c] + rest) == [l] + SplitLines(rest)
  {
    var s := l + [c] + rest;
    FirstBreakAfter(l, c, rest);
    assert s[..|l|] == l && s[|l|] == c && s[|l| + 1..] == rest;
    assert |l| + 1 < |s| ==> s[|l| + 1] == rest[0];
  }

  /** A break-free line ended by `"\r\n"` comes off as the first line: the pair
      is one line end. */
  lemma SplitLinesCrLf(l: string, rest: string)
    requires NoLineBreak(l)
    ensures SplitLines(l + "\r\n" + rest) == [l] + SplitLines(rest)
  {
    var s := l + "\r\n" + rest;
    assert s == l + ['\r'] + (['\n'] + rest);
    FirstBreakAfter(l, '\r', ['\n'] + rest);
    assert s[..|l|] == l && s[|l|] == '\r' && s[|l| + 1] == '\n' && s[|l| + 2..] == rest;
  }

  /** Text without line breaks is one line. */
  lemma SplitLinesSingle(s: string)
    requires s != [] && NoLineBreak(s)
    ensures SplitLines(s) == [s]
  {
  }
}
