/**
 * The parts of Python's `str` that the launcher's configuration handling relies on:
 * `strip()`, ASCII `lower()`, `find`, `split(sep)` and `splitlines()`.
 */
module Text {

  /** The characters for which Python's `str.isspace()` holds; `strip()` removes these. */
  predicate IsSpace(c: char) {
    c == ' ' || c == '\t' || c == '\n' || c == '\r' || c == '\U{B}' || c == '\U{C}'
    || ('\U{1C}' <= c <= '\U{1F}') || c == '\U{85}' || c == '\U{A0}' || c == '\U{1680}'
    || ('\U{2000}' <= c <= '\U{200A}') || c == '\U{2028}' || c == '\U{2029}'
    || c == '\U{202F}' || c == '\U{205F}' || c == '\U{3000}'
  }

  /** The characters at which `str.splitlines()` ends a line ("\r\n" counts as one break). */
  predicate IsLineBreak(c: char) {
    c == '\n' || c == '\r' || c == '\U{B}' || c == '\U{C}' || ('\U{1C}' <= c <= '\U{1E}')
    || c == '\U{85}' || c == '\U{2028}' || c == '\U{2029}'
  }

  predicate NoBreaks(s: string) {
    forall ch :: ch in s ==> !IsLineBreak(ch)
  }

  /** `s.lstrip()`. */
  function LStrip(s: string): string
    decreases |s|
  {
    if s != [] && IsSpace(s[0]) then LStrip(s[1..]) else s
  }

  /** `s.rstrip()`. */
  function RStrip(s: string): string
    decreases |s|
  {
    if s != [] && IsSpace(s[|s| - 1]) then RStrip(s[..|s| - 1]) else s
  }

  /** `s.strip()`. */
  function Strip(s: string): string {
    RStrip(LStrip(s))
  }

  /** `lstrip` keeps a suffix and drops only whitespace. */
  lemma {:induction false} LStripDrops(s: string)
    ensures |LStrip(s)| <= |s| && LStrip(s) == s[|s| - |LStrip(s)|..]
    ensures forall i :: 0 <= i < |s| - |LStrip(s)| ==> IsSpace(s[i])
    decreases |s|
  {
    if s != [] && IsSpace(s[0]) {
      LStripDrops(s[1..]);
    }
  }

  /** `lstrip` leaves no leading whitespace. */
  lemma {:induction false} LStripFirst(s: string)
    ensures LStrip(s) == [] || !IsSpace(LStrip(s)[0])
    decreases |s|
  {
    if s != [] && IsSpace(s[0]) {
      LStripFirst(s[1..]);
    }
  }

  /** `rstrip` keeps a prefix and drops only whitespace. */
  lemma {:induction false} RStripDrops(s: string)
    ensures |RStrip(s)| <= |s| && RStrip(s) == s[..|RStrip(s)|]
    ensures forall i :: |RStrip(s)| <= i < |s| ==> IsSpace(s[i])
    decreases |s|
  {
    if s != [] && IsSpace(s[|s| - 1]) {
      RStripDrops(s[..|s| - 1]);
    }
  }

  /** `rstrip` leaves no trailing whitespace. */
  lemma {:induction false} RStripLast(s: string)
    ensures RStrip(s) == [] || !IsSpace(RStrip(s)[|RStrip(s)| - 1])
    decreases |s|
  {
    if s != [] && IsSpace(s[|s| - 1]) {
      RStripLast(s[..|s| - 1]);
    }
  }

  /** Neither end is whitespace. */
  predicate Trimmed(s: string) {
    s == [] || (!IsSpace(s[0]) && !IsSpace(s[|s| - 1]))
  }

  /** What `strip` returns has no whitespace at either end. */
  lemma StripTrimmed(s: string)
    ensures Trimmed(Strip(s))
  {
    var l := LStrip(s);
    LStripFirst(s);
    RStripDrops(l);
    RStripLast(l);
    if Strip(s) != [] {
      assert Strip(s)[0] == l[0];
    }
  }

  /** `strip` leaves a string without whitespace at its ends alone. */
  lemma TrimmedStripNoop(s: string)
    requires Trimmed(s)
    ensures Strip(s) == s
  {
    if s != [] {
      assert LStrip(s) == s;
    }
  }

  /** A string is its own strip exactly when neither end is whitespace. */
  lemma StripIsNoop(s: string)
    ensures Strip(s) == s <==> Trimmed(s)
  {
    StripTrimmed(s);
    if Trimmed(s) {
      TrimmedStripNoop(s);
    }
  }

  /** Stripping twice is stripping once (the icon spec is stripped again after parsing). */
  lemma StripIdempotent(s: string)
    ensures Strip(Strip(s)) == Strip(s)
  {
    StripTrimmed(s);
    TrimmedStripNoop(Strip(s));
  }

  /** Python's `str.lower()` restricted to ASCII letters. */
  function LowerChar(c: char): char {
    if 'A' <= c <= 'Z' then (c as int + 32) as char else c
  }

  function Lower(s: string): string {
    seq(|s|, i requires 0 <= i < |s| => LowerChar(s[i]))
  }

  predicate NoUpper(s: string) {
    forall i :: 0 <= i < |s| ==> !('A' <= s[i] <= 'Z')
  }

  /**
   * `Lower` has the length of its argument, maps each ASCII capital to its small letter and
   * keeps every other character, so its result has no capital left.
   */
  lemma LowerFacts(s: string)
    ensures |Lower(s)| == |s| && NoUpper(Lower(s))
    ensures forall i :: 0 <= i < |s| && 'A' <= s[i] <= 'Z' ==> Lower(s)[i] == (s[i] as int + 32) as char
    ensures forall i :: 0 <= i < |s| && !('A' <= s[i] <= 'Z') ==> Lower(s)[i] == s[i]
  {
  }

  lemma LowerNoUpper(s: string)
    requires NoUpper(s)
    ensures Lower(s) == s
  {
  }

  /**
   * The index of the first `c` in `s`, or `|s|` when `c` does not occur: where `split(c, 1)`
   * cuts, and `c in s` exactly when the index is below `|s|`.
   */
  function IndexOf(s: string, c: char): (i: nat)
    ensures i <= |s|
    ensures i < |s| ==> s[i] == c
    ensures forall j :: 0 <= j < i ==> s[j] != c
    decreases |s|
  {
    if s == [] then 0 else if s[0] == c then 0 else 1 + IndexOf(s[1..], c)
  }

  lemma IndexOfAt(a: string, c: char, b: string)
    requires c !in a
    ensures IndexOf(a + [c] + b, c) == |a|
  {
    var s := a + [c] + b;
    assert forall j :: 0 <= j < |a| ==> s[j] == a[j] && a[j] in a;
    assert s[|a|] == c;
  }

  /** `s.split(c)`: the pieces between the occurrences of `c`, always at least one. */
  function SplitOn(s: string, c: char): (r: seq<string>)
    ensures |r| >= 1
    ensures forall k :: 0 <= k < |r| ==> c !in r[k]
    decreases |s|
  {
    var i := IndexOf(s, c);
    if i == |s| then [s] else [s[..i]] + SplitOn(s[i + 1..], c)
  }

  /** `c.join(parts)`: the inverse of `SplitOn`, used by the record writer. */
  function JoinWith(parts: seq<string>, c: char): string {
    if parts == [] then []
    else if |parts| == 1 then parts[0]
    else parts[0] + [c] + JoinWith(parts[1..], c)
  }

  /** Splitting undoes joining when no part contains the separator. */
  lemma {:induction false} SplitOnJoin(parts: seq<string>, c: char)
    requires |parts| >= 1
    requires forall k :: 0 <= k < |parts| ==> c !in parts[k]
    ensures SplitOn(JoinWith(parts, c), c) == parts
    decreases |parts|
  {
    if |parts| == 1 {
      assert IndexOf(parts[0], c) == |parts[0]|;
    } else {
      var rest := JoinWith(parts[1..], c);
      var s := parts[0] + [c] + rest;
      IndexOfAt(parts[0], c, rest);
      assert s[..|parts[0]|] == parts[0];
      assert s[|parts[0]| + 1..] == rest;
      SplitOnJoin(parts[1..], c);
      assert [parts[0]] + parts[1..] == parts;
    }
  }

  /** Joining undoes splitting. */
  lemma {:induction false} JoinSplitOn(s: string, c: char)
    ensures JoinWith(SplitOn(s, c), c) == s
    decreases |s|
  {
    var i := IndexOf(s, c);
    if i < |s| {
      var tail := SplitOn(s[i + 1..], c);
      JoinSplitOn(s[i + 1..], c);
      assert SplitOn(s, c)[1..] == tail;
      assert s == s[..i] + [c] + s[i + 1..];
    }
  }

  lemma JoinWithFirst(parts: seq<string>, c: char)
    requires |parts| >= 2 || (|parts| == 1 && parts[0] != [])
    ensures JoinWith(parts, c) != []
    ensures JoinWith(parts, c)[0] == if parts[0] != [] then parts[0][0] else c
  {
  }

  lemma {:induction false} JoinWithLast(parts: seq<string>, c: char)
    requires |parts| >= 1 && parts[|parts| - 1] != []
    ensures var s := JoinWith(parts, c); var l := parts[|parts| - 1];
      s != [] && s[|s| - 1] == l[|l| - 1]
    decreases |parts|
  {
    if |parts| > 1 {
      JoinWithLast(parts[1..], c);
    }
  }

  /** Every character of a join is the separator or a character of one of the parts. */
  lemma {:induction false} JoinWithChars(parts: seq<string>, c: char, ch: char)
    requires ch in JoinWith(parts, c)
    ensures ch == c || exists k :: 0 <= k < |parts| && ch in parts[k]
    decreases |parts|
  {
    if |parts| > 1 {
      var rest := JoinWith(parts[1..], c);
      if ch !in parts[0] && ch != c {
        assert ch in rest;
        JoinWithChars(parts[1..], c, ch);
        var k :| 0 <= k < |parts| - 1 && ch in parts[1..][k];
        assert ch in parts[k + 1];
      }
    }
  }

  /** The index of the first line break in `s`, or `|s|` when there is none. */
  function FirstBreak(s: string): (i: nat)
    ensures i <= |s|
    ensures i < |s| ==> IsLineBreak(s[i])
    ensures forall j :: 0 <= j < i ==> !IsLineBreak(s[j])
    decreases |s|
  {
    if s == [] then 0 else if IsLineBreak(s[0]) then 0 else 1 + FirstBreak(s[1..])
  }

  /**
   * `s.splitlines()`: the lines of `s` without their line breaks; a final break does not
   * start an extra empty line, and the empty string has no lines.
   */
  function SplitLines(s: string): (r: seq<string>)
    ensures forall k :: 0 <= k < |r| ==> NoBreaks(r[k])
    decreases |s|
  {
    if s == [] then []
    else
      var i := FirstBreak(s);
      if i == |s| then [s]
      else
        var next := if s[i] == '\r' && i + 1 < |s| && s[i + 1] == '\n' then i + 2 else i + 1;
        [s[..i]] + SplitLines(s[next..])
  }

  /**
   * Lines joined with "\n" split back into the same lines. Only the last line must be
   * non-empty: `splitlines` drops nothing but an empty line after a final break.
   */
  lemma {:induction false} SplitLinesJoin(lines: seq<string>)
    requires forall k :: 0 <= k < |lines| ==> NoBreaks(lines[k])
    requires lines != [] ==> lines[|lines| - 1] != []
    ensures SplitLines(JoinWith(lines, '\n')) == lines
    decreases |lines|
  {
    if |lines| == 1 {
      assert FirstBreak(lines[0]) == |lines[0]| by {
        assert forall j :: 0 <= j < |lines[0]| ==> lines[0][j] in lines[0];
      }
    } else if |lines| > 1 {
      var a := lines[0];
      var rest := JoinWith(lines[1..], '\n');
      var s := a + ['\n'] + rest;
      assert FirstBreak(s) == |a| by {
        assert forall j :: 0 <= j < |a| ==> s[j] == a[j] && a[j] in a;
        assert IsLineBreak(s[|a|]);
      }
      assert s[..|a|] == a;
      assert s[|a| + 1..] == rest;
      SplitLinesJoin(lines[1..]);
      assert [a] + lines[1..] == lines;
    }
  }

  /** "\r\n" ends a line as one break: it does not also start an empty line. */
  lemma SplitLinesCrLf(a: string, b: string)
    requires NoBreaks(a)
    ensures SplitLines(a + "\r\n" + b) == [a] + SplitLines(b)
  {
    var s := a + "\r\n" + b;
    assert FirstBreak(s) == |a| by {
      FirstBreakAt(a, '\r', "\n" + b);
      assert s == a + ['\r'] + ("\n" + b);
    }
    assert s[..|a|] == a;
    assert s[|a| + 2..] == b;
  }

  /**
   * Every other line break, a lone `\r` included, ends a line as one character: `\x0b`,
   * `\x0c`, `\x1c`-`\x1e`, `\x85`, U+2028 and U+2029 as well as `\n`.
   */
  lemma SplitLinesBreak(a: string, c: char, b: string)
    requires NoBreaks(a) && IsLineBreak(c)
    requires c == '\r' ==> b == [] || b[0] != '\n'
    ensures SplitLines(a + [c] + b) == [a] + SplitLines(b)
  {
    var s := a + [c] + b;
    FirstBreakAt(a, c, b);
    assert s[..|a|] == a;
    assert s[|a| + 1..] == b;
  }

  /** The first break after a break-free prefix is at the prefix's length. */
  lemma {:induction false} FirstBreakAt(a: string, c: char, b: string)
    requires NoBreaks(a) && IsLineBreak(c)
    ensures FirstBreak(a + [c] + b) == |a|
    decreases |a|
  {
    if a != [] {
      assert a[0] in a;
      assert (a + [c] + b)[1..] == a[1..] + [c] + b;
      assert NoBreaks(a[1..]) by {
        assert forall j :: 0 <= j < |a[1..]| ==> a[1..][j] in a;
      }
      FirstBreakAt(a[1..], c, b);
    }
  }
}
