/** Text as Python reads it: line breaks, str.strip, str.find. */
module Lines {
  import opened Strings

  /** str.isspace, for the characters str.strip removes. */
  predicate IsSpace(c: char) {
    var n := c as int;
    9 <= n <= 13 || 28 <= n <= 32 || n == 0x85 || n == 0xA0 || n == 0x1680 || 0x2000 <= n <= 0x200A
    || n == 0x2028 || n == 0x2029 || n == 0x202F || n == 0x205F || n == 0x3000
  }

  /** Where a text file opened for reading ends a line. */
  predicate FileBreak(c: char) { c == '\n' || c == '\r' }

  /** Where str.splitlines ends a line. */
  predicate StringBreak(c: char) {
    var n := c as int;
    10 <= n <= 13 || 28 <= n <= 30 || n == 0x85 || n == 0x2028 || n == 0x2029
  }

  ghost predicate NoBreak(s: string, brk: char -> bool) {
    forall i :: 0 <= i < |s| ==> !brk(s[i])
  }

  function LineLength(s: string, brk: char -> bool): (n: nat)
    ensures n <= |s| && (n < |s| ==> brk(s[n])) && NoBreak(s[..n], brk)
  {
    if s == [] || brk(s[0]) then 0
    else
      assert forall i :: 0 < i < |s| ==> s[i] == s[1..][i - 1];
      1 + LineLength(s[1..], brk)
  }

  /** The lines of `s` without their ends; "\r\n" ends one line. */
  function Split(s: string, brk: char -> bool): seq<string>
    decreases |s|
  {
    var n := LineLength(s, brk);
    if s == [] then []
    else if n == |s| then [s]
    else if s[n] == '\r' && n + 1 < |s| && s[n + 1] == '\n' then [s[..n]] + Split(s[n + 2..], brk)
    else [s[..n]] + Split(s[n + 1..], brk)
  }

  /** Each line followed by a newline. */
  function Unlines(lines: seq<string>): string {
    if lines == [] then "" else lines[0] + "\n" + Unlines(lines[1..])
  }

  lemma {:induction false} LineLengthOf(line: string, rest: string, brk: char -> bool)
    requires NoBreak(line, brk) && brk('\n')
    ensures LineLength(line + "\n" + rest, brk) == |line|
  {
    var s := line + "\n" + rest;
    if line == [] {
      assert s[0] == '\n';
    } else {
      assert s[0] == line[0];
      assert s[1..] == line[1..] + "\n" + rest;
      assert forall i :: 0 <= i < |line[1..]| ==> line[1..][i] == line[i + 1];
      LineLengthOf(line[1..], rest, brk);
    }
  }

  /** Lines without breaks come back from the text they were written to. */
  lemma {:induction false} SplitUnlines(lines: seq<string>, brk: char -> bool)
    requires brk('\n') && forall i :: 0 <= i < |lines| ==> NoBreak(lines[i], brk)
    ensures Split(Unlines(lines), brk) == lines
  {
    if lines != [] {
      var line, rest := lines[0], Unlines(lines[1..]);
      var s := line + "\n" + rest;
      LineLengthOf(line, rest, brk);
      SplitUnlines(lines[1..], brk);
      assert s[|line|] == '\n' && s[..|line|] == line && s[|line| + 1..] == rest;
      assert lines == [lines[0]] + lines[1..];
    }
  }

  lemma {:induction false} LineLengthBefore(line: string, c: char, rest: string, brk: char -> bool)
    requires NoBreak(line, brk) && brk(c)
    ensures LineLength(line + [c] + rest, brk) == |line|
  {
    var s := line + [c] + rest;
    if line == [] {
      assert s[0] == c;
    } else {
      assert s[0] == line[0];
      assert s[1..] == line[1..] + [c] + rest;
      assert forall i :: 0 <= i < |line[1..]| ==> line[1..][i] == line[i + 1];
      LineLengthBefore(line[1..], c, rest, brk);
    }
  }

  /** Every break ends one line, and a carriage return with a line feed ends one line together. */
  lemma BreakEndsLine(line: string, c: char, rest: string, brk: char -> bool)
    requires NoBreak(line, brk) && brk(c)
    ensures !(c == '\r' && rest != "" && rest[0] == '\n') ==>
              Split(line + [c] + rest, brk) == [line] + Split(rest, brk)
    ensures c == '\r' ==> Split(line + "\r\n" + rest, brk) == [line] + Split(rest, brk)
  {
    LineLengthBefore(line, c, rest, brk);
    var s := line + [c] + rest;
    assert s[|line|] == c && s[..|line|] == line && s[|line| + 1..] == rest;
    if c == '\r' {
      LineLengthBefore(line, c, "\n" + rest, brk);
      var u := line + "\r\n" + rest;
      assert u == line + [c] + ("\n" + rest);
      assert u[|line|] == '\r' && u[|line| + 1] == '\n' && u[..|line|] == line && u[|line| + 2..] == rest;
    }
  }

  function StripLeft(s: string): string {
    if s != [] && IsSpace(s[0]) then StripLeft(s[1..]) else s
  }

  function StripRight(s: string): string {
    if s != [] && IsSpace(s[|s| - 1]) then StripRight(s[..|s| - 1]) else s
  }

  function Strip(s: string): string { StripRight(StripLeft(s)) }

  ghost predicate Spaces(s: string) { forall i :: 0 <= i < |s| ==> IsSpace(s[i]) }

  ghost predicate Trimmed(s: string) { s == "" || (!IsSpace(s[0]) && !IsSpace(s[|s| - 1])) }

  /** Stripping takes exactly the white space around a text away. */
  lemma StripPadded(before: string, s: string, after: string)
    requires Spaces(before) && Spaces(after) && Trimmed(s)
    ensures Strip(before + s + after) == s
  {
    if s == "" {
      assert before + s + after == (before + after) + "";
      StripLeftPadded(before + after, "");
    } else {
      assert before + s + after == before + (s + after);
      StripLeftPadded(before, s + after);
      StripRightPadded(s, after);
    }
  }

  lemma {:induction false} StripLeftPadded(before: string, s: string)
    requires Spaces(before) && (s == "" || !IsSpace(s[0]))
    ensures StripLeft(before + s) == s
  {
    if before == "" {
      assert before + s == s;
    } else {
      assert (before + s)[1..] == before[1..] + s;
      assert forall i :: 0 <= i < |before[1..]| ==> before[1..][i] == before[i + 1];
      StripLeftPadded(before[1..], s);
    }
  }

  lemma {:induction false} StripRightPadded(s: string, after: string)
    requires Spaces(after) && s != "" && !IsSpace(s[|s| - 1])
    ensures StripRight(s + after) == s
  {
    if after == "" {
      assert s + after == s;
    } else {
      var n := |after| - 1;
      assert (s + after)[..|s| + n] == s + after[..n] && (s + after)[|s| + n] == after[n];
      StripRightPadded(s, after[..n]);
    }
  }

  /** `pat` stands at position `i` of `s`. */
  predicate At(s: string, pat: string, i: nat) {
    i + |pat| <= |s| && s[i..i + |pat|] == pat
  }

  lemma AtTail(s: string, pat: string, i: nat)
    requires s != []
    ensures At(s[1..], pat, i) <==> At(s, pat, i + 1)
  {
    if i + 1 + |pat| <= |s| { assert s[1..][i..i + |pat|] == s[i + 1..i + 1 + |pat|]; }
  }

  lemma AtStart(s: string, pat: string)
    ensures At(s, pat, 0) <==> pat <= s
  {}

  /** The first place where `pat` occurs in `s`. */
  function Find(s: string, pat: string): (r: Option<nat>)
    ensures r.Some? ==> At(s, pat, r.value)
  {
    AtStart(s, pat);
    if pat <= s then Some(0)
    else if s == [] then None
    else match Find(s[1..], pat)
      case None => None
      case Some(i) => AtTail(s, pat, i); Some(i + 1)
  }

  lemma {:induction false} FindIsContains(s: string, pat: string)
    ensures Find(s, pat).Some? <==> Contains(s, pat)
  {
    if !(pat <= s) && s != [] { FindIsContains(s[1..], pat); }
  }

  /** Every occurrence is at or after the first one, and none is missed. */
  lemma {:induction false} FindIsFirst(s: string, pat: string, i: nat)
    requires At(s, pat, i)
    ensures Find(s, pat).Some? && Find(s, pat).value <= i && Contains(s, pat)
  {
    AtStart(s, pat);
    if !(pat <= s) {
      AtTail(s, pat, i - 1);
      FindIsFirst(s[1..], pat, i - 1);
    }
  }
}
