/** Characters and lines of text, shared by the parsers. */
module Text {

  predicate IsDigit(c: char)
  {
    '0' <= c <= '9'
  }

  function Digit(n: int): (c: char)
    requires 0 <= n < 10
    ensures IsDigit(c)
  {
    ('0' as int + n) as char
  }

  function DigitValue(c: char): (n: int)
    requires IsDigit(c)
    ensures 0 <= n < 10 && Digit(n) == c
  {
    c as int - '0' as int
  }

  /** The ten digits in order. */
  lemma DigitTable(n: int)
    requires 0 <= n < 10
    ensures Digit(n) == "0123456789"[n]
  {
  }

  predicate AllDigits(s: string)
  {
    forall i :: 0 <= i < |s| ==> IsDigit(s[i])
  }

  /** The number a text of digits writes in decimal. */
  function Number(s: string): (n: int)
    requires AllDigits(s)
    ensures 0 <= n
  {
    if s == "" then 0 else 10 * Number(s[..|s| - 1]) + DigitValue(s[|s| - 1])
  }

  lemma {:induction false} NumberOfOne(s: string)
    requires AllDigits(s) && |s| == 1
    ensures Number(s) == DigitValue(s[0])
  {
    assert s[..0] == "";
  }

  lemma {:induction false} NumberOfTwo(s: string)
    requires AllDigits(s) && |s| == 2
    ensures Number(s) == 10 * DigitValue(s[0]) + DigitValue(s[1])
  {
    NumberOfOne(s[..1]);
  }

  lemma {:induction false} NumberOfFour(s: string)
    requires AllDigits(s) && |s| == 4
    ensures Number(s) == 100 * Number(s[0..2]) + Number(s[2..4])
  {
    NumberOfTwo(s[0..2]);
    NumberOfTwo(s[2..4]);
    assert s[..3][..2] == s[0..2] && s[..3] == s[..4 - 1];
    assert Number(s) == 10 * Number(s[..3]) + DigitValue(s[3]);
    assert Number(s[..3]) == 10 * Number(s[..3][..2]) + DigitValue(s[2]);
  }

  predicate HasPrefix(s: string, p: string): (r: bool)
    ensures r && p != "" ==> s != "" && s[0] == p[0]
  {
    |p| <= |s| && s[..|p|] == p
  }

  predicate HasSuffix(s: string, p: string)
  {
    |p| <= |s| && s[|s| - |p|..] == p
  }

  predicate IsBlank(c: char)
  {
    c == ' ' || c == '\t'
  }

  /** Drop the trailing spaces and tabs. */
  function TrimRight(s: string): (r: string)
    ensures r <= s
    ensures r == "" || !IsBlank(r[|r| - 1])
  {
    if s != "" && IsBlank(s[|s| - 1]) then TrimRight(s[..|s| - 1]) else s
  }

  /** Position of the first line break, or the length of the text. */
  function LineEnd(s: string): (n: nat)
    ensures n <= |s|
    ensures '\n' !in s[..n]
    ensures n < |s| ==> s[n] == '\n'
  {
    if s == "" || s[0] == '\n' then 0
    else
      var n := LineEnd(s[1..]);
      assert s[..n + 1] == [s[0]] + s[1..][..n];
      n + 1
  }

  /** A line starts the text. */
  lemma {:induction false} LineEndOf(line: string, rest: string)
    requires '\n' !in line
    ensures LineEnd(line + "\n" + rest) == |line|
  {
    if line != "" {
      assert (line + "\n" + rest)[1..] == line[1..] + "\n" + rest;
      LineEndOf(line[1..], rest);
    }
  }

  /** The text after the first line and its break. */
  function AfterLine(s: string): (r: string)
    ensures s != "" ==> |r| < |s|
  {
    var n := LineEnd(s);
    if n < |s| then s[n + 1..] else ""
  }

  /** The first line without its break, a carriage return before it, and trailing blanks. */
  function FirstLine(s: string): (r: string)
    ensures r <= s[..LineEnd(s)]
  {
    var n := LineEnd(s);
    TrimRight(if 0 < n < |s| && s[n - 1] == '\r' then s[..n - 1] else s[..n])
  }

  /** What may follow a marker on its line: blanks, and a carriage return at the end. */
  predicate Ending(e: string)
  {
    forall i :: 0 <= i < |e| ==> IsBlank(e[i]) || (e[i] == '\r' && i == |e| - 1)
  }

  lemma {:induction false} TrimBlanks(line: string, blanks: string)
    requires line != "" && !IsBlank(line[|line| - 1])
    requires forall i :: 0 <= i < |blanks| ==> IsBlank(blanks[i])
    ensures TrimRight(line + blanks) == line
    decreases |blanks|
  {
    if blanks == "" {
      assert line + blanks == line;
    } else {
      assert (line + blanks)[..|line + blanks| - 1] == line + blanks[..|blanks| - 1];
      TrimBlanks(line, blanks[..|blanks| - 1]);
    }
  }

  /** A line and its ending, as the line readers see them, with or without a line break after them. */
  lemma LineWithEnding(line: string, e: string, rest: string)
    requires '\n' !in line && line != "" && Ending(e)
    requires !IsBlank(line[|line| - 1]) && line[|line| - 1] != '\r'
    ensures var data := line + e + "\n" + rest;
            data[..LineEnd(data)] == line + e && FirstLine(data) == line && AfterLine(data) == rest
  {
    var raw := line + e;
    var data := raw + "\n" + rest;
    assert '\n' !in raw;
    LineEndOf(raw, rest);
    assert data[..|raw|] == raw;
    assert data[|raw| + 1..] == rest;
    if e != "" && e[|e| - 1] == '\r' {
      assert data[..|raw| - 1] == line + e[..|e| - 1];
      TrimBlanks(line, e[..|e| - 1]);
    } else {
      assert data[|raw| - 1] != '\r';
      TrimBlanks(line, e);
    }
  }

  lemma {:induction false} NoLineEnd(line: string)
    requires '\n' !in line
    ensures LineEnd(line) == |line|
  {
    if line != "" {
      NoLineEnd(line[1..]);
    }
  }
}
