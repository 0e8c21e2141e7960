/**
 The line echo of the end-of-file demo: read standard input line by line
 with `getline`, write each line, and write a newline after it only when
 `peek` sees that more input follows. Standard input and output are
 sequences of characters.
 */
module Echo {

  /** Where the first line of `s` ends: at its first `'\n'`, or at the end of `s`. */
  function LineEnd(s: string): (n: nat)
    ensures n <= |s| && (n < |s| ==> s[n] == '\n')
    ensures '\n' !in s[..n]
  {
    if s == [] || s[0] == '\n' then 0
    else
      var n := 1 + LineEnd(s[1..]);
      assert s[..n] == [s[0]] + s[1..][..n - 1];
      n
  }

  /**
   `getline` on a non-empty input: the characters up to the first `'\n'`,
   which is extracted but not stored, and the input that remains.
   */
  function GetLine(s: string): (r: (string, string))
    requires s != []
    ensures '\n' !in r.0
    ensures |r.0| < |s| ==> s == r.0 + "\n" + r.1
    ensures |r.0| == |s| ==> s == r.0 && r.1 == []
  {
    var n := LineEnd(s);
    if n < |s| then
      assert s == s[..n] + "\n" + s[n + 1..];
      (s[..n], s[n + 1..])
    else (s, [])
  }

  /** The lines the loop reads: `getline` succeeds until the input is exhausted. */
  function Lines(s: string): (ls: seq<string>)
    ensures s == [] <==> ls == []
    ensures forall i :: 0 <= i < |ls| ==> '\n' !in ls[i]
    decreases |s|
  {
    if s == [] then []
    else
      var (line, rest) := GetLine(s);
      [line] + Lines(rest)
  }

  /**
   What the loop writes: each line, then a newline if `peek` does not report
   end of file. The output is a prefix of the input, at most one character shorter.
   */
  function Echo(s: string): (out: string)
    ensures |out| <= |s| <= |out| + 1 && out == s[..|out|]
    decreases |s|
  {
    if s == [] then []
    else
      var (line, rest) := GetLine(s);
      var tail := Echo(rest);
      if rest != [] then
        assert s == line + "\n" + rest;
        assert (line + "\n" + tail) == s[..|line| + 1 + |tail|];
        line + "\n" + tail
      else
        assert line == s[..|line|];
        line + tail
  }

  /** `s` without its last character when that is a newline. */
  function StripFinalNewline(s: string): (r: string)
    ensures |r| <= |s| && r == s[..|r|]
    ensures |r| + 1 >= |s|
  {
    if s != [] && s[|s| - 1] == '\n' then s[..|s| - 1] else s
  }

  /** Lines joined with newlines between them and none after the last. */
  function JoinLines(ls: seq<string>): string
  {
    if ls == [] then []
    else if |ls| == 1 then ls[0]
    else ls[0] + "\n" + JoinLines(ls[1..])
  }

  /** How often `c` occurs in `s`. */
  function Occurrences(s: string, c: char): nat {
    multiset(s)[c]
  }

  /** Stripping a final newline only affects the non-empty tail of a concatenation. */
  lemma StripAfterPrefix(a: string, b: string)
    requires b != []
    ensures StripFinalNewline(a + b) == a + StripFinalNewline(b)
  {
    var s := a + b;
    assert s[|s| - 1] == b[|b| - 1];
    if b[|b| - 1] == '\n' {
      assert s[..|s| - 1] == a + b[..|b| - 1];
    }
  }

  /** The output is the input with one trailing newline removed, if it has one; empty input gives empty output. */
  lemma {:induction false} EchoStripsFinalNewline(s: string)
    ensures Echo(s) == StripFinalNewline(s)
    decreases |s|
  {
    if s != [] {
      var (line, rest) := GetLine(s);
      EchoStripsFinalNewline(rest);
      if rest == [] {
        if |line| < |s| {
          assert s[..|s| - 1] == line;
        } else {
          assert line != [] && line[|line| - 1] in line;
        }
        assert line + "" + [] == line;
      } else {
        StripAfterPrefix(line + "\n", rest);
      }
    }
  }

  /** The lines are written in order, separated by newlines, with none after the last. */
  lemma {:induction false} EchoJoinsLines(s: string)
    ensures Echo(s) == JoinLines(Lines(s))
    decreases |s|
  {
    if s != [] {
      var (line, rest) := GetLine(s);
      EchoJoinsLines(rest);
      assert Lines(s) == [line] + Lines(rest);
      if rest == [] {
        assert line + "" + [] == line;
      } else {
        assert ([line] + Lines(rest))[1..] == Lines(rest);
      }
    }
  }

  /** After a line, a newline is written exactly when input remains. */
  lemma NewlineIffMoreInput(s: string)
    requires s != []
    ensures var (line, rest) := GetLine(s);
      |line| <= |Echo(s)| && Echo(s)[..|line|] == line &&
      ((|Echo(s)| > |line| && Echo(s)[|line|] == '\n') <==> rest != [])
  {
    var (line, rest) := GetLine(s);
    if rest == [] {
      assert Echo(s) == line + [];
    }
  }

  /** Joining non-empty newline-free lines writes one newline fewer than there are lines. */
  lemma {:induction false} JoinedNewlines(ls: seq<string>)
    requires ls != []
    requires forall i :: 0 <= i < |ls| ==> '\n' !in ls[i]
    ensures Occurrences(JoinLines(ls), '\n') == |ls| - 1
    decreases |ls|
  {
    assert '\n' !in ls[0];
    if |ls| > 1 {
      JoinedNewlines(ls[1..]);
      assert multiset(JoinLines(ls)) == multiset(ls[0]) + multiset("\n") + multiset(JoinLines(ls[1..]));
    }
  }

  /** On non-empty input, the number of newlines written is the number of lines read minus one. */
  lemma NewlinesWritten(s: string)
    requires s != []
    ensures Occurrences(Echo(s), '\n') == |Lines(s)| - 1
  {
    EchoJoinsLines(s);
    JoinedNewlines(Lines(s));
  }
}
