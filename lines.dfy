/** Python's str.splitlines, which splits the message body into paragraphs. */
module Lines {
  import opened Text

  /** The characters at which str.splitlines ends a line; a CR followed by LF is
      one boundary (see BreakLength). */
  predicate IsLineBreak(c: char)
  {
    c == '\n' || c == '\r' || c == '\U{B}' || c == '\U{C}' || c == '\U{1C}' || c == '\U{1D}' ||
    c == '\U{1E}' || c == '\U{85}' || c == '\U{2028}' || c == '\U{2029}'
  }

  predicate NoBreaks(s: string)
  {
    forall i :: 0 <= i < |s| ==> !IsLineBreak(s[i])
  }

  /** Index of the first line-break character of `s`, or |s| when it has none. */
  function FirstBreak(s: string): (k: nat)
    ensures k <= |s|
    ensures k < |s| ==> IsLineBreak(s[k])
    ensures NoBreaks(s[..k])
    decreases |s|
  {
    if |s| == 0 || IsLineBreak(s[0]) then 0
    else
      var k' := FirstBreak(s[1..]);
      assert s[..1 + k'] == [s[0]] + s[1..][..k'];
      1 + k'
  }

  /** Length of the line boundary that starts at s[k]: two for CR LF, one otherwise. */
  function BreakLength(s: string, k: nat): (n: nat)
    requires k < |s|
    ensures 1 <= n <= 2 && k + n <= |s|
  {
    if s[k] == '\r' && k + 1 < |s| && s[k + 1] == '\n' then 2 else 1
  }

  /** Python's s.splitlines(): the lines of `s` without their boundaries, and no
      trailing empty line after a final boundary. */
  function SplitLines(s: string): (lines: seq<string>)
    ensures forall i :: 0 <= i < |lines| ==> NoBreaks(lines[i])
    ensures lines == [] <==> s == []
    decreases |s|
  {
    if |s| == 0 then []
    else
      var k := FirstBreak(s);
      if k == |s| then [s]
      else [s[..k]] + SplitLines(s[k + BreakLength(s, k)..])
  }

  /** `s` with every line-break character dropped. */
  function RemoveBreaks(s: string): string
  {
    if s == [] then "" else (if IsLineBreak(s[0]) then "" else [s[0]]) + RemoveBreaks(s[1..])
  }

  lemma {:induction false} RemoveBreaksAppend(a: string, b: string)
    ensures RemoveBreaks(a + b) == RemoveBreaks(a) + RemoveBreaks(b)
  {
    if a == [] {
      assert a + b == b;
    } else {
      assert (a + b)[1..] == a[1..] + b;
      RemoveBreaksAppend(a[1..], b);
    }
  }

  lemma {:induction false} RemoveBreaksOfNoBreaks(s: string)
    requires NoBreaks(s)
    ensures RemoveBreaks(s) == s
  {
    if s != [] {
      RemoveBreaksOfNoBreaks(s[1..]);
    }
  }

  lemma RemoveBreaksOfBoundary(s: string, k: nat)
    requires k < |s| && IsLineBreak(s[k])
    ensures RemoveBreaks(s[k..k + BreakLength(s, k)]) == ""
  {
    var b := s[k..k + BreakLength(s, k)];
    assert b[0] == s[k];
    if |b| == 2 {
      assert b[1..] == ['\n'];
      assert b[1..][1..] == [];
      assert RemoveBreaks(b[1..]) == RemoveBreaks(b[1..][1..]);
    } else {
      assert b[1..] == [];
    }
  }

  /** Splitting loses nothing but the boundaries: the lines, joined, are the
      text with its line-break characters removed. */
  lemma {:induction false} SplitLinesConcat(s: string)
    ensures Concat(SplitLines(s)) == RemoveBreaks(s)
    decreases |s|
  {
    if |s| > 0 {
      var k := FirstBreak(s);
      if k == |s| {
        assert s[..k] == s;
        RemoveBreaksOfNoBreaks(s);
      } else {
        var n := BreakLength(s, k);
        var line, boundary, rest := s[..k], s[k..k + n], s[k + n..];
        SplitLinesConcat(rest);
        assert s == line + boundary + rest;
        RemoveBreaksAppend(line + boundary, rest);
        RemoveBreaksAppend(line, boundary);
        RemoveBreaksOfNoBreaks(line);
        RemoveBreaksOfBoundary(s, k);
        assert SplitLines(s) == [line] + SplitLines(rest);
      }
    }
  }

  /** The lines written one after another, each followed by "\n". */
  function Terminated(lines: seq<string>): string
  {
    if lines == [] then "" else lines[0] + "\n" + Terminated(lines[1..])
  }

  /** Round trip: lines without boundaries, each ended by "\n", split back into
      exactly those lines. */
  lemma {:induction false} SplitLinesTerminated(lines: seq<string>)
    requires forall i :: 0 <= i < |lines| ==> NoBreaks(lines[i])
    ensures SplitLines(Terminated(lines)) == lines
  {
    if lines != [] {
      var l := lines[0];
      var rest := Terminated(lines[1..]);
      assert SplitLines(Terminated(lines)) == [l] + SplitLines(rest) by {
        SplitLinesAfterLine(l, '\n', rest);
      }
      SplitLinesTerminated(lines[1..]);
    }
  }

  /** The cases Python documents: no trailing empty line after a final boundary,
      and an empty text has no lines. */
  lemma SplitLinesTrailingBoundary()
    ensures SplitLines("") == []
    ensures SplitLines("a\n") == ["a"]
  {
    assert FirstBreak("a\n") == 1 by { assert "a\n"[1..] == "\n"; }
    assert "a\n"[..1] == "a";
    assert "a\n"[2..] == "";
  }

  /** A line without boundaries ends at the first boundary after it. */
  lemma {:induction false} FirstBreakAfter(a: string, r: string)
    requires NoBreaks(a) && r != [] && IsLineBreak(r[0])
    ensures FirstBreak(a + r) == |a|
  {
    if a != [] {
      assert (a + r)[0] == a[0];
      assert (a + r)[1..] == a[1..] + r;
      FirstBreakAfter(a[1..], r);
    }
  }

  /** A line, then a one-character boundary that does not start a CR LF. */
  lemma SplitLinesAfterLine(a: string, c: char, r: string)
    requires NoBreaks(a) && IsLineBreak(c) && !(c == '\r' && r != [] && r[0] == '\n')
    ensures SplitLines(a + [c] + r) == [a] + SplitLines(r)
  {
    var s := a + [c] + r;
    assert s == a + ([c] + r);
    FirstBreakAfter(a, [c] + r);
    assert s[|a|] == c && s[..|a|] == a;
    assert BreakLength(s, |a|) == 1 by {
      if |a| + 1 < |s| {
        assert s[|a| + 1] == r[0];
      }
    }
    assert s[|a| + 1..] == r;
  }

  /** A text that starts with a one-character boundary other than CR starts with an
      empty line. */
  lemma SplitLinesLeadingBreak(c: char, b: string)
    requires IsLineBreak(c) && c != '\r'
    ensures SplitLines([c] + b) == [""] + SplitLines(b)
  {
    var s := [c] + b;
    assert FirstBreak(s) == 0;
    assert s[1..] == b;
  }

  /** Two consecutive boundaries that do not form one CR LF give an empty line
      between them. (When the second is a CR, it may pair with an LF after it.) */
  lemma SplitLinesEmptyLines(a: string, c1: char, c2: char, b: string)
    requires NoBreaks(a) && IsLineBreak(c1) && IsLineBreak(c2)
    requires !(c1 == '\r' && c2 == '\n') && c2 != '\r'
    ensures SplitLines(a + [c1, c2] + b) == [a, ""] + SplitLines(b)
  {
    var r := [c2] + b;
    var tail := SplitLines(b);
    assert SplitLines(r) == [""] + tail by {
      SplitLinesLeadingBreak(c2, b);
    }
    assert SplitLines(a + [c1, c2] + b) == [a] + SplitLines(r) by {
      assert a + [c1, c2] + b == a + [c1] + r;
      SplitLinesAfterLine(a, c1, r);
    }
    assert [a] + ([""] + tail) == [a, ""] + tail;
  }

  /** CR LF is one boundary, not two, wherever it occurs. */
  lemma SplitLinesCarriageReturn(a: string, b: string)
    requires NoBreaks(a)
    ensures SplitLines(a + "\r\n" + b) == [a] + SplitLines(b)
  {
    var s := a + "\r\n" + b;
    assert s == a + ("\r\n" + b);
    FirstBreakAfter(a, "\r\n" + b);
    assert s[|a|] == '\r' && s[|a| + 1] == '\n';
    assert s[..|a|] == a && s[|a| + 2..] == b;
  }
}
