/**
 * The manifest as a text file.  saveFile ends every line with a line break,
 * which a file opened in text mode on Windows writes as "\r\n"; openFile
 * reads it back with QTextStream::readLine until the stream is at its end.
 * readLine returns the text up to the next "\n" without it, drops a "\r"
 * just before it, and returns what is left after the last "\n" (again
 * without a final "\r") as one more line when that is not empty.
 */
module Lines {
  import opened Strings

  /** The line break a text-mode file holds. */
  function Eol(crlf: bool): string {
    if crlf then "\r\n" else "\n"
  }

  /** A line that the reader gives back as it was written: no line break or carriage return inside. */
  predicate OneLine(s: string) {
    forall i :: 0 <= i < |s| ==> s[i] != '\n' && s[i] != '\r'
  }

  predicate AllOneLine(lines: seq<string>) {
    forall i :: 0 <= i < |lines| ==> OneLine(lines[i])
  }

  lemma OneLineAppend(a: string, b: string)
    ensures OneLine(a + b) <==> OneLine(a) && OneLine(b)
  {
    if OneLine(a + b) {
      assert forall i :: 0 <= i < |a| ==> a[i] == (a + b)[i];
      assert forall i :: 0 <= i < |b| ==> b[i] == (a + b)[|a| + i];
    }
  }

  /** The file text of some lines, each followed by a line break. */
  function JoinLines(lines: seq<string>, crlf: bool): (text: string)
    ensures |text| >= |lines|
    ensures |lines| > 0 ==> text[|text| - 1] == '\n'
    decreases |lines|
  {
    if |lines| == 0 then "" else lines[0] + Eol(crlf) + JoinLines(lines[1..], crlf)
  }

  /** A line without the carriage return that may end it. */
  function DropCr(s: string): (r: string)
    ensures r == s || (s == r + "\r")
  {
    if |s| > 0 && s[|s| - 1] == '\r' then s[..|s| - 1] else s
  }

  /** readLine until the stream is at its end. */
  function ReadLines(text: string): (lines: seq<string>)
    ensures |lines| <= |text|
    decreases |text|
  {
    if |text| == 0 then []
    else
      var k := IndexOfChar(text, '\n');
      if k == -1 then [DropCr(text)]
      else [DropCr(text[..k])] + ReadLines(text[k + 1..])
  }

  /** The first line break after a line without one ends exactly that line. */
  lemma ReadFirst(line: string, crlf: bool, rest: string)
    requires OneLine(line)
    ensures ReadLines(line + Eol(crlf) + rest) == [line] + ReadLines(rest)
  {
    var text := line + Eol(crlf) + rest;
    var k := |line| + |Eol(crlf)| - 1;
    FirstBreak(line, crlf, rest);
    assert text[..k] == line + Eol(crlf)[..|Eol(crlf)| - 1];
    assert text[k + 1..] == rest;
    if crlf {
      assert text[..k] == line + "\r";
    } else {
      assert text[..k] == line;
      assert |line| > 0 ==> line[|line| - 1] != '\r';
    }
  }

  /** The first '\n' after a line without one is the one that ends it. */
  lemma FirstBreak(line: string, crlf: bool, rest: string)
    requires OneLine(line)
    ensures IndexOfChar(line + Eol(crlf) + rest, '\n') == |line| + |Eol(crlf)| - 1
  {
    var text := line + Eol(crlf) + rest;
    var p := |line| + |Eol(crlf)| - 1;
    assert text[p] == '\n';
    assert forall i :: 0 <= i < p ==> text[i] != '\n';
    assert HasChar(text, '\n');
    var k := IndexOfChar(text, '\n');
    assert k <= p by {
      assert forall j :: 0 <= j < k ==> text[..k][j] == text[j];
    }
  }

  /** Reading the text of lines without line breaks inside gives the lines back, with either line break. */
  lemma {:induction false} LinesRoundTrip(lines: seq<string>, crlf: bool)
    requires AllOneLine(lines)
    ensures ReadLines(JoinLines(lines, crlf)) == lines
    decreases |lines|
  {
    if |lines| > 0 {
      ReadFirst(lines[0], crlf, JoinLines(lines[1..], crlf));
      LinesRoundTrip(lines[1..], crlf);
    }
  }

  /** A line break inside a written line makes it two lines when read back. */
  lemma BreakSplits(a: string, b: string, crlf: bool)
    requires OneLine(a) && OneLine(b)
    ensures ReadLines(JoinLines([a + "\n" + b], crlf)) == [a, b]
  {
    assert JoinLines([a + "\n" + b], crlf) == a + Eol(false) + (b + Eol(crlf) + "");
    ReadFirst(a, false, b + Eol(crlf) + "");
    ReadFirst(b, crlf, "");
  }
}
