/** Line splitting as done by Go's `bufio.Scanner` with its default
    `ScanLines` split function, on input within the scanner's token limit. */
module Scanner {
  import opened Strings

  /** Drops one trailing carriage return from a line. */
  function DropCR(line: string): (r: string)
    ensures HasSuffix(line, "\r") ==> r + "\r" == line
    ensures !HasSuffix(line, "\r") ==> r == line
  {
    TrimSuffix(line, "\r")
  }

  /** A line that does not end with a carriage return keeps all of itself. */
  lemma DropCRNoop(line: string)
    requires line == [] || line[|line| - 1] != '\r'
    ensures DropCR(line) == line
  {
  }

  /** The tokens the scanner yields for `data`: one per newline-terminated
      line, plus the unterminated remainder when it is non-empty, each with
      one trailing carriage return dropped. */
  function ScanLines(data: string): (lines: seq<string>)
    ensures forall i :: 0 <= i < |lines| ==> '\n' !in lines[i]
    ensures |lines| <= |data|
    decreases |data|
  {
    if |data| == 0 then []
    else if '\n' in data then
      var i := IndexOf(data, '\n');
      var line := DropCR(data[..i]);
      assert line <= data[..i];
      assert forall c :: c in line ==> c in data[..i];
      [line] + ScanLines(data[i + 1..])
    else
      var line := DropCR(data);
      assert line <= data;
      assert forall c :: c in line ==> c in data;
      [line]
  }

  /** The pieces of a split with the empty piece after a final separator
      removed. */
  function DropTrailingEmpty(parts: seq<string>): seq<string> {
    if |parts| > 0 && parts[|parts| - 1] == "" then parts[..|parts| - 1] else parts
  }

  /** Drops one trailing carriage return from each piece. */
  function DropCRs(parts: seq<string>): (lines: seq<string>)
    ensures |lines| == |parts|
    ensures forall i :: 0 <= i < |parts| ==> lines[i] == DropCR(parts[i])
  {
    if |parts| == 0 then [] else [DropCR(parts[0])] + DropCRs(parts[1..])
  }

  lemma {:induction false} DropCRsNoCR(lines: seq<string>)
    requires forall i :: 0 <= i < |lines| ==> !HasSuffix(lines[i], "\r")
    ensures DropCRs(lines) == lines
  {
    if |lines| > 0 {
      DropCRsNoCR(lines[1..]);
      assert lines == [lines[0]] + lines[1..];
    }
  }

  /** The scanner's tokens are the pieces of `strings.Split(data, "\n")`,
      without the empty piece a final newline leaves, each with one trailing
      carriage return dropped. */
  lemma {:induction false} ScanLinesIsSplit(data: string)
    ensures var parts := DropTrailingEmpty(Split(data, '\n'));
      ScanLines(data) == DropCRs(parts)
    decreases |data|
  {
    if |data| > 0 && '\n' in data {
      var i := IndexOf(data, '\n');
      var rest := data[i + 1..];
      ScanLinesIsSplit(rest);
      ScanLinesStep(data, i);
    } else if |data| > 0 {
      SplitNoSep(data, '\n');
    }
  }

  /** One step of the induction above: the first line splits off the same way
      in both readings. */
  lemma ScanLinesStep(data: string, i: nat)
    requires '\n' in data && i == IndexOf(data, '\n')
    ensures var rest := data[i + 1..];
      var parts := DropTrailingEmpty(Split(data, '\n'));
      var restParts := DropTrailingEmpty(Split(rest, '\n'));
      && ScanLines(data) == [DropCR(data[..i])] + ScanLines(rest)
      && DropCRs(parts) == [DropCR(data[..i])] + DropCRs(restParts)
  {
    var rest := data[i + 1..];
    assert data == data[..i] + ['\n'] + rest;
    SplitConcat(data[..i], rest, '\n');
    SplitNoSep(data[..i], '\n');
    var parts := DropTrailingEmpty(Split(data, '\n'));
    var restParts := DropTrailingEmpty(Split(rest, '\n'));
    assert Split(data, '\n') == [data[..i]] + Split(rest, '\n');
    if |rest| == 0 {
      assert parts == [data[..i]];
    } else {
      assert parts == [data[..i]] + restParts;
      assert parts[1..] == restParts;
    }
  }

  /** Newline-terminated lines that carry no newline and no trailing carriage
      return scan back into exactly those lines. */
  lemma ScanJoinedLines(lines: seq<string>)
    requires |lines| >= 1
    requires forall i :: 0 <= i < |lines| ==> '\n' !in lines[i] && !HasSuffix(lines[i], "\r")
    ensures ScanLines(Join(lines, '\n') + "\n") == lines
  {
    var data := Join(lines, '\n') + "\n";
    SplitTerminated(lines);
    ScanLinesIsSplit(data);
    DropCRsNoCR(lines);
  }

  /** Splitting newline-terminated lines gives the lines back once the empty
      piece after the final newline is dropped. */
  lemma SplitTerminated(lines: seq<string>)
    requires |lines| >= 1
    requires forall i :: 0 <= i < |lines| ==> '\n' !in lines[i]
    ensures DropTrailingEmpty(Split(Join(lines, '\n') + "\n", '\n')) == lines
  {
    var joined := Join(lines, '\n');
    var data := joined + "\n";
    assert data == joined + ['\n'] + "";
    SplitConcat(joined, "", '\n');
    SplitJoin(lines, '\n');
    assert Split(data, '\n') == lines + [""];
  }

  /** A payload that starts with a complete line scans as that line followed
      by the tokens of the rest. */
  lemma ScanFirstLine(line: string, rest: string)
    requires '\n' !in line
    ensures ScanLines(line + "\n" + rest) == [DropCR(line)] + ScanLines(rest)
  {
    var data := line + "\n" + rest;
    assert data[|line|] == '\n';
    assert data[..|line|] == line;
    assert data[|line| + 1..] == rest;
    assert IndexOf(data, '\n') == |line|;
  }
}
