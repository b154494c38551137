/** The text of the output file: one location per line, each line ended by a
    newline, no header and nothing after the last line. */
module OutputFile {

  /** The text written for `lines`, in order. */
  function Lines(lines: seq<string>): string
  {
    if lines == [] then [] else lines[0] + "\n" + Lines(lines[1..])
  }

  lemma {:induction false} LinesAppend(a: seq<string>, b: seq<string>)
    ensures Lines(a + b) == Lines(a) + Lines(b)
  {
    if a == [] {
      assert a + b == b;
    } else {
      assert (a + b)[0] == a[0] && (a + b)[1..] == a[1..] + b;
      LinesAppend(a[1..], b);
    }
  }

  /** The flushed lines and the buffered lines together make up all lines. */
  lemma LinesSplit(lines: seq<string>, k: nat)
    requires k <= |lines|
    ensures Lines(lines[..k]) + Lines(lines[k..]) == Lines(lines)
  {
    var flushed, buffered := lines[..k], lines[k..];
    assert flushed + buffered == lines;
    LinesAppend(flushed, buffered);
  }

  /** Writing one more line extends the unflushed lines by that line. */
  lemma LinesExtend(lines: seq<string>, k: nat, line: string)
    requires k <= |lines|
    ensures (lines + [line])[..k] == lines[..k]
    ensures Lines((lines + [line])[k..]) == Lines(lines[k..]) + line + "\n"
  {
    assert (lines + [line])[k..] == lines[k..] + [line];
    LinesAppend(lines[k..], [line]);
    assert Lines([line]) == line + "\n" + Lines([]);
  }

  /** Reads a text back as its lines: every newline ends one line; characters
      after the last newline form a final line of their own. */
  function SplitLines(text: string): seq<string>
  {
    SplitFrom(text, [])
  }

  /** `current` holds the characters of the line being read. */
  function SplitFrom(text: string, current: string): seq<string>
    decreases |text|
  {
    if text == [] then (if current == [] then [] else [current])
    else if text[0] == '\n' then [current] + SplitFrom(text[1..], [])
    else SplitFrom(text[1..], current + [text[0]])
  }

  predicate NoNewline(line: string)
  {
    forall k :: 0 <= k < |line| ==> line[k] != '\n'
  }

  lemma {:induction false} SplitOneLine(current: string, line: string, rest: string)
    requires NoNewline(line)
    ensures SplitFrom(line + "\n" + rest, current) == [current + line] + SplitFrom(rest, [])
    decreases |line|
  {
    var text := line + "\n" + rest;
    if line == [] {
      assert text[0] == '\n' && text[1..] == rest;
      assert current + line == current;
    } else {
      assert text[0] == line[0] && text[1..] == line[1..] + "\n" + rest;
      SplitOneLine(current + [line[0]], line[1..], rest);
      assert current + [line[0]] + line[1..] == current + line;
    }
  }

  /** Splitting the file text gives back every written line, in order, as long
      as no line itself holds a newline. */
  lemma {:induction false} SplitLinesRoundTrip(lines: seq<string>)
    requires forall k :: 0 <= k < |lines| ==> NoNewline(lines[k])
    ensures SplitLines(Lines(lines)) == lines
  {
    if lines != [] {
      SplitOneLine([], lines[0], Lines(lines[1..]));
      assert [] + lines[0] == lines[0];
      SplitLinesRoundTrip(lines[1..]);
    }
  }

  /** A non-empty output ends with a newline: there is never a partial last line. */
  lemma {:induction false} LinesEndInNewline(lines: seq<string>)
    requires lines != []
    ensures |Lines(lines)| > 0 && Lines(lines)[|Lines(lines)| - 1] == '\n'
  {
    if lines[1..] != [] {
      LinesEndInNewline(lines[1..]);
    }
  }
}
