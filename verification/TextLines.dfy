/** Lines of text: str.splitlines, and lines each ended by a newline. */
module TextLines {

  // The characters str.splitlines breaks on.
  predicate Breaks(c: char) {
    c in "\n\r\U{000B}\U{000C}\U{001C}\U{001D}\U{001E}\U{0085}\U{2028}\U{2029}"
  }

  // Those are, by code point:
  lemma BreaksExactly(c: char)
    ensures Breaks(c) <==> 10 <= c as int <= 13 || 28 <= c as int <= 30 || c as int in {0x85, 0x2028, 0x2029}
  {
  }

  function SplitLines(s: string): (lines: seq<string>)
    ensures |lines| <= |s|
    decreases |s|
  {
    if s == "" then []
    else if Breaks(s[0]) then
      [""] + SplitLines(s[if s[0] == '\r' && |s| > 1 && s[1] == '\n' then 2 else 1..])
    else
      var rest := SplitLines(s[1..]);
      if rest == [] then [[s[0]]] else [[s[0]] + rest[0]] + rest[1..]
  }

  // A text without breaks is one line, if it is not empty; a line ends at the first break, and "\r\n"
  // is one.
  lemma {:induction false} FirstLine(line: string, c: char, tail: string)
    requires (forall x :: x in line ==> !Breaks(x)) && Breaks(c) && (c == '\r' ==> tail == "" || tail[0] != '\n')
    ensures SplitLines(line + [c] + tail) == [line] + SplitLines(tail)
  {
    var s := line + [c] + tail;
    if line == "" {
      assert s[1..] == tail;
    } else {
      assert s[0] == line[0] && line[0] in line;
      assert s[1..] == line[1..] + [c] + tail;
      FirstLine(line[1..], c, tail);
      assert [line[0]] + line[1..] == line;
    }
  }

  lemma {:induction false} ReturnAndNewline(line: string, tail: string)
    requires forall x :: x in line ==> !Breaks(x)
    ensures SplitLines(line + "\r\n" + tail) == [line] + SplitLines(tail)
  {
    var s := line + "\r\n" + tail;
    if line == "" {
      assert s[2..] == tail;
    } else {
      assert s[0] == line[0] && line[0] in line;
      assert s[1..] == line[1..] + "\r\n" + tail;
      ReturnAndNewline(line[1..], tail);
      assert [line[0]] + line[1..] == line;
    }
  }

  lemma {:induction false} OnlyLine(line: string)
    requires forall x :: x in line ==> !Breaks(x)
    ensures SplitLines(line) == if line == "" then [] else [line]
  {
    if line != "" {
      assert line[0] in line && !Breaks(line[0]) && line == [line[0]] + line[1..];
      OnlyLine(line[1..]);
      assert line[1..] == "" ==> line == [line[0]];
    }
  }

  // Every line followed by a newline.
  function Terminated(lines: seq<string>): string {
    if lines == [] then "" else lines[0] + "\n" + Terminated(lines[1..])
  }

  lemma {:induction false} SplitLine(line: string, tail: string)
    requires forall c :: c in line ==> !Breaks(c)
    ensures SplitLines(line + "\n" + tail) == [line] + SplitLines(tail)
  {
    var s := line + "\n" + tail;
    if line == "" {
      assert s[1..] == tail;
    } else {
      assert s[0] == line[0] && line[0] in line;
      assert s[1..] == line[1..] + "\n" + tail;
      SplitLine(line[1..], tail);
      assert [line[0]] + line[1..] == line;
    }
  }

  lemma {:induction false} SplitTerminated(lines: seq<string>)
    requires forall line, c :: line in lines && c in line ==> !Breaks(c)
    ensures SplitLines(Terminated(lines)) == lines
  {
    if lines != [] {
      forall c | c in lines[0]
        ensures !Breaks(c)
      {
        assert lines[0] in lines;
      }
      SplitLine(lines[0], Terminated(lines[1..]));
      SplitTerminated(lines[1..]);
    }
  }

  // A line break inside a line makes one more line.
  lemma {:induction false} CountLine(line: string, tail: string)
    requires '\r' !in line
    ensures |SplitLines(line + "\n" + tail)| >= 1 + |SplitLines(tail)|
    ensures (exists c :: c in line && Breaks(c)) ==> |SplitLines(line + "\n" + tail)| >= 2 + |SplitLines(tail)|
  {
    var s := line + "\n" + tail;
    if line == "" {
      assert s[1..] == tail;
    } else {
      assert s[0] == line[0] && line[0] in line;
      assert s[1..] == line[1..] + "\n" + tail;
      CountLine(line[1..], tail);
      if c :| c in line && Breaks(c) {
        assert c == line[0] || c in line[1..];
      }
    }
  }

  lemma {:induction false} CountTerminated(lines: seq<string>)
    requires forall line :: line in lines ==> '\r' !in line
    ensures |SplitLines(Terminated(lines))| >= |lines|
    ensures (exists line, c :: line in lines && c in line && Breaks(c)) ==>
              |SplitLines(Terminated(lines))| > |lines|
  {
    if lines != [] {
      assert lines[0] in lines;
      CountLine(lines[0], Terminated(lines[1..]));
      CountTerminated(lines[1..]);
      if line, c :| line in lines && c in line && Breaks(c) {
        assert line == lines[0] || line in lines[1..];
      }
    }
  }

  // No line holds a break.
  lemma {:induction false} LinesAreUnbroken(s: string, k: nat)
    requires k < |SplitLines(s)|
    ensures forall c :: c in SplitLines(s)[k] ==> !Breaks(c)
    decreases |s|
  {
    if Breaks(s[0]) {
      if k > 0 {
        LinesAreUnbroken(s[if s[0] == '\r' && |s| > 1 && s[1] == '\n' then 2 else 1..], k - 1);
      }
    } else {
      var rest := SplitLines(s[1..]);
      if k < |rest| {
        LinesAreUnbroken(s[1..], k);
      }
    }
  }
}
