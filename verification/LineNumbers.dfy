/** Numbering the lines of a text, and taking the numbers off again. */
module LineNumbers {
  import opened PosixPath
  import opened TextLines
  import Decimal

  function Max(a: nat, b: nat): nat {
    if a >= b then a else b
  }

  function Spaces(n: nat): string {
    seq(n, _ => ' ')
  }

  // f"{n:{width}d}"
  function Padded(n: nat, width: nat): string {
    var digits := Decimal.Print(n);
    Spaces(if |digits| < width then width - |digits| else 0) + digits
  }

  function Width(lines: nat): nat {
    Max(4, |Decimal.Print(if lines > 0 then lines else 1)|)
  }

  function Numbered(lines: seq<string>, width: nat): (r: seq<string>)
    ensures |r| == |lines|
    ensures forall k :: 0 <= k < |r| ==> r[k] == Padded(k + 1, width) + ": " + lines[k]
  {
    seq(|lines|, k requires 0 <= k < |lines| => Padded(k + 1, width) + ": " + lines[k])
  }

  predicate EndsWithNewline(text: string) {
    text != "" && text[|text| - 1] == '\n'
  }

  function AddLineNumbers(text: string): string {
    var lines := SplitLines(text);
    Join(Numbered(lines, Width(|lines|)), '\n') + if EndsWithNewline(text) then "\n" else ""
  }

  // Cuts `n` characters off the front of every line, lines being ended by "\n" only.
  function CutEach(text: string, n: nat): string {
    if EndsWithNewline(text) then
      Join(Cut(Split(text[..|text| - 1], '\n'), n), '\n') + "\n"
    else
      Join(Cut(Split(text, '\n'), n), '\n')
  }

  function Cut(lines: seq<string>, n: nat): (r: seq<string>)
    ensures |r| == |lines|
    ensures forall k :: 0 <= k < |r| ==> r[k] == if n <= |lines[k]| then lines[k][n..] else ""
  {
    seq(|lines|, k requires 0 <= k < |lines| => if n <= |lines[k]| then lines[k][n..] else "")
  }

  lemma {:induction false} LongerNumbers(m: nat, n: nat)
    requires m <= n
    ensures |Decimal.Print(m)| <= |Decimal.Print(n)|
  {
    if m >= 10 {
      LongerNumbers(m / 10, n / 10);
    }
  }

  // No line number is wider than the column.
  lemma PrefixWidth(k: nat, lines: nat)
    requires k < lines
    ensures |Padded(k + 1, Width(lines))| == Width(lines)
  {
    LongerNumbers(k + 1, lines);
  }

  lemma {:induction false} DigitsOfPrint(n: nat)
    ensures n < Decimal.PowerOfTen(|Decimal.Print(n)|)
    ensures n >= 10 ==> Decimal.PowerOfTen(|Decimal.Print(n)| - 1) <= n
  {
    if n >= 100 {
      DigitsOfPrint(n / 10);
    } else if n >= 10 {
      assert |Decimal.Print(n)| == 2 && Decimal.PowerOfTen(2) == 100 && Decimal.PowerOfTen(1) == 10;
    } else {
      assert Decimal.PowerOfTen(1) == 10;
    }
  }

  // The column is the narrowest, of at least four, that holds the number of lines.
  lemma WidthExactly(lines: nat)
    ensures var width := Width(lines);
            && width >= 4 && lines < Decimal.PowerOfTen(width)
            && (width > 4 ==> Decimal.PowerOfTen(width - 1) <= lines)
  {
    DigitsOfPrint(if lines > 0 then lines else 1);
    PowersGrow(|Decimal.Print(if lines > 0 then lines else 1)|, Width(lines));
  }

  lemma {:induction false} PowersGrow(m: nat, n: nat)
    requires m <= n
    ensures Decimal.PowerOfTen(m) <= Decimal.PowerOfTen(n)
  {
    if m < n {
      PowersGrow(m, n - 1);
    }
  }

  // The row is the number, without superfluous zeros, set to the right of the column, then ": " and
  // the line.
  ghost predicate NumberedRow(row: string, width: nat, n: nat, line: string) {
    && |row| == width + 2 + |line| && row[width..] == ": " + line
    && exists pad: nat ::
         && pad < width && (forall j :: 0 <= j < pad ==> row[j] == ' ')
         && Decimal.AllDigits(row[pad..width]) && Decimal.Value(row[pad..width]) == n
         && (row[pad] == '0' ==> n == 0)
  }

  lemma NumberedExactly(lines: seq<string>, k: nat)
    requires k < |lines|
    ensures NumberedRow(Numbered(lines, Width(|lines|))[k], Width(|lines|), k + 1, lines[k])
  {
    var width := Width(|lines|);
    PrefixWidth(k, |lines|);
    Decimal.ValueOfPrint(k + 1);
    Decimal.PrintIsShort(k + 1);
    hide Width;
    var digits, row := Decimal.Print(k + 1), Numbered(lines, width)[k];
    assert row == Padded(k + 1, width) + ": " + lines[k];
    assert row == Padded(k + 1, width) + (": " + lines[k]);
    var pad := width - |digits|;
    assert row[pad..width] == digits && row[pad] == digits[0];
  }

  // Numbering makes a row of every line.
  lemma AddLineNumbersExactly(text: string)
    ensures var lines := SplitLines(text);
            exists rows: seq<string> ::
              && |rows| == |lines|
              && AddLineNumbers(text) == Join(rows, '\n') + (if EndsWithNewline(text) then "\n" else "")
              && forall k :: 0 <= k < |rows| ==> NumberedRow(rows[k], Width(|lines|), k + 1, lines[k])
  {
    hide NumberedRow, SplitLines, Width, Join;
    var lines := SplitLines(text);
    var rows := Numbered(lines, Width(|lines|));
    forall k | 0 <= k < |rows|
      ensures NumberedRow(rows[k], Width(|lines|), k + 1, lines[k])
    {
      NumberedExactly(lines, k);
    }
    assert AddLineNumbers(text) == Join(rows, '\n') + (if EndsWithNewline(text) then "\n" else "");
  }

  predicate OnlyNewlines(text: string) {
    forall c :: c in text && Breaks(c) ==> c == '\n'
  }

  // Such a text is its lines joined by newlines, with one more when it ends in one.
  lemma {:induction false} LinesOf(text: string)
    requires OnlyNewlines(text)
    ensures text == Join(SplitLines(text), '\n') + if EndsWithNewline(text) then "\n" else ""
    ensures text != "" ==> SplitLines(text) != []
    decreases |text|
  {
    hide *;
    if text != "" {
      FirstCharacter(text);
      LinesOf(text[1..]);
      LinesStep(text, SplitLines(text[1..]));
    } else {
      EmptyLines();
    }
  }

  lemma EmptyLines()
    ensures Join(SplitLines(""), '\n') == "" && !EndsWithNewline("")
  {
  }

  // One more character in front.
  lemma LinesStep(text: string, rest: seq<string>)
    requires text != "" && (text[1..] == "" ==> rest == []) && (text[1..] != "" ==> rest != [])
    requires text[1..] == Join(rest, '\n') + if EndsWithNewline(text[1..]) then "\n" else ""
    ensures var lines := if text[0] == '\n' then [""] + rest
                         else if rest == [] then [[text[0]]] else [[text[0]] + rest[0]] + rest[1..];
            text == Join(lines, '\n') + if EndsWithNewline(text) then "\n" else ""
  {
    hide Join;
    assert text == [text[0]] + text[1..];
    assert EndsWithNewline(text[1..]) <==> text[1..] != "" && EndsWithNewline(text);
    if text[0] == '\n' {
      JoinCons("", rest);
    } else if rest != [] {
      JoinWithFirst(text[0], rest);
    } else {
      JoinCons([text[0]], []);
      assert [[text[0]]] + [] == [[text[0]]];
    }
  }

  // How the first character enters the lines.
  lemma FirstCharacter(text: string)
    requires text != "" && OnlyNewlines(text)
    ensures OnlyNewlines(text[1..])
    ensures var rest := SplitLines(text[1..]);
            SplitLines(text) ==
              if text[0] == '\n' then [""] + rest
              else if rest == [] then [[text[0]]] else [[text[0]] + rest[0]] + rest[1..]
    ensures text[1..] == "" ==> SplitLines(text[1..]) == []
  {
    NewlineBreaks();
    assert text[0] in text;
    assert forall c :: c in text[1..] ==> c in text;
    hide Breaks;
  }

  lemma JoinWithFirst(c: char, rest: seq<string>)
    requires rest != []
    ensures Join([[c] + rest[0]] + rest[1..], '\n') == [c] + Join(rest, '\n')
  {
    hide Join;
    JoinCons([c] + rest[0], rest[1..]);
    JoinCons(rest[0], rest[1..]);
    assert [rest[0]] + rest[1..] == rest;
  }

  lemma JoinCons(head: string, tail: seq<string>)
    ensures Join([head] + tail, '\n') == head + if tail == [] then "" else ['\n'] + Join(tail, '\n')
  {
    assert ([head] + tail)[1..] == tail;
  }

  lemma NumberedLine(text: string, k: nat)
    requires k < |SplitLines(text)|
    ensures var lines := SplitLines(text); var width := Width(|lines|); var line := Numbered(lines, width)[k];
            Free(line, '\n') && |line| >= width + 2 && line[width + 2..] == lines[k]
  {
    hide SplitLines, Breaks, Padded, Width;
    PrefixWidth(k, |SplitLines(text)|);
    PaddedIsPlain(k + 1, Width(|SplitLines(text)|));
    LinesAreUnbroken(text, k);
    NewlineBreaks();
  }

  lemma EmptyText(n: nat)
    ensures SplitLines("") == [] && AddLineNumbers("") == "" && CutEach("", n) == ""
  {
    assert Split("", '\n') == [""];
    assert Cut([""], n) == [""];
  }

  // Cutting the fixed-width prefix leaves the lines, joined by newlines.
  lemma CuttingLeavesLines(text: string)
    ensures CutEach(AddLineNumbers(text), Width(|SplitLines(text)|) + 2)
            == Join(SplitLines(text), '\n') + if EndsWithNewline(text) then "\n" else ""
  {
    hide SplitLines, Breaks, Width, Split, Padded;
    HasLines(text);
    var lines := SplitLines(text);
    var width := Width(|lines|);
    var numbered := Numbered(lines, width);
    if text == "" {
      EmptyText(width + 2);
    } else {
      forall k | 0 <= k < |numbered|
        ensures |numbered[k]| >= width + 2 && Free(numbered[k], '\n') && numbered[k] != ""
        ensures numbered[k][width + 2..] == lines[k]
      {
        NumberedLine(text, k);
      }
      SplitJoin(numbered, '\n');
      assert Cut(numbered, width + 2) == lines;
      NumberedTextEnds(text, numbered);
      var joined, added := Join(numbered, '\n'), AddLineNumbers(text);
      if EndsWithNewline(text) {
        assert added == joined + "\n" && added[..|added| - 1] == joined;
        assert CutEach(added, width + 2) == Join(lines, '\n') + "\n";
      } else {
        assert added == joined + "" == joined;
        assert CutEach(added, width + 2) == Join(lines, '\n');
      }
    }
  }

  lemma HasLines(text: string)
    ensures (text == "") <==> (SplitLines(text) == [])
  {
  }

  // So the numbers come off again, final newline included, exactly when newlines are the text's only
  // line breaks.
  lemma NumberingIsReversible(text: string)
    ensures CutEach(AddLineNumbers(text), Width(|SplitLines(text)|) + 2) == text <==> OnlyNewlines(text)
  {
    hide SplitLines, Breaks, CutEach, AddLineNumbers, Width;
    CuttingLeavesLines(text);
    var lines := SplitLines(text);
    if OnlyNewlines(text) {
      LinesOf(text);
    }
    if CutEach(AddLineNumbers(text), Width(|lines|) + 2) == text {
      JoinCharacters(lines, '\n');
      forall c | c in text && Breaks(c)
        ensures c == '\n'
      {
        if c != '\n' {
          assert c in Join(lines, '\n');
          var line :| line in lines && c in line;
          var k :| 0 <= k < |lines| && lines[k] == line;
          LinesAreUnbroken(text, k);
        }
      }
    }
  }

  lemma NewlineBreaks()
    ensures Breaks('\n')
  {
  }

  lemma PaddedIsPlain(n: nat, width: nat)
    ensures Free(Padded(n, width), '\n') && Padded(n, width) != ""
  {
  }

  lemma {:induction false} JoinEndsWithLast(parts: seq<string>)
    requires parts != [] && parts[|parts| - 1] != ""
    ensures Join(parts, '\n') != ""
    ensures Join(parts, '\n')[|Join(parts, '\n')| - 1] == parts[|parts| - 1][|parts[|parts| - 1]| - 1]
  {
    if |parts| > 1 {
      JoinEndsWithLast(parts[1..]);
    }
  }

  // The numbered lines alone do not end in a newline.
  lemma NumberedTextEnds(text: string, numbered: seq<string>)
    requires numbered != [] && forall k :: 0 <= k < |numbered| ==> Free(numbered[k], '\n') && numbered[k] != ""
    ensures !EndsWithNewline(Join(numbered, '\n'))
    ensures var whole := Join(numbered, '\n') + "\n";
            EndsWithNewline(whole) && whole[..|whole| - 1] == Join(numbered, '\n')
  {
    JoinEndsWithLast(numbered);
    var last := numbered[|numbered| - 1];
    assert last[|last| - 1] in last;
  }
}
