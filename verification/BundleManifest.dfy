/** The tab-separated manifest of a release archive: the rows the packager writes, the rows the
    verifier reads, and exactly when the second gives back the first. */
module BundleManifest {
  import opened Wrappers
  import opened PosixPath
  import opened ArchivePaths
  import opened TextLines
  import opened Digests
  import Decimal

  const TITLES: seq<string> := ["# sha256", "kind", "bytes", "path", "target"]

  function Header(): string {
    Join(TITLES, '\t')
  }

  datatype Row = Row(digest: string, kind: string, size: nat, target: string)

  // One packaged member: a regular file, or a link with its target text.
  datatype Entry = Entry(name: string, digest: string, size: nat, link: Option<string>)

  function RowOf(entry: Entry): Row {
    match entry.link
    case Some(target) => Row(entry.digest, "SYMLINK", entry.size, target)
    case None => Row(entry.digest, "FILE", entry.size, "")
  }

  // The line breaks that are not control characters in the packager's sense.
  predicate HiddenBreak(c: char) {
    c in "\U{0085}\U{2028}\U{2029}"
  }

  // ---------------------------------------------------------------- tabs

  function Tabs(s: string): nat {
    if s == "" then 0 else (if s[0] == '\t' then 1 else 0) + Tabs(s[1..])
  }

  function TotalTabs(lines: seq<string>): nat {
    if lines == [] then 0 else Tabs(lines[0]) + TotalTabs(lines[1..])
  }

  lemma {:induction false} TabsOfConcatenation(a: string, b: string)
    ensures Tabs(a + b) == Tabs(a) + Tabs(b)
  {
    if a == "" {
      assert a + b == b;
    } else {
      assert (a + b)[1..] == a[1..] + b;
      TabsOfConcatenation(a[1..], b);
    }
  }

  lemma {:induction false} TabsOfFields(s: string)
    ensures |Split(s, '\t')| == Tabs(s) + 1
  {
    if s != "" {
      TabsOfFields(s[1..]);
    }
  }

  lemma {:induction false} TabsOfTerminated(lines: seq<string>)
    ensures Tabs(Terminated(lines)) == TotalTabs(lines)
  {
    if lines != [] {
      TabsOfTerminated(lines[1..]);
      TabsOfConcatenation(lines[0] + "\n", Terminated(lines[1..]));
      TabsOfConcatenation(lines[0], "\n");
      assert Tabs("\n") == 0;
    }
  }

  lemma {:induction false} SplittingKeepsTabs(s: string)
    ensures TotalTabs(SplitLines(s)) == Tabs(s)
    decreases |s|
  {
    if s != "" {
      if Breaks(s[0]) {
        var n := if s[0] == '\r' && |s| > 1 && s[1] == '\n' then 2 else 1;
        SplittingKeepsTabs(s[n..]);
        assert Tabs("") == 0;
        if n == 2 {
          assert s[1..][1..] == s[2..];
        }
      } else {
        SplittingKeepsTabs(s[1..]);
        var rest := SplitLines(s[1..]);
        var first := if rest == [] then [s[0]] else [s[0]] + rest[0];
        assert first[1..] == if rest == [] then "" else rest[0];
        assert SplitLines(s)[1..] == if rest == [] then [] else rest[1..];
      }
    }
  }

  lemma {:induction false} FiveFieldsEach(lines: seq<string>)
    requires forall k :: 0 <= k < |lines| ==> |Split(lines[k], '\t')| == 5
    ensures TotalTabs(lines) == 4 * |lines|
  {
    if lines != [] {
      TabsOfFields(lines[0]);
      FiveFieldsEach(lines[1..]);
    }
  }

  // ---------------------------------------------------------------- writing

  function Line(entry: Entry): string {
    var row := RowOf(entry);
    Join([row.digest, row.kind, Decimal.Print(row.size), entry.name, row.target], '\t')
  }

  function Lines(entries: seq<Entry>): (lines: seq<string>)
    ensures |lines| == |entries|
    ensures forall k :: 0 <= k < |lines| ==> lines[k] == Line(entries[k])
  {
    if entries == [] then [] else [Line(entries[0])] + Lines(entries[1..])
  }

  function Written(entries: seq<Entry>): string {
    Join([Header()] + Lines(entries), '\n') + "\n"
  }

  // The five fields of an entry's row.
  lemma LineExactly(entry: Entry)
    ensures Line(entry) ==
              entry.digest + "\t" + (if entry.link.Some? then "SYMLINK" else "FILE")
              + "\t" + Decimal.Print(entry.size) + "\t" + entry.name
              + "\t" + (if entry.link.Some? then entry.link.value else "")
  {
    var row := RowOf(entry);
    JoinOfFive(row.digest, row.kind, Decimal.Print(row.size), entry.name, row.target);
  }

  lemma JoinOfFive(a: string, b: string, c: string, d: string, e: string)
    ensures Join([a, b, c, d, e], '\t') == a + "\t" + b + "\t" + c + "\t" + d + "\t" + e
  {
    assert [a, b, c, d, e][1..] == [b, c, d, e] && [b, c, d, e][1..] == [c, d, e];
    assert [c, d, e][1..] == [d, e] && [d, e][1..] == [e];
    assert Join([d, e], '\t') == d + "\t" + e;
    assert Join([c, d, e], '\t') == c + "\t" + (d + "\t" + e);
    assert Join([b, c, d, e], '\t') == b + "\t" + (c + "\t" + (d + "\t" + e));
  }

  lemma HeaderExactly()
    ensures Header() == "# sha256\tkind\tbytes\tpath\ttarget"
  {
    JoinOfFive("# sha256", "kind", "bytes", "path", "target");
  }

  // The header, and a line of five fields for each entry.
  ghost predicate SpelledOut(text: string, entries: seq<Entry>) {
    exists rows: seq<string> ::
      && |rows| == |entries|
      && text == Join(["# sha256\tkind\tbytes\tpath\ttarget"] + rows, '\n') + "\n"
      && forall k :: 0 <= k < |rows| ==>
           var entry := entries[k];
           rows[k] == entry.digest + "\t" + (if entry.link.Some? then "SYMLINK" else "FILE")
                      + "\t" + Decimal.Print(entry.size) + "\t" + entry.name
                      + "\t" + (if entry.link.Some? then entry.link.value else "")
  }

  lemma WrittenExactly(entries: seq<Entry>)
    ensures SpelledOut(Written(entries), entries)
  {
    var rows := Lines(entries);
    hide Header, Line, Join, Decimal.Print;
    HeaderExactly();
    forall k | 0 <= k < |rows|
      ensures var entry := entries[k];
              rows[k] == entry.digest + "\t" + (if entry.link.Some? then "SYMLINK" else "FILE")
                         + "\t" + Decimal.Print(entry.size) + "\t" + entry.name
                         + "\t" + (if entry.link.Some? then entry.link.value else "")
    {
      LineExactly(entries[k]);
    }
  }

  method WriteManifest(entries: seq<Entry>) returns (text: string)
    ensures text == Written(entries)
    ensures SpelledOut(text, entries)
  {
    hide Header, Line, Join, SpelledOut;
    WrittenExactly(entries);
    var rows := [Header()];
    for k := 0 to |entries|
      invariant rows == [Header()] + Lines(entries)[..k]
    {
      rows := rows + [Line(entries[k])];
      assert Lines(entries)[..k + 1] == Lines(entries)[..k] + [Line(entries[k])];
    }
    assert Lines(entries)[..|entries|] == Lines(entries);
    return Join(rows, '\n') + "\n";
  }

  lemma {:induction false} JoinIsTerminated(lines: seq<string>)
    requires lines != []
    ensures Join(lines, '\n') + "\n" == Terminated(lines)
  {
    if |lines| > 1 {
      JoinIsTerminated(lines[1..]);
      assert lines[0] + ['\n'] + Join(lines[1..], '\n') + "\n"
             == lines[0] + "\n" + (Join(lines[1..], '\n') + "\n");
    } else {
      assert Terminated(lines[1..]) == "";
      assert lines[0] + "\n" + "" == lines[0] + "\n";
    }
  }

  // ---------------------------------------------------------------- reading

  // One row, or nothing when the verifier rejects it.
  function ReadRow(line: string, root: string, upper: string -> string): Option<(string, Row)> {
    var fields := Split(line, '\t');
    if |fields| != 5 then None
    else
      var name, size := fields[3], Decimal.Parse(fields[2]);
      if !PortableArchivePath(name, root, upper) || name == root + "/BUNDLE_SHA256SUMS" then None
      else if !IsLowerHexDigest(fields[0]) || size.None? then None
      else if size.value < 0 || fields[1] !in {"FILE", "SYMLINK"} then None
      else Some((name, Row(fields[0], fields[1], size.value, fields[4])))
  }

  // The row is accepted, and means this, exactly when it is these five fields, spelled like this.
  lemma ReadRowExactly(line: string, root: string, upper: string -> string, name: string, row: Row)
    ensures ReadRow(line, root, upper) == Some((name, row)) <==>
              && (exists size: string ::
                    && line == row.digest + "\t" + row.kind + "\t" + size + "\t" + name + "\t" + row.target
                    && '\t' !in size && Decimal.Parse(size) == Some(row.size))
              && |row.digest| == 64 && (forall c :: c in row.digest ==> '0' <= c <= '9' || 'a' <= c <= 'f')
              && row.kind in {"FILE", "SYMLINK"} && '\t' !in row.target
              && PortableArchivePath(name, root, upper) && name != root + "/BUNDLE_SHA256SUMS"
  {
    hide PortableArchivePath, Join, Split;
    var fields := Split(line, '\t');
    DigestExactly(row.digest);
    if ReadRow(line, root, upper) == Some((name, row)) {
      JoinSplit(line, '\t');
      assert fields == [fields[0], fields[1], fields[2], fields[3], fields[4]];
      JoinOfFive(fields[0], fields[1], fields[2], fields[3], fields[4]);
      assert Free(fields[2], '\t') && Free(fields[4], '\t');
    }
    if size: string :|
        && line == row.digest + "\t" + row.kind + "\t" + size + "\t" + name + "\t" + row.target
        && '\t' !in size && Decimal.Parse(size) == Some(row.size) {
      if && IsLowerHexDigest(row.digest) && row.kind in {"FILE", "SYMLINK"} && '\t' !in row.target
         && PortableArchivePath(name, root, upper) {
        FieldsAreFree(row.digest, row.kind, size, name, row.target, root, upper);
        JoinOfFive(row.digest, row.kind, size, name, row.target);
        SplitJoin([row.digest, row.kind, size, name, row.target], '\t');
      }
    }
  }

  lemma DigestExactly(digest: string)
    ensures IsLowerHexDigest(digest) <==>
              |digest| == 64 && forall c :: c in digest ==> '0' <= c <= '9' || 'a' <= c <= 'f'
  {
  }

  lemma FieldsAreFree(
    digest: string, kind: string, size: string, name: string, target: string, root: string, upper: string -> string)
    requires IsLowerHexDigest(digest) && kind in {"FILE", "SYMLINK"} && '\t' !in size && '\t' !in target
    requires PortableArchivePath(name, root, upper)
    ensures forall field :: field in [digest, kind, size, name, target] ==> Free(field, '\t')
  {
    DigestExactly(digest);
    NameIsControlFree(name, root, upper);
    hide PortableArchivePath, IsLowerHexDigest;
    assert forall c :: c in kind ==> 'A' <= c <= 'Z' by {
      LettersAreCapitals(kind);
    }
  }

  lemma LettersAreCapitals(kind: string)
    requires kind in {"FILE", "SYMLINK"}
    ensures forall c :: c in kind ==> 'A' <= c <= 'Z'
  {
  }

  // Rows are accepted exactly when each of them is and no name comes twice.
  lemma {:induction false} ReadRowsAccept(lines: seq<string>, root: string, upper: string -> string)
    ensures ReadRows(lines, root, upper).Some? <==>
              && (forall k :: 0 <= k < |lines| ==> ReadRow(lines[k], root, upper).Some?)
              && (forall j, k :: 0 <= j < k < |lines| ==>
                    ReadRow(lines[j], root, upper).value.0 != ReadRow(lines[k], root, upper).value.0)
  {
    hide ReadRow;
    if lines != [] {
      var last := |lines| - 1;
      var front := lines[..last];
      ReadRowsAccept(front, root, upper);
      assert forall k :: 0 <= k < last ==> front[k] == lines[k];
      var rows := ReadRows(front, root, upper);
      if rows.Some? {
        ReadRowsMean(front, root, upper);
      }
    }
  }

  // They give each name its row, and nothing else.
  lemma {:induction false} ReadRowsMean(lines: seq<string>, root: string, upper: string -> string)
    requires ReadRows(lines, root, upper).Some?
    ensures var rows := ReadRows(lines, root, upper).value;
            && (forall name :: name in rows ==>
                  exists k :: 0 <= k < |lines| && ReadRow(lines[k], root, upper) == Some((name, rows[name])))
            && (forall k :: 0 <= k < |lines| ==>
                  && ReadRow(lines[k], root, upper).Some?
                  && ReadRow(lines[k], root, upper).value.0 in rows
                  && rows[ReadRow(lines[k], root, upper).value.0] == ReadRow(lines[k], root, upper).value.1)
  {
    hide ReadRow;
    if lines != [] {
      var last := |lines| - 1;
      var front := lines[..last];
      ReadRowsMean(front, root, upper);
      assert forall k :: 0 <= k < last ==> front[k] == lines[k];
    }
  }

  function ReadRows(lines: seq<string>, root: string, upper: string -> string): Option<map<string, Row>> {
    if lines == [] then Some(map[])
    else
      var last := |lines| - 1;
      match ReadRows(lines[..last], root, upper)
      case None => None
      case Some(rows) =>
        match ReadRow(lines[last], root, upper)
        case None => None
        case Some(row) => if row.0 in rows then None else Some(rows[row.0 := row.1])
  }

  function Read(text: string, root: string, upper: string -> string): Option<map<string, Row>> {
    var lines := SplitLines(text);
    if lines == [] || lines[0] != Header() then None else ReadRows(lines[1..], root, upper)
  }

  // Accepted are exactly the header and acceptable rows of different names; each name gets its row.
  ghost predicate ReadAs(lines: seq<string>, root: string, upper: string -> string, r: Option<map<string, Row>>) {
    && (r.Some? <==>
          && lines != [] && lines[0] == "# sha256\tkind\tbytes\tpath\ttarget"
          && (forall k :: 0 < k < |lines| ==> ReadRow(lines[k], root, upper).Some?)
          && (forall j, k :: 0 < j < k < |lines| ==>
                ReadRow(lines[j], root, upper).value.0 != ReadRow(lines[k], root, upper).value.0))
    && (r.Some? ==>
          forall name, row ::
            name in r.value && r.value[name] == row <==>
              exists k :: 0 < k < |lines| && ReadRow(lines[k], root, upper) == Some((name, row)))
  }

  lemma ReadExactly(text: string, root: string, upper: string -> string)
    ensures ReadAs(SplitLines(text), root, upper, Read(text, root, upper))
  {
    HeaderExactly();
    hide ReadRow, ReadRows, Header, SplitLines;
    var lines := SplitLines(text);
    if lines != [] {
      var body := lines[1..];
      assert forall k :: 0 <= k < |body| ==> body[k] == lines[k + 1];
      assert forall k :: 0 < k < |lines| ==> lines[k] == body[k - 1];
      ReadRowsAccept(body, root, upper);
      if ReadRows(body, root, upper).Some? {
        ReadRowsMean(body, root, upper);
      }
    }
  }

  method ReadManifest(text: string, root: string, upper: string -> string) returns (r: Option<map<string, Row>>)
    ensures r == Read(text, root, upper)
    ensures ReadAs(SplitLines(text), root, upper, r)
  {
    ReadExactly(text, root, upper);
    hide ReadRow, Header, ReadAs;
    var lines := SplitLines(text);
    if lines == [] || lines[0] != Header() {
      return None;
    }
    var rows: map<string, Row> := map[];
    ghost var body := lines[1..];
    for k := 1 to |lines|
      invariant ReadRows(body[..k - 1], root, upper) == Some(rows)
    {
      assert body[..k][..k - 1] == body[..k - 1] && body[..k][k - 1] == lines[k];
      var row := ReadRow(lines[k], root, upper);
      if row.None? || row.value.0 in rows {
        RejectedEarly(body, k, root, upper);
        return None;
      }
      rows := rows[row.value.0 := row.value.1];
    }
    assert body[..|lines| - 1] == body;
    return Some(rows);
  }

  lemma {:induction false} RejectedEarly(lines: seq<string>, k: nat, root: string, upper: string -> string)
    requires k <= |lines| && ReadRows(lines[..k], root, upper).None?
    ensures ReadRows(lines, root, upper).None?
    decreases |lines|
  {
    if k == |lines| {
      assert lines[..k] == lines;
    } else {
      assert lines[..|lines| - 1][..k] == lines[..k];
      RejectedEarly(lines[..|lines| - 1], k, root, upper);
    }
  }

  // ---------------------------------------------------------------- round trip

  // What the packager has checked of an entry before writing its row.
  predicate Packaged(entry: Entry, root: string, upper: string -> string) {
    && PortableArchivePath(entry.name, root, upper) && entry.name != root + "/BUNDLE_SHA256SUMS"
    && IsLowerHexDigest(entry.digest)
    && (entry.link.Some? ==> !UnsafeControl(entry.link.value))
  }

  ghost predicate AllPackaged(entries: seq<Entry>, root: string, upper: string -> string) {
    && (forall k :: 0 <= k < |entries| ==> Packaged(entries[k], root, upper))
    && (forall j, k :: 0 <= j < k < |entries| ==> entries[j].name != entries[k].name)
  }

  function RowsOf(entries: seq<Entry>): map<string, Row> {
    if entries == [] then map[]
    else
      var last := |entries| - 1;
      RowsOf(entries[..last])[entries[last].name := RowOf(entries[last])]
  }

  predicate HasHiddenBreak(entry: Entry) {
    exists c :: HiddenBreak(c) && (c in entry.name || (entry.link.Some? && c in entry.link.value))
  }

  function Fields(entry: Entry): seq<string> {
    var row := RowOf(entry);
    [row.digest, row.kind, Decimal.Print(row.size), entry.name, row.target]
  }

  // A character that is neither a tab nor a break, except for hidden breaks where they may be.
  predicate CleanIn(entry: Entry, c: char) {
    && c != '\t' && c != '\r'
    && (Breaks(c) ==> HiddenBreak(c) && (c in entry.name || (entry.link.Some? && c in entry.link.value)))
  }

  lemma CharacterOfField(entry: Entry, root: string, upper: string -> string, field: string, c: char)
    requires Packaged(entry, root, upper) && field in Fields(entry) && c in field
    ensures CleanIn(entry, c)
  {
    hide PortableArchivePath, CleanIn, UnsafeControl;
    var row := RowOf(entry);
    if field == entry.name || (entry.link.Some? && field == entry.link.value) {
      NameIsControlFree(entry.name, root, upper);
      ControlFreeIsClean(entry, field, c);
    } else if field == row.kind {
      CharacterOfKind(field, c);
      LettersAreClean(entry, c);
    } else if field == row.digest {
      assert c in "0123456789abcdef";
      DigitsAreClean(entry, c);
    } else {
      assert field == Decimal.Print(row.size) || field == "";
      LettersAreClean(entry, c);
    }
  }

  lemma ControlFreeIsClean(entry: Entry, field: string, c: char)
    requires c in field && !UnsafeControl(field)
    requires field == entry.name || (entry.link.Some? && field == entry.link.value)
    ensures CleanIn(entry, c)
  {
    assert !ControlCharacter(c);
  }

  lemma DigitsAreClean(entry: Entry, c: char)
    requires c in "0123456789abcdef"
    ensures CleanIn(entry, c)
  {
    assert '0' <= c <= 'z';
    LettersAreClean(entry, c);
  }

  lemma LettersAreClean(entry: Entry, c: char)
    requires '0' <= c <= 'z'
    ensures CleanIn(entry, c)
  {
  }

  lemma CharacterOfKind(kind: string, c: char)
    requires kind in {"FILE", "SYMLINK"} && c in kind
    ensures 'A' <= c <= 'Z'
  {
    assert c in "SYMLINK" || c in "FILE";
  }

  lemma NameIsControlFree(name: string, root: string, upper: string -> string)
    requires PortableArchivePath(name, root, upper)
    ensures !UnsafeControl(name)
  {
  }

  // A packaged entry's fields never hold a tab or a carriage return, and hold a line break only
  // where a hidden one was let through.
  lemma FieldsAreClean(entry: Entry, root: string, upper: string -> string)
    requires Packaged(entry, root, upper)
    ensures forall field, c :: field in Fields(entry) && c in field ==> c != '\t' && c != '\r'
    ensures (exists field, c :: field in Fields(entry) && c in field && Breaks(c)) <==> HasHiddenBreak(entry)
  {
    forall field, c | field in Fields(entry) && c in field
      ensures c != '\t' && c != '\r'
      ensures Breaks(c) ==> HiddenBreak(c) && (c in entry.name || (entry.link.Some? && c in entry.link.value))
    {
      CharacterOfField(entry, root, upper, field, c);
    }
    hide Packaged, Breaks;
    if HasHiddenBreak(entry) {
      var c :| HiddenBreak(c) && (c in entry.name || (entry.link.Some? && c in entry.link.value));
      assert Fields(entry)[3] == entry.name && (entry.link.Some? ==> Fields(entry)[4] == entry.link.value);
      var field := if c in entry.name then entry.name else entry.link.value;
      HiddenBreakBreaks(c);
      assert field in Fields(entry) && c in field && Breaks(c);
    }
  }

  lemma HiddenBreakBreaks(c: char)
    requires HiddenBreak(c)
    ensures Breaks(c)
  {
  }

  lemma LineIsClean(entry: Entry, root: string, upper: string -> string)
    requires Packaged(entry, root, upper)
    ensures '\r' !in Line(entry)
    ensures (exists c :: c in Line(entry) && Breaks(c)) <==> HasHiddenBreak(entry)
  {
    hide Packaged, HasHiddenBreak, Fields, RowOf;
    FieldsAreClean(entry, root, upper);
    assert Line(entry) == Join(Fields(entry), '\t') by {
      LineJoinsFields(entry);
    }
    JoinCharacters(Fields(entry), '\t');
    if c :| c in Line(entry) && Breaks(c) {
      var field :| field in Fields(entry) && c in field;
      assert HasHiddenBreak(entry);
    }
    if HasHiddenBreak(entry) {
      var field, c :| field in Fields(entry) && c in field && Breaks(c);
      JoinHolds(Fields(entry), field, c);
    }
  }

  lemma LineJoinsFields(entry: Entry)
    ensures Line(entry) == Join(Fields(entry), '\t')
  {
  }

  lemma {:induction false} JoinHolds(fields: seq<string>, field: string, c: char)
    requires field in fields && c in field
    ensures c in Join(fields, '\t')
  {
    if |fields| > 1 && field in fields[1..] {
      JoinHolds(fields[1..], field, c);
    }
  }

  lemma ReadWrittenRow(entry: Entry, root: string, upper: string -> string)
    requires Packaged(entry, root, upper)
    ensures ReadRow(Line(entry), root, upper) == Some((entry.name, RowOf(entry)))
  {
    hide PortableArchivePath, IsLowerHexDigest;
    FieldsAreClean(entry, root, upper);
    LineJoinsFields(entry);
    SplitJoin(Fields(entry), '\t');
    Decimal.ParsePrint(entry.size);
  }

  lemma {:induction false} RowsHoldNames(entries: seq<Entry>, name: string)
    ensures name in RowsOf(entries) <==> exists k :: 0 <= k < |entries| && entries[k].name == name
  {
    if entries != [] {
      RowsHoldNames(entries[..|entries| - 1], name);
      if k :| 0 <= k < |entries| && entries[k].name == name {
        assert k == |entries| - 1 || entries[..|entries| - 1][k].name == name;
      }
    }
  }

  lemma {:induction false} ReadWrittenRows(entries: seq<Entry>, root: string, upper: string -> string)
    requires AllPackaged(entries, root, upper)
    ensures ReadRows(Lines(entries), root, upper) == Some(RowsOf(entries))
    decreases |entries|
  {
    hide Packaged, ReadRow, RowOf, Line;
    if entries != [] {
      var last := |entries| - 1;
      ReadWrittenRows(entries[..last], root, upper);
      assert Lines(entries)[..last] == Lines(entries[..last]);
      ReadWrittenRow(entries[last], root, upper);
      RowsHoldNames(entries[..last], entries[last].name);
    }
  }

  lemma WrittenIsTerminated(entries: seq<Entry>)
    ensures Written(entries) == Terminated([Header()] + Lines(entries))
  {
    JoinIsTerminated([Header()] + Lines(entries));
  }

  lemma TitlesArePlain()
    ensures |TITLES| == 5
    ensures forall title, c :: title in TITLES && c in title ==> ' ' <= c <= '~'
  {
    forall title, c | title in TITLES && c in title
      ensures ' ' <= c <= '~'
    {
      assert c in "# sha256" || c in "kind" || c in "bytes" || c in "path" || c in "target";
    }
  }

  lemma HeaderIsClean()
    ensures forall c :: c in Header() ==> !Breaks(c) && c != '\r'
    ensures Tabs(Header()) == 4
  {
    hide Join, Split, Tabs;
    var titles := TITLES;
    TitlesArePlain();
    JoinCharacters(titles, '\t');
    SplitJoin(titles, '\t');
    TabsOfFields(Header());
  }

  // Without hidden line breaks the verifier reads back exactly the packager's rows.
  lemma CleanEntriesRoundTrip(entries: seq<Entry>, root: string, upper: string -> string)
    requires AllPackaged(entries, root, upper)
    requires forall k :: 0 <= k < |entries| ==> !HasHiddenBreak(entries[k])
    ensures Read(Written(entries), root, upper) == Some(RowsOf(entries))
  {
    hide Packaged, HasHiddenBreak, Line, ReadRow, Header, Breaks, SplitLines, Terminated, Written, ReadRows, RowsOf;
    WrittenIsTerminated(entries);
    var lines := [Header()] + Lines(entries);
    forall line, c | line in lines && c in line
      ensures !Breaks(c)
    {
      HeaderIsClean();
      if line != Header() {
        var k :| 0 <= k < |entries| && line == Line(entries[k]);
        LineIsClean(entries[k], root, upper);
      }
    }
    SplitTerminated(lines);
    assert lines[1..] == Lines(entries);
    ReadWrittenRows(entries, root, upper);
  }

  // A hidden line break makes one line too many for the tabs there are, so some row is malformed.
  lemma HiddenBreaksAreRejected(entries: seq<Entry>, root: string, upper: string -> string, bad: nat)
    requires AllPackaged(entries, root, upper)
    requires bad < |entries| && HasHiddenBreak(entries[bad])
    ensures Read(Written(entries), root, upper) == None
  {
    hide Packaged, HasHiddenBreak, Line, ReadRow, Header, Breaks, SplitLines, Terminated, Written, ReadRows, RowsOf;
    WrittenIsTerminated(entries);
    HeaderIsClean();
    var lines := [Header()] + Lines(entries);
    forall line | line in lines
      ensures '\r' !in line
    {
      if line != Header() {
        var k :| 0 <= k < |entries| && line == Line(entries[k]);
        LineIsClean(entries[k], root, upper);
      }
    }
    LineIsClean(entries[bad], root, upper);
    var c :| c in Line(entries[bad]) && Breaks(c);
    assert lines[bad + 1] in lines;
    CountTerminated(lines);
    var split := SplitLines(Written(entries));
    SplittingKeepsTabs(Written(entries));
    TabsOfTerminated(lines);
    TabsOfWritten(entries, root, upper);
    assert TotalTabs(split) == 4 * |lines| < 4 * |split|;
    if Read(Written(entries), root, upper).Some? {
      ReadRowsHaveFiveFields(split[1..], root, upper);
      FiveFieldsEach(split[1..]);
      assert false;
    }
  }

  lemma {:induction false} TabsOfLines(entries: seq<Entry>, root: string, upper: string -> string)
    requires forall k :: 0 <= k < |entries| ==> Packaged(entries[k], root, upper)
    ensures TotalTabs(Lines(entries)) == 4 * |entries|
  {
    hide Packaged, Line;
    if entries != [] {
      TabsOfLines(entries[1..], root, upper);
      TabsOfLine(entries[0], root, upper);
      assert Lines(entries)[1..] == Lines(entries[1..]);
    }
  }

  lemma TabsOfLine(entry: Entry, root: string, upper: string -> string)
    requires Packaged(entry, root, upper)
    ensures Tabs(Line(entry)) == 4
  {
    FieldsAreClean(entry, root, upper);
    LineJoinsFields(entry);
    SplitJoin(Fields(entry), '\t');
    TabsOfFields(Line(entry));
  }

  lemma TabsOfWritten(entries: seq<Entry>, root: string, upper: string -> string)
    requires forall k :: 0 <= k < |entries| ==> Packaged(entries[k], root, upper)
    ensures TotalTabs([Header()] + Lines(entries)) == 4 * (|entries| + 1)
  {
    hide Packaged, Line, Header, Breaks, Tabs;
    HeaderIsClean();
    TabsOfLines(entries, root, upper);
    assert ([Header()] + Lines(entries))[1..] == Lines(entries);
  }

  lemma {:induction false} ReadRowsHaveFiveFields(lines: seq<string>, root: string, upper: string -> string)
    requires ReadRows(lines, root, upper).Some?
    ensures forall k :: 0 <= k < |lines| ==> |Split(lines[k], '\t')| == 5
    decreases |lines|
  {
    hide PortableArchivePath, IsLowerHexDigest, Split;
    if lines != [] {
      ReadRowsHaveFiveFields(lines[..|lines| - 1], root, upper);
    }
  }

  // The round trip holds exactly when no name and no link target holds U+0085, U+2028 or U+2029;
  // those pass the packager's own checks.
  lemma RoundTripExactly(entries: seq<Entry>, root: string, upper: string -> string)
    requires AllPackaged(entries, root, upper)
    ensures Read(Written(entries), root, upper) == Some(RowsOf(entries))
            <==> forall k :: 0 <= k < |entries| ==> !HasHiddenBreak(entries[k])
  {
    hide Packaged, HasHiddenBreak, Read, Written, RowsOf;
    if forall k :: 0 <= k < |entries| ==> !HasHiddenBreak(entries[k]) {
      CleanEntriesRoundTrip(entries, root, upper);
    } else {
      var k :| 0 <= k < |entries| && HasHiddenBreak(entries[k]);
      HiddenBreaksAreRejected(entries, root, upper, k);
    }
  }

  // Such entries do get packaged: give any link a target that is one line separator.
  lemma HiddenBreaksGetPackaged(entry: Entry, root: string, upper: string -> string)
    requires Packaged(entry, root, upper)
    ensures var odd := entry.(link := Some("\U{2028}")); Packaged(odd, root, upper) && HasHiddenBreak(odd)
  {
    hide PortableArchivePath;
    assert '\U{2028}' in "\U{2028}";
  }

  // The rows read back determine each entry.
  lemma RowsDetermineEntries(entries: seq<Entry>, k: nat)
    requires k < |entries| && forall i, j :: 0 <= i < j < |entries| ==> entries[i].name != entries[j].name
    ensures var entry := entries[k];
            && entry.name in RowsOf(entries)
            && RowsOf(entries)[entry.name]
               == (if entry.link.Some? then Row(entry.digest, "SYMLINK", entry.size, entry.link.value)
                   else Row(entry.digest, "FILE", entry.size, ""))
    decreases |entries|
  {
    var last := |entries| - 1;
    if k < last {
      RowsDetermineEntries(entries[..last], k);
    }
  }
}
