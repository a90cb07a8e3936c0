/** Text paths: splitting on a separator, joining, and the parts of a PurePosixPath. */
module PosixPath {
  predicate Free(s: string, sep: char) {
    sep !in s
  }

  // str.split(sep)
  function Split(s: string, sep: char): (parts: seq<string>)
    ensures |parts| >= 1
    ensures forall k :: 0 <= k < |parts| ==> Free(parts[k], sep)
  {
    if s == [] then [""]
    else
      var rest := Split(s[1..], sep);
      if s[0] == sep then [""] + rest else [[s[0]] + rest[0]] + rest[1..]
  }

  // sep.join(parts)
  function Join(parts: seq<string>, sep: char): string {
    if parts == [] then ""
    else if |parts| == 1 then parts[0]
    else parts[0] + [sep] + Join(parts[1..], sep)
  }

  lemma {:induction false} SplitPrefix(head: string, tail: string, sep: char)
    requires Free(head, sep)
    ensures Split(head + [sep] + tail, sep) == [head] + Split(tail, sep)
  {
    var s := head + [sep] + tail;
    if head == [] {
      assert s[1..] == tail;
    } else {
      assert s[1..] == head[1..] + [sep] + tail;
      assert head[0] in head;
      SplitPrefix(head[1..], tail, sep);
      assert [head[0]] + head[1..] == head;
    }
  }

  lemma {:induction false} SplitFree(s: string, sep: char)
    requires Free(s, sep)
    ensures Split(s, sep) == [s]
  {
    if s != [] {
      assert s[0] in s;
      SplitFree(s[1..], sep);
      assert [s[0]] + s[1..] == s;
    }
  }

  lemma {:induction false} SplitJoin(parts: seq<string>, sep: char)
    requires parts != [] && forall k :: 0 <= k < |parts| ==> Free(parts[k], sep)
    ensures Split(Join(parts, sep), sep) == parts
  {
    if |parts| == 1 {
      SplitFree(parts[0], sep);
    } else {
      SplitPrefix(parts[0], Join(parts[1..], sep), sep);
      SplitJoin(parts[1..], sep);
    }
  }

  // A join holds only its components' characters and the separator.
  lemma {:induction false} JoinSplit(s: string, sep: char)
    ensures Join(Split(s, sep), sep) == s
  {
    if s != "" {
      JoinSplit(s[1..], sep);
    }
  }

  lemma {:induction false} JoinCharacters(parts: seq<string>, sep: char)
    ensures forall c :: c in Join(parts, sep) ==> c == sep || exists part :: part in parts && c in part
  {
    if |parts| == 1 {
      assert parts[0] in parts;
    } else if |parts| > 1 {
      JoinCharacters(parts[1..], sep);
      forall c | c in Join(parts, sep)
        ensures c == sep || exists part :: part in parts && c in part
      {
        if c in parts[0] {
          assert parts[0] in parts;
        } else if c != sep {
          assert c in Join(parts[1..], sep);
          var part :| part in parts[1..] && c in part;
          assert part in parts;
        }
      }
    }
  }

  // The parts a PurePosixPath keeps of a split string: empty and "." components collapse away.
  function Significant(parts: seq<string>): (kept: seq<string>)
    ensures forall k :: 0 <= k < |kept| ==> kept[k] in parts && kept[k] !in {"", "."}
    ensures (forall k :: 0 <= k < |parts| ==> parts[k] !in {"", "."}) ==> kept == parts
    ensures |kept| <= |parts|
    ensures |kept| == |parts| ==> kept == parts
  {
    if parts == [] then []
    else if parts[0] in {"", "."} then Significant(parts[1..])
    else [parts[0]] + Significant(parts[1..])
  }

  // Empty components and "." are dropped, nothing else, and the order stays.
  lemma {:induction false} SignificantInTwo(a: seq<string>, b: seq<string>)
    ensures Significant(a + b) == Significant(a) + Significant(b)
  {
    if a == [] {
      assert a + b == b;
    } else {
      assert (a + b)[1..] == a[1..] + b;
      SignificantInTwo(a[1..], b);
    }
  }

  lemma SignificantAlone(c: string)
    ensures Significant([c]) == if c == "" || c == "." then [] else [c]
  {
    assert [c][1..] == [];
  }

  predicate IsAbsolute(value: string) {
    value != [] && value[0] == '/'
  }

  // PurePosixPath(value).parts: an absolute path leads with its root, "/" or exactly "//".
  function Parts(value: string): seq<string> {
    var names := Significant(Split(value, '/'));
    if !IsAbsolute(value) then names
    else if |value| >= 2 && value[1] == '/' && (|value| == 2 || value[2] != '/') then ["//"] + names
    else ["/"] + names
  }

  // PurePosixPath.as_posix()
  function AsPosix(parts: seq<string>): string {
    if parts == [] then "."
    else if parts[0] in {"/", "//"} then parts[0] + Join(parts[1..], '/')
    else Join(parts, '/')
  }
}
