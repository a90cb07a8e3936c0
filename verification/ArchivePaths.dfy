/** Which archive member names are accepted: the canonical spellings, and nothing else. */
module ArchivePaths {
  import opened PosixPath

  const WINDOWS_RESERVED_BASENAMES: set<string> := {
    "CLOCK$", "CON", "CONIN$", "CONOUT$", "PRN", "AUX", "NUL",
    "COM1", "COM2", "COM3", "COM4", "COM5", "COM6", "COM7", "COM8", "COM9",
    "LPT1", "LPT2", "LPT3", "LPT4", "LPT5", "LPT6", "LPT7", "LPT8", "LPT9",
    "COM\U{00B9}", "COM\U{00B2}", "COM\U{00B3}", "LPT\U{00B9}", "LPT\U{00B2}", "LPT\U{00B3}" }

  predicate ControlCharacter(c: char) {
    (c as int) < 32 || (c as int) == 127
  }

  predicate UnsafeControl(value: string) {
    exists c :: c in value && ControlCharacter(c)
  }

  function Utf8Length(value: string): nat {
    if value == "" then 0
    else
      var code := value[0] as int;
      (if code < 0x80 then 1 else if code < 0x800 then 2 else if code < 0x1_0000 then 3 else 4)
      + Utf8Length(value[1..])
  }

  // component.split(".", 1)[0].rstrip(" .")
  function Basename(component: string): string {
    StripEnd(Split(component, '.')[0])
  }

  function StripEnd(s: string): string {
    if s == "" || s[|s| - 1] !in " ." then s else StripEnd(s[..|s| - 1])
  }

  // `upper` is str.upper.
  predicate PortableComponent(component: string, upper: string -> string) {
    && component !in {"", ".", ".."}
    && !UnsafeControl(component) && Utf8Length(component) <= 255
    && component[|component| - 1] !in " ."
    && (forall c :: c in component ==> c !in "<>:\"/\\|?*")
    && upper(Basename(component)) !in WINDOWS_RESERVED_BASENAMES
  }

  // ---------------------------------------------------------------- the component rules, spelled out

  // How many of the characters have this code point or a higher one.
  function AtLeast(value: string, code: int): nat {
    if value == "" then 0 else (if value[0] as int >= code then 1 else 0) + AtLeast(value[1..], code)
  }

  // A character takes one byte, and one more from each of three code points on.
  lemma {:induction false} Utf8LengthExactly(value: string)
    ensures Utf8Length(value)
            == |value| + AtLeast(value, 128) + AtLeast(value, 2048) + AtLeast(value, 65536)
  {
    if value != "" {
      Utf8LengthExactly(value[1..]);
    }
  }

  // The stem goes up to the dot, or to the end, except for the spaces right before it.
  ghost predicate StemBefore(component: string, stem: string, dot: nat) {
    && |stem| <= dot <= |component| && (dot < |component| ==> component[dot] == '.')
    && forall k :: |stem| <= k < dot ==> component[k] == ' '
  }

  // What stands before the first dot, without the spaces that end it.
  lemma BasenameExactly(component: string)
    ensures var stem := Basename(component);
            && stem <= component && '.' !in stem && (stem != "" ==> stem[|stem| - 1] != ' ')
            && exists dot :: StemBefore(component, stem, dot)
  {
    var first := Split(component, '.')[0];
    assert Free(first, '.');
    SplitFirst(component, '.');
    StripEndExactly(first);
    hide Split, StripEnd;
    var stem := Basename(component);
    assert stem == StripEnd(first);
    forall k | |stem| <= k < |first|
      ensures component[k] == ' '
    {
      assert component[k] == first[k] && first[k] in first;
    }
    assert StemBefore(component, stem, |first|);
  }

  lemma {:induction false} SplitFirst(s: string, sep: char)
    ensures var first := Split(s, sep)[0];
            first <= s && (|first| < |s| ==> s[|first|] == sep)
  {
    if s != "" && s[0] != sep {
      SplitFirst(s[1..], sep);
    }
  }

  lemma {:induction false} StripEndExactly(s: string)
    ensures StripEnd(s) <= s && (StripEnd(s) != "" ==> StripEnd(s)[|StripEnd(s)| - 1] !in " .")
    ensures forall k :: |StripEnd(s)| <= k < |s| ==> s[k] in " ."
  {
    if s != "" && s[|s| - 1] in " ." {
      StripEndExactly(s[..|s| - 1]);
    }
  }

  lemma ReservedExactly(stem: string)
    ensures stem in WINDOWS_RESERVED_BASENAMES <==>
              || stem in ["CON", "PRN", "AUX", "NUL", "CLOCK$", "CONIN$", "CONOUT$"]
              || (|stem| == 4 && [stem[0], stem[1], stem[2]] in ["COM", "LPT"]
                  && (stem[3] in "123456789" || stem[3] as int in {0xB9, 0xB2, 0xB3}))
  {
    if |stem| == 4 {
      assert stem == [stem[0], stem[1], stem[2], stem[3]];
    }
  }

  lemma PortableComponentExactly(component: string, upper: string -> string)
    ensures PortableComponent(component, upper) <==>
              && component !in ["", ".", ".."] && component[|component| - 1] !in [' ', '.']
              && (forall c :: c in component ==>
                    32 <= c as int != 127 && c !in ['<', '>', ':', '"', '/', '\\', '|', '?', '*'])
              && Utf8Length(component) <= 255
              && var stem := upper(Basename(component));
                 && stem !in ["CON", "PRN", "AUX", "NUL", "CLOCK$", "CONIN$", "CONOUT$"]
                 && !(|stem| == 4 && [stem[0], stem[1], stem[2]] in ["COM", "LPT"]
                      && (stem[3] in "123456789" || stem[3] as int in {0xB9, 0xB2, 0xB3}))
  {
    ReservedExactly(upper(Basename(component)));
    hide Utf8Length, Basename;
  }

  predicate PortableArchivePath(value: string, root: string, upper: string -> string) {
    && !UnsafeControl(value) && '\\' !in value && !IsAbsolute(value)
    && var parts := Parts(value);
    && ".." !in parts && parts != [] && parts[0] == root
    && AsPosix(parts) == value
    && forall component :: component in parts ==> PortableComponent(component, upper)
  }

  predicate PortableParts(parts: seq<string>, root: string, upper: string -> string) {
    parts != [] && parts[0] == root && forall component :: component in parts ==> PortableComponent(component, upper)
  }

  // A name is accepted exactly when it is the slash-join of valid components led by the root.
  lemma AcceptsExactlyCanonicalNames(value: string, root: string, upper: string -> string)
    ensures PortableArchivePath(value, root, upper) <==>
              exists parts :: PortableParts(parts, root, upper) && value == Join(parts, '/')
  {
    hide PortableComponent;
    if PortableArchivePath(value, root, upper) {
      AcceptedNamesAreCanonical(value, root, upper);
    }
    if exists parts :: PortableParts(parts, root, upper) && value == Join(parts, '/') {
      var parts :| PortableParts(parts, root, upper) && value == Join(parts, '/');
      CanonicalNamesAreAccepted(parts, root, upper);
    }
  }

  lemma ComponentHasNoSlash(component: string, upper: string -> string)
    requires PortableComponent(component, upper)
    ensures component !in {"", ".", "..", "/", "//"} && Free(component, '/') && Free(component, '\\')
    ensures !UnsafeControl(component)
  {
    assert '/' in "<>:\"/\\|?*" && '\\' in "<>:\"/\\|?*";
    assert '/' in "/" && '/' in "//";
  }

  // Splitting an accepted name and joining it again is the identity, no two accepted names have the
  // same components, and no component leads out of the root.
  lemma AcceptedNamesAreCanonical(value: string, root: string, upper: string -> string)
    requires PortableArchivePath(value, root, upper)
    ensures PortableParts(Parts(value), root, upper) && value == Join(Parts(value), '/')
    ensures Parts(value) == Split(value, '/')
  {
    hide PortableComponent;
    var parts := Parts(value);
    forall component | component in parts
      ensures component !in {"/", "//", "", "."} && Free(component, '/')
    {
      ComponentHasNoSlash(component, upper);
    }
    assert parts[0] in parts;
    SplitJoin(parts, '/');
  }

  lemma CanonicalNamesAreAccepted(parts: seq<string>, root: string, upper: string -> string)
    requires PortableParts(parts, root, upper)
    ensures PortableArchivePath(Join(parts, '/'), root, upper) && Parts(Join(parts, '/')) == parts
  {
    hide PortableComponent;
    var value := Join(parts, '/');
    forall component | component in parts
      ensures component !in {"", ".", "..", "/", "//"} && Free(component, '/') && Free(component, '\\')
      ensures !UnsafeControl(component)
    {
      ComponentHasNoSlash(component, upper);
    }
    assert parts[0] in parts;
    JoinIsRelative(parts);
    JoinIsSafe(parts);
    hide Join, Split, UnsafeControl;
    SplitJoin(parts, '/');
    assert Significant(parts) == parts;
  }

  lemma JoinIsRelative(parts: seq<string>)
    requires parts != [] && parts[0] != "" && Free(parts[0], '/')
    ensures !IsAbsolute(Join(parts, '/'))
  {
    assert Join(parts, '/')[0] == parts[0][0] && parts[0][0] in parts[0];
  }

  lemma JoinIsSafe(parts: seq<string>)
    requires forall component :: component in parts ==> Free(component, '\\') && !UnsafeControl(component)
    ensures !UnsafeControl(Join(parts, '/')) && '\\' !in Join(parts, '/')
  {
    JoinCharacters(parts, '/');
    hide Join;
  }

  lemma DistinctNamesHaveDistinctComponents(a: string, b: string, root: string, upper: string -> string)
    requires PortableArchivePath(a, root, upper) && PortableArchivePath(b, root, upper)
    requires Parts(a) == Parts(b)
    ensures a == b
  {
    AcceptedNamesAreCanonical(a, root, upper);
    AcceptedNamesAreCanonical(b, root, upper);
  }
}
