/** The part of the bill of materials that comes from Cargo.lock, and the merging of graphs. */
module CargoGraph {
  import opened Wrappers
  import opened StringOrder
  import opened Sets
  import Digests

  datatype Package = Package(
    name: string, version: string, source: Option<string>, checksum: Option<string>, dependencies: seq<string>,
    ref: string)

  // ---------------------------------------------------------------- resolving an entry

  // The characters str.split() splits on.
  predicate Space(c: char) {
    || c in " \t\n\r\U{000B}\U{000C}\U{001C}\U{001D}\U{001E}\U{001F}"
    || c in "\U{0085}\U{00A0}\U{1680}\U{2028}\U{2029}\U{202F}\U{205F}\U{3000}"
    || '\U{2000}' <= c <= '\U{200A}'
  }

  predicate Word(s: string) {
    s != "" && forall k :: 0 <= k < |s| ==> !Space(s[k])
  }

  function WordLength(s: string): (n: nat)
    ensures n <= |s|
  {
    if s == "" || Space(s[0]) then 0 else 1 + WordLength(s[1..])
  }

  function Words(s: string): seq<string>
    decreases |s|
  {
    if s == "" then []
    else if Space(s[0]) then Words(s[1..])
    else
      var n := WordLength(s);
      [s[..n]] + Words(s[n..])
  }

  // Those are, by code point:
  lemma SpaceExactly(c: char)
    ensures Space(c) <==>
              var code := c as int;
              || 9 <= code <= 13 || 28 <= code <= 32 || code in {0x85, 0xA0, 0x1680}
              || 0x2000 <= code <= 0x200A || code in {0x2028, 0x2029, 0x202F, 0x205F, 0x3000}
  {
  }

  lemma {:induction false} LengthOfWord(word: string, rest: string)
    requires Word(word) && (rest == "" || Space(rest[0]))
    ensures WordLength(word + rest) == |word|
    decreases |word|
  {
    var s := word + rest;
    assert s[0] == word[0];
    if |word| > 1 {
      assert s[1..] == word[1..] + rest;
      LengthOfWord(word[1..], rest);
    } else {
      assert s[1..] == rest;
    }
  }

  // Words are what stands between spaces.
  lemma FirstWord(word: string, rest: string)
    requires Word(word) && (rest == "" || Space(rest[0]))
    ensures Words(word + rest) == [word] + if rest == "" then [] else Words(rest[1..])
  {
    var s := word + rest;
    LengthOfWord(word, rest);
    assert s[0] == word[0] && s[..|word|] == word && s[|word|..] == rest;
  }

  lemma NoWord(c: char, rest: string)
    requires Space(c)
    ensures Words([c] + rest) == Words(rest)
  {
    assert ([c] + rest)[1..] == rest;
  }

  // str.find("(")
  function Find(s: string, c: char): (r: Option<nat>)
    ensures r.Some? ==> r.value < |s| && s[r.value] == c
    ensures forall k :: 0 <= k < |s| && (r.Some? ==> k < r.value) ==> s[k] != c
  {
    if s == "" then None
    else if s[0] == c then Some(0)
    else
      match Find(s[1..], c)
      case None => None
      case Some(k) => Some(k + 1)
  }

  datatype Entry = Entry(name: string, version: Option<string>, source: Option<string>)

  function ParseEntry(specification: string): Option<Entry> {
    var parts := Words(specification);
    if parts == [] then None
    else
      var version := if |parts| >= 2 && !(parts[1] != "" && parts[1][0] == '(') then Some(parts[1]) else None;
      match Find(specification, '(')
      case None => Some(Entry(parts[0], version, None))
      case Some(start) =>
        if specification[|specification| - 1] != ')' then None
        else Some(Entry(parts[0], version, Some(specification[start + 1..|specification| - 1])))
  }

  predicate Matches(package: Package, entry: Entry) {
    && package.name == entry.name
    && (entry.version.Some? ==> package.version == entry.version.value)
    && (entry.source.Some? ==> package.source == entry.source)
  }

  function Candidates(packages: seq<Package>, entry: Entry): (found: seq<Package>)
    ensures forall p :: p in found <==> p in packages && Matches(p, entry)
  {
    if packages == [] then []
    else (if Matches(packages[0], entry) then [packages[0]] else []) + Candidates(packages[1..], entry)
  }

  function DependencyTarget(specification: string, packages: seq<Package>): Option<string> {
    match ParseEntry(specification)
    case None => None
    case Some(entry) =>
      var found := Candidates(packages, entry);
      if |found| == 1 then Some(found[0].ref) else None
  }

  // One [[package]] table of a Cargo.lock.
  datatype RawPackage = RawPackage(
    name: string, version: string, source: Option<string>, checksum: Option<string>, dependencies: seq<string>)

  type Purl = (string, string, Option<string>) -> string

  function PackageOf(raw: RawPackage, purl: Purl): Package {
    Package(raw.name, raw.version, raw.source, raw.checksum, raw.dependencies,
            purl(raw.name, raw.version, raw.source))
  }

  // A checksum is a printed SHA-256, and a package from a registry has one.
  predicate WellFormed(raw: RawPackage) {
    && raw.name != "" && raw.version != "" && "" !in raw.dependencies
    && (raw.checksum.Some? ==> Digests.IsLowerHexDigest(raw.checksum.value))
    && (raw.source.Some? && "registry+" <= raw.source.value ==> raw.checksum.Some?)
  }

  lemma ChecksumExactly(table: RawPackage)
    ensures table.checksum.Some? ==>
              (Digests.IsLowerHexDigest(table.checksum.value) <==>
                && |table.checksum.value| == 64
                && forall c :: c in table.checksum.value ==> '0' <= c <= '9' || 'a' <= c <= 'f')
  {
  }

  ghost predicate InRefOrder(packages: seq<Package>) {
    forall j, k :: 0 <= j < k < |packages| ==> Less(packages[j].ref, packages[k].ref)
  }

  lemma OrderIsDistinct(packages: seq<Package>)
    requires InRefOrder(packages)
    ensures forall j, k :: 0 <= j < k < |packages| ==> packages[j].ref != packages[k].ref
  {
    forall j, k | 0 <= j < k < |packages|
      ensures packages[j].ref != packages[k].ref
    {
      LessIsIrreflexive(packages[j].ref);
    }
  }

  function PackageRefs(packages: seq<Package>): set<string> {
    set p | p in packages :: p.ref
  }

  // What parsing a Cargo.lock guarantees: `purl` names packages and no name is given twice.
  ghost predicate Parsed(packages: seq<Package>, purl: Purl) {
    && (forall p :: p in packages ==> p.ref == purl(p.name, p.version, p.source))
    && (forall j, k :: 0 <= j < k < |packages| ==> packages[j].ref != packages[k].ref)
  }

  // Reads the packages, refusing a repeated identity, and sorts them by reference.
  method ParsePackages(raw: seq<RawPackage>, purl: Purl) returns (r: Option<seq<Package>>)
    ensures r.Some? ==>
              && Parsed(r.value, purl) && |r.value| == |raw| && InRefOrder(r.value)
              && forall p ::
                   p in r.value <==>
                     exists k :: 0 <= k < |raw| && var table := raw[k];
                                 p == Package(table.name, table.version, table.source, table.checksum,
                                              table.dependencies, purl(table.name, table.version, table.source))
    ensures r.Some? <==>
              && raw != []
              && (forall k :: 0 <= k < |raw| ==>
                    var table := raw[k];
                    && table.name != "" && table.version != "" && "" !in table.dependencies
                    && (table.checksum.Some? ==>
                          && |table.checksum.value| == 64
                          && forall c :: c in table.checksum.value ==> '0' <= c <= '9' || 'a' <= c <= 'f')
                    && (table.source.Some? && "registry+" <= table.source.value ==> table.checksum.Some?))
              && forall j, k :: 0 <= j < k < |raw| ==>
                   purl(raw[j].name, raw[j].version, raw[j].source) != purl(raw[k].name, raw[k].version, raw[k].source)
  {
    hide Digests.IsLowerHexDigest;
    if raw == [] {
      return None;
    }
    forall k | 0 <= k < |raw| {
      ChecksumExactly(raw[k]);
    }
    var packages: seq<Package> := [];
    var refs: set<string> := {};
    for n := 0 to |raw|
      invariant |packages| == n && Parsed(packages, purl)
      invariant forall k :: 0 <= k < n ==> WellFormed(raw[k]) && packages[k] == PackageOf(raw[k], purl)
      invariant forall ref :: ref in refs <==> exists k :: 0 <= k < n && packages[k].ref == ref
    {
      var package := PackageOf(raw[n], purl);
      if !WellFormed(raw[n]) || package.ref in refs {
        return None;
      }
      refs := refs + {package.ref};
      packages := packages + [package];
    }
    var sorted := SortedByRef(packages);
    OrderIsDistinct(sorted);
    return Some(sorted);
  }

  // sorted(packages, key=lambda package: package.ref)
  method SortedByRef(packages: seq<Package>) returns (sorted: seq<Package>)
    requires forall j, k :: 0 <= j < k < |packages| ==> packages[j].ref != packages[k].ref
    ensures |sorted| == |packages| && forall p :: p in sorted <==> p in packages
    ensures InRefOrder(sorted)
  {
    hide InRefOrder;
    var index := PackagesByRef(packages);
    sorted := InOrder(index);
  }

  method PackagesByRef(packages: seq<Package>) returns (index: map<string, Package>)
    requires forall j, k :: 0 <= j < k < |packages| ==> packages[j].ref != packages[k].ref
    ensures |index| == |packages|
    ensures forall ref :: ref in index ==> index[ref].ref == ref && index[ref] in packages
    ensures forall p :: p in packages ==> p.ref in index && index[p.ref] == p
  {
    index := map[];
    for n := 0 to |packages|
      invariant |index| == n
      invariant forall k :: 0 <= k < n ==> packages[k].ref in index && index[packages[k].ref] == packages[k]
      invariant forall ref :: ref in index ==>
                  exists k :: 0 <= k < n && packages[k].ref == ref && index[ref] == packages[k]
    {
      index := index[packages[n].ref := packages[n]];
    }
  }

  method InOrder(index: map<string, Package>) returns (sorted: seq<Package>)
    requires forall ref :: ref in index ==> index[ref].ref == ref
    ensures |sorted| == |index| && InRefOrder(sorted)
    ensures forall p: Package :: p in sorted <==> p.ref in index && index[p.ref] == p
  {
    var refs := Sorted(index.Keys);
    sorted := [];
    for n := 0 to |refs|
      invariant |sorted| == n
      invariant forall k :: 0 <= k < n ==> refs[k] in index && sorted[k] == index[refs[k]]
    {
      assert refs[n] in refs;
      sorted := sorted + [index[refs[n]]];
    }
    assert forall k :: 0 <= k < |sorted| ==> sorted[k].ref == refs[k];
    forall p: Package | p.ref in index && index[p.ref] == p
      ensures p in sorted
    {
      assert p.ref in refs;
      var k :| 0 <= k < |refs| && refs[k] == p.ref;
      assert sorted[k] == p;
    }
  }

  // Every resolved entry leads to a package of the same lockfile.
  lemma TargetsStayInTheLock(specification: string, packages: seq<Package>)
    requires DependencyTarget(specification, packages).Some?
    ensures var entry := ParseEntry(specification).value;
            exists p :: p in packages && p.ref == DependencyTarget(specification, packages).value
                        && p.name == entry.name && entry.version in {None, Some(p.version)}
                        && (entry.source.Some? ==> p.source == entry.source)
                        && forall q :: q in packages && q != p ==>
                             || q.name != entry.name || entry.version !in {None, Some(q.version)}
                             || (entry.source.Some? && q.source != entry.source)
  {
    var found := Candidates(packages, ParseEntry(specification).value);
    assert found[0] in found;
    assert forall q :: q in found ==> q == found[0];
    assert Matches(found[0], ParseEntry(specification).value);
  }

  // What the four spellings of an entry mean.
  lemma EntriesParse(name: string, version: string, source: string)
    requires Word(name) && Word(version) && '(' !in name && '(' !in version
    ensures ParseEntry(name) == Some(Entry(name, None, None))
    ensures ParseEntry(name + " " + version) == Some(Entry(name, Some(version), None))
    ensures ParseEntry(name + " (" + source + ")") == Some(Entry(name, None, Some(source)))
    ensures ParseEntry(name + " " + version + " (" + source + ")") == Some(Entry(name, Some(version), Some(source)))
  {
    hide *;
    NameParses(name);
    NameAndVersionParse(name, version);
    NameAndSourceParse(name, source);
    FullEntryParses(name, version, source);
  }

  lemma NameParses(name: string)
    requires Word(name) && '(' !in name
    ensures ParseEntry(name) == Some(Entry(name, None, None))
  {
    assert name + "" == name;
    hide Words;
    FirstWord(name, "");
  }

  lemma NameAndVersionParse(name: string, version: string)
    requires Word(name) && Word(version) && '(' !in name && '(' !in version
    ensures ParseEntry(name + " " + version) == Some(Entry(name, Some(version), None))
  {
    var s, rest := name + " " + version, " " + version;
    assert s == name + rest && rest[1..] == version && version + "" == version && version[0] in version;
    hide Words;
    FirstWord(name, rest);
    FirstWord(version, "");
    assert Words(s) == [name, version];
    assert Find(s, '(').Some? ==> '(' in name || '(' in version;
  }

  lemma NameAndSourceParse(name: string, source: string)
    requires Word(name) && '(' !in name
    ensures ParseEntry(name + " (" + source + ")") == Some(Entry(name, None, Some(source)))
  {
    hide Words, Find, Word;
    NameAndSourceWords(name, source);
    SourceIsFound(name + " ", source);
    assert name + " (" + source + ")" == name + " " + "(" + source + ")";
  }

  lemma NameAndSourceWords(name: string, source: string)
    requires Word(name)
    ensures var words := Words(name + " (" + source + ")");
            |words| >= 2 && words[0] == name && words[1] != "" && words[1][0] == '('
  {
    var tail := "(" + source + ")";
    assert name + " (" + source + ")" == name + (" " + tail) && (" " + tail)[1..] == tail;
    hide Words, Word;
    FirstWord(name, " " + tail);
    OpenedWord(tail);
  }

  // A word that starts where the text opens with "(" starts with it too.
  lemma OpenedWord(tail: string)
    requires tail != "" && tail[0] == '('
    ensures Words(tail) != [] && Words(tail)[0] != "" && Words(tail)[0][0] == '('
  {
    assert !Space('(');
  }

  lemma FullEntryParses(name: string, version: string, source: string)
    requires Word(name) && Word(version) && '(' !in name && '(' !in version
    ensures ParseEntry(name + " " + version + " (" + source + ")") == Some(Entry(name, Some(version), Some(source)))
  {
    assert version[0] in version && version != "";
    hide Words, Find, Word;
    FullEntryWords(name, version, source);
    FullEntrySource(name, version, source);
  }

  lemma FullEntryWords(name: string, version: string, source: string)
    requires Word(name) && Word(version)
    ensures var words := Words(name + " " + version + " (" + source + ")");
            |words| >= 2 && words[0] == name && words[1] == version
  {
    var tail := " (" + source + ")";
    assert name + " " + version + " (" + source + ")" == name + (" " + (version + tail));
    assert (" " + (version + tail))[1..] == version + tail;
    hide Words, Word;
    FirstWord(name, " " + (version + tail));
    FirstWord(version, tail);
  }

  lemma FullEntrySource(name: string, version: string, source: string)
    requires '(' !in name && '(' !in version
    ensures var s, start := name + " " + version + " (" + source + ")", |name| + |version| + 2;
            && Find(s, '(') == Some(start) && start + 1 < |s| && s[|s| - 1] == ')'
            && s[start + 1..|s| - 1] == source
  {
    hide Find;
    SourceIsFound(name + " " + version + " ", source);
    assert name + " " + version + " (" + source + ")" == name + " " + version + " " + "(" + source + ")";
  }

  lemma SourceIsFound(prefix: string, source: string)
    requires '(' !in prefix
    ensures var s, start := prefix + "(" + source + ")", |prefix|;
            && Find(s, '(') == Some(start) && start + 1 < |s| && s[|s| - 1] == ')'
            && s[start + 1..|s| - 1] == source
  {
    var s := prefix + "(" + source + ")";
    assert s == prefix + ['('] + (source + ")");
    forall k | 0 <= k < |prefix|
      ensures s[k] != '('
    {
      assert s[k] == prefix[k];
    }
    assert s[|prefix|] == '(' && s[|prefix| + 1..|s| - 1] == source;
  }

  // Only blank entries and those that open a source and do not close it mean nothing.
  lemma ParsesUnlessBroken(specification: string)
    ensures ParseEntry(specification).None? <==>
              || (forall c :: c in specification ==> Space(c))
              || ('(' in specification && specification[|specification| - 1] != ')')
  {
    hide Space;
    BlankHasNoWords(specification);
  }

  lemma {:induction false} BlankHasNoWords(s: string)
    ensures Words(s) == [] <==> forall c :: c in s ==> Space(c)
    decreases |s|
  {
    if s != "" {
      assert s[0] in s;
      if Space(s[0]) {
        BlankHasNoWords(s[1..]);
        assert s == [s[0]] + s[1..];
      }
    }
  }

  // An entry resolves to a package exactly when that is the only one with the entry's name and with
  // the version and the source that the entry gives.
  lemma ResolvesExactlyOnlyMatches(specification: string, entry: Entry, packages: seq<Package>, purl: Purl, k: nat)
    requires Parsed(packages, purl) && k < |packages| && ParseEntry(specification) == Some(entry)
    ensures DependencyTarget(specification, packages) == Some(packages[k].ref) <==>
              && packages[k].name == entry.name
              && entry.version in {None, Some(packages[k].version)}
              && (entry.source.Some? ==> packages[k].source == entry.source)
              && forall j: nat :: j < |packages| && j != k ==>
                   || packages[j].name != entry.name
                   || (entry.version.Some? && packages[j].version != entry.version.value)
                   || (entry.source.Some? && packages[j].source != entry.source)
  {
    hide ParseEntry, Candidates;
    var found := Candidates(packages, entry);
    if Matches(packages[k], entry) && forall j: nat :: j < |packages| && j != k ==> !Matches(packages[j], entry) {
      OneCandidate(packages, entry, k);
    } else if |found| == 1 && found[0].ref == packages[k].ref {
      assert found[0] in found;
      assert found[0] in packages && Matches(packages[k], entry);
      var j: nat :| j < |packages| && j != k && Matches(packages[j], entry);
      TwoCandidates(packages, entry, j, k);
    }
  }

  // "name version" resolves to the only package with that name and version, and so on.
  lemma EntriesResolve(packages: seq<Package>, purl: Purl, name: string, version: string, source: string, k: nat)
    requires Parsed(packages, purl) && k < |packages|
    requires Word(name) && Word(version) && '(' !in name && '(' !in version
    ensures DependencyTarget(name, packages) == Some(packages[k].ref) <==>
              && packages[k].name == name
              && forall j: nat :: j < |packages| && packages[j].name == name ==> j == k
    ensures DependencyTarget(name + " " + version, packages) == Some(packages[k].ref) <==>
              && packages[k].name == name && packages[k].version == version
              && forall j: nat ::
                   j < |packages| && packages[j].name == name && packages[j].version == version ==> j == k
    ensures DependencyTarget(name + " (" + source + ")", packages) == Some(packages[k].ref) <==>
              && packages[k].name == name && packages[k].source == Some(source)
              && forall j: nat ::
                   j < |packages| && packages[j].name == name && packages[j].source == Some(source) ==> j == k
    ensures DependencyTarget(name + " " + version + " (" + source + ")", packages) == Some(packages[k].ref) <==>
              packages[k].name == name && packages[k].version == version && packages[k].source == Some(source)
  {
    EntriesParse(name, version, source);
    var full := name + " " + version + " (" + source + ")";
    hide ParseEntry, DependencyTarget, Word;
    ResolvesExactlyOnlyMatches(name, Entry(name, None, None), packages, purl, k);
    ResolvesExactlyOnlyMatches(name + " " + version, Entry(name, Some(version), None), packages, purl, k);
    ResolvesExactlyOnlyMatches(name + " (" + source + ")", Entry(name, None, Some(source)), packages, purl, k);
    ResolvesExactlyOnlyMatches(full, Entry(name, Some(version), Some(source)), packages, purl, k);
    if packages[k].name == name && packages[k].version == version && packages[k].source == Some(source) {
      IdentityIsUnique(packages, purl, k);
    }
  }

  lemma IdentityIsUnique(packages: seq<Package>, purl: Purl, k: nat)
    requires Parsed(packages, purl) && k < |packages|
    ensures forall j: nat :: j < |packages| && j != k ==>
              || packages[j].name != packages[k].name || packages[j].version != packages[k].version
              || packages[j].source != packages[k].source
  {
    forall j: nat | j < |packages| && j != k
      ensures packages[j].ref != packages[k].ref
    {
    }
  }

  lemma {:induction false} NoCandidate(packages: seq<Package>, entry: Entry)
    requires forall p :: p in packages ==> !Matches(p, entry)
    ensures Candidates(packages, entry) == []
  {
    if packages != [] {
      NoCandidate(packages[1..], entry);
    }
  }

  lemma {:induction false} OneCandidate(packages: seq<Package>, entry: Entry, k: nat)
    requires k < |packages| && Matches(packages[k], entry)
    requires forall j: nat :: j < |packages| && j != k ==> !Matches(packages[j], entry)
    ensures Candidates(packages, entry) == [packages[k]]
  {
    hide Matches;
    var rest := packages[1..];
    if k == 0 {
      forall p | p in rest
        ensures !Matches(p, entry)
      {
        var j :| 0 < j < |packages| && packages[j] == p;
      }
      NoCandidate(rest, entry);
    } else {
      OneCandidate(rest, entry, k - 1);
    }
  }

  lemma {:induction false} TwoCandidates(packages: seq<Package>, entry: Entry, j: nat, k: nat)
    requires j < |packages| && k < |packages| && j != k
    requires Matches(packages[j], entry) && Matches(packages[k], entry)
    ensures |Candidates(packages, entry)| >= 2
  {
    hide Matches;
    var rest := packages[1..];
    if j > 0 && k > 0 {
      TwoCandidates(rest, entry, j - 1, k - 1);
    } else {
      var other := rest[if j > 0 then j - 1 else k - 1];
      assert other in rest && other in Candidates(rest, entry);
    }
  }

  // ---------------------------------------------------------------- merging graphs

  datatype Dependency = Dependency(ref: string, dependsOn: seq<string>)

  ghost predicate Records(deps: seq<Dependency>, ref: string) {
    exists k :: 0 <= k < |deps| && deps[k].ref == ref
  }

  // The edge is listed in some record of its source.
  ghost predicate Edge(deps: seq<Dependency>, ref: string, target: string) {
    exists k :: 0 <= k < |deps| && deps[k].ref == ref && target in deps[k].dependsOn
  }

  // One record per source, sources and targets in order.
  ghost predicate Canonical(deps: seq<Dependency>) {
    && (forall j, k :: 0 <= j < k < |deps| ==> Less(deps[j].ref, deps[k].ref))
    && (forall k :: 0 <= k < |deps| ==> Increasing(deps[k].dependsOn))
  }

  ghost predicate SameGraph(a: seq<Dependency>, b: seq<Dependency>) {
    && (forall ref :: Records(a, ref) <==> Records(b, ref))
    && (forall ref, target :: Edge(a, ref, target) <==> Edge(b, ref, target))
  }

  // What is recorded, field by field.
  lemma RecordsExactly(deps: seq<Dependency>)
    ensures forall ref :: Records(deps, ref) <==> exists d :: d in deps && d.ref == ref
    ensures forall ref, target ::
              Edge(deps, ref, target) <==> exists d :: d in deps && d.ref == ref && target in d.dependsOn
  {
    assert forall d :: d in deps ==> exists k :: 0 <= k < |deps| && deps[k] == d;
  }

  // The targets collected for each source so far.
  type Collected = map<string, set<string>>

  ghost predicate Collects(table: Collected, deps: seq<Dependency>) {
    && (forall ref :: ref in table <==> Records(deps, ref))
    && (forall ref, target :: ref in table ==> (target in table[ref] <==> Edge(deps, ref, target)))
  }

  lemma CollectOne(table: Collected, deps: seq<Dependency>, next: Dependency)
    requires Collects(table, deps)
    ensures var now := table[next.ref := (if next.ref in table then table[next.ref] else {}) + ToSet(next.dependsOn)];
            Collects(now, deps + [next])
  {
    var now := table[next.ref := (if next.ref in table then table[next.ref] else {}) + ToSet(next.dependsOn)];
    var longer := deps + [next];
    assert longer[|deps|] == next;
    assert forall k :: 0 <= k < |deps| ==> longer[k] == deps[k];
    forall ref
      ensures Records(longer, ref) <==> Records(deps, ref) || ref == next.ref
    {
      if Records(deps, ref) {
        var k :| 0 <= k < |deps| && deps[k].ref == ref;
        assert longer[k].ref == ref;
      }
    }
    forall ref, target
      ensures Edge(longer, ref, target) <==>
                Edge(deps, ref, target) || (ref == next.ref && target in next.dependsOn)
    {
      if Edge(deps, ref, target) {
        var k :| 0 <= k < |deps| && deps[k].ref == ref && target in deps[k].dependsOn;
        assert longer[k].ref == ref && target in longer[k].dependsOn;
      }
      if ref == next.ref && target in next.dependsOn {
        assert longer[|deps|].ref == ref && target in longer[|deps|].dependsOn;
      }
    }
    forall ref, target | Edge(deps, ref, target)
      ensures Records(deps, ref)
    {
    }
  }

  predicate Named(d: Dependency) {
    d.ref != "" && "" !in d.dependsOn
  }

  // Merges both lists, unless a name is missing: the canonical record list of their union.
  method MergeDependencies(current: seq<Dependency>, additions: seq<Dependency>)
    returns (r: Option<seq<Dependency>>)
    ensures r.Some? <==> forall d :: d in current + additions ==> d.ref != "" && "" !in d.dependsOn
    ensures r.Some? ==> Canonical(r.value) && SameGraph(r.value, current + additions)
  {
    var all := current + additions;
    var table: Collected := map[];
    assert Collects(table, all[..0]) && forall d :: Named(d) <==> d.ref != "" && "" !in d.dependsOn;
    hide Collects, Canonical, SameGraph, SortedFrom, Named;
    for n := 0 to |all|
      invariant Collects(table, all[..n])
      invariant forall k :: 0 <= k < n ==> Named(all[k])
    {
      if !Named(all[n]) {
        assert all[n] in all;
        return None;
      }
      CollectOne(table, all[..n], all[n]);
      assert all[..n + 1] == all[..n] + [all[n]];
      table := table[all[n].ref := (if all[n].ref in table then table[all[n].ref] else {}) + ToSet(all[n].dependsOn)];
    }
    assert all[..|all|] == all;
    var refs := Sorted(table.Keys);
    var merged: seq<Dependency> := [];
    for n := 0 to |refs|
      invariant |merged| == n
      invariant forall k :: 0 <= k < n ==>
                  && merged[k].ref == refs[k] && refs[k] in table
                  && SortedFrom(merged[k].dependsOn, table[refs[k]])
    {
      assert refs[n] in refs;
      var targets := Sorted(table[refs[n]]);
      merged := merged + [Dependency(refs[n], targets)];
    }
    ListedIsSameGraph(table, all, refs, merged);
    return Some(merged);
  }

  lemma ListedIsSameGraph(table: Collected, all: seq<Dependency>, refs: seq<string>, merged: seq<Dependency>)
    requires Collects(table, all) && SortedFrom(refs, table.Keys) && |merged| == |refs|
    requires forall k :: 0 <= k < |refs| ==>
               merged[k].ref == refs[k] && refs[k] in table && SortedFrom(merged[k].dependsOn, table[refs[k]])
    ensures Canonical(merged) && SameGraph(merged, all)
  {
    forall ref
      ensures Records(merged, ref) <==> ref in table
    {
      if ref in table {
        var k :| 0 <= k < |refs| && refs[k] == ref;
        assert merged[k].ref == ref;
      }
    }
    forall ref, target
      ensures Edge(merged, ref, target) <==> ref in table && target in table[ref]
    {
      if ref in table && target in table[ref] {
        var k :| 0 <= k < |refs| && refs[k] == ref;
        assert merged[k].ref == ref && target in merged[k].dependsOn;
      }
    }
    forall ref, target | Edge(all, ref, target)
      ensures ref in table
    {
      assert Records(all, ref);
    }
  }

  // The merged list depends on the graph alone, not on the order or number of records.
  lemma CanonicalIsUnique(a: seq<Dependency>, b: seq<Dependency>)
    requires Canonical(a) && Canonical(b) && SameGraph(a, b)
    ensures a == b
  {
    var refsA, refsB := Refs(a), Refs(b);
    forall ref
      ensures ref in refsA <==> ref in ToSet(refsA)
      ensures ref in refsB <==> ref in ToSet(refsA)
    {
      InRefs(a, ref);
      InRefs(b, ref);
    }
    SortedIsUnique(refsA, refsB, ToSet(refsA));
    forall k | 0 <= k < |a|
      ensures a[k] == b[k]
    {
      assert refsA[k] == refsB[k];
      forall target
        ensures target in a[k].dependsOn <==> Edge(a, a[k].ref, target)
        ensures target in b[k].dependsOn <==> Edge(b, b[k].ref, target)
      {
        OnlyRecord(a, k, target);
        OnlyRecord(b, k, target);
      }
      assert forall target :: target in a[k].dependsOn <==> target in b[k].dependsOn;
      SortedIsUnique(a[k].dependsOn, b[k].dependsOn, ToSet(a[k].dependsOn));
    }
  }

  function Refs(deps: seq<Dependency>): (refs: seq<string>)
    ensures |refs| == |deps| && forall k :: 0 <= k < |refs| ==> refs[k] == deps[k].ref
  {
    seq(|deps|, k requires 0 <= k < |deps| => deps[k].ref)
  }

  lemma InRefs(deps: seq<Dependency>, ref: string)
    ensures ref in Refs(deps) <==> Records(deps, ref)
  {
    if Records(deps, ref) {
      var k :| 0 <= k < |deps| && deps[k].ref == ref;
      assert Refs(deps)[k] == ref;
    }
    if ref in Refs(deps) {
      var k :| 0 <= k < |deps| && Refs(deps)[k] == ref;
      assert deps[k].ref == ref;
    }
  }

  lemma OnlyRecord(deps: seq<Dependency>, k: nat, target: string)
    requires Canonical(deps) && k < |deps|
    ensures target in deps[k].dependsOn <==> Edge(deps, deps[k].ref, target)
  {
    if Edge(deps, deps[k].ref, target) {
      var j :| 0 <= j < |deps| && deps[j].ref == deps[k].ref && target in deps[j].dependsOn;
      LessIsIrreflexive(deps[k].ref);
      assert j == k;
    }
  }

  // ---------------------------------------------------------------- closed graphs

  // Every edge joins known components.
  ghost predicate ClosedIn(deps: seq<Dependency>, known: set<string>) {
    forall ref, target :: (Records(deps, ref) ==> ref in known) && (Edge(deps, ref, target) ==> target in known)
  }

  method ValidateReferences(deps: seq<Dependency>, known: set<string>) returns (ok: bool)
    ensures ok <==> ClosedIn(deps, known)
  {
    for k := 0 to |deps|
      invariant forall j :: 0 <= j < k ==> deps[j].ref in known && forall t :: t in deps[j].dependsOn ==> t in known
    {
      if deps[k].ref !in known {
        assert Records(deps, deps[k].ref);
        return false;
      }
      for n := 0 to |deps[k].dependsOn|
        invariant forall m :: 0 <= m < n ==> deps[k].dependsOn[m] in known
      {
        if deps[k].dependsOn[n] !in known {
          assert Edge(deps, deps[k].ref, deps[k].dependsOn[n]);
          return false;
        }
      }
    }
    return true;
  }

  function TargetsOf(p: Package, packages: seq<Package>): Option<set<string>> {
    if forall d :: d in p.dependencies ==> DependencyTarget(d, packages).Some? then
      Some(set d | d in p.dependencies :: DependencyTarget(d, packages).value)
    else None
  }

  // The dependency records of a lockfile: one per package, and every edge inside the lock.
  method CargoInventory(packages: seq<Package>) returns (r: Option<seq<Dependency>>)
    ensures r.Some? <==>
              forall p, d :: p in packages && d in p.dependencies ==> DependencyTarget(d, packages).Some?
    ensures r.Some? ==>
              && |r.value| == |packages|
              && (forall k :: 0 <= k < |packages| ==>
                    && r.value[k].ref == packages[k].ref && Increasing(r.value[k].dependsOn)
                    && forall target ::
                         target in r.value[k].dependsOn <==>
                           exists d :: d in packages[k].dependencies && DependencyTarget(d, packages) == Some(target))
              && ClosedIn(r.value, PackageRefs(packages))
  {
    hide DependencyTarget;
    var deps: seq<Dependency> := [];
    for n := 0 to |packages|
      invariant |deps| == n
      invariant forall k :: 0 <= k < n ==>
                  && TargetsOf(packages[k], packages).Some? && deps[k].ref == packages[k].ref
                  && SortedFrom(deps[k].dependsOn, TargetsOf(packages[k], packages).value)
    {
      var targets := TargetsOf(packages[n], packages);
      assert packages[n] in packages;
      if targets.None? {
        return None;
      }
      var sorted := Sorted(targets.value);
      deps := deps + [Dependency(packages[n].ref, sorted)];
    }
    InventoryIsClosed(packages, deps);
    return Some(deps);
  }

  lemma InventoryIsClosed(packages: seq<Package>, deps: seq<Dependency>)
    requires |deps| == |packages|
    requires forall k :: 0 <= k < |packages| ==>
               && TargetsOf(packages[k], packages).Some? && deps[k].ref == packages[k].ref
               && SortedFrom(deps[k].dependsOn, TargetsOf(packages[k], packages).value)
    ensures ClosedIn(deps, PackageRefs(packages))
  {
    hide DependencyTarget;
    forall ref | Records(deps, ref)
      ensures ref in PackageRefs(packages)
    {
      var k :| 0 <= k < |deps| && deps[k].ref == ref;
      assert packages[k] in packages;
    }
    forall ref, target | Edge(deps, ref, target)
      ensures target in PackageRefs(packages)
    {
      var k :| 0 <= k < |deps| && deps[k].ref == ref && target in deps[k].dependsOn;
      var d :| d in packages[k].dependencies && DependencyTarget(d, packages).value == target;
      TargetsStayInTheLock(d, packages);
    }
  }

  // Merging closed graphs gives a closed graph that loses no edge of either.
  lemma MergingKeepsClosed(
    current: seq<Dependency>, additions: seq<Dependency>, merged: seq<Dependency>, a: set<string>, b: set<string>)
    requires ClosedIn(current, a) && ClosedIn(additions, b) && SameGraph(merged, current + additions)
    ensures ClosedIn(merged, a + b)
    ensures forall ref, target ::
              Edge(current, ref, target) || Edge(additions, ref, target) ==> Edge(merged, ref, target)
  {
    var all := current + additions;
    forall ref
      ensures Records(all, ref) <==> Records(current, ref) || Records(additions, ref)
    {
      if Records(current, ref) {
        var k :| 0 <= k < |current| && current[k].ref == ref;
        assert all[k].ref == ref;
      }
      if Records(additions, ref) {
        var k :| 0 <= k < |additions| && additions[k].ref == ref;
        assert all[|current| + k].ref == ref;
      }
    }
    forall ref, target
      ensures Edge(all, ref, target) <==> Edge(current, ref, target) || Edge(additions, ref, target)
    {
      if Edge(current, ref, target) {
        var k :| 0 <= k < |current| && current[k].ref == ref && target in current[k].dependsOn;
        assert all[k].ref == ref && target in all[k].dependsOn;
      }
      if Edge(additions, ref, target) {
        var k :| 0 <= k < |additions| && additions[k].ref == ref && target in additions[k].dependsOn;
        assert all[|current| + k].ref == ref && target in all[|current| + k].dependsOn;
      }
    }
  }

  // ---------------------------------------------------------------- components

  datatype Component = Component(ref: string, name: string, version: string)

  ghost predicate DistinctRefs(components: seq<Component>) {
    forall j, k :: 0 <= j < k < |components| ==> components[j].ref != components[k].ref
  }

  ghost predicate OrderedByRef(components: seq<Component>) {
    forall j, k :: 0 <= j < k < |components| ==> Less(components[j].ref, components[k].ref)
  }

  ghost predicate AllReferenced(components: seq<Component>) {
    forall k :: 0 <= k < |components| ==> components[k].ref != ""
  }

  // Indexes the components by reference; nothing when a reference is missing or repeats.
  method IndexComponents(components: seq<Component>) returns (r: Option<map<string, Component>>)
    ensures r.Some? <==> AllReferenced(components) && DistinctRefs(components)
    ensures r.Some? ==>
              && (forall ref :: ref in r.value ==> r.value[ref] in components && r.value[ref].ref == ref)
              && (forall c :: c in components ==> c.ref in r.value && r.value[c.ref] == c)
  {
    var index: map<string, Component> := map[];
    for n := 0 to |components|
      invariant forall j, k :: 0 <= j < k < n ==> components[j].ref != components[k].ref
      invariant forall k :: 0 <= k < n ==> components[k].ref != ""
      invariant forall ref :: ref in index ==>
                  index[ref].ref == ref && exists k :: 0 <= k < n && components[k] == index[ref]
      invariant forall k :: 0 <= k < n ==> components[k].ref in index && index[components[k].ref] == components[k]
    {
      if components[n].ref == "" || components[n].ref in index {
        return None;
      }
      index := index[components[n].ref := components[n]];
    }
    return Some(index);
  }

  // The union of two component lists in reference order; nothing when a reference is missing or
  // repeats.
  method MergeComponents(current: seq<Component>, additions: seq<Component>) returns (r: Option<seq<Component>>)
    ensures var all := current + additions;
            r.Some? <==>
              && (forall k :: 0 <= k < |all| ==> all[k].ref != "")
              && forall j, k :: 0 <= j < k < |all| ==> all[j].ref != all[k].ref
    ensures r.Some? ==> OrderedByRef(r.value) && forall c :: c in r.value <==> c in current || c in additions
  {
    var index := IndexComponents(current + additions);
    if index.None? {
      return None;
    }
    var refs := Sorted(index.value.Keys);
    var merged: seq<Component> := [];
    for n := 0 to |refs|
      invariant |merged| == n
      invariant forall k :: 0 <= k < n ==> refs[k] in index.value && merged[k] == index.value[refs[k]]
    {
      assert refs[n] in refs;
      merged := merged + [index.value[refs[n]]];
    }
    forall c | c in current || c in additions
      ensures c in merged
    {
      assert c in current + additions && c.ref in refs;
      var k :| 0 <= k < |refs| && refs[k] == c.ref;
      assert merged[k] == c;
    }
    return Some(merged);
  }

  // So the result is determined by the set of components.
  lemma {:induction false} OrderedComponentsAreUnique(a: seq<Component>, b: seq<Component>)
    requires OrderedByRef(a) && OrderedByRef(b) && forall c :: c in a <==> c in b
    ensures a == b
  {
    assert b != [] ==> b[0] in b;
    if a != [] {
      assert a[0] in a && a[0] in b && b[0] in a;
      SameFirst(a, b);
      RestIsOrdered(a);
      RestIsOrdered(b);
      OrderedComponentsAreUnique(a[1..], b[1..]);
    }
  }

  lemma SameFirst(a: seq<Component>, b: seq<Component>)
    requires OrderedByRef(a) && OrderedByRef(b) && a != [] && b != [] && a[0] in b && b[0] in a
    ensures a[0] == b[0]
  {
    var j :| 0 <= j < |b| && b[j] == a[0];
    var k :| 0 <= k < |a| && a[k] == b[0];
    if j > 0 {
      // then b[0] < b[j] == a[0] <= a[k] == b[0]
      if k > 0 {
        LessIsTransitive(b[0].ref, b[j].ref, a[k].ref);
      }
      LessIsIrreflexive(b[0].ref);
    }
  }

  lemma RestIsOrdered(a: seq<Component>)
    requires a != [] && OrderedByRef(a)
    ensures OrderedByRef(a[1..]) && forall c :: c in a[1..] <==> c in a && c != a[0]
  {
    LessIsIrreflexive(a[0].ref);
    forall c
      ensures c in a[1..] <==> c in a && c != a[0]
    {
      if c in a && c != a[0] {
        var k :| 0 <= k < |a| && a[k] == c;
        assert a[1..][k - 1] == c;
      }
    }
  }
}
