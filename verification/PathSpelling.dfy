/** Making a compiled artifact comparable across hosts: inside each run of printable bytes from
    "/cargo" to the nearest ".rs", backslashes become slashes. */
module PathSpelling {
  import opened Bytes
  import opened Wrappers

  const SLASH: byte := 47
  const BACKSLASH: byte := 92
  const CARGO: Data := [47, 99, 97, 114, 103, 111]  // "/cargo"
  const RS: Data := [46, 114, 115]                  // ".rs"

  predicate Printable(b: byte) {
    32 <= b <= 126
  }

  predicate StartsWith(blob: Data, text: Data) {
    text <= blob
  }

  // The bytes up to and including the nearest ".rs", when only printable bytes come before it.
  function ToSuffix(blob: Data): (n: Option<nat>)
    ensures n.Some? ==> 3 <= n.value <= |blob|
  {
    if StartsWith(blob, RS) then Some(3)
    else if blob == [] || !Printable(blob[0]) then None
    else
      match ToSuffix(blob[1..])
      case None => None
      case Some(n) => Some(n + 1)
  }

  // The length of the run the blob starts with, if it starts with one.
  function Run(blob: Data): (n: Option<nat>)
    ensures n.Some? ==> 9 <= n.value <= |blob|
  {
    if !StartsWith(blob, CARGO) then None
    else
      match ToSuffix(blob[6..])
      case None => None
      case Some(n) => Some(n + 6)
  }

  predicate SuffixAt(blob: Data, k: nat) {
    k <= |blob| && StartsWith(blob[k..], RS)
  }

  // The run ends at the first ".rs", and only printable bytes come before that.
  ghost predicate NearestSuffix(blob: Data, n: nat)
    requires 3 <= n <= |blob|
  {
    && SuffixAt(blob, n - 3)
    && forall k: nat :: k < n - 3 ==> Printable(blob[k]) && !SuffixAt(blob, k)
  }

  lemma SuffixInTail(blob: Data, k: nat)
    requires k + 1 < |blob|
    ensures SuffixAt(blob[1..], k) == SuffixAt(blob, k + 1)
  {
    assert blob[1..][k..] == blob[k + 1..];
  }

  lemma NearestInTail(blob: Data, n: nat)
    requires 3 < n <= |blob|
    ensures NearestSuffix(blob, n) <==>
              Printable(blob[0]) && !SuffixAt(blob, 0) && NearestSuffix(blob[1..], n - 1)
  {
    hide Printable, SuffixAt;
    var tail := blob[1..];
    forall k: nat | k < |tail|
      ensures SuffixAt(tail, k) == SuffixAt(blob, k + 1) && tail[k] == blob[k + 1]
    {
      SuffixInTail(blob, k);
    }
    if NearestSuffix(blob, n) {
      forall k: nat | k < n - 4
        ensures Printable(tail[k]) && !SuffixAt(tail, k)
      {
        assert !SuffixAt(blob, k + 1);
      }
    }
    if Printable(blob[0]) && !SuffixAt(blob, 0) && NearestSuffix(tail, n - 1) {
      forall k: nat | k < n - 3
        ensures Printable(blob[k]) && !SuffixAt(blob, k)
      {
        if k > 0 {
          assert !SuffixAt(tail, k - 1);
        }
      }
    }
  }

  lemma {:induction false} SuffixIsNearest(blob: Data, n: nat)
    requires 3 <= n <= |blob|
    ensures ToSuffix(blob) == Some(n) <==> NearestSuffix(blob, n)
  {
    assert blob[0..] == blob;
    if n > 3 {
      SuffixIsNearest(blob[1..], n - 1);
      NearestInTail(blob, n);
      hide NearestSuffix;
    }
  }

  function Slashed(run: Data): (r: Data)
    ensures |r| == |run|
    ensures forall k :: 0 <= k < |r| ==> r[k] == if run[k] == BACKSLASH then SLASH else run[k]
  {
    seq(|run|, k requires 0 <= k < |run| => if run[k] == BACKSLASH then SLASH else run[k])
  }

  // The substitution: leftmost runs first, none overlapping another.
  function Canonical(blob: Data): (r: Data)
    ensures |r| == |blob|
  {
    if blob == [] then []
    else
      match Run(blob)
      case None => [blob[0]] + Canonical(blob[1..])
      case Some(n) => Slashed(blob[..n]) + Canonical(blob[n..])
  }

  // The bytes of a text in ASCII.
  function Ascii(text: string): (data: Data)
    requires forall c :: c in text ==> c as int < 128
    ensures |data| == |text|
    ensures forall k :: 0 <= k < |data| ==> data[k] as int == text[k] as int
  {
    seq(|text|, k requires 0 <= k < |text| => assert text[k] in text; (text[k] as int) as byte)
  }

  // A run is "/cargo", bytes from space to tilde, and the first ".rs" after "/cargo".
  lemma RunExactly(blob: Data, n: nat)
    requires 9 <= n <= |blob|
    ensures Run(blob) == Some(n) <==>
              && blob[..6] == Ascii("/cargo") && blob[n - 3..][..3] == Ascii(".rs")
              && forall k :: 6 <= k < n - 3 ==>
                   ' ' as int <= blob[k] as int <= '~' as int && blob[k..][..3] != Ascii(".rs")
  {
    SuffixIsNearest(blob[6..], n - 6);
    assert Ascii("/cargo") == CARGO && Ascii(".rs") == RS;
    assert StartsWith(blob, CARGO) <==> blob[..6] == CARGO;
    NearestAfterOpening(blob, n);
    hide ToSuffix, NearestSuffix, Ascii;
  }

  // A byte that neither ends a run nor opens its suffix.
  predicate GoesOn(blob: Data, k: nat)
    requires k + 3 <= |blob|
  {
    32 <= blob[k] <= 126 && blob[k..][..3] != RS
  }

  lemma GoesOnInTail(blob: Data, k: nat)
    requires 6 <= k <= |blob| - 3
    ensures GoesOn(blob, k) <==> Printable(blob[6..][k - 6]) && !SuffixAt(blob[6..], k - 6)
  {
    SuffixHere(blob, k);
  }

  lemma NearestAfterOpening(blob: Data, n: nat)
    requires 9 <= n <= |blob|
    ensures NearestSuffix(blob[6..], n - 6) <==>
              && blob[n - 3..][..3] == RS
              && forall k :: 6 <= k < n - 3 ==> GoesOn(blob, k)
  {
    SuffixHere(blob, n - 3);
    hide GoesOn, SuffixAt, Printable;
    if NearestSuffix(blob[6..], n - 6) {
      forall k | 6 <= k < n - 3
        ensures GoesOn(blob, k)
      {
        GoesOnInTail(blob, k);
      }
    }
    if forall k :: 6 <= k < n - 3 ==> GoesOn(blob, k) {
      forall k: nat | k < n - 9
        ensures Printable(blob[6..][k]) && !SuffixAt(blob[6..], k)
      {
        GoesOnInTail(blob, k + 6);
      }
    }
  }

  lemma SuffixHere(blob: Data, k: nat)
    requires 6 <= k <= |blob| - 3
    ensures SuffixAt(blob[6..], k - 6) <==> blob[k..][..3] == RS
  {
    assert blob[6..][k - 6..] == blob[k..];
  }

  // `changed` agrees with the blob up to k, has slashes for backslashes in the n bytes from there, and
  // goes on as `rest`.
  ghost predicate Turned(changed: Data, blob: Data, k: nat, n: nat, rest: Data)
    requires k + n <= |blob| == |changed|
  {
    && changed[..k] == blob[..k] && changed[k + n..] == rest
    && forall j :: k <= j < k + n ==>
         changed[j] as int == if blob[j] as int == '\\' as int then '/' as int else blob[j] as int
  }

  // Up to the first run nothing changes, in it backslashes become slashes, and so on after it.
  lemma {:induction false} CanonicalFromFirstRun(blob: Data, k: nat, n: nat)
    requires k < |blob| && NoRunBefore(blob, k) && Run(blob[k..]) == Some(n)
    ensures Turned(Canonical(blob), blob, k, n, Canonical(blob[k + n..]))
  {
    hide *;
    if k == 0 {
      assert blob[0..] == blob;
      CanonicalOfRun(blob, n);
    } else {
      var tail := blob[1..];
      assert tail[k - 1..] == blob[k..] && tail[k - 1 + n..] == blob[k + n..] && [blob[0]] + tail == blob;
      NoRunInTail(blob, k);
      CanonicalFromFirstRun(tail, k - 1, n);
      TurnedLater(Canonical(tail), tail, k - 1, n, Canonical(blob[k + n..]), blob[0]);
    }
  }

  ghost predicate NoRunBefore(blob: Data, k: nat)
    requires k <= |blob|
  {
    forall j :: 0 <= j < k ==> Run(blob[j..]).None?
  }

  lemma NoRunInTail(blob: Data, k: nat)
    requires 0 < k <= |blob| && NoRunBefore(blob, k)
    ensures NoRunBefore(blob[1..], k - 1) && Canonical(blob) == [blob[0]] + Canonical(blob[1..])
  {
    hide Run;
    assert blob[0..] == blob;
    forall j | 0 <= j < k - 1
      ensures Run(blob[1..][j..]).None?
    {
      assert blob[1..][j..] == blob[j + 1..];
    }
  }

  lemma CanonicalOfRun(blob: Data, n: nat)
    requires Run(blob) == Some(n)
    ensures Turned(Canonical(blob), blob, 0, n, Canonical(blob[n..]))
  {
    var run, rest := Slashed(blob[..n]), Canonical(blob[n..]);
    assert Canonical(blob) == run + rest;
    hide Canonical, Run, Slashed;
    assert (run + rest)[n..] == rest && (run + rest)[..0] == blob[..0];
  }

  lemma TurnedLater(changed: Data, blob: Data, k: nat, n: nat, rest: Data, first: byte)
    requires k + n <= |blob| == |changed| && Turned(changed, blob, k, n, rest)
    ensures Turned([first] + changed, [first] + blob, k + 1, n, rest)
  {
    var longer, whole := [first] + changed, [first] + blob;
    assert longer[..k + 1] == [first] + changed[..k] && whole[..k + 1] == [first] + blob[..k];
    assert longer[k + 1 + n..] == changed[k + n..];
    assert forall j :: k + 1 <= j < k + 1 + n ==> longer[j] == changed[j - 1] && whole[j] == blob[j - 1];
  }

  lemma {:induction false} CanonicalWithoutRuns(blob: Data)
    requires NoRunBefore(blob, |blob|)
    ensures Canonical(blob) == blob
  {
    if blob != [] {
      NoRunInTail(blob, |blob|);
      CanonicalWithoutRuns(blob[1..]);
    }
  }

  // How the substitution treats each byte: outside all runs, in the "/cargo" that opens one, or in
  // the rest of one.
  datatype Place = Outside | Opening | Inside

  function Places(blob: Data): (places: seq<Place>)
    ensures |places| == |blob|
  {
    if blob == [] then []
    else
      match Run(blob)
      case None => [Outside] + Places(blob[1..])
      case Some(n) => seq(6, _ => Opening) + seq(n - 6, _ => Inside) + Places(blob[n..])
  }

  predicate SameButSlash(a: byte, b: byte) {
    a == b || (a in {SLASH, BACKSLASH} && b in {SLASH, BACKSLASH})
  }

  predicate AlikeUpToSlashes(a: Data, b: Data) {
    |a| == |b| && forall k :: 0 <= k < |a| ==> SameButSlash(a[k], b[k])
  }

  // The blobs differ at most in the direction of slashes, and only inside the runs of the first,
  // past their opening "/cargo".
  predicate SameSpelling(a: Data, b: Data) {
    && AlikeUpToSlashes(a, b)
    && forall k :: 0 <= k < |a| && Places(a)[k] != Inside ==> a[k] == b[k]
  }

  lemma {:induction false} SuffixIgnoresSlashes(a: Data, b: Data)
    requires AlikeUpToSlashes(a, b)
    ensures ToSuffix(a) == ToSuffix(b)
  {
    StartIgnoresSlashes(a, b, RS, 0);
    if a != [] {
      assert Printable(a[0]) == Printable(b[0]);
      SuffixIgnoresSlashes(a[1..], b[1..]);
    }
  }

  // Whether a text without slashes after its first `same` bytes is found does not depend on the
  // direction of slashes there.
  lemma StartIgnoresSlashes(a: Data, b: Data, text: Data, same: nat)
    requires AlikeUpToSlashes(a, b) && same <= |text|
    requires forall k :: same <= k < |text| ==> text[k] !in {SLASH, BACKSLASH}
    requires forall k :: 0 <= k < same && k < |a| ==> a[k] == b[k]
    ensures StartsWith(a, text) == StartsWith(b, text)
  {
    if StartsWith(a, text) {
      assert forall k :: 0 <= k < |text| ==> b[k] == text[k] by {
        forall k | 0 <= k < |text| ensures b[k] == text[k] {
          assert SameButSlash(a[k], b[k]) && a[..|text|][k] == text[k];
        }
      }
      assert b[..|text|] == text;
    }
    if StartsWith(b, text) {
      assert forall k :: 0 <= k < |text| ==> a[k] == text[k] by {
        forall k | 0 <= k < |text| ensures a[k] == text[k] {
          assert SameButSlash(a[k], b[k]) && b[..|text|][k] == text[k];
        }
      }
      assert a[..|text|] == text;
    }
  }

  lemma RunIgnoresSlashes(a: Data, b: Data)
    requires AlikeUpToSlashes(a, b) && (a != [] ==> a[0] == b[0])
    ensures Run(a) == Run(b)
  {
    StartIgnoresSlashes(a, b, CARGO, 1);
    if |a| >= 6 {
      SuffixIgnoresSlashes(a[6..], b[6..]);
    }
  }

  function Step(blob: Data): (n: nat)
    requires blob != []
    ensures 1 <= n <= |blob|
  {
    if Run(blob).Some? then Run(blob).value else 1
  }

  lemma PlacesInTwo(blob: Data)
    requires blob != []
    ensures Places(blob)[0] != Inside && Places(blob)[Step(blob)..] == Places(blob[Step(blob)..])
  {
  }

  lemma TailHasSameSpelling(a: Data, b: Data, n: nat)
    requires SameSpelling(a, b) && n <= |a| && Places(a)[n..] == Places(a[n..])
    ensures SameSpelling(a[n..], b[n..])
  {
    hide Places;
    forall k | 0 <= k < |a[n..]|
      ensures SameButSlash(a[n..][k], b[n..][k])
      ensures Places(a[n..])[k] != Inside ==> a[n..][k] == b[n..][k]
    {
      assert Places(a)[n..][k] == Places(a)[n + k];
    }
  }

  // Blobs of the same spelling have the same runs, even where turning slashes spells "/cargo" anew.
  lemma {:induction false} SameSpellingSameRuns(a: Data, b: Data)
    requires SameSpelling(a, b)
    ensures Places(a) == Places(b) && Canonical(a) == Canonical(b)
  {
    hide Run, SameSpelling;
    if a != [] {
      var n := Step(a);
      PlacesInTwo(a);
      SameStart(a, b);
      TailHasSameSpelling(a, b, n);
      SameSpellingSameRuns(a[n..], b[n..]);
    } else {
      assert b == [] by {
        SameLength(a, b);
      }
    }
  }

  lemma SameLength(a: Data, b: Data)
    requires SameSpelling(a, b)
    ensures |a| == |b|
  {
  }

  lemma SameStart(a: Data, b: Data)
    requires a != [] && SameSpelling(a, b) && Places(a)[0] != Inside
    ensures |a| == |b| && Run(a) == Run(b) && a[0] == b[0] && Slashed(a[..Step(a)]) == Slashed(b[..Step(a)])
  {
    hide Places, Run;
    RunIgnoresSlashes(a, b);
  }

  // What the substitution does to each byte.
  lemma {:induction false} CanonicalAt(blob: Data, k: nat)
    requires k < |blob|
    ensures Canonical(blob)[k] == if Places(blob)[k] == Inside && blob[k] == BACKSLASH then SLASH else blob[k]
  {
    match Run(blob)
    case None =>
      if k > 0 {
        CanonicalAt(blob[1..], k - 1);
      }
    case Some(n) =>
      if k >= n {
        CanonicalAt(blob[n..], k - n);
        assert Places(blob)[k] == Places(blob[n..])[k - n];
      } else {
        assert k < 6 ==> blob[..6][k] == CARGO[k];
      }
  }

  lemma CanonicalIsSameSpelling(blob: Data)
    ensures SameSpelling(blob, Canonical(blob))
  {
    forall k | 0 <= k < |blob|
      ensures SameButSlash(blob[k], Canonical(blob)[k])
      ensures Places(blob)[k] != Inside ==> blob[k] == Canonical(blob)[k]
    {
      CanonicalAt(blob, k);
    }
  }

  lemma CanonicalIsIdempotent(blob: Data)
    ensures Canonical(Canonical(blob)) == Canonical(blob)
  {
    CanonicalIsSameSpelling(blob);
    SameSpellingSameRuns(blob, Canonical(blob));
  }

  // Two blobs get the same canonical bytes exactly when they have the same spelling.
  lemma CanonicalDecidesSpelling(a: Data, b: Data)
    ensures Canonical(a) == Canonical(b) <==> SameSpelling(a, b)
  {
    if SameSpelling(a, b) {
      SameSpellingSameRuns(a, b);
    }
    if Canonical(a) == Canonical(b) {
      CanonicalIsSameSpelling(a);
      CanonicalIsSameSpelling(b);
      SameSpellingSameRuns(a, Canonical(a));
      SameSpellingSameRuns(b, Canonical(b));
      forall k | 0 <= k < |a|
        ensures SameButSlash(a[k], b[k])
        ensures Places(a)[k] != Inside ==> a[k] == b[k]
      {
        CanonicalAt(a, k);
        CanonicalAt(b, k);
      }
    }
  }
}
