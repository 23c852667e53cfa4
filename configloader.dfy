/**
 * The version value types of bumpversion/configloader.py: `Release`, `SubreleaseType`,
 * `Subrelease`, `FinalVersion`, `PublicVersion` and `Version`, their validation, their
 * "comparable" forms, and the `_compare`/`compare` sign functions.
 *
 * The Python classes are immutable tuples, so they are datatypes here. `Comparable`
 * fills missing slots by datatype update, as `_comparable` evidently intends; as the
 * classes are declared their `mutate` does not exist, and `ComparableAsWritten` and
 * `CompareAsWritten` model that.
 */
module ConfigLoader {
  import opened Builtins

  /** `is_pos_int`: an integer that is at least 0 (despite the name, 0 passes). */
  predicate IsPosInt(n: int) {
    n >= 0
  }

  // ---------------------------------------------------------------------------
  // SubreleaseType

  /**
   * The four members of the enumeration, plus `Unrecognised` for any value that
   * `SubreleaseType(obj)` refuses (the source ranks those between rc and post).
   */
  datatype SubreleaseType = Alpha | Beta | ReleaseCandidate | Post | Unrecognised

  /** `SubreleaseType(value)`: the member whose string value is `value`. */
  function SubreleaseTypeOf(value: string): (t: SubreleaseType)
    ensures t == Alpha <==> value == "a"
    ensures t == Beta <==> value == "b"
    ensures t == ReleaseCandidate <==> value == "rc"
    ensures t == Post <==> value == "post"
  {
    if value == "a" then Alpha
    else if value == "b" then Beta
    else if value == "rc" then ReleaseCandidate
    else if value == "post" then Post
    else Unrecognised
  }

  /** The string value of a member. */
  function Label(t: SubreleaseType): string
    requires !t.Unrecognised?
  {
    match t
    case Alpha => "a"
    case Beta => "b"
    case ReleaseCandidate => "rc"
    case Post => "post"
  }

  /**
   * Twice `SubreleaseType.order`: the members rank by declaration position
   * (a 0, b 1, rc 2, post 3) and anything unrecognised ranks 2.5; doubling keeps
   * the order and makes every rank an integer.
   */
  function Rank(t: SubreleaseType): nat {
    match t
    case Alpha => 0
    case Beta => 2
    case ReleaseCandidate => 4
    case Unrecognised => 5
    case Post => 6
  }

  /** `a < b` on subrelease types: by rank, not by declaration order. */
  predicate Precedes(a: SubreleaseType, b: SubreleaseType) {
    Rank(a) < Rank(b)
  }

  /** `is_pre`: everything except POST is a pre-release. */
  predicate IsPre(t: SubreleaseType) {
    t != Post
  }

  lemma LabelRoundTrip(t: SubreleaseType)
    requires !t.Unrecognised?
    ensures SubreleaseTypeOf(Label(t)) == t
  {
  }

  /** a < b < rc < anything unrecognised < post, and `is_pre` holds of all but post. */
  lemma PrecedenceTable()
    ensures Precedes(Alpha, Beta) && Precedes(Beta, ReleaseCandidate)
    ensures Precedes(ReleaseCandidate, Unrecognised) && Precedes(Unrecognised, Post)
    ensures forall t :: IsPre(t) <==> t != Post
    ensures forall t :: t != Post ==> Precedes(t, Post)
  {
  }

  /** The precedence is a strict total order on the five kinds. */
  lemma PrecedesIsStrictTotalOrder(a: SubreleaseType, b: SubreleaseType, c: SubreleaseType)
    ensures !Precedes(a, a)
    ensures a != b ==> Precedes(a, b) || Precedes(b, a)
    ensures Precedes(a, b) && Precedes(b, c) ==> Precedes(a, c)
  {
  }

  // ---------------------------------------------------------------------------
  // Subrelease

  datatype Subrelease = Subrelease(kind: SubreleaseType, number: int)

  function ValidateSubrelease(s: Subrelease): (o: Outcome)
    ensures o == Pass <==> s.number >= 0
  {
    if !IsPosInt(s.number) then Fail(ValueError("Subrelease is not a positive integer")) else Pass
  }

  // ---------------------------------------------------------------------------
  // Release

  /** An ordered tuple of integers; `ValidRelease` is what `validate` demands. */
  type Release = seq<int>

  ghost predicate ValidRelease(r: Release) {
    |r| >= 1 && forall i :: 0 <= i < |r| ==> r[i] >= 0
  }

  /** `Release.validate`: the length check comes first, then each part in turn. */
  function ValidateRelease(r: Release): (o: Outcome)
    ensures o == Pass <==> ValidRelease(r)
    ensures |r| == 0 ==> o == Fail(ValueError("Release must have at least one part"))
  {
    if |r| < 1 then Fail(ValueError("Release must have at least one part"))
    else if exists i :: 0 <= i < |r| && !IsPosInt(r[i]) then
      Fail(ValueError("Release parts must be positive integers"))
    else Pass
  }

  /** `major`: the first part; an empty tuple raises IndexError. */
  function Major(r: Release): (m: Result<int>)
    ensures m.Ok? <==> |r| >= 1
    ensures m.Ok? ==> m.value == r[0]
  {
    if |r| >= 1 then Ok(r[0]) else Raise(IndexError)
  }

  function Minor(r: Release): Option<int> {
    if |r| > 1 then Some(r[1]) else None
  }

  function Patch(r: Release): Option<int> {
    if |r| > 2 then Some(r[2]) else None
  }

  function Subpatch(r: Release): seq<int> {
    if |r| < 4 then [] else r[3..]
  }

  /**
   * `minor` and `patch` are absent exactly when the release is too short, and a
   * release of three or more parts is major, minor, patch followed by `subpatch`.
   */
  lemma AccessorsCoverRelease(r: Release)
    ensures Minor(r).None? <==> |r| < 2
    ensures Patch(r).None? <==> |r| < 3
    ensures |Subpatch(r)| == if |r| < 4 then 0 else |r| - 3
    ensures |r| >= 3 ==> r == [Major(r).value, Minor(r).value, Patch(r).value] + Subpatch(r)
  {
    if |r| >= 3 {
      assert r == r[..3] + r[3..];
    }
  }

  function Zeros(n: nat): (z: seq<int>)
    ensures |z| == n && forall i :: 0 <= i < n ==> z[i] == 0
  {
    seq(n, _ => 0)
  }

  /** What `triple` returns: the first three parts, padded with zeros to length three. */
  function TripleOf(r: Release): (t: Release)
    ensures |t| == 3
    ensures forall i :: 0 <= i < 3 ==> t[i] == if i < |r| then r[i] else 0
  {
    var head := if |r| < 3 then r else r[..3];
    head + Zeros(3 - |head|)
  }

  /** `triple`: copy at most three parts, then append zeros while shorter than three. */
  method Triple(r: Release) returns (t: Release)
    ensures t == TripleOf(r)
  {
    t := if |r| < 3 then r else r[..3];
    while |t| < 3
      invariant |t| <= 3
      invariant forall i :: 0 <= i < |t| ==> t[i] == if i < |r| then r[i] else 0
    {
      t := t + [0];
    }
    assert forall i :: 0 <= i < 3 ==> t[i] == TripleOf(r)[i];
  }

  /** For a valid release, `triple` is (major, minor or 0, patch or 0). */
  lemma TripleMatchesAccessors(r: Release)
    requires |r| >= 1
    ensures TripleOf(r) == [Major(r).value, Minor(r).GetOr(0), Patch(r).GetOr(0)]
  {
    var t := TripleOf(r);
    assert t[0] == r[0];
  }

  /** Python's reading of a possibly negative index into a list of length n. */
  function Normalise(n: nat, key: int): int {
    if key < 0 then key + n else key
  }

  /** `Release.mutate(key, value)`: the same parts with slot `key` replaced. */
  function Mutate(r: Release, key: int, value: int): (m: Result<Release>)
    ensures m.Ok? <==> -|r| <= key < |r|
    ensures m.Raise? ==> m.exc == IndexError
    ensures m.Ok? ==> |m.value| == |r| && m.value[Normalise(|r|, key)] == value
    ensures m.Ok? ==> forall i :: 0 <= i < |r| && i != Normalise(|r|, key) ==> m.value[i] == r[i]
  {
    if -|r| <= key < |r| then Ok(r[Normalise(|r|, key) := value]) else Raise(IndexError)
  }

  /** What `Release.bump(index, step)` returns or raises. */
  function Bumped(r: Release, index: int, step: int): Result<Release> {
    if index < |r| then
      if index < -|r| then Raise(IndexError)
      else Mutate(r, index, r[Normalise(|r|, index)] + step)
    else if step > 0 then Ok(r + Zeros(index - |r|) + [step])
    else Raise(ValueError("Nonexistent part cannot be decremented"))
  }

  /**
   * `Release.bump(index, step)`: within the tuple, add `step` to one slot; past its
   * end, pad with zeros and append `step`, which must then be positive.
   */
  method Bump(r: Release, index: int, step: int) returns (b: Result<Release>)
    ensures b == Bumped(r, index, step)
  {
    if index < |r| {
      if index < -|r| {
        b := Raise(IndexError);
      } else {
        b := Mutate(r, index, r[Normalise(|r|, index)] + step);
      }
    } else if step > 0 {
      var parts := r;
      while |parts| < index
        invariant |r| <= |parts| <= index
        invariant parts[..|r|] == r
        invariant forall i :: |r| <= i < |parts| ==> parts[i] == 0
      {
        parts := parts + [0];
      }
      assert parts == r + Zeros(index - |r|);
      b := Ok(parts + [step]);
    } else {
      b := Raise(ValueError("Nonexistent part cannot be decremented"));
    }
  }

  /** Inside the tuple, bump keeps the length and changes exactly the one slot. */
  lemma BumpWithin(r: Release, index: int, step: int)
    requires -|r| <= index < |r|
    ensures var b := Bumped(r, index, step); var k := Normalise(|r|, index);
      && b.Ok? && |b.value| == |r| && b.value[k] == r[k] + step
      && forall i :: 0 <= i < |r| && i != k ==> b.value[i] == r[i]
  {
  }

  /**
   * Past the end, bump succeeds exactly when `step > 0`, and then yields the old
   * parts, zeros up to `index - 1`, and `step` at `index`.
   */
  lemma BumpBeyond(r: Release, index: int, step: int)
    requires index >= |r|
    ensures Bumped(r, index, step).Ok? <==> step > 0
    ensures step <= 0 ==> Bumped(r, index, step) == Raise(ValueError("Nonexistent part cannot be decremented"))
    ensures step > 0 ==> var b := Bumped(r, index, step).value;
      && |b| == index + 1 && b[..|r|] == r && b[index] == step
      && forall i :: |r| <= i < index ==> b[i] == 0
  {
    if step > 0 {
      var b := Bumped(r, index, step).value;
      assert b[..|r|] == r;
    }
  }

  /** A bump that does not drive its slot below zero keeps a valid release valid. */
  lemma BumpKeepsValid(r: Release, index: int, step: int)
    requires ValidRelease(r)
    requires Bumped(r, index, step).Ok?
    requires index < |r| ==> r[Normalise(|r|, index)] + step >= 0
    ensures ValidRelease(Bumped(r, index, step).value)
  {
    if index >= |r| {
      BumpBeyond(r, index, step);
    }
  }

  /** Nothing stops a decrement below zero; the result then fails validation. */
  lemma BumpCanLeaveInvalid()
    ensures Bumped([0], 0, -1) == Ok([-1])
    ensures ValidateRelease([-1]) != Pass
  {
    assert [0][0 := -1] == [-1];
  }

  // ---------------------------------------------------------------------------
  // Rendering and reading

  function PartStrings(r: Release): (parts: seq<string>)
    ensures |parts| == |r|
    ensures forall i :: 0 <= i < |r| ==> parts[i] == IntToString(r[i])
  {
    if r == [] then [] else [IntToString(r[0])] + PartStrings(r[1..])
  }

  /** `str(release)`: the parts joined with ".". */
  function ReleaseToString(r: Release): string {
    Join(PartStrings(r), '.')
  }

  /** `int(p)` for each piece in turn; the first failure is raised. */
  function ParseParts(pieces: seq<string>): Result<Release> {
    if pieces == [] then Ok([])
    else match ParseInt(pieces[0])
      case Raise(e) => Raise(e)
      case Ok(n) =>
        match ParseParts(pieces[1..])
        case Raise(e) => Raise(e)
        case Ok(rest) => Ok([n] + rest)
  }

  /** `Release(int(n) for n in text.split("."))`, as `Version.parse` reads a release. */
  function ReleaseFromText(text: string): Result<Release> {
    ParseParts(Split(text, '.'))
  }

  lemma {:induction false} ParsePartStrings(r: Release)
    ensures ParseParts(PartStrings(r)) == Ok(r)
  {
    if r != [] {
      var ps := PartStrings(r);
      ParseIntOfString(r[0]);
      assert ps[0] == IntToString(r[0]);
      assert ps[1..] == PartStrings(r[1..]);
      ParsePartStrings(r[1..]);
      assert ParseParts(ps) == Ok([r[0]] + r[1..]);
      assert [r[0]] + r[1..] == r;
    }
  }

  /**
   * Splitting `str(release)` on "." and reading each piece with `int` gives back the
   * release, for every non-empty release.
   */
  lemma ReleaseTextRoundTrip(r: Release)
    requires |r| >= 1
    ensures ReleaseFromText(ReleaseToString(r)) == Ok(r)
  {
    var parts := PartStrings(r);
    forall p | p in parts
      ensures '.' !in p
    {
      var i :| 0 <= i < |parts| && parts[i] == p;
      IntStringHasNoDot(r[i]);
    }
    SplitOfJoin(parts, '.');
    ParsePartStrings(r);
  }

  lemma IntStringHasNoDot(n: int)
    ensures '.' !in IntToString(n)
  {
    var digits := NatToString(if n < 0 then -n else n);
    NatStringHasNoSeparators(if n < 0 then -n else n);
    if n < 0 {
      assert IntToString(n) == "-" + digits;
    }
  }

  // ---------------------------------------------------------------------------
  // FinalVersion, PublicVersion, Version

  datatype FinalVersion = FinalVersion(epoch: Option<int>, release: Release) {
    /** `_comparable`: a missing epoch becomes 0; everything present is kept. */
    function Comparable(): (c: FinalVersion)
      ensures c.epoch.Some? && c.release == release
      ensures epoch.Some? ==> c.epoch == epoch
      ensures epoch.None? ==> c.epoch == Some(0)
    {
      if epoch.None? then this.(epoch := Some(0)) else this
    }
  }

  datatype PublicVersion = PublicVersion(
    epoch: Option<int>, release: Release, subrelease: Option<Subrelease>, dev: Option<int>)
  {
    function Final(): FinalVersion {
      FinalVersion(epoch, release)
    }

    /** `_comparable`: a missing epoch becomes 0 and a missing dev becomes -1. */
    function Comparable(): (c: PublicVersion)
      ensures c.epoch.Some? && c.dev.Some?
      ensures c.release == release && c.subrelease == subrelease
      ensures epoch.Some? ==> c.epoch == epoch
      ensures dev.Some? ==> c.dev == dev
      ensures epoch.None? ==> c.epoch == Some(0)
      ensures dev.None? ==> c.dev == Some(-1)
    {
      var out := if epoch.None? then this.(epoch := Some(0)) else this;
      if out.dev.None? then out.(dev := Some(-1)) else out
    }
  }

  datatype Version = Version(
    epoch: Option<int>, release: Release, subrelease: Option<Subrelease>, dev: Option<int>,
    local: Option<string>)
  {
    /** `_comparable`: epoch 0, dev -1 and local label "" stand in for missing ones. */
    function Comparable(): (c: Version)
      ensures c.epoch.Some? && c.dev.Some? && c.local.Some?
      ensures c.release == release && c.subrelease == subrelease
      ensures epoch.Some? ==> c.epoch == epoch
      ensures dev.Some? ==> c.dev == dev
      ensures local.Some? ==> c.local == local
      ensures epoch.None? ==> c.epoch == Some(0)
      ensures dev.None? ==> c.dev == Some(-1)
      ensures local.None? ==> c.local == Some("")
    {
      var a := if epoch.None? then this.(epoch := Some(0)) else this;
      var b := if a.dev.None? then a.(dev := Some(-1)) else a;
      if b.local.None? then b.(local := Some("")) else b
    }
  }

  /** Applying `_comparable` to a comparable form changes nothing. */
  lemma ComparableIdempotent(f: FinalVersion, p: PublicVersion, v: Version)
    ensures f.Comparable().Comparable() == f.Comparable()
    ensures p.Comparable().Comparable() == p.Comparable()
    ensures v.Comparable().Comparable() == v.Comparable()
  {
  }

  /** `FinalVersion.__str__`: "epoch!" in front only when an epoch is present. */
  function FinalToString(v: FinalVersion): string {
    if v.epoch.Some? then IntToString(v.epoch.value) + "!" + ReleaseToString(v.release)
    else ReleaseToString(v.release)
  }

  predicate IsDigits(s: string) {
    s != [] && AllDigits(s)
  }

  /**
   * The epoch and release part of the version pattern, `(?:([0-9]+)!)?` followed by
   * `[0-9]+(?:\.[0-9]+)*`, and its conversion (`int(epoch) if epoch else None`, then
   * the release as `Version.parse` reads it).
   */
  function ParseFinalText(s: string): Result<FinalVersion> {
    var bang := IndexOf(s, '!');
    var epochText := if bang < |s| then s[..bang] else "";
    var releaseText := if bang < |s| then s[bang + 1..] else s;
    if (bang < |s| && !IsDigits(epochText))
       || !(forall p :: p in Split(releaseText, '.') ==> IsDigits(p)) then
      Raise(ValueError("String did not match version constraints"))
    else
      var epoch := if epochText != "" then ParseInt(epochText) else Ok(0);
      match (epoch, ReleaseFromText(releaseText))
      case (Raise(e), _) => Raise(e)
      case (_, Raise(e)) => Raise(e)
      case (Ok(n), Ok(r)) => Ok(FinalVersion(if epochText != "" then Some(n) else None, r))
  }

  lemma NatStringHasNoSeparators(n: nat)
    ensures '.' !in NatToString(n) && '!' !in NatToString(n)
  {
  }

  /** The release text of a valid release matches `[0-9]+(?:\.[0-9]+)*`. */
  lemma ValidReleaseTextMatches(r: Release)
    requires ValidRelease(r)
    ensures forall p :: p in Split(ReleaseToString(r), '.') ==> IsDigits(p)
    ensures '!' !in ReleaseToString(r)
  {
    var parts := PartStrings(r);
    forall p | p in parts
      ensures '.' !in p && '!' !in p && IsDigits(p)
    {
      var i :| 0 <= i < |parts| && parts[i] == p;
      NatStringHasNoSeparators(r[i]);
    }
    SplitOfJoin(parts, '.');
    JoinAvoids(parts, '.', '!');
  }

  lemma {:induction false} JoinAvoids(parts: seq<string>, sep: char, c: char)
    requires c != sep
    requires forall p :: p in parts ==> c !in p
    ensures c !in Join(parts, sep)
  {
    if |parts| > 1 {
      JoinAvoids(parts[1..], sep, c);
      assert parts[0] in parts;
    }
  }

  /** `str` then the version pattern give back every valid final version. */
  lemma FinalTextRoundTrip(v: FinalVersion)
    requires ValidateFinal(v) == Pass
    ensures ParseFinalText(FinalToString(v)) == Ok(v)
  {
    var rel := ReleaseToString(v.release);
    ValidReleaseTextMatches(v.release);
    ReleaseTextRoundTrip(v.release);
    var s := FinalToString(v);
    if v.epoch.Some? {
      var e := IntToString(v.epoch.value);
      NatStringHasNoSeparators(v.epoch.value);
      IndexOfAfterPrefix(e, '!', rel);
      assert s == e + ['!'] + rel;
      assert s[..|e|] == e;
      assert s[|e| + 1..] == rel;
      ParseIntOfString(v.epoch.value);
    } else {
      assert IndexOf(s, '!') == |s|;
    }
  }

  // ---------------------------------------------------------------------------
  // Validation

  /** `FinalVersion.validate`: a present epoch must be >= 0, then the release check. */
  function ValidateFinal(v: FinalVersion): (o: Outcome)
    ensures o == Pass <==> (v.epoch.Some? ==> v.epoch.value >= 0) && ValidRelease(v.release)
  {
    if v.epoch.Some? && !IsPosInt(v.epoch.value) then Fail(ValueError("epoch is not a positive integer"))
    else ValidateRelease(v.release)
  }

  /** What a `FinalVersion`'s release field may hold: a `Release`, or a plain tuple, which has no `validate`. */
  datatype ReleaseField = ReleaseObject(parts: Release) | PlainTuple(items: seq<int>)

  /** `FinalVersion.validate` with a release field of either kind. */
  function ValidateFinalField(epoch: Option<int>, release: ReleaseField): (o: Outcome)
    ensures release.PlainTuple? && (epoch.Some? ==> epoch.value >= 0) ==> o == Fail(AttributeError)
    ensures release.ReleaseObject? ==> o == ValidateFinal(FinalVersion(epoch, release.parts))
  {
    if epoch.Some? && !IsPosInt(epoch.value) then Fail(ValueError("epoch is not a positive integer"))
    else match release
      case PlainTuple(_) => Fail(AttributeError)
      case ReleaseObject(r) => ValidateRelease(r)
  }

  /** The default release of `FinalVersion` as written: the plain tuple `(0,)`. */
  const DefaultFinalReleaseAsWritten: ReleaseField := PlainTuple([0])

  /** As written, `FinalVersion().validate()` raises AttributeError. */
  lemma DefaultFinalRejectedAsWritten()
    ensures ValidateFinalField(None, DefaultFinalReleaseAsWritten) == Fail(AttributeError)
  {
  }

  /** `FinalVersion()` with the default `Release((0,))` that `PublicVersion` and `Version` use. */
  function DefaultFinalVersion(): (v: FinalVersion)
    ensures v.epoch.None? && v.release == [0]
    ensures ValidateFinal(v) == Pass
  {
    FinalVersion(None, [0])
  }

  /**
   * `PublicVersion.validate` as written: it calls `validate()` on the subrelease even
   * when there is none, which raises AttributeError.
   */
  function ValidatePublicAsWritten(v: PublicVersion): Outcome {
    var f := ValidateFinal(v.Final());
    if f.Fail? then f
    else if v.subrelease.None? then Fail(AttributeError)
    else if ValidateSubrelease(v.subrelease.value).Fail? then ValidateSubrelease(v.subrelease.value)
    else if v.dev.Some? && !IsPosInt(v.dev.value) then Fail(ValueError("Dev release is not a positive integer"))
    else Pass
  }

  /**
   * `PublicVersion.validate` with the subrelease checked through the module's own
   * None-tolerant `validate(obj)` helper.
   */
  function ValidatePublic(v: PublicVersion): Outcome {
    var f := ValidateFinal(v.Final());
    if f.Fail? then f
    else if v.subrelease.Some? && ValidateSubrelease(v.subrelease.value).Fail? then
      ValidateSubrelease(v.subrelease.value)
    else if v.dev.Some? && !IsPosInt(v.dev.value) then Fail(ValueError("Dev release is not a positive integer"))
    else Pass
  }

  /** `Version.public()` as written: the dev number is not passed on. */
  function PublicAsWritten(v: Version): PublicVersion {
    PublicVersion(v.epoch, v.release, v.subrelease, None)
  }

  /** `Version.public()` keeping every public field, dev included. */
  function Public(v: Version): PublicVersion {
    PublicVersion(v.epoch, v.release, v.subrelease, v.dev)
  }

  predicate IsLocalChar(c: char) {
    'a' <= c <= 'z' || 'A' <= c <= 'Z' || '0' <= c <= '9' || c == '.'
  }

  /**
   * The local-label checks of `Version.validate`: only ASCII letters, digits and ".",
   * and no "." at either end; an empty label passes the first check and then raises
   * IndexError when its first character is read.
   */
  function ValidateLocal(local: string): (o: Outcome)
    ensures o == Pass <==>
      && local != []
      && (forall i :: 0 <= i < |local| ==> IsLocalChar(local[i]))
      && local[0] != '.' && local[|local| - 1] != '.'
    ensures o == Fail(IndexError) <==> local == []
  {
    if exists i :: 0 <= i < |local| && !IsLocalChar(local[i]) then
      Fail(ValueError("local label includes invalid characters"))
    else if local == [] then Fail(IndexError)
    else if local[0] == '.' || local[|local| - 1] == '.' then
      Fail(ValueError("local label starts or ends with period"))
    else Pass
  }

  /** `Version.validate` as written: the public part through `public()`, then the label. */
  function ValidateVersionAsWritten(v: Version): Outcome {
    var p := ValidatePublicAsWritten(PublicAsWritten(v));
    if p.Fail? then p
    else if v.local.None? then Pass
    else ValidateLocal(v.local.value)
  }

  /** `Version.validate` with both public-part defects corrected. */
  function ValidateVersion(v: Version): Outcome {
    var p := ValidatePublic(Public(v));
    if p.Fail? then p
    else if v.local.None? then Pass
    else ValidateLocal(v.local.value)
  }

  /** Everything a valid version promises, field by field. */
  ghost predicate VersionInvariant(v: Version) {
    && (v.epoch.Some? ==> v.epoch.value >= 0)
    && ValidRelease(v.release)
    && (v.subrelease.Some? ==> v.subrelease.value.number >= 0)
    && (v.dev.Some? ==> v.dev.value >= 0)
    && (v.local.Some? ==> ValidateLocal(v.local.value) == Pass)
  }

  /** The corrected `validate` accepts exactly the versions that keep every invariant. */
  lemma ValidateVersionAccepts(v: Version)
    ensures ValidateVersion(v) == Pass <==> VersionInvariant(v)
  {
  }

  /** As written, a version with no subrelease never validates; corrected, it does. */
  lemma PlainVersionRejectedAsWritten()
    ensures ValidateVersionAsWritten(Version(None, [1, 0, 0], None, None, None)) == Fail(AttributeError)
    ensures ValidateVersion(Version(None, [1, 0, 0], None, None, None)) == Pass
  {
  }

  /** As written, a negative dev number slips through; corrected, it is refused. */
  lemma NegativeDevAcceptedAsWritten()
    ensures ValidateVersionAsWritten(Version(None, [1], Some(Subrelease(Alpha, 1)), Some(-1), None)) == Pass
    ensures ValidateVersion(Version(None, [1], Some(Subrelease(Alpha, 1)), Some(-1), None)) != Pass
  {
  }

  /**
   * The -1 that stands in for a missing dev number lies strictly below every dev
   * number that validation accepts, so a version without one sorts first.
   */
  lemma DevSentinelBelowValidDevs(v: Version)
    requires ValidateVersion(v) == Pass
    requires v.dev.Some?
    ensures v.(dev := None).Comparable().dev.value < v.Comparable().dev.value
  {
  }

  // ---------------------------------------------------------------------------
  // Comparison: `_compare` and `compare`

  /** The values `compare` is applied to. */
  datatype Value =
    | ReleaseValue(r: Release)
    | FinalValue(f: FinalVersion)
    | PublicValue(p: PublicVersion)
    | VersionValue(v: Version)

  /** One slot of a tuple as Python compares it. */
  datatype Item =
    | NoneItem
    | IntItem(i: int)
    | StrItem(s: string)
    | TupleItem(parts: seq<int>)
    | SubreleaseItem(sub: Subrelease)

  function IntItems(r: seq<int>): (items: seq<Item>)
    ensures |items| == |r| && forall i :: 0 <= i < |r| ==> items[i] == IntItem(r[i])
  {
    if r == [] then [] else [IntItem(r[0])] + IntItems(r[1..])
  }

  function OptionalInt(o: Option<int>): Item {
    if o.Some? then IntItem(o.value) else NoneItem
  }

  function OptionalStr(o: Option<string>): Item {
    if o.Some? then StrItem(o.value) else NoneItem
  }

  function OptionalSubrelease(o: Option<Subrelease>): Item {
    if o.Some? then SubreleaseItem(o.value) else NoneItem
  }

  /** The tuple each value is: a release is its parts, a version its named fields. */
  function Items(x: Value): seq<Item> {
    match x
    case ReleaseValue(r) => IntItems(r)
    case FinalValue(f) => [OptionalInt(f.epoch), TupleItem(f.release)]
    case PublicValue(p) =>
      [OptionalInt(p.epoch), TupleItem(p.release), OptionalSubrelease(p.subrelease), OptionalInt(p.dev)]
    case VersionValue(v) =>
      [OptionalInt(v.epoch), TupleItem(v.release), OptionalSubrelease(v.subrelease), OptionalInt(v.dev),
       OptionalStr(v.local)]
  }

  function Sign(x: int): int {
    if x < 0 then -1 else if x == 0 then 0 else 1
  }

  /** Python's order on tuples of integers: the first differing slot decides, else the shorter is smaller. */
  function CompareInts(a: seq<int>, b: seq<int>): (c: int)
    ensures c == -1 || c == 0 || c == 1
    ensures c == 0 <==> a == b
  {
    if a == [] || b == [] then Sign(|a| - |b|)
    else if a[0] != b[0] then (if a[0] < b[0] then -1 else 1)
    else
      assert a == [a[0]] + a[1..] && b == [b[0]] + b[1..];
      CompareInts(a[1..], b[1..])
  }

  /** Python orders strings by their code points. */
  function CodePoints(s: string): (cp: seq<int>)
    ensures |cp| == |s| && forall i :: 0 <= i < |s| ==> cp[i] == s[i] as int
  {
    seq(|s|, i requires 0 <= i < |s| => s[i] as int)
  }

  lemma CodePointsInjective(s: string, t: string)
    requires CodePoints(s) == CodePoints(t)
    ensures s == t
  {
    assert forall i :: 0 <= i < |s| ==> CodePoints(s)[i] == CodePoints(t)[i];
  }

  /**
   * `x > y` and `x < y` on two slots that differ. Ints, strings and tuples of ints
   * compare among their own kind; two different subreleases never return
   * (`Subrelease.__gt__` calls itself with the operands swapped); a subrelease against
   * None raises AttributeError (it calls `is_pre` on None); any other mix is a TypeError.
   */
  function CompareItems(a: Item, b: Item): (r: Result<int>)
    ensures r == Ok(0) <==> a == b
    ensures r.Ok? ==> r.value == -1 || r.value == 0 || r.value == 1
  {
    if a == b then Ok(0)
    else match (a, b)
      case (IntItem(x), IntItem(y)) => Ok(if x < y then -1 else 1)
      case (StrItem(x), StrItem(y)) =>
        if CodePoints(x) == CodePoints(y) then (CodePointsInjective(x, y); Ok(0))
        else Ok(CompareInts(CodePoints(x), CodePoints(y)))
      case (TupleItem(x), TupleItem(y)) => Ok(CompareInts(x, y))
      case (SubreleaseItem(_), SubreleaseItem(_)) => Raise(RecursionError)
      case (SubreleaseItem(_), NoneItem) => Raise(AttributeError)
      case (NoneItem, SubreleaseItem(_)) => Raise(AttributeError)
      case _ => Raise(TypeError)
  }

  /** Python's order on tuples: the first slot where they differ decides, else the shorter is smaller. */
  function CompareTuples(a: seq<Item>, b: seq<Item>): (r: Result<int>)
    ensures r == Ok(0) <==> a == b
    ensures r.Ok? ==> r.value == -1 || r.value == 0 || r.value == 1
  {
    if a == [] || b == [] then Ok(Sign(|a| - |b|))
    else if a[0] != b[0] then CompareItems(a[0], b[0])
    else
      assert a == [a[0]] + a[1..] && b == [b[0]] + b[1..];
      CompareTuples(a[1..], b[1..])
  }

  /** One step of the tuple comparison. */
  lemma CompareTuplesCons(x: Item, a: seq<Item>, y: Item, b: seq<Item>)
    ensures CompareTuples([x] + a, [y] + b)
            == if x != y then CompareItems(x, y) else CompareTuples(a, b)
  {
    assert ([x] + a)[1..] == a && ([y] + b)[1..] == b;
  }

  lemma CompareTuplesStep(a: seq<Item>, b: seq<Item>)
    requires a != [] && b != []
    ensures CompareTuples(a, b)
            == if a[0] != b[0] then CompareItems(a[0], b[0]) else CompareTuples(a[1..], b[1..])
  {
  }

  /** `_compare(first, second)`: 0 if equal, else 1 or -1 as Python orders the tuples. */
  function CompareDirect(first: Value, second: Value): Result<int> {
    CompareTuples(Items(first), Items(second))
  }

  /** Versions have `_comparable`; a bare release does not. */
  predicate HasComparable(x: Value) {
    !x.ReleaseValue?
  }

  function Comparable(x: Value): Value
    requires HasComparable(x)
  {
    match x
    case FinalValue(f) => FinalValue(f.Comparable())
    case PublicValue(p) => PublicValue(p.Comparable())
    case VersionValue(v) => VersionValue(v.Comparable())
  }

  /**
   * `compare(first, second)`: `_compare`, retried once on both `_comparable()` forms
   * when it raises TypeError; when either side has no `_comparable`, the TypeError is
   * raised again. Other exceptions pass through.
   */
  function Compare(first: Value, second: Value): (r: Result<int>)
    ensures r.Ok? ==> r.value == -1 || r.value == 0 || r.value == 1
  {
    var direct := CompareDirect(first, second);
    if direct == Raise(TypeError) && HasComparable(first) && HasComparable(second) then
      CompareDirect(Comparable(first), Comparable(second))
    else direct
  }

  /**
   * `_comparable` as the classes are declared. `NamedTuple` builds a class on `tuple`
   * alone and takes no `Mutatable` base, so the versions have no `mutate`: the first
   * slot that needs filling (a None epoch, dev or local label) raises AttributeError,
   * and a version with all of them present is returned as it is.
   */
  function ComparableAsWritten(x: Value): (c: Result<Value>)
    requires HasComparable(x)
    ensures c.Ok? <==> Comparable(x) == x
    ensures c.Ok? ==> c.value == x
    ensures c.Raise? ==> c.exc == AttributeError
  {
    match x
    case FinalValue(f) =>
      if f.epoch.None? then Raise(AttributeError) else Ok(x)
    case PublicValue(p) =>
      if p.epoch.None? || p.dev.None? then Raise(AttributeError) else Ok(x)
    case VersionValue(v) =>
      if v.epoch.None? || v.dev.None? || v.local.None? then Raise(AttributeError) else Ok(x)
  }

  /**
   * `compare` with `_comparable` as written: an AttributeError from the retry re-raises
   * the TypeError, and a retry with nothing to fill repeats the same comparison. So it
   * never answers where `_compare` raised TypeError: it is `_compare` itself.
   */
  function CompareAsWritten(first: Value, second: Value): (r: Result<int>)
    ensures r == CompareDirect(first, second)
  {
    var direct := CompareDirect(first, second);
    if direct == Raise(TypeError) && HasComparable(first) && HasComparable(second) then
      match ComparableAsWritten(first)
      case Raise(_) => direct
      case Ok(f) =>
        match ComparableAsWritten(second)
        case Raise(_) => direct
        case Ok(s) => CompareDirect(f, s)
    else direct
  }

  /**
   * A final version without an epoch against the same one with epoch 0: as written
   * `compare` raises TypeError (`None > 0`), where filling the epoch answers 0.
   */
  lemma MissingEpochRaisesAsWritten()
    ensures var a, b := FinalValue(FinalVersion(None, [1])), FinalValue(FinalVersion(Some(0), [1]));
            CompareAsWritten(a, b) == Raise(TypeError) && Compare(a, b) == Ok(0)
  {
    var a, b := FinalValue(FinalVersion(None, [1])), FinalValue(FinalVersion(Some(0), [1]));
    CompareTuplesCons(NoneItem, [TupleItem([1])], IntItem(0), [TupleItem([1])]);
    assert CompareDirect(a, b) == Raise(TypeError);
    assert Comparable(a) == b;
  }

  /** The same outcome seen from the other side: the sign flips, an exception stays. */
  function Flip(r: Result<int>): Result<int> {
    if r.Ok? then Ok(-r.value) else r
  }

  // ---- antisymmetry

  lemma {:induction false} CompareIntsAntisymmetric(a: seq<int>, b: seq<int>)
    ensures CompareInts(a, b) == -CompareInts(b, a)
  {
    if a != [] && b != [] && a[0] == b[0] {
      CompareIntsAntisymmetric(a[1..], b[1..]);
    }
  }

  lemma CompareItemsAntisymmetric(a: Item, b: Item)
    ensures CompareItems(a, b) == Flip(CompareItems(b, a))
  {
    if a != b {
      match (a, b)
      case (StrItem(x), StrItem(y)) =>
        CompareIntsAntisymmetric(CodePoints(x), CodePoints(y));
      case (TupleItem(x), TupleItem(y)) =>
        CompareIntsAntisymmetric(x, y);
      case _ =>
    }
  }

  lemma {:induction false} CompareTuplesAntisymmetric(a: seq<Item>, b: seq<Item>)
    ensures CompareTuples(a, b) == Flip(CompareTuples(b, a))
  {
    if a != [] && b != [] {
      if a[0] != b[0] {
        CompareItemsAntisymmetric(a[0], b[0]);
      } else {
        CompareTuplesAntisymmetric(a[1..], b[1..]);
      }
    }
  }

  /** `compare(a, b)` is `compare(b, a)` with the sign flipped; when one raises, both raise alike. */
  lemma CompareAntisymmetric(a: Value, b: Value)
    ensures Compare(a, b) == Flip(Compare(b, a))
  {
    CompareTuplesAntisymmetric(Items(a), Items(b));
    if HasComparable(a) && HasComparable(b) {
      CompareTuplesAntisymmetric(Items(Comparable(a)), Items(Comparable(b)));
    }
  }

  // ---- transitivity

  lemma {:induction false} CompareIntsTransitive(a: seq<int>, b: seq<int>, c: seq<int>)
    requires CompareInts(a, b) == 1 && CompareInts(b, c) == 1
    ensures CompareInts(a, c) == 1
  {
    if a != [] && b != [] && c != [] && a[0] == b[0] && b[0] == c[0] {
      CompareIntsTransitive(a[1..], b[1..], c[1..]);
    }
  }

  lemma CompareItemsTransitive(a: Item, b: Item, c: Item)
    requires CompareItems(a, b) == Ok(1) && CompareItems(b, c) == Ok(1)
    ensures CompareItems(a, c) == Ok(1)
  {
    match (a, b, c)
    case (StrItem(x), StrItem(y), StrItem(z)) =>
      CompareIntsTransitive(CodePoints(x), CodePoints(y), CodePoints(z));
    case (TupleItem(x), TupleItem(y), TupleItem(z)) =>
      CompareIntsTransitive(x, y, z);
    case _ =>
  }

  lemma {:induction false} CompareTuplesTransitive(a: seq<Item>, b: seq<Item>, c: seq<Item>)
    requires CompareTuples(a, b) == Ok(1) && CompareTuples(b, c) == Ok(1)
    ensures CompareTuples(a, c) == Ok(1)
  {
    if c != [] {
      if a[0] != b[0] && b[0] != c[0] {
        CompareItemsTransitive(a[0], b[0], c[0]);
      } else if a[0] == b[0] && b[0] == c[0] {
        CompareTuplesTransitive(a[1..], b[1..], c[1..]);
      }
    }
  }

  // ---- the retry on comparable forms

  /** Slots `_comparable` fills: epoch (0), dev (3) and local label (4). */
  predicate Fillable(k: nat) {
    k == 0 || k == 3 || k == 4
  }

  /** What `_comparable` leaves in slot k: 0, -1 or "" in a fillable slot holding None. */
  function FillSlot(k: nat, x: Item): Item {
    if x != NoneItem then x
    else if k == 0 then IntItem(0)
    else if k == 3 then IntItem(-1)
    else if k == 4 then StrItem("")
    else x
  }

  function FillFrom(s: seq<Item>, k: nat): (r: seq<Item>)
    ensures |r| == |s|
  {
    if s == [] then [] else [FillSlot(k, s[0])] + FillFrom(s[1..], k + 1)
  }

  ghost predicate NoSubreleaseInFillableSlots(s: seq<Item>, k: nat) {
    forall i :: 0 <= i < |s| && Fillable(k + i) ==> !s[i].SubreleaseItem?
  }

  lemma ItemsOfComparable(x: Value)
    requires HasComparable(x)
    ensures Items(Comparable(x)) == FillFrom(Items(x), 0)
    ensures NoSubreleaseInFillableSlots(Items(x), 0)
  {
    var s, c := Items(x), Items(Comparable(x));
    forall i | 0 <= i < |s| ensures FillFrom(s, 0)[i] == FillSlot(i, s[i]) {
      FillFromAt(s, 0, i);
    }
    match x {
      case FinalValue(f) =>
        assert c == [FillSlot(0, s[0]), s[1]];
      case PublicValue(p) =>
        assert c == [FillSlot(0, s[0]), s[1], s[2], FillSlot(3, s[3])];
      case VersionValue(v) =>
        assert c == [FillSlot(0, s[0]), s[1], s[2], FillSlot(3, s[3]), FillSlot(4, s[4])];
    }
  }

  lemma {:induction false} FillFromAt(s: seq<Item>, k: nat, i: nat)
    requires i < |s|
    ensures FillFrom(s, k)[i] == FillSlot(k + i, s[i])
  {
    if i > 0 {
      FillFromTail(s, k);
      FillFromAt(s[1..], k + 1, i - 1);
    }
  }

  /**
   * Filling the None slots cannot change a comparison that did not raise TypeError:
   * the slots before the first difference stay equal, and a None at the first
   * difference would have raised TypeError.
   */
  lemma {:induction false} FillingKeepsOutcome(a: seq<Item>, b: seq<Item>, k: nat)
    requires NoSubreleaseInFillableSlots(a, k) && NoSubreleaseInFillableSlots(b, k)
    requires CompareTuples(a, b) != Raise(TypeError)
    ensures CompareTuples(FillFrom(a, k), FillFrom(b, k)) == CompareTuples(a, b)
  {
    if a != [] && b != [] {
      var tie := FillingStep(a, b, k);
      if tie {
        FillingKeepsOutcome(a[1..], b[1..], k + 1);
      }
    }
  }

  /**
   * The first slot of the filled comparison: a tie passes the question on to the
   * tails, a difference decides as it did before filling.
   */
  lemma FillingStep(a: seq<Item>, b: seq<Item>, k: nat) returns (tie: bool)
    requires a != [] && b != []
    requires NoSubreleaseInFillableSlots(a, k) && NoSubreleaseInFillableSlots(b, k)
    requires CompareTuples(a, b) != Raise(TypeError)
    ensures tie ==>
      && CompareTuples(FillFrom(a, k), FillFrom(b, k)) == CompareTuples(FillFrom(a[1..], k + 1), FillFrom(b[1..], k + 1))
      && CompareTuples(a, b) == CompareTuples(a[1..], b[1..])
      && NoSubreleaseInFillableSlots(a[1..], k + 1) && NoSubreleaseInFillableSlots(b[1..], k + 1)
    ensures !tie ==> CompareTuples(FillFrom(a, k), FillFrom(b, k)) == CompareTuples(a, b)
  {
    FillFromTail(a, k);
    FillFromTail(b, k);
    CompareTuplesStep(a, b);
    CompareTuplesStep(FillFrom(a, k), FillFrom(b, k));
    NoSubreleaseSplit(a, k);
    NoSubreleaseSplit(b, k);
    tie := a[0] == b[0];
    if !tie {
      FillKeepsDifferingSlot(k, a[0], b[0]);
    }
  }

  lemma FillFromTail(s: seq<Item>, k: nat)
    requires s != []
    ensures FillFrom(s, k) != [] && FillFrom(s, k)[0] == FillSlot(k, s[0])
    ensures FillFrom(s, k)[1..] == FillFrom(s[1..], k + 1)
  {
  }

  /** The no-subrelease condition on a tuple is the one on its head and the one on its tail. */
  lemma NoSubreleaseSplit(s: seq<Item>, k: nat)
    requires s != [] && NoSubreleaseInFillableSlots(s, k)
    ensures Fillable(k) ==> !s[0].SubreleaseItem?
    ensures NoSubreleaseInFillableSlots(s[1..], k + 1)
  {
    assert Fillable(k + 0) ==> !s[0].SubreleaseItem?;
    forall i | 0 <= i < |s[1..]| && Fillable(k + 1 + i) ensures !s[1..][i].SubreleaseItem? {
      assert s[1..][i] == s[i + 1];
    }
  }

  /** At the first difference of a comparison that did not raise TypeError, neither side holds a None to fill. */
  lemma FillKeepsDifferingSlot(k: nat, x: Item, y: Item)
    requires x != y && CompareItems(x, y) != Raise(TypeError)
    requires Fillable(k) ==> !x.SubreleaseItem? && !y.SubreleaseItem?
    ensures FillSlot(k, x) == x && FillSlot(k, y) == y
  {
  }

  /**
   * For any two versions (anything but a bare release), `compare` is Python's
   * comparison of their `_comparable()` forms: the retry only ever replaces a
   * TypeError, never an answer.
   */
  lemma CompareIsComparableOrder(a: Value, b: Value)
    requires HasComparable(a) && HasComparable(b)
    ensures Compare(a, b) == CompareDirect(Comparable(a), Comparable(b))
  {
    if CompareDirect(a, b) != Raise(TypeError) {
      ItemsOfComparable(a);
      ItemsOfComparable(b);
      FillingKeepsOutcome(Items(a), Items(b), 0);
    }
  }

  lemma {:induction false} CompareTuplesOfInts(a: seq<int>, b: seq<int>)
    ensures CompareTuples(IntItems(a), IntItems(b)) == Ok(CompareInts(a, b))
  {
    if a != [] && b != [] {
      assert IntItems(a)[1..] == IntItems(a[1..]);
      assert IntItems(b)[1..] == IntItems(b[1..]);
      CompareTuplesOfInts(a[1..], b[1..]);
    }
  }

  /** Releases never fail to compare: `compare` is the lexicographic order of their parts. */
  lemma CompareReleases(a: Release, b: Release)
    ensures Compare(ReleaseValue(a), ReleaseValue(b)) == Ok(CompareInts(a, b))
  {
    CompareTuplesOfInts(a, b);
  }

  /**
   * On releases `compare` is a total order: it always answers, answers 0 exactly on
   * equal releases, is antisymmetric, and is transitive.
   */
  lemma ReleaseOrderIsTotal(a: Release, b: Release, c: Release)
    ensures Compare(ReleaseValue(a), ReleaseValue(b)).Ok?
    ensures Compare(ReleaseValue(a), ReleaseValue(b)) == Ok(0) <==> a == b
    ensures Compare(ReleaseValue(a), ReleaseValue(b)) == Flip(Compare(ReleaseValue(b), ReleaseValue(a)))
    ensures Compare(ReleaseValue(a), ReleaseValue(b)) == Ok(1) && Compare(ReleaseValue(b), ReleaseValue(c)) == Ok(1)
            ==> Compare(ReleaseValue(a), ReleaseValue(c)) == Ok(1)
  {
    CompareReleases(a, b);
    CompareReleases(b, a);
    CompareReleases(b, c);
    CompareReleases(a, c);
    CompareIntsAntisymmetric(a, b);
    if CompareInts(a, b) == 1 && CompareInts(b, c) == 1 {
      CompareIntsTransitive(a, b, c);
    }
  }

  /**
   * `compare` is transitive among versions, and among releases: whenever a > b and
   * b > c are answered, a > c is answered too.
   */
  lemma CompareTransitive(a: Value, b: Value, c: Value)
    requires (HasComparable(a) && HasComparable(b) && HasComparable(c))
             || (a.ReleaseValue? && b.ReleaseValue? && c.ReleaseValue?)
    requires Compare(a, b) == Ok(1) && Compare(b, c) == Ok(1)
    ensures Compare(a, c) == Ok(1)
  {
    if HasComparable(a) {
      CompareIsComparableOrder(a, b);
      CompareIsComparableOrder(b, c);
      CompareIsComparableOrder(a, c);
      CompareTuplesTransitive(Items(Comparable(a)), Items(Comparable(b)), Items(Comparable(c)));
    } else {
      ReleaseOrderIsTotal(a.r, b.r, c.r);
    }
  }

  /**
   * Final versions always compare: by epoch, a missing one counting as 0, then by
   * release.
   */
  lemma CompareFinalVersions(a: FinalVersion, b: FinalVersion)
    ensures var ea, eb := a.epoch.GetOr(0), b.epoch.GetOr(0);
      Compare(FinalValue(a), FinalValue(b))
        == Ok(if ea != eb then Sign(ea - eb) else CompareInts(a.release, b.release))
  {
    CompareIsComparableOrder(FinalValue(a), FinalValue(b));
    var ea, eb := a.epoch.GetOr(0), b.epoch.GetOr(0);
    assert Items(FinalValue(a.Comparable())) == [IntItem(ea)] + [TupleItem(a.release)];
    assert Items(FinalValue(b.Comparable())) == [IntItem(eb)] + [TupleItem(b.release)];
    CompareTuplesCons(IntItem(ea), [TupleItem(a.release)], IntItem(eb), [TupleItem(b.release)]);
    CompareTuplesCons(TupleItem(a.release), [], TupleItem(b.release), []);
  }

  /** A missing epoch and an epoch of 0 compare equal. */
  lemma MissingEpochCountsAsZero(f: FinalVersion)
    ensures Compare(FinalValue(f.(epoch := None)), FinalValue(f.(epoch := Some(0)))) == Ok(0)
  {
    CompareFinalVersions(f.(epoch := None), f.(epoch := Some(0)));
  }

  /**
   * Two versions with the same subrelease always compare: by epoch (missing = 0),
   * release, dev number (missing = -1) and local label (missing = ""), in that order.
   */
  lemma CompareVersionsSharingSubrelease(a: Version, b: Version)
    requires a.subrelease == b.subrelease
    ensures var ca, cb := a.Comparable(), b.Comparable();
      Compare(VersionValue(a), VersionValue(b)) == Ok(
        if ca.epoch != cb.epoch then Sign(ca.epoch.value - cb.epoch.value)
        else if ca.release != cb.release then CompareInts(ca.release, cb.release)
        else if ca.dev != cb.dev then Sign(ca.dev.value - cb.dev.value)
        else CompareInts(CodePoints(ca.local.value), CodePoints(cb.local.value)))
  {
    CompareIsComparableOrder(VersionValue(a), VersionValue(b));
    var ca, cb := a.Comparable(), b.Comparable();
    CompareFilledVersionSlots(ca.epoch.value, ca.release, ca.dev.value, ca.local.value,
                              cb.epoch.value, cb.release, cb.dev.value, cb.local.value,
                              OptionalSubrelease(a.subrelease));
  }

  /** The five slots of two comparable versions that share their subrelease slot. */
  lemma CompareFilledVersionSlots(ea: int, ra: Release, da: int, la: string,
                                  eb: int, rb: Release, db: int, lb: string, sub: Item)
    ensures CompareTuples([IntItem(ea), TupleItem(ra), sub, IntItem(da), StrItem(la)],
                          [IntItem(eb), TupleItem(rb), sub, IntItem(db), StrItem(lb)])
            == Ok(if ea != eb then Sign(ea - eb)
                  else if ra != rb then CompareInts(ra, rb)
                  else if da != db then Sign(da - db)
                  else CompareInts(CodePoints(la), CodePoints(lb)))
  {
    var ta := [TupleItem(ra), sub, IntItem(da), StrItem(la)];
    var tb := [TupleItem(rb), sub, IntItem(db), StrItem(lb)];
    assert [IntItem(ea), TupleItem(ra), sub, IntItem(da), StrItem(la)] == [IntItem(ea)] + ta;
    assert [IntItem(eb), TupleItem(rb), sub, IntItem(db), StrItem(lb)] == [IntItem(eb)] + tb;
    CompareTuplesCons(IntItem(ea), ta, IntItem(eb), tb);
    CompareReleaseSubDevLocal(ra, da, la, rb, db, lb, sub);
  }

  /** The four slots after the epoch: release, the shared subrelease, dev, local. */
  lemma CompareReleaseSubDevLocal(ra: Release, da: int, la: string, rb: Release, db: int, lb: string, sub: Item)
    ensures CompareTuples([TupleItem(ra), sub, IntItem(da), StrItem(la)],
                          [TupleItem(rb), sub, IntItem(db), StrItem(lb)])
            == Ok(if ra != rb then CompareInts(ra, rb)
                  else if da != db then Sign(da - db)
                  else CompareInts(CodePoints(la), CodePoints(lb)))
  {
    var ta := [sub, IntItem(da), StrItem(la)];
    var tb := [sub, IntItem(db), StrItem(lb)];
    assert [TupleItem(ra), sub, IntItem(da), StrItem(la)] == [TupleItem(ra)] + ta;
    assert [TupleItem(rb), sub, IntItem(db), StrItem(lb)] == [TupleItem(rb)] + tb;
    CompareTuplesCons(TupleItem(ra), ta, TupleItem(rb), tb);
    assert [sub, IntItem(da), StrItem(la)] == [sub] + [IntItem(da), StrItem(la)];
    assert [sub, IntItem(db), StrItem(lb)] == [sub] + [IntItem(db), StrItem(lb)];
    CompareTuplesCons(sub, [IntItem(da), StrItem(la)], sub, [IntItem(db), StrItem(lb)]);
    CompareDevAndLocal(da, la, db, lb);
  }

  /** The last two slots of a comparable version: dev number, then local label. */
  lemma CompareDevAndLocal(da: int, la: string, db: int, lb: string)
    ensures CompareTuples([IntItem(da), StrItem(la)], [IntItem(db), StrItem(lb)])
            == Ok(if da != db then Sign(da - db) else CompareInts(CodePoints(la), CodePoints(lb)))
  {
    CompareTuplesCons(IntItem(da), [StrItem(la)], IntItem(db), [StrItem(lb)]);
    CompareTuplesCons(StrItem(la), [], StrItem(lb), []);
    if la != lb && CodePoints(la) == CodePoints(lb) {
      CodePointsInjective(la, lb);
    }
  }

  /**
   * A version without a dev number sorts below the same version with any dev number
   * that validation accepts, for public versions and full versions alike.
   */
  lemma MissingDevSortsFirst(p: PublicVersion, v: Version, d: int)
    requires p.dev.None? && v.dev.None? && d >= 0
    ensures Compare(PublicValue(p), PublicValue(p.(dev := Some(d)))) == Ok(-1)
    ensures Compare(VersionValue(v), VersionValue(v.(dev := Some(d)))) == Ok(-1)
  {
    CompareVersionsSharingSubrelease(v, v.(dev := Some(d)));
    MissingPublicDevSortsFirst(p, d);
  }

  lemma MissingPublicDevSortsFirst(p: PublicVersion, d: int)
    requires p.dev.None? && d >= 0
    ensures Compare(PublicValue(p), PublicValue(p.(dev := Some(d)))) == Ok(-1)
  {
    var q := p.(dev := Some(d));
    CompareIsComparableOrder(PublicValue(p), PublicValue(q));
    var e := IntItem(p.epoch.GetOr(0));
    var r := TupleItem(p.release);
    var sub := OptionalSubrelease(p.subrelease);
    assert Items(PublicValue(p.Comparable())) == [e, r, sub, IntItem(-1)];
    assert Items(PublicValue(q.Comparable())) == [e, r, sub, IntItem(d)];
    SharedPrefixThenDev(e, r, sub, d);
  }

  /** Four slots that agree up to the dev slot, where -1 meets a dev number d >= 0. */
  lemma SharedPrefixThenDev(e: Item, r: Item, sub: Item, d: int)
    requires d >= 0
    ensures CompareTuples([e, r, sub, IntItem(-1)], [e, r, sub, IntItem(d)]) == Ok(-1)
  {
    assert [e, r, sub, IntItem(-1)] == [e] + ([r] + ([sub] + [IntItem(-1)]));
    assert [e, r, sub, IntItem(d)] == [e] + ([r] + ([sub] + [IntItem(d)]));
    CompareTuplesCons(e, [r] + ([sub] + [IntItem(-1)]), e, [r] + ([sub] + [IntItem(d)]));
    CompareTuplesCons(r, [sub] + [IntItem(-1)], r, [sub] + [IntItem(d)]);
    CompareTuplesCons(sub, [IntItem(-1)], sub, [IntItem(d)]);
    CompareTuplesCons(IntItem(-1), [], IntItem(d), []);
  }

  // ---- bump against the order

  lemma {:induction false} CompareIntsFirstDifference(a: seq<int>, b: seq<int>, k: nat)
    requires k < |a| && k < |b| && a[..k] == b[..k] && a[k] > b[k]
    ensures CompareInts(a, b) == 1
  {
    if k > 0 {
      assert a[0] == a[..k][0] == b[..k][0] == b[0];
      assert a[1..][..k - 1] == a[..k][1..] && b[1..][..k - 1] == b[..k][1..];
      CompareIntsFirstDifference(a[1..], b[1..], k - 1);
    }
  }

  lemma {:induction false} CompareIntsLongerPrefix(a: seq<int>, b: seq<int>)
    requires |a| > |b| && a[..|b|] == b
    ensures CompareInts(a, b) == 1
  {
    if b != [] {
      assert a[0] == b[0];
      assert a[1..][..|b| - 1] == b[1..];
      CompareIntsLongerPrefix(a[1..], b[1..]);
    }
  }

  /** Bumping by a positive step always yields a strictly greater release. */
  lemma BumpRaisesRelease(r: Release, index: int, step: int)
    requires step > 0 && Bumped(r, index, step).Ok?
    ensures Compare(ReleaseValue(Bumped(r, index, step).value), ReleaseValue(r)) == Ok(1)
  {
    var b := Bumped(r, index, step).value;
    CompareReleases(b, r);
    if index < |r| {
      var k := Normalise(|r|, index);
      BumpWithin(r, index, step);
      assert b[..k] == r[..k];
      CompareIntsFirstDifference(b, r, k);
    } else {
      BumpBeyond(r, index, step);
      CompareIntsLongerPrefix(b, r);
    }
  }
}
