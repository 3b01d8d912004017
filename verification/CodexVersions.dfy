/** The Codex client version: strict and loose parsing, the effective version, and the synced cache. */
module CodexVersions {
  import opened Prelude
  import opened Text
  import opened Decimals

  datatype Version = Version(major: nat, minor: nat, patch: nat)

  predicate AtMost(a: Version, b: Version) {
    || a.major < b.major
    || (a.major == b.major && (a.minor < b.minor || (a.minor == b.minor && a.patch <= b.patch)))
  }

  /** All three parts are `u64`. */
  predicate Fits(v: Version) {
    v.major <= U64_MAX && v.minor <= U64_MAX && v.patch <= U64_MAX
  }

  // --------------------------------------------------------------- the two parsers

  /** `str::parse::<u64>`; a leading plus sign, which it also takes, cannot reach either caller. */
  function ParseU64(s: string): Option<nat> {
    if s != "" && Digits(s) && Value(s) <= U64_MAX then Some(Value(s)) else None
  }

  function ParseComponent(s: string): Option<nat> {
    if s == "" || (|s| > 1 && s[0] == '0') then None else ParseU64(s)
  }

  function Assemble(major: Option<nat>, minor: Option<nat>, patch: Option<nat>): Option<Version> {
    if major.Some? && minor.Some? && patch.Some? then Some(Version(major.value, minor.value, patch.value)) else None
  }

  function ParseStable(text: string): Option<Version> {
    var s := Trim(text);
    if s == "" || exists c :: c in s && !(Digit(c) || c == '.') then None
    else
      var parts := Split(s, '.');
      if |parts| != 3 then None
      else Assemble(ParseComponent(parts[0]), ParseComponent(parts[1]), ParseComponent(parts[2]))
  }

  function SkipVs(s: string): string {
    if s != "" && s[0] == 'v' then SkipVs(s[1..]) else s
  }

  /** The accepting parser of configured values: leading `v`s, a suffix after `-` or `+`, and parts after the third. */
  function ParseVersion(text: string): Option<Version> {
    var s := SkipVs(Trim(text));
    var numeric := s[..FirstIndex(s, c => c == '-' || c == '+')];
    var parts := Split(numeric, '.');
    if |parts| < 3 then None
    else Assemble(ParseU64(parts[0]), ParseU64(parts[1]), ParseU64(parts[2]))
  }

  function Show(v: Version): string {
    Decimal(v.major) + "." + (Decimal(v.minor) + "." + Decimal(v.patch))
  }

  lemma ShowSplits(a: string, b: string, c: string)
    requires '.' !in a && '.' !in b && '.' !in c
    ensures Split(a + "." + (b + "." + c), '.') == [a, b, c]
  {
    SplitFirst(a, b + "." + c, '.');
    SplitFirst(b, c, '.');
    SplitNone(c, '.');
  }

  lemma ShowIsTrimmed(v: Version)
    ensures Trim(Show(v)) == Show(v)
    ensures forall c :: c in Show(v) ==> Digit(c) || c == '.'
  {
    TrimmedIsFixed(Show(v));
  }

  lemma {:induction false} DecimalIsComponent(n: nat)
    requires n <= U64_MAX
    ensures ParseComponent(Decimal(n)) == Some(n) == ParseU64(Decimal(n)) && '.' !in Decimal(n)
  {
    DecimalHasItsValue(n);
    assert forall c :: c in Decimal(n) ==> Digit(c);
  }

  /** The parts of a printed version, and what they read as. */
  lemma {:induction false} ShownParts(v: Version)
    requires Fits(v)
    ensures var parts := Split(Show(v), '.');
            && |parts| == 3
            && Assemble(ParseComponent(parts[0]), ParseComponent(parts[1]), ParseComponent(parts[2])) == Some(v)
            && Assemble(ParseU64(parts[0]), ParseU64(parts[1]), ParseU64(parts[2])) == Some(v)
  {
    DecimalIsComponent(v.major);
    DecimalIsComponent(v.minor);
    DecimalIsComponent(v.patch);
    ShowSplits(Decimal(v.major), Decimal(v.minor), Decimal(v.patch));
  }

  /** Printing, then strictly parsing, gives the version back. */
  lemma {:induction false} ShowThenParse(v: Version)
    requires Fits(v)
    ensures ParseStable(Show(v)) == Some(v)
  {
    ShowIsTrimmed(v);
    ShownParts(v);
  }

  /** The strict parser accepts only the printed form of what it returns, up to surrounding white space. */
  lemma ParseThenShow(text: string, v: Version)
    requires ParseStable(text) == Some(v)
    ensures Fits(v) && Show(v) == Trim(text)
  {
    var s := Trim(text);
    var p := Split(s, '.');
    SplitInThree(s, '.');
    ValueHasItsDecimal(p[0]);
    ValueHasItsDecimal(p[1]);
    ValueHasItsDecimal(p[2]);
  }

  /** So the accepted texts are the printed versions, and each version has one text. */
  lemma AcceptedExactlyWhenPrinted(text: string, v: Version)
    ensures ParseStable(text) == Some(v) <==> Fits(v) && Trim(text) == Show(v)
  {
    if ParseStable(text) == Some(v) {
      ParseThenShow(text, v);
    } else if Fits(v) && Trim(text) == Show(v) {
      ShowThenParse(v);
      ShowIsTrimmed(v);
      assert false;
    }
  }

  /** The accepting parser agrees with the strict one wherever the strict one accepts. */
  lemma StrictImpliesLoose(text: string, v: Version)
    requires ParseStable(text) == Some(v)
    ensures ParseVersion(text) == Some(v)
  {
    var s := Trim(text);
    assert SkipVs(s) == s;
    var p := c => c == '-' || c == '+';
    forall k | 0 <= k < |s| ensures !p(s[k]) {
      assert s[k] in s;
    }
    assert s[..|s|] == s;
  }

  /** The accepting parser ignores everything from a dash or plus sign on, whatever it holds. */
  lemma {:induction false} SuffixIsIgnored(v: Version, mark: char, suffix: string)
    requires Fits(v) && Trimmed(suffix) && (mark == '-' || mark == '+')
    ensures Trimmed(Show(v) + ([mark] + suffix)) && ParseVersion(Show(v) + ([mark] + suffix)) == Some(v)
  {
    var s := Show(v) + ([mark] + suffix);
    ShowIsTrimmed(v);
    BeginsPlainly(Show(v), [mark] + suffix);
    TrimmedIsFixed(s);
    UpToMark(Show(v), s);
    ShownParts(v);
  }

  lemma BeginsPlainly(shown: string, rest: string)
    requires shown != "" && (forall c :: c in shown ==> Digit(c) || c == '.')
    requires rest != "" && !Whitespace(rest[|rest| - 1])
    ensures Trimmed(shown + rest) && SkipVs(shown + rest) == shown + rest
  {
    assert (shown + rest)[0] in shown;
  }

  lemma UpToMark(shown: string, s: string)
    requires (forall c :: c in shown ==> Digit(c) || c == '.') && shown <= s
    requires |shown| < |s| && (s[|shown|] == '-' || s[|shown|] == '+')
    ensures s[..FirstIndex(s, c => c == '-' || c == '+')] == shown
  {
    var p := c => c == '-' || c == '+';
    forall k | 0 <= k < |shown| ensures !p(s[k]) {
      assert s[k] in shown;
    }
    FirstIndexUnique(s, p, |shown|);
  }

  // --------------------------------------------------------- the effective version

  predicate VersionAtLeast(s: string, minimum: string) {
    ParseVersion(s).Some? && ParseVersion(minimum).Some? && AtMost(ParseVersion(minimum).value, ParseVersion(s).value)
  }

  predicate StableAtLeast(s: string, minimum: string) {
    ParseStable(s).Some? && ParseStable(minimum).Some? && AtMost(ParseStable(minimum).value, ParseStable(s).value)
  }

  lemma StableIsLooselyEnough(s: string, minimum: string)
    requires StableAtLeast(s, minimum)
    ensures VersionAtLeast(s, minimum)
  {
    StrictImpliesLoose(s, ParseStable(s).value);
    StrictImpliesLoose(minimum, ParseStable(minimum).value);
  }

  /** The built-in version. What follows is proved of any stable one, so a new release needs no new proof. */
  const DEFAULT_VERSION: string := "0.144.1"

  lemma BuiltInParses()
    ensures ParseStable(DEFAULT_VERSION) == Some(Version(0, 144, 1))
  {
    assert Decimal(144) == "144" by { assert Decimal(14) == "14"; }
    assert Show(Version(0, 144, 1)) == DEFAULT_VERSION;
    ShowThenParse(Version(0, 144, 1));
  }

  predicate Stable(s: string) { ParseStable(s).Some? }

  function VersionOf(s: string): Version
    requires Stable(s)
  {
    ParseStable(s).value
  }

  lemma {:induction false} TrimKeepsVersion(s: string)
    ensures ParseStable(Trim(s)) == ParseStable(s)
  {
    TrimIsTrimmed(s);
    TrimmedIsFixed(Trim(s));
  }

  lemma {:induction false} VersionIsNotEmpty(s: string)
    requires ParseVersion(s).Some?
    ensures s != ""
  {
  }

  function ResolveConfigured(explicit: Option<string>, synced: Option<string>, builtin: string): string {
    if explicit.Some? && VersionAtLeast(Trim(explicit.value), builtin) then Trim(explicit.value)
    else if synced.Some? && StableAtLeast(Trim(synced.value), builtin) then Trim(synced.value)
    else builtin
  }

  /** Whatever is configured or synced, the effective version is trimmed, readable and not below the built-in one. */
  lemma {:induction false} ConfiguredNeverBelowBuiltIn(
    explicit: Option<string>, synced: Option<string>, builtin: string)
    requires Stable(builtin) && Trimmed(builtin)
    ensures var v := ResolveConfigured(explicit, synced, builtin);
            Trimmed(v) && VersionAtLeast(v, builtin)
  {
    StableIsLooselyEnough(builtin, builtin);
    if explicit.Some? && VersionAtLeast(Trim(explicit.value), builtin) {
      TrimIsTrimmed(explicit.value);
    } else if synced.Some? && StableAtLeast(Trim(synced.value), builtin) {
      TrimIsTrimmed(synced.value);
      StableIsLooselyEnough(Trim(synced.value), builtin);
    }
  }
}

/** The version cache file and the process-wide synced version, over every run of starts and syncs. */
module CodexVersionSync {
  import opened Prelude
  import opened Text
  import opened CodexVersions

  // ------------------------------------------------------------------ release names

  datatype Release = Release(name: Option<string>, tag: Option<string>)

  function StripPrefix(s: string, prefix: string): string {
    if prefix <= s then s[|prefix|..] else s
  }

  function StableReleaseVersion(raw: string): (r: Option<string>)
    ensures r.Some? ==> Stable(r.value)
  {
    var candidate := StripPrefix(StripPrefix(Trim(raw), "rust-"), "v");
    if Stable(candidate) then Some(candidate) else None
  }

  /** The first of the two fields that carries a stable version. */
  function ReleaseVersion(release: Release): (r: Option<string>)
    ensures r.Some? ==> Stable(r.value)
  {
    var name := if release.name.Some? then StableReleaseVersion(release.name.value) else None;
    if name.Some? then name
    else if release.tag.Some? then StableReleaseVersion(release.tag.value)
    else None
  }

  /** What may stand before the version in a release name or tag. */
  predicate ReleasePrefix(prefix: string) { prefix == "" || prefix == "v" || prefix == "rust-" || prefix == "rust-v" }

  /** The part that `StripPrefix` takes away. */
  function Taken(s: string, prefix: string): string { if prefix <= s then prefix else "" }

  lemma StripSplits(s: string, prefix: string)
    ensures s == Taken(s, prefix) + StripPrefix(s, prefix)
  {
  }

  lemma PrefixesJoin(first: string, second: string)
    requires (first == "rust-" || first == "") && (second == "v" || second == "")
    ensures ReleasePrefix(first + second)
  {
    assert "rust-" + "v" == "rust-v";
    assert first + "" == first && "" + second == second;
  }

  lemma ConcatAssociates(a: string, b: string, c: string)
    ensures a + b + c == a + (b + c)
  {
  }

  lemma {:induction false} StrippedPrefix(s: string) returns (prefix: string)
    ensures ReleasePrefix(prefix) && s == prefix + StripPrefix(StripPrefix(s, "rust-"), "v")
  {
    var bare := StripPrefix(s, "rust-");
    var first, second := Taken(s, "rust-"), Taken(bare, "v");
    StripSplits(s, "rust-");
    StripSplits(bare, "v");
    ConcatAssociates(first, second, StripPrefix(bare, "v"));
    PrefixesJoin(first, second);
    prefix := first + second;
  }

  lemma PrefixStrips(prefix: string, version: string)
    requires ReleasePrefix(prefix) && version != "" && version[0] != 'v' && version[0] != 'r'
    ensures StripPrefix(StripPrefix(prefix + version, "rust-"), "v") == version
  {
    var s := prefix + version;
    if prefix == "rust-" || prefix == "rust-v" {
      assert "rust-" <= s;
      assert s[5..] == prefix[5..] + version;
    } else {
      assert s[0] == if prefix == "v" then 'v' else version[0];
      assert !("rust-" <= s) by { assert "rust-"[0] == 'r'; }
    }
    var bare := StripPrefix(s, "rust-");
    assert bare == (if prefix == "v" || prefix == "rust-v" then "v" + version else version);
    assert !("v" <= version) by { assert "v"[0] == 'v'; }
    assert ("v" + version)[1..] == version;
  }

  /** The text is a strictly valid version that `raw` carries after one of the four prefixes. */
  ghost predicate Carries(raw: string, text: string) {
    Stable(text) && exists prefix :: ReleasePrefix(prefix) && Trim(raw) == prefix + text
  }

  lemma {:induction false} StableStartsPlainly(text: string)
    requires Stable(text)
    ensures text != "" && text[0] != 'v' && text[0] != 'r'
  {
    if !Whitespace(text[0]) {
      var trimmed := Trim(text);
      TrimKeepsFirst(text);
      ParseThenShow(text, VersionOf(text));
      ShowIsTrimmed(VersionOf(text));
      assert trimmed[0] in trimmed;
    }
  }

  lemma {:induction false} TrimKeepsFirst(text: string)
    requires text != "" && !Whitespace(text[0])
    ensures Trim(text) != "" && Trim(text)[0] == text[0]
  {
    assert TrimStart(text) == text;
    TrimEndKeepsFirst(text);
  }

  lemma {:induction false} TrimEndKeepsFirst(text: string)
    requires text != "" && !Whitespace(text[0])
    ensures TrimEnd(text) != "" && TrimEnd(text)[0] == text[0]
  {
    if |text| > 1 && Whitespace(text[|text| - 1]) {
      TrimEndKeepsFirst(text[..|text| - 1]);
    }
  }

  /** A name or tag gives a version exactly when it carries it: no text carries two, and every one carried is given. */
  lemma {:induction false} ReleaseNamesVersion(raw: string, text: string)
    ensures StableReleaseVersion(raw) == Some(text) <==> Carries(raw, text)
  {
    var before := StrippedPrefix(Trim(raw));
    if Carries(raw, text) {
      var prefix :| ReleasePrefix(prefix) && Trim(raw) == prefix + text;
      StableStartsPlainly(text);
      PrefixStrips(prefix, text);
    }
  }

  /** A printed version after one of the prefixes is carried. */
  lemma {:induction false} PrintedIsCarried(raw: string, prefix: string, v: Version)
    requires ReleasePrefix(prefix) && Fits(v) && Trim(raw) == prefix + Show(v)
    ensures Carries(raw, Show(v))
  {
    ShowThenParse(v);
  }

  ghost predicate FieldCarries(field: Option<string>, text: string) { field.Some? && Carries(field.value, text) }

  /** Which version a release has: the one its name carries, or its tag's if the name carries none. */
  lemma {:induction false} ReleaseHasVersion(release: Release, text: string)
    ensures ReleaseVersion(release) == Some(text) <==>
            || FieldCarries(release.name, text)
            || ((forall other :: !FieldCarries(release.name, other)) && FieldCarries(release.tag, text))
  {
    if release.name.Some? {
      forall other ensures FieldCarries(release.name, other) <==>
                           StableReleaseVersion(release.name.value) == Some(other) {
        ReleaseNamesVersion(release.name.value, other);
      }
      var given := StableReleaseVersion(release.name.value);
      assert given.Some? ==> FieldCarries(release.name, given.value);
    }
    if release.tag.Some? {
      ReleaseNamesVersion(release.tag.value, text);
    }
  }

  /** A printed version in the name is the release's, whatever the tag says; in the tag, when the name carries none. */
  lemma {:induction false} PrintedVersionIsFetched(release: Release, prefix: string, v: Version)
    requires ReleasePrefix(prefix) && Fits(v)
    ensures release.name.Some? && Trim(release.name.value) == prefix + Show(v) ==>
              ReleaseVersion(release) == Some(Show(v))
    ensures (forall other :: !FieldCarries(release.name, other))
            && release.tag.Some? && Trim(release.tag.value) == prefix + Show(v) ==>
              ReleaseVersion(release) == Some(Show(v))
  {
    ReleaseHasVersion(release, Show(v));
    if release.name.Some? && Trim(release.name.value) == prefix + Show(v) {
      PrintedIsCarried(release.name.value, prefix, v);
    }
    if release.tag.Some? && Trim(release.tag.value) == prefix + Show(v) {
      PrintedIsCarried(release.tag.value, prefix, v);
    }
  }

  // --------------------------------------------------------------------- one sync

  datatype CacheFile = Missing | Malformed | Cache(schema: nat, version: string, source: string)

  const SCHEMA: nat := 1
  const SOURCE: string := "github_latest_release"

  /** The version a file holds, for a reader that gets through to it. */
  function Usable(file: CacheFile, builtin: string): (r: Option<string>)
    ensures r.Some? ==> Stable(r.value)
  {
    if file.Cache? && file.schema == SCHEMA && file.source == SOURCE && StableAtLeast(file.version, builtin)
    then Some(file.version) else None
  }

  function Read(file: CacheFile, readable: bool, builtin: string): (r: Option<string>)
    ensures r.Some? ==> Stable(r.value)
  {
    if readable then Usable(file, builtin) else None
  }

  /** The later of two equal versions is kept, as `max_by_key` does. */
  function Newer(a: string, b: string): (r: string)
    requires Stable(a) && Stable(b)
    ensures Stable(r) && AtMost(VersionOf(a), VersionOf(r)) && AtMost(VersionOf(b), VersionOf(r))
  {
    if AtMost(VersionOf(a), VersionOf(b)) then b else a
  }

  function Effective(builtin: string, current: Option<string>, fetched: string): (r: string)
    requires Stable(builtin) && Stable(fetched) && (current.Some? ==> Stable(current.value))
    ensures Stable(r)
  {
    Newer(if current.Some? then Newer(builtin, current.value) else builtin, fetched)
  }

  datatype Write = Written | FailedBefore | FailedAfter

  /** A start reads the cache; a sync has a response body, reads the cache and replaces it. */
  datatype Event = Start(readable: bool) | Sync(release: Release, readable: bool, write: Write)

  datatype World = World(file: CacheFile, synced: Option<string>)

  function Next(builtin: string, w: World, e: Event): World
    requires Stable(builtin)
  {
    match e
    case Start(readable) => w.(synced := Read(w.file, readable, builtin))
    case Sync(release, readable, write) =>
      var fetched := ReleaseVersion(release);
      if fetched == None then w
      else
        var effective := Effective(builtin, Read(w.file, readable, builtin), fetched.value);
        World(
          if write == FailedBefore then w.file else Cache(SCHEMA, effective, SOURCE),
          if write == Written then Some(effective) else w.synced)
  }

  function Reached(builtin: string, start: World, run: seq<Event>): World
    requires Stable(builtin)
  {
    if run == [] then start
    else Next(builtin, Reached(builtin, start, run[..|run| - 1]), run[|run| - 1])
  }

  // -------------------------------------------------------------- the stored version

  /** The version stored in the file. */
  function Stored(file: CacheFile, builtin: string): (v: Option<Version>) {
    var text := Usable(file, builtin);
    if text.Some? then Some(VersionOf(text.value)) else None
  }

  predicate NotBelow(after: Option<Version>, before: Option<Version>) {
    before.Some? ==> after.Some? && AtMost(before.value, after.value)
  }

  /** The version a sync offers to the cache, when it comes to replacing the file. */
  function Offered(e: Event): Option<Version> {
    if e.Sync? && e.write != FailedBefore && ReleaseVersion(e.release).Some?
    then Some(VersionOf(ReleaseVersion(e.release).value)) else None
  }

  lemma EffectiveIsStored(builtin: string, current: Option<string>, fetched: string)
    requires Stable(builtin) && Stable(fetched) && (current.Some? ==> Stable(current.value))
    ensures var r := Effective(builtin, current, fetched);
            && Stored(Cache(SCHEMA, r, SOURCE), builtin) == Some(VersionOf(r))
            && Usable(Cache(SCHEMA, r, SOURCE), builtin) == Some(r)
  {
  }

  /** What one event does to the stored version. */
  lemma StepStores(builtin: string, w: World, e: Event)
    requires Stable(builtin)
    ensures var before := if e.Sync? && !e.readable then None else Stored(w.file, builtin);
            var after := Stored(Next(builtin, w, e).file, builtin);
            if Offered(e) == None then after == Stored(w.file, builtin)
            else
              && after.Some? && AtMost(VersionOf(builtin), after.value)
              && NotBelow(after, Offered(e)) && NotBelow(after, before)
              && after in {Some(VersionOf(builtin)), Offered(e), before}
  {
    if Offered(e).Some? {
      EffectiveIsStored(builtin, Read(w.file, e.readable, builtin), ReleaseVersion(e.release).value);
    }
  }

  predicate AllReadable(run: seq<Event>) {
    forall i :: 0 <= i < |run| && run[i].Sync? ==> run[i].readable
  }

  ghost function StoredAfter(builtin: string, start: World, run: seq<Event>): Option<Version>
    requires Stable(builtin)
  {
    Stored(Reached(builtin, start, run).file, builtin)
  }

  /** With a cache that can be read, the stored version only grows, from any point of a run to any later one. */
  lemma {:induction false} StoredNeverGoesDown(builtin: string, start: World, run: seq<Event>, i: nat)
    requires Stable(builtin) && i <= |run| && AllReadable(run)
    ensures NotBelow(StoredAfter(builtin, start, run), StoredAfter(builtin, start, run[..i]))
    ensures StoredAfter(builtin, start, run).Some? ==>
              AtMost(VersionOf(builtin), StoredAfter(builtin, start, run).value)
  {
    if i == |run| {
      assert run[..i] == run;
    } else {
      var front := run[..|run| - 1];
      assert front[..i] == run[..i];
      StoredNeverGoesDown(builtin, start, front, i);
      StepStores(builtin, Reached(builtin, start, front), run[|run| - 1]);
    }
  }

  /** The versions a run could leave in the file. */
  ghost predicate Candidate(v: Option<Version>, builtin: string, start: World, run: seq<Event>)
    requires Stable(builtin)
  {
    || v == Stored(start.file, builtin)
    || v == Some(VersionOf(builtin))
    || exists i :: 0 <= i < |run| && v == Offered(run[i])
  }

  /**
   * With a readable cache, a step leaves the stored version, or one that is offered now or built in, and the
   * greatest.
   */
  lemma {:induction false} ReadableStep(builtin: string, w: World, e: Event)
    requires Stable(builtin) && (e.Sync? ==> e.readable)
    ensures var before, after := Stored(w.file, builtin), Stored(Next(builtin, w, e).file, builtin);
            && (after == before || after == Some(VersionOf(builtin)) || after == Offered(e))
            && NotBelow(after, before) && NotBelow(after, Offered(e))
  {
    StepStores(builtin, w, e);
  }

  lemma CandidateLasts(v: Option<Version>, builtin: string, start: World, run: seq<Event>)
    requires Stable(builtin) && run != [] && Candidate(v, builtin, start, run[..|run| - 1])
    ensures Candidate(v, builtin, start, run)
  {
    assert forall i :: 0 <= i < |run| - 1 ==> run[..|run| - 1][i] == run[i];
  }

  /**
   * After any run with a readable cache the file holds the greatest version offered, counting the built-in one and
   * the one found at the start.
   */
  lemma {:induction false} StoredIsTheGreatest(builtin: string, start: World, run: seq<Event>)
    requires Stable(builtin) && AllReadable(run)
    ensures Candidate(StoredAfter(builtin, start, run), builtin, start, run)
    ensures forall i :: 0 <= i < |run| ==> NotBelow(StoredAfter(builtin, start, run), Offered(run[i]))
    ensures NotBelow(StoredAfter(builtin, start, run), Stored(start.file, builtin))
  {
    StoredIsCandidate(builtin, start, run);
    forall i | 0 <= i < |run| ensures NotBelow(StoredAfter(builtin, start, run), Offered(run[i])) {
      StoredTopsOffer(builtin, start, run, i);
    }
    StoredNeverGoesDown(builtin, start, run, 0);
    assert run[..0] == [];
  }

  lemma {:induction false} StoredIsCandidate(builtin: string, start: World, run: seq<Event>)
    requires Stable(builtin) && AllReadable(run)
    ensures Candidate(StoredAfter(builtin, start, run), builtin, start, run)
  {
    if run != [] {
      var front := run[..|run| - 1];
      StoredIsCandidate(builtin, start, front);
      ReadableStep(builtin, Reached(builtin, start, front), run[|run| - 1]);
      CandidateLasts(StoredAfter(builtin, start, front), builtin, start, run);
    }
  }

  lemma {:induction false} StoredTopsOffer(builtin: string, start: World, run: seq<Event>, i: nat)
    requires Stable(builtin) && AllReadable(run) && i < |run|
    ensures NotBelow(StoredAfter(builtin, start, run), Offered(run[i]))
  {
    var before, after := run[..i], run[..i + 1];
    assert after[..|after| - 1] == before;
    ReadableStep(builtin, Reached(builtin, start, before), run[i]);
    StoredNeverGoesDown(builtin, start, run, i + 1);
    NotBelowTransitive(StoredAfter(builtin, start, run), StoredAfter(builtin, start, after), Offered(run[i]));
  }

  lemma NotBelowTransitive(a: Option<Version>, b: Option<Version>, c: Option<Version>)
    requires NotBelow(a, b) && NotBelow(b, c)
    ensures NotBelow(a, c)
  {
  }

  /**
   * A sync lowers the stored version exactly when it replaces the file after failing to read a version above both
   * the built-in and the fetched one.
   */
  lemma {:induction false} LoweredExactlyWhenUnread(
    builtin: string, w: World, release: Release, readable: bool, write: Write)
    requires Stable(builtin)
    ensures var e, stored := Sync(release, readable, write), Stored(w.file, builtin);
            !NotBelow(Stored(Next(builtin, w, e).file, builtin), stored) <==>
            && !readable && stored.Some? && stored.value != VersionOf(builtin)
            && Offered(e).Some? && !AtMost(stored.value, Offered(e).value)
  {
    StepStores(builtin, w, Sync(release, readable, write));
  }

  /** What the process uses after a completed sync is what it stored, and a restart changes nothing. */
  lemma {:induction false} SyncedIsUsed(builtin: string, w: World, release: Release, readable: bool)
    requires Stable(builtin) && ReleaseVersion(release).Some?
    ensures var after := Next(builtin, w, Sync(release, readable, Written));
            && Next(builtin, after, Start(true)) == after
            && ParseVersion(ResolveConfigured(None, after.synced, builtin)) == Stored(after.file, builtin)
  {
    var after := Next(builtin, w, Sync(release, readable, Written));
    EffectiveIsStored(builtin, Read(w.file, readable, builtin), ReleaseVersion(release).value);
    var v := after.synced.value;
    TrimKeepsVersion(v);
    StrictImpliesLoose(Trim(v), VersionOf(v));
  }
}
