/** What the Codex identity code makes of the texts it is given, in plain terms. */
module CodexGuarantees {
  import opened Prelude
  import opened Text
  import opened Decimals
  import opened CodexVersions
  import opened CodexVersionSync
  import opened CodexUserAgents
  import opened CodexHeaders

  // -------------------------------------------------------------------- versions

  /** Versions are ordered by major, then minor, then patch. */
  lemma OrderExactly(a: Version, b: Version)
    ensures AtMost(a, b) && AtMost(b, a) <==> a == b
    ensures AtMost(a, b) || AtMost(b, a)
    ensures a.major < b.major ==> !AtMost(b, a)
    ensures a.major == b.major && a.minor < b.minor ==> !AtMost(b, a)
    ensures a.major == b.major && a.minor == b.minor && a.patch < b.patch ==> !AtMost(b, a)
  {
  }

  /** A printed configured version is used, whatever was synced, exactly when it is not below the built-in one. */
  lemma {:induction false} ConfiguredBeforeSynced(v: Version, synced: Option<string>, builtin: string)
    requires Fits(v) && Stable(builtin)
    ensures var without := ResolveConfigured(None, synced, builtin);
            ResolveConfigured(Some(Show(v)), synced, builtin)
            == if AtMost(VersionOf(builtin), v) then Show(v) else without
  {
    ShowIsTrimmed(v);
    ShowThenParse(v);
    StrictImpliesLoose(Show(v), v);
    StrictImpliesLoose(builtin, VersionOf(builtin));
  }

  /** A printed synced version is used, with nothing configured, exactly when it is not below the built-in one. */
  lemma {:induction false} SyncedBeforeBuiltIn(v: Version, builtin: string)
    requires Fits(v) && Stable(builtin)
    ensures ResolveConfigured(None, Some(Show(v)), builtin)
         == if AtMost(VersionOf(builtin), v) then Show(v) else builtin
    ensures ResolveConfigured(None, None, builtin) == builtin
  {
    ShowIsTrimmed(v);
    ShowThenParse(v);
  }

  /** `n` times the letter v. */
  function Vs(n: nat): string { if n == 0 then "" else "v" + Vs(n - 1) }

  lemma {:induction false} VsAreSkipped(n: nat, s: string)
    requires s != "" && s[0] != 'v'
    ensures SkipVs(Vs(n) + s) == s
  {
    if n == 0 {
      assert Vs(0) + s == s;
    } else {
      VsAreSkipped(n - 1, s);
      assert (Vs(n) + s)[1..] == Vs(n - 1) + s;
    }
  }

  /** Leading v's are ignored by the accepting parser. */
  lemma {:induction false} LeadingVsAreIgnored(n: nat, v: Version)
    requires Fits(v)
    ensures ParseVersion(Vs(n) + Show(v)) == Some(v)
  {
    var s := Vs(n) + Show(v);
    ShowIsTrimmed(v);
    assert Show(v)[0] in Show(v);
    VsAreSkipped(n, Show(v));
    NoWhitespaceInFront(n, Show(v));
    TrimmedIsFixed(s);
    ShowThenParse(v);
    StrictImpliesLoose(Show(v), v);
    TrimmedIsFixed(Show(v));
    assert SkipVs(Show(v)) == Show(v);
  }

  lemma {:induction false} NoWhitespaceInFront(n: nat, s: string)
    requires s != "" && Trimmed(s)
    ensures Trimmed(Vs(n) + s)
  {
    if n == 0 {
      assert Vs(0) + s == s;
    } else {
      assert (Vs(n) + s)[0] == 'v';
      assert (Vs(n) + s)[|Vs(n) + s| - 1] == s[|s| - 1];
    }
  }

  // ------------------------------------------------------ what the accepting parser accepts

  /** Three parts and more: `a.b.c`, then nothing or a further dot, dash or plus sign with anything after it. */
  predicate InParts(s: string, a: string, b: string, c: string, more: string) {
    && s == a + "." + (b + "." + (c + more))
    && (more != "" ==> more[0] in {'.', '-', '+'})
  }

  /** The three parts are digit texts of the three numbers, each of 64 bits. */
  ghost predicate Numbers(v: Version, a: string, b: string, c: string) {
    Padded(a, v.major) && Padded(b, v.minor) && Padded(c, v.patch) && Fits(v)
  }

  /** A text of v's, three numbers between dots, and anything after a further dot, dash or plus sign. */
  ghost predicate Readable(s: string, v: Version) {
    exists k: nat, a, b, c, more ::
      Numbers(v, a, b, c) && InParts(s[Min(k, |s|)..], a, b, c, more) && s[..Min(k, |s|)] == Vs(k)
  }

  lemma {:induction false} SkippedVs(s: string) returns (k: nat)
    ensures k <= |s| && s[..k] == Vs(k) && SkipVs(s) == s[k..]
  {
    if s != "" && s[0] == 'v' {
      k := SkippedVs(s[1..]);
      k := k + 1;
      assert s[..k] == "v" + s[1..][..k - 1] && s[1..][k - 1..] == s[k..];
    } else {
      k := 0;
      assert s[..0] == "" && s[0..] == s;
    }
  }

  /** The text after its first part, dot included. */
  lemma {:induction false} FirstPart(s: string) returns (more: string)
    ensures s == Split(s, '.')[0] + more && (more != "" ==> more[0] == '.')
  {
    SplitStep(s, '.');
    more := if |Split(s, '.')| == 1 then "" else "." + AfterFirst(s, '.');
    assert s == Split(s, '.')[0] + more;
  }

  /** A text with at least three parts between dots, taken apart. */
  lemma {:induction false} FirstThree(s: string) returns (more: string)
    requires |Split(s, '.')| >= 3
    ensures var p := Split(s, '.');
            s == p[0] + "." + (p[1] + "." + (p[2] + more)) && (more != "" ==> more[0] == '.')
  {
    SplitStep(s, '.');
    var t := AfterFirst(s, '.');
    SplitStep(t, '.');
    var u := AfterFirst(t, '.');
    var p, q := Split(s, '.'), Split(t, '.');
    assert q == p[1..] && q[0] == p[1] && q[1] == p[2] && Split(u, '.') == q[1..];
    more := FirstPart(u);
  }

  lemma {:induction false} LastPart(c: string, more: string)
    requires '.' !in c && (more != "" ==> more[0] == '.')
    ensures var p := Split(c + more, '.'); |p| >= 1 && p[0] == c
  {
    if more == "" {
      assert c + more == c;
      SplitNone(c, '.');
    } else {
      assert c + more == c + "." + more[1..];
      SplitFirst(c, more[1..], '.');
    }
  }

  lemma OneMorePart(a: string, rest: seq<string>)
    ensures |[a] + rest| == |rest| + 1 && ([a] + rest)[0] == a
    ensures forall i :: 0 <= i < |rest| ==> ([a] + rest)[i + 1] == rest[i]
  {
  }

  /** And put together. */
  lemma {:induction false} ThreeParts(a: string, b: string, c: string, more: string)
    requires '.' !in a && '.' !in b && '.' !in c && (more != "" ==> more[0] == '.')
    ensures var p := Split(a + "." + (b + "." + (c + more)), '.');
            |p| >= 3 && p[0] == a && p[1] == b && p[2] == c
  {
    var u := c + more;
    var t := b + "." + u;
    SplitFirst(a, t, '.');
    SplitFirst(b, u, '.');
    LastPart(c, more);
    OneMorePart(b, Split(u, '.'));
    OneMorePart(a, Split(t, '.'));
  }

  /** The digits before the mark. */
  lemma {:induction false} BeforeMark(s: string, a: string, b: string, c: string, more: string) returns (cut: string)
    requires InParts(s, a, b, c, more) && Digits(a) && Digits(b) && Digits(c)
    ensures s[..FirstIndex(s, c => c == '-' || c == '+')] == a + "." + (b + "." + (c + cut))
    ensures cut != "" ==> cut[0] == '.'
  {
    var i, front := FirstIndex(s, c => c == '-' || c == '+'), a + "." + (b + "." + c);
    assert s == front + more;
    assert forall k :: 0 <= k < |front| ==> s[k] == front[k] && (Digit(front[k]) || front[k] == '.');
    assert i >= |front|;
    cut := more[..i - |front|];
    assert s[..i] == front + cut;
    assert cut != "" ==> s[|front|] == more[0] == cut[0];
  }

  lemma {:induction false} NumbersParse(v: Version, a: string, b: string, c: string)
    ensures Numbers(v, a, b, c) <==> Assemble(ParseU64(a), ParseU64(b), ParseU64(c)) == Some(v)
  {
    PaddedExactly(a, v.major);
    PaddedExactly(b, v.minor);
    PaddedExactly(c, v.patch);
  }

  lemma {:induction false} PartsOf(t: string, numeric: string, v: Version)
    returns (a: string, b: string, c: string, more: string)
    requires numeric <= t && (|numeric| < |t| ==> t[|numeric|] in {'-', '+'})
    requires var p := Split(numeric, '.');
             |p| >= 3 && Assemble(ParseU64(p[0]), ParseU64(p[1]), ParseU64(p[2])) == Some(v)
    ensures Numbers(v, a, b, c) && InParts(t, a, b, c, more)
  {
    var p := Split(numeric, '.');
    a, b, c := p[0], p[1], p[2];
    NumbersParse(v, a, b, c);
    var first := FirstThree(numeric);
    var rest := t[|numeric|..];
    more := first + rest;
    assert t == numeric + rest;
    assert more != "" ==> more[0] == if first == "" then rest[0] else first[0];
  }

  lemma {:induction false} ReadIsReadable(text: string, v: Version)
    requires ParseVersion(text) == Some(v)
    ensures Readable(Trim(text), v)
  {
    var s := Trim(text);
    var k := SkippedVs(s);
    var t := s[k..];
    var a, b, c, more := PartsOf(t, t[..FirstIndex(t, c => c == '-' || c == '+')], v);
    assert Min(k, |s|) == k;
  }

  lemma {:induction false} ReadableIsRead(text: string, v: Version)
    requires Readable(Trim(text), v)
    ensures ParseVersion(text) == Some(v)
  {
    var s := Trim(text);
    var k: nat, a, b, c, more :|
      Numbers(v, a, b, c) && InParts(s[Min(k, |s|)..], a, b, c, more) && s[..Min(k, |s|)] == Vs(k);
    NumbersParse(v, a, b, c);
    var t := s[Min(k, |s|)..];
    assert Digit(t[0]);
    VsAreSkipped(k, t);
    assert s == Vs(k) + t;
    var cut := BeforeMark(t, a, b, c, more);
    assert '.' !in a && '.' !in b && '.' !in c;
    ThreeParts(a, b, c, cut);
  }

  /** Exactly these texts are read, each as that version. */
  lemma {:induction false} ReadExactly(text: string, v: Version)
    ensures ParseVersion(text) == Some(v) <==> Readable(Trim(text), v)
  {
    if ParseVersion(text) == Some(v) {
      ReadIsReadable(text, v);
    }
    if Readable(Trim(text), v) {
      ReadableIsRead(text, v);
    }
  }

  /** A cache file serves exactly when it has this schema and source and a version that is strict and high enough. */
  lemma CacheServesExactly(file: CacheFile, builtin: string)
    requires Stable(builtin)
    ensures Usable(file, builtin) == Some(if file.Cache? then file.version else "") <==>
            && file.Cache? && file.schema == 1 && file.source == "github_latest_release"
            && Stable(file.version) && AtMost(VersionOf(builtin), VersionOf(file.version))
  {
  }

  // ----------------------------------------------------------------- user agents

  /** Where the version of a user agent stops. */
  lemma StopsExactly(c: char)
    ensures VersionStop(c) <==> c as int in {9, 10, 12, 13, 32, 40}
  {
  }

  /** The ASCII characters that trimming takes off. */
  lemma TrimsExactly(c: char)
    requires c as int < 128
    ensures Whitespace(c) <==> 9 <= c as int <= 13 || c as int == 32
  {
  }

  /** The version of a user agent ends at the first white space or parenthesis. */
  lemma {:induction false} TailExactly(version: string, tail: string)
    requires forall c :: c in version ==> c as int !in {9, 10, 12, 13, 32, 40}
    requires tail == "" || tail[0] as int in {9, 10, 12, 13, 32, 40}
    ensures Tail(version + tail) == tail
  {
    var s := version + tail;
    forall k | 0 <= k < |version| ensures !VersionStop(s[k]) {
      assert s[k] in version;
    }
    if tail != "" {
      StopsExactly(tail[0]);
    }
    FirstIndexUnique(s, VersionStop, |version|);
  }

  /** So finalization is a fixpoint exactly when no such character is in the effective version. */
  lemma {:induction false} FixpointInPlainTerms(s: Settings, headers: seq<Header>)
    requires Proper(s)
    ensures Finalized(s, Finalized(s, headers)) == Finalized(s, headers) <==>
            forall c :: c in EffectiveVersion(s, headers) ==> c as int !in {9, 10, 12, 13, 32, 40}
  {
    FixpointExactly(s, headers);
    forall c: char ensures VersionStop(c) <==> c as int in {9, 10, 12, 13, 32, 40} {
      StopsExactly(c);
    }
  }

  /** The nine official originators. */
  lemma {:induction false} OfficialsExactly(o: string)
    ensures o in OFFICIAL_ORIGINATORS <==>
            o in {"codex_cli_rs", "codex-tui", "codex_vscode", "codex_vscode_copilot", "codex_app",
                  "codex_chatgpt_desktop", "codex_atlas", "codex_exec", "codex_sdk_ts"}
  {
  }

  /** An originator is fit to be used when it is 1 to 64 printable ASCII characters. */
  lemma SaneExactly(o: string)
    ensures Sane(o) <==> 1 <= |o| <= 64 && forall i :: 0 <= i < |o| ==> 32 <= o[i] as int <= 126
  {
    assert Sane(o) ==> forall i :: 0 <= i < |o| ==> o[i] in o;
  }

  /** A listed name, as the list has it. */
  predicate ListedName(names: seq<string>, name: string) {
    Plain(name) && 0 < |name| <= 64 && name in names
  }

  /** An agent that leads with an official name, in any case of letters, is that client's. */
  lemma {:induction false} LeadingNameDecides(names: seq<string>, product: string, name: string, rest: string)
    requires ListedName(names, name) && SameLetters(product, name) && EndsInText(rest)
    ensures PairUserAgent(names, product + "/" + rest) == Some((name, name + "/" + rest))
  {
    var agent := product + "/" + rest;
    EqIgnoreCaseExactly(product, name);
    PlainIsLower(name);
    LooksLikeName(product, name);
    TrimmedIsFixed(product);
    IndexOfAt(product, '/', rest);
    assert Trimmed(agent);
    TrimmedIsFixed(agent);
    assert agent[..|product|] == product && agent[|product|..] == "/" + rest;
    assert OriginatorOf(names, agent) == Some(name);
    assert name + ("/" + rest) == name + "/" + rest;
  }

  lemma {:induction false} PlainIsLower(name: string)
    requires Plain(name)
    ensures Lower(name) == name
  {
  }

  lemma {:induction false} LooksLikeName(product: string, name: string)
    requires Plain(name) && 0 < |name| <= 64 && SameLetters(product, name)
    ensures Sane(product) && Trimmed(product) && '/' !in product
  {
    assert forall i :: 0 <= i < |product| ==> SameLetter(product[i], name[i]) && PlainChar(name[i]);
    forall c | c in product ensures ' ' <= c <= '~' && c != '/' && !Whitespace(c) {
      var i :| 0 <= i < |product| && product[i] == c;
    }
    assert product[0] in product && product[|product| - 1] in product;
  }

  /** The agent of another product is the client's that its closing parenthesis names. */
  lemma {:induction false} TrailerNameDecides(
    names: seq<string>, product: string, middle: string, name: string, more: string)
    requires ListedName(names, name)
    requires product != "" && Trimmed(product) && '/' !in product && !Official(names, product)
    requires '(' !in more && ')' !in more && Trimmed(more)
    ensures var text := product + "/" + (middle + "(" + (name + ";" + more) + ")");
            PairUserAgent(names, text) == Some((name, name + text[|product|..]))
  {
    var inside := name + ";" + more;
    var rest := middle + "(" + inside + ")";
    var text := product + "/" + rest;
    IndexOfAt(product, '/', rest);
    assert text[..|product|] == product;
    TrimmedIsFixed(product);
    assert Trimmed(text);
    TrimmedIsFixed(text);
    TrailerIsName(product + "/" + middle, name, more);
    assert text == product + "/" + middle + "(" + (inside + ")" + "");
    PlainSettles(names, name);
    assert OriginatorOf(names, text) == Some(name);
  }

  lemma {:induction false} TrailerIsName(before: string, name: string, more: string)
    requires Plain(name) && name != "" && '(' !in more && ')' !in more && Trimmed(more)
    ensures TrailerOriginator(before + "(" + (name + ";" + more + ")" + "")) == Some(name)
  {
    var inside := name + ";" + more;
    assert forall c :: c in name ==> PlainChar(c);
    assert name[0] in name && name[|name| - 1] in name;
    assert Trimmed(inside);
    TrimmedIsFixed(inside);
    TrimmedIsFixed(name);
    assert Trim("") == "";
    IndexOfAt(name, ';', more);
    assert inside[..|name|] == name;
    TrailerIsTheLastParenthesis(before, inside, "");
  }

  // ------------------------------------------------------------ where the agent comes from

  /** With no user agent header, a configured agent decides the originator; without one, the default does. */
  lemma {:induction false} ConfiguredAgentDecides(s: Settings, version: Option<string>)
    requires Proper(s) && (version.Some? ==> Trimmed(version.value))
    ensures var paired := PairUserAgent(s.names, if s.agent.Some? then Trim(s.agent.value) else "");
            IdentityFor(s, None, version).1
            == if s.agent.Some? && Trim(s.agent.value) != "" && paired.Some? then paired.value.0 else s.originator
  {
    var rest := AuthLeads(s);
    var (originator, agent) := AuthIdentity(s);
    PairAgain(s.names, agent, originator, rest);
  }

  lemma {:induction false} AuthLeads(s: Settings) returns (rest: string)
    requires Proper(s)
    ensures var (originator, agent) := AuthIdentity(s);
            Settled(s.names, originator) && Leads(agent, originator, rest)
  {
    ConfiguredNeverBelowBuiltIn(s.explicit, s.synced, s.builtin);
    VersionIsNotEmpty(Configured(s));
    var given := s.agent.Some? && Trim(s.agent.value) != "";
    var led: string;
    if given && PairUserAgent(s.names, Trim(s.agent.value)).Some? {
      var text := Trim(s.agent.value);
      PairLeads(s.names, text);
      led := Trim(text)[IndexOf(Trim(text), '/') + 1..];
    } else {
      led := Configured(s) + DEFAULT_REST;
      EndsInDefault(Configured(s));
      SettledLeads(s.names, s.originator, led);
      assert FallbackAgent(s) == s.originator + ("/" + led);
    }
    var pair := if given then PairOrDefault(s, Trim(s.agent.value)) else (s.originator, FallbackAgent(s));
    SetVersionLeads(pair.1, pair.0, led, Configured(s));
    rest := Configured(s) + Tail(led);
  }

  /** A user agent header decides the originator, whatever agent is configured. */
  lemma {:induction false} HeaderAgentDecides(s: Settings, agent: string, version: Option<string>)
    requires Proper(s)
    ensures IdentityFor(s, Some(agent), version).1
         == if PairUserAgent(s.names, agent).Some? then PairUserAgent(s.names, agent).value.0 else s.originator
  {
  }

  // --------------------------------------------------------- agents that name no listed client

  /** An agent whose product begins with `Codex ` is its own client, and stays as it is. */
  lemma {:induction false} CodexProductIsItself(names: seq<string>, product: string, rest: string)
    requires Sane(product) && Trimmed(product) && '/' !in product && Lower(product) !in names
    requires product[..Min(6, |product|)] == "Codex " && EndsInText(rest)
    ensures PairUserAgent(names, product + "/" + rest) == Some((product, product + "/" + rest))
  {
    var agent := product + "/" + rest;
    TrimmedIsFixed(product);
    IndexOfAt(product, '/', rest);
    assert Trimmed(agent);
    TrimmedIsFixed(agent);
    assert agent[..|product|] == product && agent[|product|..] == "/" + rest;
    assert OriginatorOf(names, agent) == Some(product);
    assert product + ("/" + rest) == agent;
  }

  /** A name is a client's if it is listed in some case of letters or begins with `Codex `. */
  predicate Known(names: seq<string>, name: string) {
    Lower(name) in names || name[..Min(6, |name|)] == "Codex "
  }

  /** An agent that has no parenthesis, and whose product is no client's, is nobody's. */
  lemma {:induction false} UnknownAgentIsNobodys(names: seq<string>, product: string, rest: string)
    requires product != "" && Trimmed(product) && '/' !in product && !Known(names, product)
    requires EndsInText(rest) && '(' !in product && '(' !in rest
    ensures PairUserAgent(names, product + "/" + rest) == None
  {
    var agent := product + "/" + rest;
    TrimmedIsFixed(product);
    IndexOfAt(product, '/', rest);
    assert Trimmed(agent);
    TrimmedIsFixed(agent);
    assert agent[..|product|] == product;
    NoParenthesisNoTrailer(agent);
  }

  lemma NoParenthesisNoTrailer(agent: string)
    requires '(' !in agent
    ensures TrailerOriginator(agent) == None
  {
  }

  /** A text without a slash, or that begins with one, is nobody's agent. */
  lemma {:induction false} NoProductIsNobodys(names: seq<string>, text: string)
    requires Trimmed(text) && ('/' !in text || text[0] == '/')
    ensures PairUserAgent(names, text) == None
  {
    TrimmedIsFixed(text);
    if '/' !in text {
      assert IndexOf(text, '/') == |text|;
    } else {
      assert IndexOf(text, '/') == 0;
    }
  }

  // ------------------------------------------------------------------ the final version

  /** A printed version header decides the version exactly when it is not below the built-in one. */
  lemma {:induction false} HeaderVersionDecides(s: Settings, agent: Option<string>, v: Version)
    requires Proper(s) && Fits(v)
    ensures IdentityFor(s, agent, Some(Show(v))).2
         == if AtMost(VersionOf(s.builtin), v) then Show(v) else ResolveConfigured(s.explicit, s.synced, s.builtin)
    ensures IdentityFor(s, agent, None).2 == ResolveConfigured(s.explicit, s.synced, s.builtin)
  {
    ShowThenParse(v);
    StrictImpliesLoose(Show(v), v);
    StrictImpliesLoose(s.builtin, VersionOf(s.builtin));
  }
}
