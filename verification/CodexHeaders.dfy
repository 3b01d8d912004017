/** Originators and user agents of Codex clients, for any list of official originators. */
module CodexUserAgents {
  import opened Prelude
  import opened Text

  // ----------------------------------------------------------------- originators

  const MAX_ORIGINATOR_LEN: nat := 64

  predicate Official(names: seq<string>, originator: string) {
    Lower(Trim(originator)) in names || "Codex " <= originator
  }

  function Canonical(names: seq<string>, originator: string): string {
    var lower := Lower(Trim(originator));
    if lower in names then lower else Trim(originator)
  }

  predicate Printable(s: string) { forall c :: c in s ==> ' ' <= c <= '~' }

  predicate Sane(originator: string) {
    originator != "" && |originator| <= MAX_ORIGINATOR_LEN && Printable(originator)
  }

  /** What an originator needs before it is put in canonical form. */
  predicate Acceptable(names: seq<string>, originator: string) {
    Sane(originator) && Trimmed(originator) && '/' !in originator && Official(names, originator)
  }

  /** An originator in the form the pairing produces: pairing it again gives it back. */
  predicate Settled(names: seq<string>, originator: string) {
    Acceptable(names, originator) && Canonical(names, originator) == originator
  }

  lemma LowerKeepsShape(s: string)
    ensures Sane(s) ==> Sane(Lower(s))
    ensures '/' !in s ==> '/' !in Lower(s)
  {
    forall c | c in Lower(s) ensures exists d :: d in s && c == LowerChar(d) {
      var i :| 0 <= i < |s| && Lower(s)[i] == c;
      assert s[i] in s;
    }
  }

  lemma {:induction false} CanonicalSettles(names: seq<string>, originator: string)
    requires Acceptable(names, originator)
    ensures Settled(names, Canonical(names, originator))
  {
    TrimmedIsFixed(originator);
    var lower := Lower(originator);
    if lower in names {
      LowerKeepsTrimmed(originator);
      LowerKeepsShape(originator);
      TrimmedIsFixed(lower);
      LowerIsLower(originator);
      assert Canonical(names, lower) == lower;
    }
  }

  // ------------------------------------------------------------ pairing a user agent

  /** The name in a closing parenthesis, up to a semicolon. */
  function TrailerOriginator(agent: string): (r: Option<string>)
    ensures r.Some? ==> Trimmed(r.value)
  {
    var open := LastIndexOf(agent, '(');
    if open == None then None
    else
      var rest := agent[open.value + 1..];
      var close := IndexOf(rest, ')');
      if close == |rest| || Trim(rest[close + 1..]) != "" then None
      else
        var inside := Trim(rest[..close]);
        var name := inside[..IndexOf(inside, ';')];
        TrimIsTrimmed(name);
        if Trim(name) == "" then None else Some(Trim(name))
  }

  /**
   * The trailer is the text between the last opening parenthesis and its closing one, when only white space
   * follows.
   */
  lemma {:induction false} TrailerIsTheLastParenthesis(before: string, inside: string, after: string)
    requires '(' !in inside && ')' !in inside && '(' !in after && Trim(after) == ""
    ensures var name := Trim(Trim(inside)[..IndexOf(Trim(inside), ';')]);
            TrailerOriginator(before + "(" + (inside + ")" + after)) == if name == "" then None else Some(name)
  {
    LastIndexOfAt(before, '(', inside + ")" + after);
    IndexOfAt(inside, ')', after);
    var agent, rest := before + "(" + (inside + ")" + after), inside + ")" + after;
    assert agent[|before| + 1..] == rest;
    assert rest[..|inside|] == inside && rest[|inside| + 1..] == after;
  }

  /** Whose client a user agent names: the leading product, else the trailer. */
  function OriginatorOf(names: seq<string>, agent: string): Option<string> {
    var slash := IndexOf(agent, '/');
    if slash == |agent| || slash == 0 then None
    else
      var leading := Trim(agent[..slash]);
      if Sane(leading) && Official(names, leading) then Some(Canonical(names, leading))
      else
        var trailer := TrailerOriginator(agent);
        if trailer.Some? && '/' !in trailer.value && Sane(trailer.value) && Official(names, trailer.value)
        then Some(Canonical(names, trailer.value))
        else None
  }

  /** The originator, and the user agent rewritten to lead with it. */
  function PairUserAgent(names: seq<string>, text: string): Option<(string, string)> {
    var agent := Trim(text);
    match OriginatorOf(names, agent)
    case Some(originator) => Some((originator, originator + agent[IndexOf(agent, '/')..]))
    case None => None
  }

  predicate VersionStop(c: char) { AsciiWhitespace(c) || c == '(' }

  /** What follows the version in the text after the slash. */
  function Tail(rest: string): (tail: string)
    ensures tail != "" ==> rest != "" && VersionStop(tail[0]) && tail[|tail| - 1] == rest[|rest| - 1]
  {
    rest[FirstIndex(rest, VersionStop)..]
  }

  function SetUserAgentVersion(agent: string, version: string): string {
    var slash := IndexOf(agent, '/');
    if slash == |agent| then agent
    else agent[..slash + 1] + version + Tail(agent[slash + 1..])
  }

  lemma {:induction false} OriginatorSettles(names: seq<string>, agent: string)
    requires OriginatorOf(names, agent).Some?
    ensures Settled(names, OriginatorOf(names, agent).value) && IndexOf(agent, '/') < |agent|
  {
    var leading := agent[..IndexOf(agent, '/')];
    TrimIsTrimmed(leading);
    if Sane(Trim(leading)) && Official(names, Trim(leading)) {
      CanonicalSettles(names, Trim(leading));
    } else {
      CanonicalSettles(names, TrailerOriginator(agent).value);
    }
  }

  // ------------------------------------------------------------- agents in final form

  predicate EndsInText(s: string) { s != "" ==> !Whitespace(s[|s| - 1]) }

  /** A user agent that leads with `originator`, then a slash and `rest`. */
  predicate Leads(agent: string, originator: string, rest: string) {
    originator != "" && '/' !in originator && Trimmed(originator)
    && agent == originator + "/" + rest && EndsInText(rest)
  }

  lemma LeadsSlash(agent: string, originator: string, rest: string)
    requires Leads(agent, originator, rest)
    ensures IndexOf(agent, '/') == |originator|
    ensures agent[..|originator|] == originator && agent[|originator| + 1..] == rest
    ensures agent[|originator|..] == "/" + rest && agent[..|originator| + 1] == originator + "/"
    ensures Trimmed(agent) && agent != ""
  {
    assert agent[..|originator|] == originator;
    IndexOfUnique(agent, '/', |originator|);
  }

  /** Pairing gives a user agent led by its originator. */
  lemma {:induction false} PairLeads(names: seq<string>, text: string)
    requires PairUserAgent(names, text).Some?
    ensures var (originator, agent) := PairUserAgent(names, text).value;
            && Settled(names, originator)
            && Leads(agent, originator, Trim(text)[IndexOf(Trim(text), '/') + 1..])
  {
    TrimIsTrimmed(text);
    TrimmedAgentLeads(names, Trim(text));
  }

  lemma {:induction false} TrimmedAgentLeads(names: seq<string>, agent: string)
    requires Trimmed(agent) && OriginatorOf(names, agent).Some?
    ensures var originator, slash := OriginatorOf(names, agent).value, IndexOf(agent, '/');
            && Settled(names, originator) && slash < |agent|
            && Leads(originator + agent[slash..], originator, agent[slash + 1..])
  {
    OriginatorSettles(names, agent);
    FromSlash(agent);
    SettledLeads(names, OriginatorOf(names, agent).value, agent[IndexOf(agent, '/') + 1..]);
  }

  lemma SettledLeads(names: seq<string>, originator: string, rest: string)
    requires Settled(names, originator) && EndsInText(rest)
    ensures Leads(originator + ("/" + rest), originator, rest)
  {
    assert originator + ("/" + rest) == originator + "/" + rest;
  }

  lemma FromSlash(agent: string)
    requires Trimmed(agent) && IndexOf(agent, '/') < |agent|
    ensures agent[IndexOf(agent, '/')..] == "/" + agent[IndexOf(agent, '/') + 1..]
    ensures EndsInText(agent[IndexOf(agent, '/') + 1..])
  {
  }

  /** Pairing what leads already changes nothing. */
  lemma {:induction false} PairAgain(names: seq<string>, agent: string, originator: string, rest: string)
    requires Settled(names, originator) && Leads(agent, originator, rest)
    ensures PairUserAgent(names, agent) == Some((originator, agent)) && Trim(agent) == agent && agent != ""
  {
    LeadsSlash(agent, originator, rest);
    TrimmedIsFixed(agent);
    TrimmedIsFixed(originator);
    assert OriginatorOf(names, agent) == Some(originator);
    assert originator + ("/" + rest) == agent;
  }

  lemma {:induction false} SetVersionLeads(agent: string, originator: string, rest: string, version: string)
    requires Leads(agent, originator, rest) && Trimmed(version) && version != ""
    ensures Leads(SetUserAgentVersion(agent, version), originator, version + Tail(rest))
  {
    LeadsSlash(agent, originator, rest);
    var tail := Tail(rest);
    assert originator + "/" + version + tail == originator + "/" + (version + tail);
  }

  /** Setting the same version again changes nothing exactly when the version has no stopping character. */
  lemma {:induction false} SetVersionTwice(version: string, rest: string)
    ensures version + Tail(version + Tail(rest)) == version + Tail(rest)
            <==> forall c :: c in version ==> !VersionStop(c)
  {
    var tail := Tail(rest);
    var i := FirstIndex(version, VersionStop);
    if i == |version| {
      FirstIndexUnique(version + tail, VersionStop, i);
      assert (version + tail)[i..] == tail;
    } else {
      FirstIndexUnique(version + tail, VersionStop, i);
      assert |Tail(version + tail)| > |tail|;
      assert version[i] in version;
    }
  }
}

/** Making a header list carry one coherent Codex client identity. */
module CodexHeaders {
  import opened Prelude
  import opened Text
  import opened CodexVersions
  import opened CodexUserAgents

  type Header = (string, string)

  // ------------------------------------------------------------------- header lists

  predicate Named(header: Header, name: string) { EqIgnoreCase(header.0, name) }

  function Without(headers: seq<Header>, name: string): (r: seq<Header>) {
    if headers == [] then []
    else if Named(headers[0], name) then Without(headers[1..], name)
    else [headers[0]] + Without(headers[1..], name)
  }

  /** The last header of that name, trimmed, unless it is then empty. */
  function HeaderValue(headers: seq<Header>, name: string): (r: Option<string>)
    ensures r.Some? ==> Trimmed(r.value) && r.value != ""
  {
    if headers == [] then None
    else
      var last := headers[|headers| - 1];
      TrimIsTrimmed(last.1);
      if !Named(last, name) then HeaderValue(headers[..|headers| - 1], name)
      else if Trim(last.1) == "" then None
      else Some(Trim(last.1))
  }

  predicate OneOf(h: Header, a: string, b: string, c: string) { Named(h, a) || Named(h, b) || Named(h, c) }

  /** The headers with none of the three names, in their order. */
  function Others(headers: seq<Header>, a: string, b: string, c: string): seq<Header> {
    if headers == [] then []
    else if OneOf(headers[0], a, b, c) then Others(headers[1..], a, b, c)
    else [headers[0]] + Others(headers[1..], a, b, c)
  }

  lemma {:induction false} WithoutAppend(a: seq<Header>, b: seq<Header>, name: string)
    ensures Without(a + b, name) == Without(a, name) + Without(b, name)
  {
    if a == [] {
      assert a + b == b;
    } else {
      WithoutAppend(a[1..], b, name);
      assert a + b == [a[0]] + (a[1..] + b);
      WithoutOne(a[0], a[1..] + b, name);
      WithoutOne(a[0], a[1..], name);
      assert [a[0]] + a[1..] == a;
    }
  }

  lemma {:induction false} WithoutOne(h: Header, rest: seq<Header>, name: string)
    ensures Without([h] + rest, name) == (if Named(h, name) then [] else [h]) + Without(rest, name)
  {
    assert ([h] + rest)[1..] == rest;
  }

  lemma {:induction false} WithoutAllThree(headers: seq<Header>, a: string, b: string, c: string)
    ensures Without(Without(Without(headers, a), b), c) == Others(headers, a, b, c)
  {
    if headers != [] {
      var h, rest := headers[0], headers[1..];
      WithoutAllThree(rest, a, b, c);
      WithoutOne(h, Without(rest, a), b);
      WithoutOne(h, Without(Without(rest, a), b), c);
    }
  }

  lemma {:induction false} ThreeReplacements(headers: seq<Header>, u: Header, o: Header, v: Header)
    requires !EqIgnoreCase(u.0, o.0) && !EqIgnoreCase(u.0, v.0) && !EqIgnoreCase(o.0, v.0)
    ensures Without(Without(Without(headers, u.0) + [u], o.0) + [o], v.0) + [v]
         == Others(headers, u.0, o.0, v.0) + [u, o, v]
  {
    var a := Without(headers, u.0);
    var b := Without(a, o.0);
    WithoutAppend(a, [u], o.0);
    WithoutOne(u, [], o.0);
    assert [u] + [] == [u] && [o] + [] == [o];
    assert Without(a + [u], o.0) == b + [u];
    WithoutAppend(b + [u], [o], v.0);
    WithoutAppend(b, [u], v.0);
    WithoutOne(u, [], v.0);
    WithoutOne(o, [], v.0);
    WithoutAllThree(headers, u.0, o.0, v.0);
  }

  // ------------------------------------------------------------------- finalization

  /** What the program, the environment and the synced cache say. */
  datatype Settings = Settings(
    names: seq<string>, originator: string, builtin: string,
    explicit: Option<string>, synced: Option<string>, agent: Option<string>)

  /** What finalization relies on in the built-in values. */
  predicate Proper(s: Settings) {
    Stable(s.builtin) && Trimmed(s.builtin) && Settled(s.names, s.originator)
  }

  function Configured(s: Settings): string { ResolveConfigured(s.explicit, s.synced, s.builtin) }

  const DEFAULT_REST: string := " (Ubuntu 22.04.0; x86_64) xterm-256color"

  function FallbackAgent(s: Settings): string { s.originator + "/" + (Configured(s) + DEFAULT_REST) }

  /** `pair_user_agent` with the built-in pair for agents it refuses. */
  function PairOrDefault(s: Settings, text: string): (string, string) {
    match PairUserAgent(s.names, text)
    case Some(pair) => pair
    case None => (s.originator, FallbackAgent(s))
  }

  /** `canonical_auth_identity`, whose second part is the default user agent. */
  function AuthIdentity(s: Settings): (string, string) {
    var pair :=
      if s.agent.Some? && Trim(s.agent.value) != "" then PairOrDefault(s, Trim(s.agent.value))
      else (s.originator, FallbackAgent(s));
    (pair.0, SetUserAgentVersion(pair.1, Configured(s)))
  }

  function VersionFor(s: Settings, given: Option<string>): string {
    if given.Some? && VersionAtLeast(given.value, s.builtin) then given.value else Configured(s)
  }

  function PairFor(s: Settings, given: Option<string>): (string, string) {
    PairOrDefault(s, if given.Some? then given.value else AuthIdentity(s).1)
  }

  /** The three values, from the user agent and the version found in the headers. */
  function IdentityFor(s: Settings, agent: Option<string>, version: Option<string>): (string, string, string) {
    var pair, v := PairFor(s, agent), VersionFor(s, version);
    (SetUserAgentVersion(pair.1, v), pair.0, v)
  }

  function EffectiveVersion(s: Settings, headers: seq<Header>): string {
    VersionFor(s, HeaderValue(headers, "version"))
  }

  /** The whole result: the other headers, then the three identity headers. */
  function Finalized(s: Settings, headers: seq<Header>): seq<Header> {
    var (agent, originator, version) :=
      IdentityFor(s, HeaderValue(headers, "user-agent"), HeaderValue(headers, "version"));
    Others(headers, "user-agent", "originator", "version")
    + [("user-agent", agent), ("originator", originator), ("version", version)]
  }

  class HeaderList {
    var headers: seq<Header>

    constructor (initial: seq<Header>)
      ensures headers == initial
    {
      headers := initial;
    }

    method ReplaceOrPush(name: string, value: string)
      modifies this
      ensures headers == Without(old(headers), name) + [(name, value)]
    {
      headers := Without(headers, name);
      headers := headers + [(name, value)];
    }

    /** The three replacements, one after the other, give the result in one piece. */
    method Finalize(s: Settings)
      modifies this
      ensures headers == Finalized(s, old(headers))
    {
      ghost var before := headers;
      var version := EffectiveVersion(s, headers);
      var pair := PairFor(s, HeaderValue(headers, "user-agent"));
      var agent := SetUserAgentVersion(pair.1, version);
      ReplaceOrPush("user-agent", agent);
      ReplaceOrPush("originator", pair.0);
      ReplaceOrPush("version", version);
      NamesDiffer();
      ThreeReplacements(before, ("user-agent", agent), ("originator", pair.0), ("version", version));
    }
  }

  lemma NamesDiffer()
    ensures !EqIgnoreCase("user-agent", "originator") && !EqIgnoreCase("user-agent", "version")
    ensures !EqIgnoreCase("originator", "version") && !EqIgnoreCase("originator", "user-agent")
    ensures !EqIgnoreCase("version", "user-agent") && !EqIgnoreCase("version", "originator")
  {
    assert |Lower("user-agent")| == 10 == |Lower("originator")| && |Lower("version")| == 7;
    assert Lower("user-agent")[0] == 'u' && Lower("originator")[0] == 'o';
  }

  // ------------------------------------------------------------ what the values are

  lemma {:induction false} VersionIsGood(s: Settings, given: Option<string>)
    requires Proper(s) && (given.Some? ==> Trimmed(given.value))
    ensures var v := VersionFor(s, given);
            Trimmed(v) && v != "" && VersionAtLeast(v, s.builtin) && VersionFor(s, Some(v)) == v
  {
    ConfiguredNeverBelowBuiltIn(s.explicit, s.synced, s.builtin);
    VersionIsNotEmpty(VersionFor(s, given));
  }

  lemma {:induction false} PairIsLed(s: Settings, given: Option<string>) returns (rest: string)
    requires Proper(s)
    ensures var (originator, agent) := PairFor(s, given);
            Settled(s.names, originator) && Leads(agent, originator, rest)
  {
    var text := if given.Some? then given.value else AuthIdentity(s).1;
    if PairUserAgent(s.names, text).Some? {
      PairLeads(s.names, text);
      rest := Trim(text)[IndexOf(Trim(text), '/') + 1..];
    } else {
      rest := Configured(s) + DEFAULT_REST;
      EndsInDefault(Configured(s));
      SettledLeads(s.names, s.originator, rest);
      assert FallbackAgent(s) == s.originator + ("/" + rest);
    }
  }

  lemma EndsInDefault(version: string)
    ensures EndsInText(version + DEFAULT_REST)
  {
    assert |DEFAULT_REST| == 40 && DEFAULT_REST[39] == 'r';
    assert (version + DEFAULT_REST)[|version| + 39] == 'r';
  }

  /** The user agent is the originator, a slash, the version and a tail; the version is not below the built-in one. */
  lemma {:induction false} IdentityIsCoherent(s: Settings, agent: Option<string>, version: Option<string>)
    returns (rest: string)
    requires Proper(s) && (version.Some? ==> Trimmed(version.value))
    ensures var (a, o, v) := IdentityFor(s, agent, version);
            && Settled(s.names, o) && VersionAtLeast(v, s.builtin) && Trimmed(v) && v != ""
            && Leads(a, o, v + Tail(rest))
  {
    VersionIsGood(s, version);
    rest := PairIsLed(s, agent);
    var pair := PairFor(s, agent);
    SetVersionLeads(pair.1, pair.0, rest, VersionFor(s, version));
  }

  /** Recomputing the values from the values changes nothing exactly when the version has no stopping character. */
  lemma {:induction false} IdentityFixpoint(s: Settings, agent: Option<string>, version: Option<string>)
    requires Proper(s) && (version.Some? ==> Trimmed(version.value))
    ensures var (a, o, v) := IdentityFor(s, agent, version);
            && Trim(a) == a != "" && Trim(v) == v != ""
            && (IdentityFor(s, Some(a), Some(v)) == (a, o, v) <==> forall c :: c in v ==> !VersionStop(c))
  {
    var rest := IdentityIsCoherent(s, agent, version);
    var (a, o, v) := IdentityFor(s, agent, version);
    VersionIsGood(s, version);
    TrimmedIsFixed(v);
    PairAgain(s.names, a, o, v + Tail(rest));
    SetVersionLeads(a, o, v + Tail(rest), v);
    SetVersionTwice(v, rest);
    var twice := IdentityFor(s, Some(a), Some(v));
    assert twice.1 == o && twice.2 == v;
    assert twice.0 == o + "/" + (v + Tail(v + Tail(rest)));
    assert a == o + "/" + (v + Tail(rest));
    SamePrefix(o + "/", v + Tail(v + Tail(rest)), v + Tail(rest));
  }

  lemma SamePrefix(p: string, a: string, b: string)
    ensures p + a == p + b <==> a == b
  {
    assert (p + a)[|p|..] == a && (p + b)[|p|..] == b;
  }

  // ------------------------------------------------------------ what the list becomes

  /** The headers of that name. */
  function Matching(headers: seq<Header>, name: string): seq<Header> {
    if headers == [] then []
    else (if Named(headers[0], name) then [headers[0]] else []) + Matching(headers[1..], name)
  }

  lemma {:induction false} MatchingOne(h: Header, rest: seq<Header>, name: string)
    ensures Matching([h] + rest, name) == (if Named(h, name) then [h] else []) + Matching(rest, name)
  {
    assert ([h] + rest)[1..] == rest;
  }

  lemma {:induction false} MatchingAppend(a: seq<Header>, b: seq<Header>, name: string)
    ensures Matching(a + b, name) == Matching(a, name) + Matching(b, name)
  {
    if a == [] {
      assert a + b == b;
    } else {
      MatchingAppend(a[1..], b, name);
      assert a + b == [a[0]] + (a[1..] + b);
      MatchingOne(a[0], a[1..] + b, name);
      MatchingOne(a[0], a[1..], name);
      assert [a[0]] + a[1..] == a;
    }
  }

  lemma {:induction false} OthersMatchNone(headers: seq<Header>, a: string, b: string, c: string, name: string)
    requires name in [a, b, c]
    ensures Matching(Others(headers, a, b, c), name) == []
  {
    if headers != [] {
      OthersMatchNone(headers[1..], a, b, c, name);
      var rest := Others(headers[1..], a, b, c);
      assert ([headers[0]] + rest)[1..] == rest;
    }
  }

  lemma {:induction false} OthersAppend(x: seq<Header>, y: seq<Header>, a: string, b: string, c: string)
    ensures Others(x + y, a, b, c) == Others(x, a, b, c) + Others(y, a, b, c)
  {
    if x == [] {
      assert x + y == y;
    } else {
      OthersAppend(x[1..], y, a, b, c);
      assert (x + y)[1..] == x[1..] + y && (x + y)[0] == x[0];
    }
  }

  lemma {:induction false} OthersAgain(headers: seq<Header>, a: string, b: string, c: string)
    ensures Others(Others(headers, a, b, c), a, b, c) == Others(headers, a, b, c)
  {
    if headers != [] {
      OthersAgain(headers[1..], a, b, c);
      var rest := Others(headers[1..], a, b, c);
      assert ([headers[0]] + rest)[1..] == rest;
    }
  }

  /** A list that ends with one header of each name, after others: what reading it back gives. */
  lemma {:induction false} ReadBack(others: seq<Header>, u: Header, o: Header, v: Header)
    requires !EqIgnoreCase(u.0, o.0) && !EqIgnoreCase(u.0, v.0) && !EqIgnoreCase(o.0, v.0)
    requires Trim(u.1) == u.1 != "" && Trim(v.1) == v.1 != ""
    ensures HeaderValue(others + [u, o, v], v.0) == Some(v.1)
    ensures HeaderValue(others + [u, o, v], u.0) == Some(u.1)
  {
    assert others + [u, o, v] == others + [u] + [o] + [v];
    LastHeaderDecides(others + [u] + [o], v, v.0);
    LastHeaderDecides(others + [u] + [o], v, u.0);
    LastHeaderDecides(others + [u], o, u.0);
    LastHeaderDecides(others, u, u.0);
  }

  /** The last header of a name decides its value, even when it is blank. */
  lemma {:induction false} LastHeaderDecides(front: seq<Header>, h: Header, name: string)
    ensures HeaderValue(front + [h], name)
         == if !Named(h, name) then HeaderValue(front, name) else if Trim(h.1) == "" then None else Some(Trim(h.1))
  {
    assert (front + [h])[..|front|] == front;
  }

  lemma {:induction false} OneOfEach(others: seq<Header>, u: Header, o: Header, v: Header)
    requires !EqIgnoreCase(u.0, o.0) && !EqIgnoreCase(u.0, v.0) && !EqIgnoreCase(o.0, v.0)
    requires Matching(others, u.0) == Matching(others, o.0) == Matching(others, v.0) == []
    ensures Matching(others + [u, o, v], u.0) == [u]
    ensures Matching(others + [u, o, v], o.0) == [o]
    ensures Matching(others + [u, o, v], v.0) == [v]
  {
    MatchLastThree(others, u, o, v, u.0);
    MatchLastThree(others, u, o, v, o.0);
    MatchLastThree(others, u, o, v, v.0);
  }

  function Match(h: Header, name: string): seq<Header> { if Named(h, name) then [h] else [] }

  lemma {:induction false} MatchLast(front: seq<Header>, h: Header, name: string)
    ensures Matching(front + [h], name) == Matching(front, name) + Match(h, name)
  {
    MatchingAppend(front, [h], name);
  }

  lemma {:induction false} MatchLastThree(others: seq<Header>, u: Header, o: Header, v: Header, name: string)
    ensures Matching(others + [u, o, v], name)
         == Matching(others, name) + (Match(u, name) + Match(o, name) + Match(v, name))
  {
    assert others + [u, o, v] == others + [u] + [o] + [v];
    MatchLast(others, u, name);
    MatchLast(others + [u], o, name);
    MatchLast(others + [u] + [o], v, name);
  }

  /** Exactly one header of each identity name is left, they agree with each other, and the rest keeps its order. */
  lemma {:induction false} FinalizedIsCoherent(s: Settings, headers: seq<Header>) returns (tail: string)
    requires Proper(s)
    ensures var (agent, originator, version) :=
              IdentityFor(s, HeaderValue(headers, "user-agent"), HeaderValue(headers, "version"));
            && Matching(Finalized(s, headers), "user-agent") == [("user-agent", agent)]
            && Matching(Finalized(s, headers), "originator") == [("originator", originator)]
            && Matching(Finalized(s, headers), "version") == [("version", version)]
            && agent == originator + "/" + (version + tail)
            && (tail != "" ==> VersionStop(tail[0]))
            && Settled(s.names, originator) && VersionAtLeast(version, s.builtin)
    ensures Others(Finalized(s, headers), "user-agent", "originator", "version")
         == Others(headers, "user-agent", "originator", "version")
  {
    var rest := IdentityIsCoherent(s, HeaderValue(headers, "user-agent"), HeaderValue(headers, "version"));
    tail := Tail(rest);
    var (agent, originator, version) :=
      IdentityFor(s, HeaderValue(headers, "user-agent"), HeaderValue(headers, "version"));
    NamesDiffer();
    OneOfEachFinally(headers, ("user-agent", agent), ("originator", originator), ("version", version));
  }

  lemma {:induction false} OneOfEachFinally(headers: seq<Header>, u: Header, o: Header, v: Header)
    requires !EqIgnoreCase(u.0, o.0) && !EqIgnoreCase(u.0, v.0) && !EqIgnoreCase(o.0, v.0)
    ensures var others := Others(headers, u.0, o.0, v.0);
            && Matching(others + [u, o, v], u.0) == [u]
            && Matching(others + [u, o, v], o.0) == [o]
            && Matching(others + [u, o, v], v.0) == [v]
            && Others(others + [u, o, v], u.0, o.0, v.0) == others
  {
    var others := Others(headers, u.0, o.0, v.0);
    OthersMatchNone(headers, u.0, o.0, v.0, u.0);
    OthersMatchNone(headers, u.0, o.0, v.0, o.0);
    OthersMatchNone(headers, u.0, o.0, v.0, v.0);
    OneOfEach(others, u, o, v);
    OthersAppend(others, [u, o, v], u.0, o.0, v.0);
    OthersAgain(headers, u.0, o.0, v.0);
    assert [u, o, v][1..] == [o, v] && [o, v][1..] == [v];
    assert Others([v], u.0, o.0, v.0) == [] && Others([o, v], u.0, o.0, v.0) == [];
  }

  /**
   * Finalizing twice is finalizing once exactly when the effective version holds no ASCII white space and no
   * parenthesis.
   */
  lemma {:induction false} FixpointExactly(s: Settings, headers: seq<Header>)
    requires Proper(s)
    ensures Finalized(s, Finalized(s, headers)) == Finalized(s, headers)
            <==> forall c :: c in EffectiveVersion(s, headers) ==> !VersionStop(c)
  {
    var a, v := HeaderValue(headers, "user-agent"), HeaderValue(headers, "version");
    var (agent, originator, version) := IdentityFor(s, a, v);
    var once := Finalized(s, headers);
    var others := Others(headers, "user-agent", "originator", "version");
    NamesDiffer();
    IdentityFixpoint(s, a, v);
    ReadBack(others, ("user-agent", agent), ("originator", originator), ("version", version));
    OneOfEachFinally(headers, ("user-agent", agent), ("originator", originator), ("version", version));
    var again := IdentityFor(s, Some(agent), Some(version));
    var tail := [("user-agent", again.0), ("originator", again.1), ("version", again.2)];
    assert Finalized(s, once) == others + tail;
    assert (others + tail)[|others|..] == tail;
    assert once[|others|..] == [("user-agent", agent), ("originator", originator), ("version", version)];
  }

  /**
   * A version header that is high enough but has a space or parenthesis in its suffix is accepted, and is no
   * fixpoint.
   */
  lemma {:induction false} SuffixBreaksTheFixpoint(s: Settings, v: Version, mark: char, suffix: string, c: char)
    requires Proper(s) && Fits(v) && AtMost(VersionOf(s.builtin), v)
    requires (mark == '-' || mark == '+') && Trimmed(suffix) && c in suffix && VersionStop(c)
    ensures var headers := [("version", Show(v) + ([mark] + suffix))];
            Finalized(s, Finalized(s, headers)) != Finalized(s, headers)
  {
    var text := Show(v) + ([mark] + suffix);
    var headers := [("version", text)];
    SuffixIsIgnored(v, mark, suffix);
    StrictImpliesLoose(s.builtin, VersionOf(s.builtin));
    OnlyHeaderIsEffective(s, text);
    assert c in text by { assert c in [mark] + suffix; }
    FixpointExactly(s, headers);
  }

  lemma {:induction false} OnlyHeaderIsEffective(s: Settings, text: string)
    requires Trimmed(text) && text != "" && VersionAtLeast(text, s.builtin)
    ensures EffectiveVersion(s, [("version", text)]) == text
  {
    TrimmedIsFixed(text);
    assert [] + [("version", text)] == [("version", text)];
    LastHeaderDecides([], ("version", text), "version");
  }

  // ------------------------------------------------------------- the program's own values

  const DEFAULT_ORIGINATOR: string := "codex_cli_rs"

  const OFFICIAL_ORIGINATORS: seq<string> := [
    "codex_cli_rs", "codex-tui", "codex_vscode", "codex_vscode_copilot", "codex_app",
    "codex_chatgpt_desktop", "codex_atlas", "codex_exec", "codex_sdk_ts"]

  predicate PlainChar(c: char) { 'a' <= c <= 'z' || c == '_' || c == '-' }

  predicate Plain(s: string) { forall i :: 0 <= i < |s| ==> PlainChar(s[i]) }

  lemma {:induction false} PlainSettles(names: seq<string>, o: string)
    requires Plain(o) && 0 < |o| <= MAX_ORIGINATOR_LEN && o in names
    ensures Settled(names, o)
  {
    assert Lower(o) == o;
    assert forall c :: c in o ==> PlainChar(c);
    assert Trimmed(o);
    TrimmedIsFixed(o);
    assert Sane(o);
  }

  /** The program's own constants; the environment and the cache may hold anything. */
  predicate Shipped(s: Settings) {
    s.names == OFFICIAL_ORIGINATORS && s.originator == DEFAULT_ORIGINATOR && s.builtin == DEFAULT_VERSION
  }

  lemma ShippedOriginator(o: string)
    requires o == DEFAULT_ORIGINATOR
    ensures Plain(o) && |o| == 12
  {
  }

  lemma ShippedVersion(v: string)
    requires v == DEFAULT_VERSION
    ensures Stable(v) && Trimmed(v)
  {
    BuiltInParses();
  }

  /** The shipped constants are fit for finalization. */
  lemma {:induction false} ShippedSettingsAreProper(s: Settings)
    requires Shipped(s)
    ensures Proper(s)
  {
    var names, o, v := s.names, s.originator, s.builtin;
    assert o in names by { assert names[0] == o; }
    ShippedOriginator(o);
    PlainSettles(names, o);
    ShippedVersion(v);
  }
}
