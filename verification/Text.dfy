/** The string operations the identity code is written with. */
module Text {
  import opened Prelude

  /** The Unicode White_Space property, as `str::trim` uses it. */
  predicate Whitespace(c: char) {
    var n := c as int;
    9 <= n <= 13 || n == 32 || n == 0x85 || n == 0xA0 || n == 0x1680 || 0x2000 <= n <= 0x200A
    || n == 0x2028 || n == 0x2029 || n == 0x202F || n == 0x205F || n == 0x3000
  }

  /** `char::is_ascii_whitespace`: no vertical tab. */
  predicate AsciiWhitespace(c: char) {
    c == ' ' || c == '\t' || c == '\n' || c == '\r' || c as int == 12
  }

  function TrimStart(s: string): string {
    if s != "" && Whitespace(s[0]) then TrimStart(s[1..]) else s
  }

  function TrimEnd(s: string): string {
    if s != "" && Whitespace(s[|s| - 1]) then TrimEnd(s[..|s| - 1]) else s
  }

  function Trim(s: string): string { TrimEnd(TrimStart(s)) }

  predicate Trimmed(s: string) {
    s != "" ==> !Whitespace(s[0]) && !Whitespace(s[|s| - 1])
  }

  lemma {:induction false} TrimEndKeepsStart(s: string)
    ensures TrimEnd(s) <= s
    ensures TrimEnd(s) != "" ==> !Whitespace(TrimEnd(s)[|TrimEnd(s)| - 1])
  {
    if s != "" && Whitespace(s[|s| - 1]) {
      TrimEndKeepsStart(s[..|s| - 1]);
    }
  }

  lemma {:induction false} TrimStartKeepsEnd(s: string)
    ensures TrimStart(s) != "" ==> !Whitespace(TrimStart(s)[0])
    ensures forall c :: c in TrimStart(s) ==> c in s
  {
    if s != "" && Whitespace(s[0]) {
      TrimStartKeepsEnd(s[1..]);
    }
  }

  lemma TrimIsTrimmed(s: string)
    ensures Trimmed(Trim(s))
    ensures forall c :: c in Trim(s) ==> c in s
  {
    TrimStartKeepsEnd(s);
    TrimEndKeepsStart(TrimStart(s));
  }

  predicate Blank(s: string) { forall c :: c in s ==> Whitespace(c) }

  lemma {:induction false} StartIsBlank(s: string) returns (before: string)
    ensures s == before + TrimStart(s) && Blank(before)
  {
    if s != "" && Whitespace(s[0]) {
      before := StartIsBlank(s[1..]);
      before := [s[0]] + before;
    } else {
      before := "";
    }
  }

  lemma {:induction false} EndIsBlank(s: string) returns (after: string)
    ensures s == TrimEnd(s) + after && Blank(after)
  {
    if s != "" && Whitespace(s[|s| - 1]) {
      after := EndIsBlank(s[..|s| - 1]);
      after := after + [s[|s| - 1]];
    } else {
      after := "";
    }
  }

  /** Trimming takes off white space at both ends and nothing else. */
  lemma {:induction false} TrimTakesBlanks(s: string) returns (before: string, after: string)
    ensures s == before + Trim(s) + after && Blank(before) && Blank(after) && Trimmed(Trim(s))
  {
    before := StartIsBlank(s);
    after := EndIsBlank(TrimStart(s));
    TrimIsTrimmed(s);
  }

  lemma TrimmedIsFixed(s: string)
    requires Trimmed(s)
    ensures Trim(s) == s
  {
  }

  // ---------------------------------------------------------------- searching

  /** The index of the first character satisfying `p`, or the length when there is none. */
  function FirstIndex(s: string, p: char -> bool): (i: nat)
    ensures i <= |s|
    ensures forall k :: 0 <= k < i ==> !p(s[k])
    ensures i < |s| ==> p(s[i])
  {
    if s == "" || p(s[0]) then 0 else 1 + FirstIndex(s[1..], p)
  }

  lemma FirstIndexUnique(s: string, p: char -> bool, i: nat)
    requires i <= |s|
    requires forall k :: 0 <= k < i ==> !p(s[k])
    requires i < |s| ==> p(s[i])
    ensures FirstIndex(s, p) == i
  {
  }

  /** The index of the first `c`, or the length when there is none. */
  function IndexOf(s: string, c: char): (i: nat)
    ensures i <= |s|
    ensures c !in s[..i]
    ensures i < |s| ==> s[i] == c
  {
    FirstIndex(s, d => d == c)
  }

  lemma IndexOfUnique(s: string, c: char, i: nat)
    requires i <= |s|
    requires c !in s[..i]
    requires i < |s| ==> s[i] == c
    ensures IndexOf(s, c) == i
  {
  }

  /** The index of the last `c`, or None. */
  function LastIndexOf(s: string, c: char): (i: Option<nat>)
    ensures i.Some? ==> i.value < |s| && s[i.value] == c
  {
    if s == "" then None
    else if s[|s| - 1] == c then Some(|s| - 1)
    else LastIndexOf(s[..|s| - 1], c)
  }

  lemma {:induction false} LastIndexOfAt(before: string, c: char, after: string)
    requires c !in after
    ensures LastIndexOf(before + [c] + after, c) == Some(|before|)
  {
    var s := before + [c] + after;
    if after == "" {
      assert s[|s| - 1] == c;
    } else {
      assert s[|s| - 1] == after[|after| - 1];
      assert s[..|s| - 1] == before + [c] + after[..|after| - 1];
      LastIndexOfAt(before, c, after[..|after| - 1]);
    }
  }

  lemma IndexOfAt(before: string, c: char, after: string)
    requires c !in before
    ensures IndexOf(before + [c] + after, c) == |before|
  {
    assert (before + [c] + after)[..|before|] == before;
    IndexOfUnique(before + [c] + after, c, |before|);
  }

  // ----------------------------------------------------------------- ASCII case

  function LowerChar(c: char): char {
    if 'A' <= c <= 'Z' then (c as int + 32) as char else c
  }

  function Lower(s: string): (r: string)
    ensures |r| == |s|
    ensures forall i :: 0 <= i < |s| ==> r[i] == LowerChar(s[i])
  {
    if s == "" then "" else [LowerChar(s[0])] + Lower(s[1..])
  }

  predicate EqIgnoreCase(a: string, b: string) { Lower(a) == Lower(b) }

  /** The same letter up to case, or the same character. */
  predicate SameLetter(a: char, b: char) {
    || a == b
    || ('A' <= a <= 'Z' && b as int == a as int + 32)
    || ('A' <= b <= 'Z' && a as int == b as int + 32)
  }

  lemma SameLetterExactly(a: char, b: char)
    ensures LowerChar(a) == LowerChar(b) <==> SameLetter(a, b)
  {
    assert LowerChar(a) as int == if 'A' <= a <= 'Z' then a as int + 32 else a as int;
    assert LowerChar(b) as int == if 'A' <= b <= 'Z' then b as int + 32 else b as int;
  }

  /** Equal but for the case of ASCII letters. */
  predicate SameLetters(a: string, b: string) {
    |a| == |b| && forall i :: 0 <= i < |a| ==> SameLetter(a[i], b[i])
  }

  lemma {:induction false} EqIgnoreCaseExactly(a: string, b: string)
    ensures EqIgnoreCase(a, b) <==> SameLetters(a, b)
  {
    forall i | 0 <= i < |a| && i < |b| ensures Lower(a)[i] == Lower(b)[i] <==> SameLetter(a[i], b[i]) {
      SameLetterExactly(a[i], b[i]);
    }
    if SameLetters(a, b) {
      assert forall i :: 0 <= i < |a| ==> Lower(a)[i] == Lower(b)[i];
      assert Lower(a) == Lower(b);
    }
    if EqIgnoreCase(a, b) {
      assert |a| == |Lower(a)| == |Lower(b)| == |b|;
    }
  }

  lemma LowerIsLower(s: string)
    ensures Lower(Lower(s)) == Lower(s)
  {
  }

  lemma LowerKeepsTrimmed(s: string)
    requires Trimmed(s)
    ensures Trimmed(Lower(s))
  {
  }

  // ------------------------------------------------------------------ splitting

  /** `str::split` on one character. */
  function Split(s: string, sep: char): (parts: seq<string>)
    ensures |parts| >= 1
    decreases |s|
  {
    var i := IndexOf(s, sep);
    if i == |s| then [s] else [s[..i]] + Split(s[i + 1..], sep)
  }

  lemma SplitFirst(part: string, rest: string, sep: char)
    requires sep !in part
    ensures Split(part + [sep] + rest, sep) == [part] + Split(rest, sep)
  {
    var s := part + [sep] + rest;
    IndexOfUnique(s, sep, |part|);
    assert s[..|part|] == part && s[|part| + 1..] == rest;
  }

  lemma SplitNone(part: string, sep: char)
    requires sep !in part
    ensures Split(part, sep) == [part]
  {
    IndexOfUnique(part, sep, |part|);
  }

  /** The text after the first separator. */
  function AfterFirst(s: string, sep: char): string {
    var i := IndexOf(s, sep);
    if i == |s| then "" else s[i + 1..]
  }

  /** What one step of a split says about the text. */
  lemma {:induction false} SplitStep(s: string, sep: char)
    ensures var p := Split(s, sep);
            && sep !in p[0]
            && (|p| == 1 ==> s == p[0])
            && (|p| > 1 ==> p[1..] == Split(AfterFirst(s, sep), sep) && s == p[0] + [sep] + AfterFirst(s, sep))
  {
    var i := IndexOf(s, sep);
    if i == |s| {
      assert s[..i] == s;
      SplitNone(s, sep);
    } else {
      var part, rest := s[..i], AfterFirst(s, sep);
      assert s == part + [sep] + rest;
      SplitFirst(part, rest, sep);
      HeadAndTail(part, Split(rest, sep));
    }
  }

  lemma HeadAndTail(part: string, rest: seq<string>)
    ensures ([part] + rest)[0] == part && ([part] + rest)[1..] == rest
  {
  }

  lemma {:induction false} SplitInThree(s: string, sep: char)
    requires |Split(s, sep)| == 3
    ensures var p := Split(s, sep);
            s == p[0] + [sep] + (p[1] + [sep] + p[2]) && forall i :: 0 <= i < 3 ==> sep !in p[i]
  {
    var p := Split(s, sep);
    SplitStep(s, sep);
    var t := AfterFirst(s, sep);
    var q := Split(t, sep);
    assert q == p[1..];
    SplitStep(t, sep);
    var r := Split(AfterFirst(t, sep), sep);
    assert r == q[1..];
    SplitStep(AfterFirst(t, sep), sep);
  }
}
