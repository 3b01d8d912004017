/**
 The directory behind the image capability store, and what each store operation
 does to it, one file write or delete at a time.

 An operation is a *script*: the list of file steps it performs when nothing
 interrupts it. A crash, or an I/O error that makes the operation return early,
 leaves the directory after some prefix of the script.
 */
module ImageFiles {
  import opened Prelude

  const SCHEMA_VERSION := 1
  const TTL_MS := 60 * 60 * 1000
  const MAX_ENTRIES: nat := 128
  const MAX_TOTAL_BYTES: nat := 256 * 1024 * 1024

  datatype Metadata = Metadata(
    schemaVersion: nat,
    mimeType: string,
    byteLength: nat,
    sha256: string,
    createdAtMs: int,
    expiresAtMs: int)

  /** A `.json` file either deserializes to metadata or does not. */
  datatype JsonFile = Parsed(metadata: Metadata) | Unreadable

  /** The entries directory: `.json` and `.bin` files by file stem. */
  datatype Directory = Directory(json: map<string, JsonFile>, bin: map<string, Bytes>)

  const EMPTY := Directory(map[], map[])

  datatype Step =
    | WriteBin(stem: string, data: Bytes)
    | WriteJson(stem: string, metadata: Metadata)
    | RemoveJson(stem: string)
    | RemoveBin(stem: string)

  function Apply(d: Directory, s: Step): Directory {
    match s
    case WriteBin(t, data) => d.(bin := d.bin[t := data])
    case WriteJson(t, m) => d.(json := d.json[t := Parsed(m)])
    case RemoveJson(t) => d.(json := d.json - {t})
    case RemoveBin(t) => d.(bin := d.bin - {t})
  }

  function ApplyAll(d: Directory, steps: seq<Step>): Directory {
    if steps == [] then d else Apply(ApplyAll(d, steps[..|steps| - 1]), steps[|steps| - 1])
  }

  lemma {:induction false} ApplyAllConcat(d: Directory, a: seq<Step>, b: seq<Step>)
    ensures ApplyAll(d, a + b) == ApplyAll(ApplyAll(d, a), b)
  {
    if b == [] {
      assert a + b == a;
    } else {
      assert (a + b)[..|a + b| - 1] == a + b[..|b| - 1];
      ApplyAllConcat(d, a, b[..|b| - 1]);
    }
  }

  // ------------------------------------------------------------------ validity

  predicate HexDigit(c: char) {
    '0' <= c <= '9' || 'a' <= c <= 'f' || 'A' <= c <= 'F'
  }

  predicate Hex64(s: string) {
    |s| == 64 && forall i :: 0 <= i < |s| ==> HexDigit(s[i])
  }

  predicate ValidToken(token: string) { Hex64(token) }

  predicate ValidMime(mime: string) {
    mime == "image/png" || mime == "image/jpeg" || mime == "image/webp"
  }

  predicate ValidMetadata(m: Metadata) {
    && m.schemaVersion == SCHEMA_VERSION
    && m.byteLength <= MAX_TOTAL_BYTES
    && m.expiresAtMs > m.createdAtMs
    && Hex64(m.sha256)
    && ValidMime(m.mimeType)
  }

  // ------------------------------------------------------------------- cleanup

  function RemovePair(t: string): seq<Step> { [RemoveJson(t), RemoveBin(t)] }

  lemma PairEffect(d: Directory, t: string)
    ensures ApplyAll(d, RemovePair(t)) == Directory(d.json - {t}, d.bin - {t})
  {
    var p := RemovePair(t);
    assert p[..1] == [RemoveJson(t)];
    assert p[..1][..0] == [];
    assert ApplyAll(d, p[..1]) == d.(json := d.json - {t});
  }

  /** What the first cleanup pass decides about one `.json` file. */
  datatype Verdict = Keep | Corrupt | Expired | Foreign

  function Judge(d: Directory, stem: string, now: int): Verdict
    requires stem in d.json
  {
    if !ValidToken(stem) then Foreign
    else if d.json[stem].Unreadable? || !ValidMetadata(d.json[stem].metadata) then Corrupt
    else if d.json[stem].metadata.expiresAtMs <= now then Expired
    else if stem !in d.bin then Corrupt
    else Keep
  }

  /** A complete pair with valid, unexpired metadata. */
  predicate Live(d: Directory, stem: string, now: int) {
    && ValidToken(stem)
    && stem in d.json && stem in d.bin
    && d.json[stem].Parsed?
    && ValidMetadata(d.json[stem].metadata)
    && d.json[stem].metadata.expiresAtMs > now
  }

  /** Deleting a foreign `.json` ignores failure; `stuck` names those that stay. */
  function Treatment(d: Directory, stem: string, now: int, stuck: set<string>): seq<Step>
    requires stem in d.json
  {
    match Judge(d, stem, now)
    case Keep => []
    case Corrupt => RemovePair(stem)
    case Expired => RemovePair(stem)
    case Foreign => if stem in stuck then [] else [RemoveJson(stem)]
  }

  function FirstPass(d: Directory, order: seq<string>, now: int, stuck: set<string>): seq<Step>
    requires forall s :: s in order ==> s in d.json
  {
    if order == [] then []
    else
      var last := order[|order| - 1];
      FirstPass(d, order[..|order| - 1], now, stuck) + Treatment(d, last, now, stuck)
  }

  function SecondPass(order: seq<string>, metadataTokens: set<string>): seq<Step> {
    if order == [] then []
    else
      var last := order[|order| - 1];
      SecondPass(order[..|order| - 1], metadataTokens)
      + if !ValidToken(last) || last !in metadataTokens then [RemoveBin(last)] else []
  }

  /** The valid tokens that had a `.json` when the first pass began. */
  function MetadataTokens(d: Directory): set<string> {
    set s | s in d.json && ValidToken(s)
  }

  /** The directory listings one cleanup reads, and the deletions it cannot make. */
  datatype Scan = Scan(jsonOrder: seq<string>, binOrder: seq<string>, stuck: set<string>)

  /** Both listings are complete, the second one after the first pass has deleted. */
  ghost predicate ScanOf(d: Directory, now: int, scan: Scan) {
    && Lists(scan.jsonOrder, d.json.Keys)
    && Lists(scan.binOrder, ApplyAll(d, FirstPass(d, scan.jsonOrder, now, scan.stuck)).bin.Keys)
  }

  ghost function CleanupScript(d: Directory, now: int, scan: Scan): seq<Step>
    requires ScanOf(d, now, scan)
  {
    FirstPass(d, scan.jsonOrder, now, scan.stuck) + SecondPass(scan.binOrder, MetadataTokens(d))
  }

  /** The index a cleanup builds. */
  ghost function LiveEntries(d: Directory, now: int): map<string, Metadata> {
    map s | s in d.json && Live(d, s, now) :: d.json[s].metadata
  }

  /** The directory a cleanup leaves, said without any listing or order. */
  ghost function Cleaned(d: Directory, now: int, stuck: set<string>): Directory {
    Directory(
      map s | s in d.json && (Live(d, s, now) || (!ValidToken(s) && s in stuck)) :: d.json[s],
      map s | s in d.bin && Live(d, s, now) :: d.bin[s])
  }

  /** The `.json` stems the first pass leaves alone. */
  ghost function KeptJson(d: Directory, now: int, stuck: set<string>): set<string> {
    set s | s in d.json && (Live(d, s, now) || (!ValidToken(s) && s in stuck))
  }

  /** The `.bin` stems the first pass leaves alone. */
  ghost function KeptBin(d: Directory, now: int): set<string> {
    set s | s in d.bin && (s !in d.json || !ValidToken(s) || Live(d, s, now))
  }

  /** `d` after the stems in `seen` have been handled, keeping only what is listed as kept. */
  ghost function PassedOver(d: Directory, seen: set<string>, json: set<string>, bin: set<string>): Directory {
    Directory(d.json - (seen - json), d.bin - (seen - bin))
  }

  ghost function Stems(order: seq<string>): set<string> { set s | s in order }

  lemma StemsOneMore(order: seq<string>, last: string)
    ensures Stems(order + [last]) == Stems(order) + {last}
  {
  }

  lemma {:induction false} FirstPassEffect(d: Directory, order: seq<string>, now: int, stuck: set<string>)
    requires forall s :: s in order ==> s in d.json
    ensures ApplyAll(d, FirstPass(d, order, now, stuck))
            == PassedOver(d, Stems(order), KeptJson(d, now, stuck), KeptBin(d, now))
  {
    var json, bin := KeptJson(d, now, stuck), KeptBin(d, now);
    if order == [] {
      PassedOverNothing(d, json, bin);
    } else {
      var init, last := order[..|order| - 1], order[|order| - 1];
      assert order == init + [last];
      FirstPassEffect(d, init, now, stuck);
      ApplyAllConcat(d, FirstPass(d, init, now, stuck), Treatment(d, last, now, stuck));
      TreatmentEffect(d, last, now, stuck, PassedOver(d, Stems(init), json, bin));
      StemsOneMore(init, last);
      PassedOverOneMore(d, Stems(init), last, json, bin);
    }
  }

  lemma PassedOverNothing(d: Directory, json: set<string>, bin: set<string>)
    ensures PassedOver(d, Stems([]), json, bin) == d
  {
    assert Stems([]) == {};
    assert d.json - {} == d.json && d.bin - {} == d.bin;
  }

  lemma PassedOverOneMore(d: Directory, seen: set<string>, stem: string, json: set<string>, bin: set<string>)
    ensures var before := PassedOver(d, seen, json, bin);
            PassedOver(d, seen + {stem}, json, bin)
            == Directory(if stem in json then before.json else before.json - {stem},
                         if stem in bin then before.bin else before.bin - {stem})
  {
    var before := PassedOver(d, seen, json, bin);
    var after := PassedOver(d, seen + {stem}, json, bin);
    assert after.json == if stem in json then before.json else before.json - {stem};
    assert after.bin == if stem in bin then before.bin else before.bin - {stem};
  }

  lemma TreatmentEffect(d: Directory, stem: string, now: int, stuck: set<string>, current: Directory)
    requires stem in d.json
    requires current.bin.Keys <= d.bin.Keys
    ensures ApplyAll(current, Treatment(d, stem, now, stuck))
            == Directory(if stem in KeptJson(d, now, stuck) then current.json else current.json - {stem},
                         if stem in KeptBin(d, now) then current.bin else current.bin - {stem})
  {
    match Judge(d, stem, now)
    case Keep =>
    case Foreign =>
      assert [RemoveJson(stem)][..0] == [];
      assert stem !in current.bin ==> current.bin - {stem} == current.bin;
    case _ =>
      PairEffect(current, stem);
  }

  /** The `.bin` files the second pass leaves, of those it has come to. */
  ghost function Unorphaned(bin: map<string, Bytes>, order: seq<string>, tokens: set<string>): map<string, Bytes> {
    map s | s in bin && (s !in order || (ValidToken(s) && s in tokens)) :: bin[s]
  }

  lemma UnorphanedOneMore(bin: map<string, Bytes>, order: seq<string>, last: string, tokens: set<string>)
    ensures var before := Unorphaned(bin, order, tokens);
            Unorphaned(bin, order + [last], tokens)
            == if !ValidToken(last) || last !in tokens then before - {last} else before
  {
    var before, after := Unorphaned(bin, order, tokens), Unorphaned(bin, order + [last], tokens);
    var expected := if !ValidToken(last) || last !in tokens then before - {last} else before;
    assert forall s :: s in after <==> s in expected;
    assert forall s :: s in after ==> after[s] == expected[s];
  }

  lemma {:induction false} SecondPassEffect(d: Directory, order: seq<string>, tokens: set<string>)
    ensures ApplyAll(d, SecondPass(order, tokens)) == d.(bin := Unorphaned(d.bin, order, tokens))
  {
    if order == [] {
      assert d.bin == Unorphaned(d.bin, order, tokens);
    } else {
      var init, last := order[..|order| - 1], order[|order| - 1];
      assert order == init + [last];
      SecondPassEffect(d, init, tokens);
      UnorphanedOneMore(d.bin, init, last, tokens);
      var before := d.(bin := Unorphaned(d.bin, init, tokens));
      if !ValidToken(last) || last !in tokens {
        ApplyAllConcat(d, SecondPass(init, tokens), [RemoveBin(last)]);
        ApplyOne(before, RemoveBin(last));
      } else {
        assert SecondPass(init, tokens) + [] == SecondPass(init, tokens);
      }
    }
  }

  lemma ApplyOne(d: Directory, s: Step)
    ensures ApplyAll(d, [s]) == Apply(d, s)
  {
    assert [s][..0] == [];
  }

  /** Whatever the directory holds and however it is listed, cleanup leaves exactly the live pairs. */
  lemma CleanupEffect(d: Directory, now: int, scan: Scan)
    requires ScanOf(d, now, scan)
    ensures ApplyAll(d, CleanupScript(d, now, scan)) == Cleaned(d, now, scan.stuck)
  {
    var first, tokens := FirstPass(d, scan.jsonOrder, now, scan.stuck), MetadataTokens(d);
    var middle := ApplyAll(d, first);
    FirstPassLeaves(d, scan.jsonOrder, now, scan.stuck);
    ApplyAllConcat(d, first, SecondPass(scan.binOrder, tokens));
    SecondPassEffect(middle, scan.binOrder, tokens);
    SecondPassLeaves(d, middle.bin, now, scan.binOrder);
    assert middle.json == Cleaned(d, now, scan.stuck).json;
  }

  /** The whole first pass: the `.json` files are as they will stay, and the `.bin` files are those it leaves alone. */
  lemma FirstPassLeaves(d: Directory, order: seq<string>, now: int, stuck: set<string>)
    requires Lists(order, d.json.Keys)
    ensures var after := ApplyAll(d, FirstPass(d, order, now, stuck));
            && after.json == Cleaned(d, now, stuck).json
            && after.bin == d.bin - (d.json.Keys - KeptBin(d, now))
  {
    FirstPassEffect(d, order, now, stuck);
    assert Stems(order) == d.json.Keys;
    var json := d.json - (d.json.Keys - KeptJson(d, now, stuck));
    assert forall s :: s in json <==> s in KeptJson(d, now, stuck);
    assert json == Cleaned(d, now, stuck).json;
  }

  /** The second pass, over a complete listing, leaves the live payloads. */
  lemma SecondPassLeaves(d: Directory, bin: map<string, Bytes>, now: int, order: seq<string>)
    requires bin == d.bin - (d.json.Keys - KeptBin(d, now)) && Lists(order, bin.Keys)
    ensures Unorphaned(bin, order, MetadataTokens(d)) == map s | s in d.bin && Live(d, s, now) :: d.bin[s]
  {
    var after := Unorphaned(bin, order, MetadataTokens(d));
    forall s ensures s in after <==> s in d.bin && Live(d, s, now) {
      assert s in bin ==> s in order;
      assert s in bin <==> s in d.bin && (s !in d.json || s in KeptBin(d, now));
    }
  }

  /** `.json` stems, `.bin` stems and index keys agree, except for foreign files that could not be deleted. */
  lemma CleanupAgreement(d: Directory, now: int, scan: Scan)
    requires ScanOf(d, now, scan)
    ensures var after := ApplyAll(d, CleanupScript(d, now, scan));
            && after.bin.Keys == LiveEntries(d, now).Keys
            && after.json.Keys == LiveEntries(d, now).Keys
                                  + (set s | s in d.json && !ValidToken(s) && s in scan.stuck)
            && (forall s :: s in LiveEntries(d, now) ==>
                  after.bin[s] == d.bin[s] && after.json[s] == Parsed(LiveEntries(d, now)[s]))
  {
    CleanupEffect(d, now, scan);
    var after := Cleaned(d, now, scan.stuck);
    assert after.bin.Keys == LiveEntries(d, now).Keys;
    assert after.json.Keys == LiveEntries(d, now).Keys
                              + (set s | s in d.json && !ValidToken(s) && s in scan.stuck);
  }

  // ------------------------------------------------------------------ eviction

  ghost function Lengths(entries: map<string, Metadata>): map<string, nat> {
    map t | t in entries :: entries[t].byteLength
  }

  predicate NeedsRoom(count: nat, total: nat, length: nat) {
    count >= MAX_ENTRIES || SatAddU64(total, length) > MAX_TOTAL_BYTES
  }

  /** Order of creation time, then token. */
  predicate Older(a: string, ma: Metadata, b: string, mb: Metadata) {
    ma.createdAtMs < mb.createdAtMs || (ma.createdAtMs == mb.createdAtMs && StringLess(a, b))
  }

  lemma OlderTransitive(a: string, ma: Metadata, b: string, mb: Metadata, c: string, mc: Metadata)
    requires Older(a, ma, b, mb) && Older(b, mb, c, mc)
    ensures Older(a, ma, c, mc)
  {
    if StringLess(a, b) && StringLess(b, c) {
      StringLessTransitive(a, b, c);
    }
  }

  ghost predicate IsOldest(entries: map<string, Metadata>, t: string) {
    t in entries && forall u :: u in entries && u != t ==> Older(t, entries[t], u, entries[u])
  }

  lemma DropKey(entries: map<string, Metadata>, t: string)
    requires t in entries
    ensures (entries - {t}).Keys == entries.Keys - {t}
    ensures |entries - {t}| == |entries| - 1
    ensures forall u :: u in entries - {t} ==> (entries - {t})[u] == entries[u]
    ensures Sum(Lengths(entries)) == entries[t].byteLength + Sum(Lengths(entries - {t}))
  {
    assert (entries - {t}).Keys == entries.Keys - {t};
    SumRemove(Lengths(entries), t);
    assert Lengths(entries) - {t} == Lengths(entries - {t});
  }

  /** Adding `k` to a map with oldest `t` makes either `t` or `k` the oldest. */
  lemma OldestWithOneMore(entries: map<string, Metadata>, k: string, t: string)
    requires k in entries && IsOldest(entries - {k}, t)
    ensures IsOldest(entries, t) || IsOldest(entries, k)
  {
    var rest := entries - {k};
    StringLessTotal(t, k);
    if !Older(t, entries[t], k, entries[k]) {
      forall u | u in entries && u != k
        ensures Older(k, entries[k], u, entries[u])
      {
        assert u in rest;
        if u != t {
          OlderTransitive(k, entries[k], t, entries[t], u, entries[u]);
        }
      }
    } else {
      forall u | u in entries && u != t
        ensures Older(t, entries[t], u, entries[u])
      {
        assert u != k ==> u in rest;
      }
    }
  }

  lemma {:induction false} OldestExists(entries: map<string, Metadata>)
    requires entries != map[]
    ensures exists t :: IsOldest(entries, t)
    decreases |entries|
  {
    var k :| k in entries;
    DropKey(entries, k);
    if entries - {k} == map[] {
      assert entries.Keys - {k} == {};
      assert IsOldest(entries, k);
    } else {
      OldestExists(entries - {k});
      var t :| IsOldest(entries - {k}, t);
      OldestWithOneMore(entries, k, t);
    }
  }

  lemma OldestUnique(entries: map<string, Metadata>, t: string, u: string)
    requires IsOldest(entries, t) && IsOldest(entries, u)
    ensures t == u
  {
    StringLessTotal(t, u);
  }

  ghost function Oldest(entries: map<string, Metadata>): (t: string)
    requires entries != map[]
    ensures IsOldest(entries, t)
  {
    OldestExists(entries);
    var t :| IsOldest(entries, t); t
  }

  /** The tokens the eviction loop removes, in order. */
  ghost function Victims(entries: map<string, Metadata>, total: nat, length: nat): seq<string>
    decreases |entries|
  {
    if !NeedsRoom(|entries|, total, length) || entries == map[] then []
    else
      var t := Oldest(entries);
      DropKey(entries, t);
      [t] + Victims(entries - {t}, SatSub(total, entries[t].byteLength), length)
  }

  ghost function Without(entries: map<string, Metadata>, gone: seq<string>): map<string, Metadata> {
    entries - (set t | t in gone)
  }

  lemma WithoutCons(entries: map<string, Metadata>, t: string, rest: seq<string>)
    ensures Without(entries, [t] + rest) == Without(entries - {t}, rest)
  {
    assert (set x | x in [t] + rest) == {t} + (set x | x in rest);
  }

  /** An index has room for `length` more bytes, counted with the true byte sum. */
  ghost predicate HasRoom(entries: map<string, Metadata>, length: nat) {
    !NeedsRoom(|entries|, Sum(Lengths(entries)), length)
  }

  /** `v` lists entries from oldest to newer. */
  ghost predicate Ascending(entries: map<string, Metadata>, v: seq<string>) {
    && (forall i :: 0 <= i < |v| ==> v[i] in entries)
    && (forall i, j :: 0 <= i < j < |v| ==> v[i] != v[j] && Older(v[i], entries[v[i]], v[j], entries[v[j]]))
  }

  /** Every entry outside `v` is newer than every entry in it. */
  ghost predicate OthersNewer(entries: map<string, Metadata>, v: seq<string>) {
    forall a, s :: a in v && a in entries && s in entries && s !in v ==> Older(a, entries[a], s, entries[s])
  }

  lemma AscendingCons(entries: map<string, Metadata>, t: string, w: seq<string>)
    requires IsOldest(entries, t) && Ascending(entries - {t}, w)
    ensures Ascending(entries, [t] + w)
  {
    var v := [t] + w;
    forall i, j | 0 <= i < j < |v|
      ensures v[i] != v[j] && Older(v[i], entries[v[i]], v[j], entries[v[j]])
    {
      assert v[j] == w[j - 1] && w[j - 1] in entries - {t};
      if i > 0 {
        assert v[i] == w[i - 1];
      }
    }
  }

  lemma OthersNewerCons(entries: map<string, Metadata>, t: string, w: seq<string>)
    requires IsOldest(entries, t) && OthersNewer(entries - {t}, w)
    ensures OthersNewer(entries, [t] + w)
  {
    forall a, s | a in [t] + w && a in entries && s in entries && s !in [t] + w
      ensures Older(a, entries[a], s, entries[s])
    {
      assert s != t && s !in w;
      assert s in entries - {t};
      if a != t {
        assert a in w && a in entries - {t};
      }
    }
  }

  lemma {:induction false} VictimsAscending(entries: map<string, Metadata>, total: nat, length: nat)
    ensures Ascending(entries, Victims(entries, total, length))
    ensures OthersNewer(entries, Victims(entries, total, length))
    decreases |entries|
  {
    if NeedsRoom(|entries|, total, length) && entries != map[] {
      var t := Oldest(entries);
      DropKey(entries, t);
      var less := SatSub(total, entries[t].byteLength);
      VictimsAscending(entries - {t}, less, length);
      AscendingCons(entries, t, Victims(entries - {t}, less, length));
      OthersNewerCons(entries, t, Victims(entries - {t}, less, length));
    }
  }

  /** No prefix of `v` shorter than all of it makes room. */
  ghost predicate NoShorterPrefix(entries: map<string, Metadata>, v: seq<string>, length: nat) {
    forall k :: 0 <= k < |v| ==> !HasRoom(Without(entries, v[..k]), length)
  }

  lemma WithoutPrefixCons(entries: map<string, Metadata>, t: string, w: seq<string>, k: nat)
    requires k <= |w| + 1
    ensures Without(entries, ([t] + w)[..k]) == if k == 0 then entries else Without(entries - {t}, w[..k - 1])
  {
    var v := [t] + w;
    if k == 0 {
      assert v[..0] == [];
    } else {
      assert v[..k] == [t] + w[..k - 1];
      WithoutCons(entries, t, w[..k - 1]);
    }
  }

  lemma NoShorterPrefixCons(entries: map<string, Metadata>, t: string, w: seq<string>, length: nat)
    requires !HasRoom(entries, length) && NoShorterPrefix(entries - {t}, w, length)
    ensures NoShorterPrefix(entries, [t] + w, length)
  {
    var v := [t] + w;
    forall k | 0 <= k < |v| ensures !HasRoom(Without(entries, v[..k]), length) {
      WithoutPrefixCons(entries, t, w, k);
      assert k > 0 ==> !HasRoom(Without(entries - {t}, w[..k - 1]), length);
    }
  }

  lemma EmptyHasRoom(length: nat)
    requires length <= MAX_TOTAL_BYTES
    ensures HasRoom(map[], length)
  {
    var none: map<string, Metadata> := map[];
    assert Lengths(none) == map[];
  }

  /** One round of the loop, with the true byte sum as counter. */
  lemma {:induction false} VictimsWhenFull(entries: map<string, Metadata>, length: nat)
    requires length <= MAX_TOTAL_BYTES && !HasRoom(entries, length)
    ensures entries != map[]
    ensures var t := Oldest(entries);
            && |entries - {t}| < |entries|
            && Victims(entries, Sum(Lengths(entries)), length)
               == [t] + Victims(entries - {t}, Sum(Lengths(entries - {t})), length)
  {
    EmptyHasRoom(length);
    DropKey(entries, Oldest(entries));
  }

  lemma {:induction false} VictimsLeaveRoom(entries: map<string, Metadata>, length: nat)
    requires length <= MAX_TOTAL_BYTES
    ensures HasRoom(Without(entries, Victims(entries, Sum(Lengths(entries)), length)), length)
    decreases |entries|
  {
    if HasRoom(entries, length) {
      WithoutNothing(entries);
    } else {
      VictimsWhenFull(entries, length);
      var t := Oldest(entries);
      var rest := entries - {t};
      VictimsLeaveRoom(rest, length);
      var w := Victims(rest, Sum(Lengths(rest)), length);
      WithoutCons(entries, t, w);
      assert Without(entries, [t] + w) == Without(rest, w);
    }
  }

  lemma WithoutNothing(entries: map<string, Metadata>)
    ensures Without(entries, []) == entries
  {
  }

  lemma {:induction false} VictimsAreNeeded(entries: map<string, Metadata>, length: nat)
    requires length <= MAX_TOTAL_BYTES
    ensures NoShorterPrefix(entries, Victims(entries, Sum(Lengths(entries)), length), length)
    decreases |entries|
  {
    if !HasRoom(entries, length) {
      VictimsWhenFull(entries, length);
      var t := Oldest(entries);
      VictimsAreNeeded(entries - {t}, length);
      NoShorterPrefixCons(entries, t, Victims(entries - {t}, Sum(Lengths(entries - {t})), length), length);
    }
  }

  lemma {:induction false} VictimsMakeRoom(entries: map<string, Metadata>, length: nat)
    requires length <= MAX_TOTAL_BYTES
    ensures var v := Victims(entries, Sum(Lengths(entries)), length);
            HasRoom(Without(entries, v), length) && NoShorterPrefix(entries, v, length)
  {
    VictimsLeaveRoom(entries, length);
    VictimsAreNeeded(entries, length);
  }

  /**
   The loop removes exactly the shortest prefix, in (creation time, token) order,
   that makes room: victims come in that order, every survivor is newer than every
   victim, the survivors leave room, and no shorter prefix does.
   */
  lemma EvictionIsShortestPrefix(entries: map<string, Metadata>, length: nat)
    requires length <= MAX_TOTAL_BYTES
    ensures var v := Victims(entries, Sum(Lengths(entries)), length);
            && Ascending(entries, v)
            && OthersNewer(entries, v)
            && HasRoom(Without(entries, v), length)
            && NoShorterPrefix(entries, v, length)
  {
    VictimsAscending(entries, Sum(Lengths(entries)), length);
    VictimsMakeRoom(entries, length);
  }

  /** The empty-index exit of the loop is never what ends it, saturated byte counts included. */
  lemma {:induction false} EvictionNeverRunsDry(entries: map<string, Metadata>, total: nat, length: nat)
    requires length <= MAX_TOTAL_BYTES
    requires total <= Sum(Lengths(entries))
    ensures var v := Victims(entries, total, length);
            !NeedsRoom(|Without(entries, v)|, RemainingTotal(entries, total, v), length)
    decreases |entries|
  {
    if !NeedsRoom(|entries|, total, length) {
      assert Without(entries, []) == entries;
    } else {
      NotDryYet(entries, total, length);
      var t := Oldest(entries);
      var less := SatSub(total, entries[t].byteLength);
      EvictionNeverRunsDry(entries - {t}, less, length);
      var w := Victims(entries - {t}, less, length);
      WithoutCons(entries, t, w);
      RemainingCons(entries, total, t, w);
    }
  }

  /** While room is needed there is an oldest entry, and the counter stays within the true byte sum. */
  lemma NotDryYet(entries: map<string, Metadata>, total: nat, length: nat)
    requires length <= MAX_TOTAL_BYTES && total <= Sum(Lengths(entries)) && NeedsRoom(|entries|, total, length)
    ensures entries != map[]
    ensures var t := Oldest(entries);
            var less := SatSub(total, entries[t].byteLength);
            && |entries - {t}| < |entries| && less <= Sum(Lengths(entries - {t}))
            && Victims(entries, total, length) == [t] + Victims(entries - {t}, less, length)
  {
    assert entries == map[] ==> Lengths(entries) == map[];
    DropKey(entries, Oldest(entries));
  }

  lemma RemainingCons(entries: map<string, Metadata>, total: nat, t: string, w: seq<string>)
    requires t in entries
    ensures RemainingTotal(entries, total, [t] + w)
         == RemainingTotal(entries - {t}, SatSub(total, entries[t].byteLength), w)
  {
    assert ([t] + w)[1..] == w;
  }

  /** The running byte counter after removing `gone`. */
  ghost function RemainingTotal(entries: map<string, Metadata>, total: nat, gone: seq<string>): nat
    decreases |gone|
  {
    if gone == [] || gone[0] !in entries then total
    else RemainingTotal(entries - {gone[0]}, SatSub(total, entries[gone[0]].byteLength), gone[1..])
  }

  function RemovePairs(tokens: seq<string>): seq<Step> {
    if tokens == [] then []
    else RemovePairs(tokens[..|tokens| - 1]) + RemovePair(tokens[|tokens| - 1])
  }

  lemma RemovedOneMore<V>(m: map<string, V>, tokens: seq<string>, last: string)
    ensures m - (set t | t in tokens + [last]) == (m - (set t | t in tokens)) - {last}
  {
    assert (set t | t in tokens + [last]) == (set t | t in tokens) + {last};
  }

  lemma {:induction false} RemovePairsEffect(d: Directory, tokens: seq<string>)
    ensures ApplyAll(d, RemovePairs(tokens))
            == Directory(d.json - (set t | t in tokens), d.bin - (set t | t in tokens))
  {
    if tokens == [] {
      assert d.json - {} == d.json && d.bin - {} == d.bin;
    } else {
      var init, last := tokens[..|tokens| - 1], tokens[|tokens| - 1];
      assert tokens == init + [last];
      RemovePairsEffect(d, init);
      ApplyAllConcat(d, RemovePairs(init), RemovePair(last));
      PairEffect(ApplyAll(d, RemovePairs(init)), last);
      RemovedOneMore(d.json, init, last);
      RemovedOneMore(d.bin, init, last);
    }
  }
}
