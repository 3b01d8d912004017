/**
 Whole runs of the image capability store: any sequence of opens, inserts and
 lookups, each of which may stop after any of its file steps.
 */
module ImageRuns {
  import opened Prelude
  import opened ImageFiles

  type Digest = Bytes -> string

  /**
   How the atomic write of a file ends. It can fail before the rename that makes
   the file visible, or after it, when syncing the directory fails.
   */
  datatype WriteOutcome = Written | FailedEarly | FailedLate

  datatype Mode = Body | Head

  datatype Operation =
    | Open(now: int)
    | Insert(
        data: Bytes, mime: string, now: int, token: string, payloadWrite: WriteOutcome, metadataWrite: WriteOutcome)
    | Lookup(token: string, now: int, mode: Mode, memory: bool)

  /** One operation, the listings it read, and how many of its file steps happened. */
  datatype Event = Event(op: Operation, scan: Scan, cut: nat)

  datatype Image = Image(data: Bytes, mime: string)

  /** The directory, and for every token the image its latest insert wrote. */
  datatype World = World(dir: Directory, written: map<string, Image>)

  // ------------------------------------------------------------------- scripts

  function NewMetadata(data: Bytes, mime: string, now: int, digest: Digest): Metadata {
    Metadata(SCHEMA_VERSION, mime, |data|, digest(data), now, SatAddI64(now, TTL_MS))
  }

  predicate Insertable(data: Bytes, mime: string) {
    |data| <= MAX_TOTAL_BYTES && ValidMime(mime)
  }

  /** The byte counter a cleanup returns: a saturating sum over the index. */
  ghost function IndexedBytes(entries: map<string, Metadata>): nat {
    Min(Sum(Lengths(entries)), U64_MAX)
  }

  /** Everything an insert deletes before it writes. */
  ghost function MakeRoomScript(d: Directory, length: nat, now: int, scan: Scan): seq<Step>
    requires ScanOf(d, now, scan)
  {
    var entries := LiveEntries(d, now);
    CleanupScript(d, now, scan) + RemovePairs(Victims(entries, IndexedBytes(entries), length))
  }

  function WriteScript(op: Operation, digest: Digest): seq<Step>
    requires op.Insert?
  {
    var bin := WriteBin(op.token, op.data);
    var json := WriteJson(op.token, NewMetadata(op.data, op.mime, op.now, digest));
    match (op.payloadWrite, op.metadataWrite)
    case (FailedEarly, _) => []
    case (FailedLate, _) => [bin]
    case (Written, Written) => [bin, json]
    case (Written, FailedEarly) => [bin, RemoveBin(op.token)]
    case (Written, FailedLate) => [bin, json, RemoveBin(op.token)]
  }

  datatype Verification = Rejected | NoMemory | Accepted

  /** The verdict on a payload: length first, then the memory reservation, then the hash. */
  function Verify(m: Metadata, content: Bytes, memory: bool, digest: Digest): Verification {
    if |content| != m.byteLength then Rejected
    else if !memory then NoMemory
    else if digest(content) != m.sha256 then Rejected
    else Accepted
  }

  ghost function Script(d: Directory, op: Operation, scan: Scan, digest: Digest): seq<Step>
    requires ScanOf(d, op.now, scan)
  {
    match op
    case Open(now) => CleanupScript(d, now, scan)
    case Insert(data, mime, now, _, _, _) =>
      if !Insertable(data, mime) then []
      else MakeRoomScript(d, |data|, now, scan) + WriteScript(op, digest)
    case Lookup(token, now, _, memory) =>
      if !ValidToken(token) then []
      else
        CleanupScript(d, now, scan)
        + if Live(d, token, now)
             && Verify(d.json[token].metadata, d.bin[token], memory, digest) == Rejected
          then RemovePair(token) else []
  }

  datatype LookupResult = Miss | OutOfMemory | Hit(data: Bytes, mime: string, byteLength: nat)

  function LookupResultOf(d: Directory, op: Operation, digest: Digest): LookupResult
    requires op.Lookup?
  {
    if !Live(d, op.token, op.now) then Miss
    else
      var m := d.json[op.token].metadata;
      match Verify(m, d.bin[op.token], op.memory, digest)
      case Rejected => Miss
      case NoMemory => OutOfMemory
      case Accepted => Hit(if op.mode == Head then [] else d.bin[op.token], m.mimeType, m.byteLength)
  }

  // ---------------------------------------------------------------------- runs

  /** The token an insert draws is well formed and names no file once room has been made. */
  ghost predicate FreshToken(d: Directory, op: Operation, scan: Scan)
    requires op.Insert? && ScanOf(d, op.now, scan)
  {
    var cleared := ApplyAll(d, MakeRoomScript(d, |op.data|, op.now, scan));
    ValidToken(op.token) && op.token !in cleared.json && op.token !in cleared.bin
  }

  ghost predicate Legal(w: World, e: Event, digest: Digest) {
    && ScanOf(w.dir, e.op.now, e.scan)
    && e.cut <= |Script(w.dir, e.op, e.scan, digest)|
    && (e.op.Insert? ==> FreshToken(w.dir, e.op, e.scan))
  }

  /** The event got as far as writing the payload file. */
  ghost predicate WrotePayload(w: World, e: Event, digest: Digest)
    requires Legal(w, e, digest)
  {
    && e.op.Insert? && Insertable(e.op.data, e.op.mime)
    && e.cut > |MakeRoomScript(w.dir, |e.op.data|, e.op.now, e.scan)|
  }

  /** What one event leads to; an event that cannot happen here changes nothing. */
  ghost function Next(w: World, e: Event, digest: Digest): World {
    if !Legal(w, e, digest) then w
    else
      World(
        ApplyAll(w.dir, Script(w.dir, e.op, e.scan, digest)[..e.cut]),
        if WrotePayload(w, e, digest)
        then w.written[e.op.token := Image(e.op.data, e.op.mime)]
        else w.written)
  }

  /** The world a run leads to, from an empty store. */
  ghost function Reached(run: seq<Event>, digest: Digest): World {
    if run == [] then World(EMPTY, map[])
    else Next(Reached(run[..|run| - 1], digest), run[|run| - 1], digest)
  }

  // ---------------------------------------------------------------- invariants

  ghost function Sizes(bin: map<string, Bytes>): map<string, nat> {
    map t | t in bin :: |bin[t]|
  }

  /** At most 128 payload files holding at most 256 MiB. */
  ghost predicate Bounded(d: Directory) {
    |d.bin| <= MAX_ENTRIES && Sum(Sizes(d.bin)) <= MAX_TOTAL_BYTES
  }

  /** The pair of `t` is exactly what the latest insert of `t` wrote. */
  ghost predicate Faithful(w: World, t: string, digest: Digest)
    requires t in w.dir.json && t in w.dir.bin
  {
    && t in w.written
    && w.dir.bin[t] == w.written[t].data
    && w.dir.json[t].Parsed?
    && var m := w.dir.json[t].metadata;
       && m.mimeType == w.written[t].mime
       && m.byteLength == |w.dir.bin[t]|
       && m.sha256 == digest(w.dir.bin[t])
  }

  ghost predicate AllFaithful(w: World, digest: Digest) {
    forall t :: t in w.dir.json && t in w.dir.bin ==> Faithful(w, t, digest)
  }

  ghost predicate OwnNames(d: Directory) {
    forall t :: t in d.json || t in d.bin ==> ValidToken(t)
  }

  ghost predicate Good(w: World, digest: Digest) {
    AllFaithful(w, digest) && OwnNames(w.dir) && Bounded(w.dir)
  }

  /** Every `.json` has its `.bin`. */
  ghost predicate Paired(d: Directory) {
    d.json.Keys <= d.bin.Keys
  }

  // ----------------------------------------------------------- deleting scripts

  /** `small` is `large` after deletions only. */
  ghost predicate Shrunk(small: Directory, large: Directory) {
    && small.json.Keys <= large.json.Keys
    && small.bin.Keys <= large.bin.Keys
    && (forall t :: t in small.json ==> small.json[t] == large.json[t])
    && (forall t :: t in small.bin ==> small.bin[t] == large.bin[t])
  }

  ghost predicate Deletes(steps: seq<Step>) {
    forall i :: 0 <= i < |steps| ==> steps[i].RemoveJson? || steps[i].RemoveBin?
  }

  lemma {:induction false} DeletingShrinks(d: Directory, steps: seq<Step>)
    requires Deletes(steps)
    ensures Shrunk(ApplyAll(d, steps), d)
  {
    if steps != [] {
      DeletingShrinks(d, steps[..|steps| - 1]);
    }
  }

  lemma {:induction false} FirstPassDeletes(d: Directory, order: seq<string>, now: int, stuck: set<string>)
    requires forall s :: s in order ==> s in d.json
    ensures Deletes(FirstPass(d, order, now, stuck))
  {
    if order != [] {
      FirstPassDeletes(d, order[..|order| - 1], now, stuck);
    }
  }

  lemma {:induction false} SecondPassDeletes(order: seq<string>, tokens: set<string>)
    ensures Deletes(SecondPass(order, tokens))
  {
    if order != [] {
      SecondPassDeletes(order[..|order| - 1], tokens);
    }
  }

  lemma {:induction false} RemovePairsDeletes(tokens: seq<string>)
    ensures Deletes(RemovePairs(tokens))
  {
    if tokens != [] {
      RemovePairsDeletes(tokens[..|tokens| - 1]);
    }
  }

  lemma CleanupDeletes(d: Directory, now: int, scan: Scan)
    requires ScanOf(d, now, scan)
    ensures Deletes(CleanupScript(d, now, scan))
  {
    FirstPassDeletes(d, scan.jsonOrder, now, scan.stuck);
    SecondPassDeletes(scan.binOrder, MetadataTokens(d));
  }

  lemma MakeRoomDeletes(d: Directory, length: nat, now: int, scan: Scan)
    requires ScanOf(d, now, scan)
    ensures Deletes(MakeRoomScript(d, length, now, scan))
  {
    CleanupDeletes(d, now, scan);
    RemovePairsDeletes(Victims(LiveEntries(d, now), IndexedBytes(LiveEntries(d, now)), length));
  }

  lemma CardinalityMonotone<K>(a: set<K>, b: set<K>)
    requires a <= b
    ensures |a| <= |b|
  {
    assert b == a + (b - a);
  }

  lemma ShrunkIsBounded(small: Directory, large: Directory)
    requires Shrunk(small, large) && Bounded(large)
    ensures Bounded(small)
  {
    SumSubmap(Sizes(small.bin), Sizes(large.bin));
    CardinalityMonotone(small.bin.Keys, large.bin.Keys);
  }

  lemma ShrunkIsGood(w: World, small: Directory, digest: Digest)
    requires Good(w, digest) && Shrunk(small, w.dir)
    ensures Good(w.(dir := small), digest)
  {
    ShrunkIsBounded(small, w.dir);
    forall t | t in small.json && t in small.bin
      ensures Faithful(w.(dir := small), t, digest)
    {
      assert Faithful(w, t, digest);
    }
  }

  // --------------------------------------------------------------- making room

  /** In a good world the index counts the true payload sizes. */
  lemma GoodIndex(w: World, now: int, digest: Digest)
    requires Good(w, digest)
    ensures var entries := LiveEntries(w.dir, now);
            && (forall t :: t in entries ==> t in w.dir.bin && entries[t].byteLength == |w.dir.bin[t]|)
            && IndexedBytes(entries) == Sum(Lengths(entries)) <= MAX_TOTAL_BYTES
  {
    var entries := LiveEntries(w.dir, now);
    forall t | t in entries
      ensures t in w.dir.bin && entries[t].byteLength == |w.dir.bin[t]|
    {
      assert Live(w.dir, t, now);
      assert Faithful(w, t, digest);
    }
    SumSubmap(Lengths(entries), Sizes(w.dir.bin));
  }

  /** Making room leaves exactly the payloads of the entries that survive eviction. */
  lemma MakeRoomSurvivors(d: Directory, length: nat, now: int, scan: Scan)
    requires ScanOf(d, now, scan)
    ensures var entries := LiveEntries(d, now);
            var survivors := Without(entries, Victims(entries, IndexedBytes(entries), length));
            var cleared := ApplyAll(d, MakeRoomScript(d, length, now, scan));
            && cleared.bin.Keys == survivors.Keys
            && (forall t :: t in survivors ==> t in d.bin && cleared.bin[t] == d.bin[t] && survivors[t] == entries[t])
  {
    var entries := LiveEntries(d, now);
    var victims := Victims(entries, IndexedBytes(entries), length);
    var cleaned := ApplyAll(d, CleanupScript(d, now, scan));
    ApplyAllConcat(d, CleanupScript(d, now, scan), RemovePairs(victims));
    RemovePairsEffect(cleaned, victims);
    CleanupAgreement(d, now, scan);
    assert cleaned.bin.Keys == entries.Keys;
  }

  lemma SurvivorsLeaveRoom(entries: map<string, Metadata>, length: nat, bin: map<string, Bytes>)
    requires length <= MAX_TOTAL_BYTES
    requires var survivors := Without(entries, Victims(entries, Sum(Lengths(entries)), length));
             bin.Keys == survivors.Keys && forall t :: t in bin ==> survivors[t].byteLength == |bin[t]|
    ensures |bin| < MAX_ENTRIES && Sum(Sizes(bin)) + length <= MAX_TOTAL_BYTES
  {
    VictimsLeaveRoom(entries, length);
    SameSizes(bin, Without(entries, Victims(entries, Sum(Lengths(entries)), length)));
  }

  lemma SameSizes(bin: map<string, Bytes>, entries: map<string, Metadata>)
    requires bin.Keys == entries.Keys && forall t :: t in bin ==> entries[t].byteLength == |bin[t]|
    ensures Sizes(bin) == Lengths(entries) && |bin| == |entries|
  {
    assert |bin.Keys| == |entries.Keys|;
  }

  lemma MakeRoomEffect(w: World, length: nat, now: int, scan: Scan, digest: Digest)
    requires Good(w, digest) && ScanOf(w.dir, now, scan) && length <= MAX_TOTAL_BYTES
    ensures var cleared := ApplyAll(w.dir, MakeRoomScript(w.dir, length, now, scan));
            && Shrunk(cleared, w.dir)
            && |cleared.bin| < MAX_ENTRIES
            && Sum(Sizes(cleared.bin)) + length <= MAX_TOTAL_BYTES
  {
    MakeRoomSurvivors(w.dir, length, now, scan);
    GoodIndex(w, now, digest);
    var cleared := ApplyAll(w.dir, MakeRoomScript(w.dir, length, now, scan));
    SurvivorsLeaveRoom(LiveEntries(w.dir, now), length, cleared.bin);
    MakeRoomDeletes(w.dir, length, now, scan);
    DeletingShrinks(w.dir, MakeRoomScript(w.dir, length, now, scan));
  }

  // ------------------------------------------------------------- every run: Good

  lemma PrefixOfConcat(a: seq<Step>, b: seq<Step>, k: nat)
    requires k <= |a + b|
    ensures k <= |a| ==> (a + b)[..k] == a[..k]
    ensures k >= |a| ==> (a + b)[..k] == a + b[..k - |a|]
  {
  }

  lemma PrefixOfDeletes(steps: seq<Step>, k: nat)
    requires Deletes(steps) && k <= |steps|
    ensures Deletes(steps[..k])
  {
  }

  /** The deleting steps an operation takes, at most; an event that wrote no payload took some first part of these. */
  ghost function DeletingScript(d: Directory, op: Operation, scan: Scan): seq<Step>
    requires ScanOf(d, op.now, scan)
  {
    match op
    case Open(now) => CleanupScript(d, now, scan)
    case Insert(data, mime, now, _, _, _) => if Insertable(data, mime) then MakeRoomScript(d, |data|, now, scan) else []
    case Lookup(token, now, _, _) => if ValidToken(token) then CleanupScript(d, now, scan) + RemovePair(token) else []
  }

  /** The verified lookup's own deletion, when there is one. */
  ghost function Discarded(d: Directory, op: Operation, digest: Digest): seq<Step>
    requires op.Lookup?
  {
    if Live(d, op.token, op.now) && Verify(d.json[op.token].metadata, d.bin[op.token], op.memory, digest) == Rejected
    then RemovePair(op.token) else []
  }

  lemma DeletingEventTakesPrefix(w: World, e: Event, digest: Digest)
    requires Legal(w, e, digest) && !WrotePayload(w, e, digest)
    ensures var script := DeletingScript(w.dir, e.op, e.scan);
            e.cut <= |script| && Script(w.dir, e.op, e.scan, digest)[..e.cut] == script[..e.cut]
  {
    match e.op
    case Open(_) =>
    case Insert(data, mime, now, _, _, _) =>
      if Insertable(data, mime) {
        PrefixOfConcat(MakeRoomScript(w.dir, |data|, now, e.scan), WriteScript(e.op, digest), e.cut);
      }
    case Lookup(token, now, _, _) =>
      if ValidToken(token) {
        var cleanup, discarded := CleanupScript(w.dir, now, e.scan), Discarded(w.dir, e.op, digest);
        assert Script(w.dir, e.op, e.scan, digest) == cleanup + discarded;
        PrefixOfConcat(cleanup, discarded, e.cut);
        PrefixOfConcat(cleanup, RemovePair(token), e.cut);
      }
  }

  lemma DeletingScriptDeletes(d: Directory, op: Operation, scan: Scan)
    requires ScanOf(d, op.now, scan)
    ensures Deletes(DeletingScript(d, op, scan))
  {
    CleanupDeletes(d, op.now, scan);
    if op.Insert? {
      MakeRoomDeletes(d, |op.data|, op.now, scan);
    }
  }

  lemma DeletingEventIsGood(w: World, e: Event, digest: Digest)
    requires Good(w, digest) && Legal(w, e, digest) && !WrotePayload(w, e, digest)
    ensures Good(Next(w, e, digest), digest)
  {
    var script := DeletingScript(w.dir, e.op, e.scan);
    DeletingEventTakesPrefix(w, e, digest);
    DeletingScriptDeletes(w.dir, e.op, e.scan);
    PrefixOfDeletes(script, e.cut);
    DeletingShrinks(w.dir, script[..e.cut]);
    ShrunkIsGood(w, ApplyAll(w.dir, script[..e.cut]), digest);
  }

  /** The directory after `k` steps of a write script that starts from `d`. */
  lemma WriteEffect(d: Directory, op: Operation, k: nat, digest: Digest)
    requires op.Insert? && 1 <= k <= |WriteScript(op, digest)|
    ensures var after := ApplyAll(d, WriteScript(op, digest)[..k]);
            var m := NewMetadata(op.data, op.mime, op.now, digest);
            && after.bin == (if (op.metadataWrite == FailedEarly && k == 2) || k == 3
                             then d.bin[op.token := op.data] - {op.token}
                             else d.bin[op.token := op.data])
            && after.json == (if op.metadataWrite != FailedEarly && k >= 2
                              then d.json[op.token := Parsed(m)] else d.json)
  {
    var s := WriteScript(op, digest);
    assert s[..0] == [] && ApplyAll(d, s[..0]) == d;
    assert s[..1][..0] == s[..0];
    assert ApplyAll(d, s[..1]) == d.(bin := d.bin[op.token := op.data]);
    if k >= 2 {
      assert s[..2][..1] == s[..1] && s[..2][1] == s[1];
      assert ApplyAll(d, s[..2]) == Apply(ApplyAll(d, s[..1]), s[1]);
    }
    if k == 3 {
      assert s[..3][..2] == s[..2] && s[..3][2] == s[2];
      assert ApplyAll(d, s[..3]) == Apply(ApplyAll(d, s[..2]), s[2]);
    }
  }

  lemma AddedPayloadIsBounded(d: Directory, t: string, data: Bytes)
    requires t !in d.bin
    requires |d.bin| < MAX_ENTRIES && Sum(Sizes(d.bin)) + |data| <= MAX_TOTAL_BYTES
    ensures Bounded(d.(bin := d.bin[t := data]))
  {
    OneMorePayload(d.bin, t, data);
    SumInsert(Sizes(d.bin), t, |data|);
  }

  lemma OneMorePayload(bin: map<string, Bytes>, t: string, data: Bytes)
    requires t !in bin
    ensures Sizes(bin[t := data]) == Sizes(bin)[t := |data|]
    ensures |bin[t := data]| == |bin| + 1
  {
    assert bin[t := data].Keys == bin.Keys + {t};
  }

  lemma WritingEventIsGood(w: World, e: Event, digest: Digest)
    requires Good(w, digest) && Legal(w, e, digest) && WrotePayload(w, e, digest)
    ensures Good(Next(w, e, digest), digest)
  {
    var op := e.op;
    var room := MakeRoomScript(w.dir, |op.data|, op.now, e.scan);
    var k := e.cut - |room|;
    PrefixOfConcat(room, WriteScript(op, digest), e.cut);
    ApplyAllConcat(w.dir, room, WriteScript(op, digest)[..k]);
    var cleared := ApplyAll(w.dir, room);
    MakeRoomEffect(w, |op.data|, op.now, e.scan, digest);
    ShrunkIsGood(w, cleared, digest);
    WriteEffect(cleared, op, k, digest);
    AddedPayloadIsBounded(cleared, op.token, op.data);
    var full := cleared.(bin := cleared.bin[op.token := op.data]);
    var next := Next(w, e, digest);
    ShrunkIsBounded(next.dir.(json := full.json), full);
    forall t | t in next.dir.json && t in next.dir.bin
      ensures Faithful(next, t, digest)
    {
      if t != op.token {
        assert Faithful(w.(dir := cleared), t, digest);
      }
    }
  }

  lemma EventIsGood(w: World, e: Event, digest: Digest)
    requires Good(w, digest)
    ensures Good(Next(w, e, digest), digest)
  {
    if Legal(w, e, digest) {
      if WrotePayload(w, e, digest) {
        WritingEventIsGood(w, e, digest);
      } else {
        DeletingEventIsGood(w, e, digest);
      }
    }
  }

  lemma EmptyIsGood(digest: Digest)
    ensures Good(World(EMPTY, map[]), digest)
  {
    var none: map<string, Bytes> := map[];
    assert Sizes(none) == map[];
  }

  /**
   At every file step of every run, crashes included: at most 128 payload files
   hold at most 256 MiB, and every complete pair is exactly what the latest insert
   of its token wrote.
   */
  lemma {:induction false} EveryRunIsGood(run: seq<Event>, digest: Digest)
    ensures Good(Reached(run, digest), digest)
  {
    if run == [] {
      EmptyIsGood(digest);
    } else {
      EveryRunIsGood(run[..|run| - 1], digest);
      EventIsGood(Reached(run[..|run| - 1], digest), run[|run| - 1], digest);
    }
  }

  // ------------------------------------------------------- every run: lookups

  /**
   In every run, a lookup answers with the bytes and MIME type of the latest insert
   of that token exactly when its live pair is in the directory and memory can be
   reserved; otherwise it is a miss, or an out-of-memory refusal. The hash check
   never removes anything.
   */
  lemma LookupIsExact(run: seq<Event>, op: Operation, scan: Scan, digest: Digest)
    requires op.Lookup? && ScanOf(Reached(run, digest).dir, op.now, scan)
    ensures var w := Reached(run, digest);
            var live := Live(w.dir, op.token, op.now);
            && (live ==> op.token in w.written)
            && LookupResultOf(w.dir, op, digest)
               == (if !live then Miss
                   else if !op.memory then OutOfMemory
                   else Hit(if op.mode == Head then [] else w.written[op.token].data,
                            w.written[op.token].mime, |w.written[op.token].data|))
            && (ValidToken(op.token) ==> Script(w.dir, op, scan, digest) == CleanupScript(w.dir, op.now, scan))
  {
    EveryRunIsGood(run, digest);
    var w := Reached(run, digest);
    if Live(w.dir, op.token, op.now) {
      assert Faithful(w, op.token, digest);
    }
  }

  // --------------------------------------------------- every run: no half pairs

  /** Every payload is deleted only once its metadata file is gone. */
  ghost predicate Orderly(d: Directory, steps: seq<Step>) {
    forall i :: 0 <= i < |steps| && steps[i].RemoveBin? ==> steps[i].stem !in ApplyAll(d, steps[..i]).json
  }

  lemma {:induction false} OrderlyKeepsPairs(d: Directory, steps: seq<Step>, k: nat)
    requires Paired(d) && Deletes(steps) && Orderly(d, steps) && k <= |steps|
    ensures Paired(ApplyAll(d, steps[..k]))
  {
    if k > 0 {
      OrderlyKeepsPairs(d, steps, k - 1);
      assert steps[..k][..k - 1] == steps[..k - 1];
    } else {
      assert steps[..k] == [];
    }
  }

  lemma OrderlyConcat(d: Directory, a: seq<Step>, b: seq<Step>)
    requires Orderly(d, a) && Orderly(ApplyAll(d, a), b)
    ensures Orderly(d, a + b)
  {
    forall i | 0 <= i < |a + b| && (a + b)[i].RemoveBin?
      ensures (a + b)[i].stem !in ApplyAll(d, (a + b)[..i]).json
    {
      if i < |a| {
        assert (a + b)[..i] == a[..i];
      } else {
        assert (a + b)[..i] == a + b[..i - |a|];
        ApplyAllConcat(d, a, b[..i - |a|]);
      }
    }
  }

  lemma PairIsOrderly(d: Directory, t: string)
    ensures Orderly(d, RemovePair(t))
  {
    var p := RemovePair(t);
    assert p[..1] == [RemoveJson(t)];
    assert p[..1][..0] == [];
  }

  lemma {:induction false} FirstPassIsOrderly(d: Directory, order: seq<string>, now: int, stuck: set<string>)
    requires forall s :: s in order ==> s in d.json
    ensures Orderly(d, FirstPass(d, order, now, stuck))
  {
    if order != [] {
      var init, last := order[..|order| - 1], order[|order| - 1];
      FirstPassIsOrderly(d, init, now, stuck);
      var before := FirstPass(d, init, now, stuck);
      PairIsOrderly(ApplyAll(d, before), last);
      OrderlyConcat(d, before, Treatment(d, last, now, stuck));
    }
  }

  lemma {:induction false} RemovePairsIsOrderly(d: Directory, tokens: seq<string>)
    ensures Orderly(d, RemovePairs(tokens))
  {
    if tokens != [] {
      var init, last := tokens[..|tokens| - 1], tokens[|tokens| - 1];
      RemovePairsIsOrderly(d, init);
      PairIsOrderly(ApplyAll(d, RemovePairs(init)), last);
      OrderlyConcat(d, RemovePairs(init), RemovePair(last));
    }
  }

  lemma {:induction false} SecondPassIsOrderly(d: Directory, order: seq<string>, tokens: set<string>)
    requires forall s :: s in d.json ==> ValidToken(s) && s in tokens
    ensures Orderly(d, SecondPass(order, tokens))
  {
    if order != [] {
      var init, last := order[..|order| - 1], order[|order| - 1];
      SecondPassIsOrderly(d, init, tokens);
      SecondPassDeletes(init, tokens);
      DeletingShrinks(d, SecondPass(init, tokens));
      var tail := if !ValidToken(last) || last !in tokens then [RemoveBin(last)] else [];
      assert tail != [] ==> tail[..0] == [];
      OrderlyConcat(d, SecondPass(init, tokens), tail);
    }
  }

  lemma CleanupIsOrderly(d: Directory, now: int, scan: Scan)
    requires ScanOf(d, now, scan) && OwnNames(d)
    ensures Orderly(d, CleanupScript(d, now, scan))
  {
    var first := FirstPass(d, scan.jsonOrder, now, scan.stuck);
    FirstPassIsOrderly(d, scan.jsonOrder, now, scan.stuck);
    FirstPassDeletes(d, scan.jsonOrder, now, scan.stuck);
    DeletingShrinks(d, first);
    SecondPassIsOrderly(ApplyAll(d, first), scan.binOrder, MetadataTokens(d));
    OrderlyConcat(d, first, SecondPass(scan.binOrder, MetadataTokens(d)));
  }

  /** The event made an insert delete its payload after its metadata file had become visible. */
  ghost predicate SplitsPair(w: World, e: Event, digest: Digest)
    requires Legal(w, e, digest)
  {
    && e.op.Insert? && Insertable(e.op.data, e.op.mime)
    && e.op.payloadWrite == Written && e.op.metadataWrite == FailedLate
    && e.cut == |Script(w.dir, e.op, e.scan, digest)|
  }

  lemma MakeRoomIsOrderly(d: Directory, length: nat, now: int, scan: Scan)
    requires ScanOf(d, now, scan) && OwnNames(d)
    ensures Orderly(d, MakeRoomScript(d, length, now, scan))
  {
    var entries, cleanup := LiveEntries(d, now), CleanupScript(d, now, scan);
    var victims := Victims(entries, IndexedBytes(entries), length);
    CleanupIsOrderly(d, now, scan);
    RemovePairsIsOrderly(ApplyAll(d, cleanup), victims);
    OrderlyConcat(d, cleanup, RemovePairs(victims));
  }

  lemma DeletingScriptIsOrderly(d: Directory, op: Operation, scan: Scan)
    requires ScanOf(d, op.now, scan) && OwnNames(d)
    ensures Orderly(d, DeletingScript(d, op, scan))
  {
    CleanupIsOrderly(d, op.now, scan);
    if op.Insert? {
      MakeRoomIsOrderly(d, |op.data|, op.now, scan);
    } else if op.Lookup? {
      var cleanup := CleanupScript(d, op.now, scan);
      PairIsOrderly(ApplyAll(d, cleanup), op.token);
      OrderlyConcat(d, cleanup, RemovePair(op.token));
    }
  }

  lemma DeletingEventKeepsPairs(w: World, e: Event, digest: Digest)
    requires Good(w, digest) && Paired(w.dir) && Legal(w, e, digest) && !WrotePayload(w, e, digest)
    ensures Paired(Next(w, e, digest).dir)
  {
    DeletingEventTakesPrefix(w, e, digest);
    DeletingScriptDeletes(w.dir, e.op, e.scan);
    DeletingScriptIsOrderly(w.dir, e.op, e.scan);
    OrderlyKeepsPairs(w.dir, DeletingScript(w.dir, e.op, e.scan), e.cut);
  }

  /**
   Exactly one thing can leave a `.json` without its `.bin`: an insert whose
   metadata write fails after the rename, and which then deletes its payload.
   */
  lemma PairsSplitOnlyByLateFailure(w: World, e: Event, digest: Digest)
    requires Good(w, digest) && Paired(w.dir) && Legal(w, e, digest)
    ensures Paired(Next(w, e, digest).dir) <==> !SplitsPair(w, e, digest)
  {
    if WrotePayload(w, e, digest) {
      var room := MakeRoomScript(w.dir, |e.op.data|, e.op.now, e.scan);
      RoomKeepsPairs(w, |e.op.data|, e.op.now, e.scan, digest);
      RoomClearsToken(w, e, digest);
      WrittenAfterRoom(w, e, digest);
      SplitsAtThree(w, e, digest);
      WritingSplitsExactly(ApplyAll(w.dir, room), e.op, e.cut - |room|, digest);
    } else {
      DeletingEventKeepsPairs(w, e, digest);
      UnwrittenSplitsNothing(w, e, digest);
    }
  }

  lemma RoomKeepsPairs(w: World, length: nat, now: int, scan: Scan, digest: Digest)
    requires Good(w, digest) && Paired(w.dir) && ScanOf(w.dir, now, scan)
    ensures Paired(ApplyAll(w.dir, MakeRoomScript(w.dir, length, now, scan)))
  {
    var room := MakeRoomScript(w.dir, length, now, scan);
    MakeRoomIsOrderly(w.dir, length, now, scan);
    MakeRoomDeletes(w.dir, length, now, scan);
    OrderlyKeepsPairs(w.dir, room, |room|);
    assert room[..|room|] == room;
  }

  lemma RoomClearsToken(w: World, e: Event, digest: Digest)
    requires Legal(w, e, digest) && e.op.Insert?
    ensures e.op.token !in ApplyAll(w.dir, MakeRoomScript(w.dir, |e.op.data|, e.op.now, e.scan)).json
  {
  }

  lemma ThreeWritesExactly(op: Operation, digest: Digest)
    requires op.Insert?
    ensures |WriteScript(op, digest)| <= 3
    ensures |WriteScript(op, digest)| == 3 <==> op.payloadWrite == Written && op.metadataWrite == FailedLate
  {
  }

  lemma SplitsAtThree(w: World, e: Event, digest: Digest)
    requires Legal(w, e, digest) && WrotePayload(w, e, digest)
    ensures SplitsPair(w, e, digest) <==>
            e.cut - |MakeRoomScript(w.dir, |e.op.data|, e.op.now, e.scan)| >= 3
  {
    ThreeWritesExactly(e.op, digest);
  }

  lemma UnwrittenSplitsNothing(w: World, e: Event, digest: Digest)
    requires Legal(w, e, digest) && !WrotePayload(w, e, digest)
    ensures !SplitsPair(w, e, digest)
  {
    if e.op.Insert? {
      ThreeWritesExactly(e.op, digest);
    }
  }

  /** An event that wrote its payload is making room, then some of its writes. */
  lemma WrittenAfterRoom(w: World, e: Event, digest: Digest)
    requires Legal(w, e, digest) && WrotePayload(w, e, digest)
    ensures var room := MakeRoomScript(w.dir, |e.op.data|, e.op.now, e.scan);
            var k := e.cut - |room|;
            && 1 <= k <= |WriteScript(e.op, digest)|
            && Next(w, e, digest).dir == ApplyAll(ApplyAll(w.dir, room), WriteScript(e.op, digest)[..k])
  {
    var room := MakeRoomScript(w.dir, |e.op.data|, e.op.now, e.scan);
    PrefixOfConcat(room, WriteScript(e.op, digest), e.cut);
    ApplyAllConcat(w.dir, room, WriteScript(e.op, digest)[..e.cut - |room|]);
  }

  /** The writes of an insert split a pair exactly when the last of three deletes the payload of visible metadata. */
  lemma WritingSplitsExactly(d: Directory, op: Operation, k: nat, digest: Digest)
    requires Paired(d) && op.Insert? && op.token !in d.json && 1 <= k <= |WriteScript(op, digest)|
    ensures Paired(ApplyAll(d, WriteScript(op, digest)[..k])) <==> k < 3
  {
    WriteEffect(d, op, k, digest);
    var after := ApplyAll(d, WriteScript(op, digest)[..k]);
    if k == 3 {
      assert op.token in after.json && op.token !in after.bin;
    }
  }

  /** It does happen: in an empty store, for every image, token and time. */
  lemma {:induction false} SplitHappens(data: Bytes, mime: string, now: int, token: string, digest: Digest)
    requires Insertable(data, mime) && ValidToken(token)
    ensures var e := Event(Insert(data, mime, now, token, Written, FailedLate), Scan([], [], {}), 3);
            var w := World(EMPTY, map[]);
            Legal(w, e, digest) && SplitsPair(w, e, digest) && !Paired(Next(w, e, digest).dir)
  {
    var scan := Scan([], [], {});
    var e := Event(Insert(data, mime, now, token, Written, FailedLate), scan, 3);
    EmptyNeedsNothing(|data|, now, scan);
    EmptyIsGood(digest);
    assert [] + WriteScript(e.op, digest) == WriteScript(e.op, digest);
    PairsSplitOnlyByLateFailure(World(EMPTY, map[]), e, digest);
  }

  lemma {:induction false} EmptyNeedsNothing(length: nat, now: int, scan: Scan)
    requires scan == Scan([], [], {}) && length <= MAX_TOTAL_BYTES
    ensures ScanOf(EMPTY, now, scan) && MakeRoomScript(EMPTY, length, now, scan) == []
    ensures ApplyAll(EMPTY, MakeRoomScript(EMPTY, length, now, scan)) == EMPTY
  {
    var entries := LiveEntries(EMPTY, now);
    assert entries == map[] && Lengths(entries) == map[];
    assert !NeedsRoom(|entries|, IndexedBytes(entries), length);
  }

  /** No insert of the run splits its own pair. */
  ghost predicate NeverSplits(run: seq<Event>, digest: Digest) {
    run == [] ||
    (&& NeverSplits(run[..|run| - 1], digest)
     && var w, e := Reached(run[..|run| - 1], digest), run[|run| - 1];
        Legal(w, e, digest) ==> !SplitsPair(w, e, digest))
  }

  /** In every run without such a failure, at every file step, every `.json` has its `.bin`. */
  lemma {:induction false} EveryRunIsPaired(run: seq<Event>, digest: Digest)
    requires NeverSplits(run, digest)
    ensures Paired(Reached(run, digest).dir)
  {
    if run != [] {
      var before, e := run[..|run| - 1], run[|run| - 1];
      EveryRunIsPaired(before, digest);
      EveryRunIsGood(before, digest);
      if Legal(Reached(before, digest), e, digest) {
        PairsSplitOnlyByLateFailure(Reached(before, digest), e, digest);
      }
    }
  }

  // ------------------------------------------------------------- expiry is final

  predicate Inserts(e: Event, t: string) {
    e.op.Insert? && e.op.token == t
  }

  lemma GoneStaysGone(w: World, e: Event, digest: Digest, t: string)
    requires t !in w.dir.json && !Inserts(e, t)
    ensures t !in Next(w, e, digest).dir.json
  {
    if Legal(w, e, digest) {
      ScriptWritesOnlyItsToken(w.dir, e.op, e.scan, digest);
      NothingWrites(w.dir, Script(w.dir, e.op, e.scan, digest)[..e.cut], t);
    }
  }

  /** The only metadata file these steps write is that of the token an insert drew. */
  ghost predicate WritesOnly(steps: seq<Step>, op: Operation) {
    forall i :: 0 <= i < |steps| && steps[i].WriteJson? ==> op.Insert? && steps[i].stem == op.token
  }

  lemma WritesOnlyConcat(a: seq<Step>, b: seq<Step>, op: Operation)
    requires WritesOnly(a, op) && WritesOnly(b, op)
    ensures WritesOnly(a + b, op)
  {
  }

  lemma DeletesWritesNothing(steps: seq<Step>, op: Operation)
    requires Deletes(steps)
    ensures WritesOnly(steps, op)
  {
  }

  /** What an operation does after its cleanup. */
  ghost function AfterCleanup(d: Directory, op: Operation, digest: Digest): seq<Step> {
    match op
    case Open(_) => []
    case Insert(data, _, now, _, _, _) =>
      var entries := LiveEntries(d, now);
      RemovePairs(Victims(entries, IndexedBytes(entries), |data|)) + WriteScript(op, digest)
    case Lookup(_, _, _, _) => Discarded(d, op, digest)
  }

  lemma ConcatAssociates(a: seq<Step>, b: seq<Step>, c: seq<Step>)
    ensures a + b + c == a + (b + c)
  {
  }

  lemma ScriptIsCleanupThenRest(d: Directory, op: Operation, scan: Scan, digest: Digest)
    requires ScanOf(d, op.now, scan) && Cleans(op)
    ensures Script(d, op, scan, digest) == CleanupScript(d, op.now, scan) + AfterCleanup(d, op, digest)
  {
    var cleanup := CleanupScript(d, op.now, scan);
    match op
    case Open(_) => assert cleanup + [] == cleanup;
    case Insert(data, _, now, _, _, _) =>
      var entries := LiveEntries(d, now);
      ConcatAssociates(
        cleanup, RemovePairs(Victims(entries, IndexedBytes(entries), |data|)), WriteScript(op, digest));
    case Lookup(_, _, _, _) =>
  }

  lemma RestWritesOnlyItsToken(d: Directory, op: Operation, digest: Digest)
    ensures WritesOnly(AfterCleanup(d, op, digest), op)
  {
    if op.Insert? {
      var entries := LiveEntries(d, op.now);
      var victims := Victims(entries, IndexedBytes(entries), |op.data|);
      RemovePairsDeletes(victims);
      DeletesWritesNothing(RemovePairs(victims), op);
      WritesOnlyConcat(RemovePairs(victims), WriteScript(op, digest), op);
    }
  }

  lemma ScriptWritesOnlyItsToken(d: Directory, op: Operation, scan: Scan, digest: Digest)
    requires ScanOf(d, op.now, scan)
    ensures WritesOnly(Script(d, op, scan, digest), op)
  {
    if Cleans(op) {
      ScriptIsCleanupThenRest(d, op, scan, digest);
      CleanupDeletes(d, op.now, scan);
      DeletesWritesNothing(CleanupScript(d, op.now, scan), op);
      RestWritesOnlyItsToken(d, op, digest);
      WritesOnlyConcat(CleanupScript(d, op.now, scan), AfterCleanup(d, op, digest), op);
    }
  }

  lemma {:induction false} NothingWrites(d: Directory, steps: seq<Step>, t: string)
    requires t !in d.json
    requires forall i :: 0 <= i < |steps| && steps[i].WriteJson? ==> steps[i].stem != t
    ensures t !in ApplyAll(d, steps).json
  {
    if steps != [] {
      NothingWrites(d, steps[..|steps| - 1], t);
    }
  }

  ghost predicate NeverInserts(run: seq<Event>, t: string) {
    forall i :: 0 <= i < |run| ==> !Inserts(run[i], t)
  }

  lemma {:induction false} ReachedOneMore(run: seq<Event>, e: Event, digest: Digest)
    ensures Reached(run + [e], digest) == Next(Reached(run, digest), e, digest)
  {
    assert (run + [e])[..|run|] == run;
  }

  lemma {:induction false} AbsentUntilReinserted(before: seq<Event>, after: seq<Event>, digest: Digest, t: string)
    requires t !in Reached(before, digest).dir.json
    requires NeverInserts(after, t)
    ensures t !in Reached(before + after, digest).dir.json
  {
    if after == [] {
      assert before + after == before;
    } else {
      var init, last := after[..|after| - 1], after[|after| - 1];
      AbsentUntilReinserted(before, init, digest, t);
      GoneStaysGone(Reached(before + init, digest), last, digest, t);
      assert before + after == (before + init) + [last];
      ReachedOneMore(before + init, last, digest);
    }
  }

  /** The operation runs a cleanup; refused inserts and malformed tokens do not. */
  predicate Cleans(op: Operation) {
    (op.Insert? ==> Insertable(op.data, op.mime)) && (op.Lookup? ==> ValidToken(op.token))
  }

  /** An operation past its cleanup leaves no metadata file that its own clock calls expired. */
  lemma ExpiredIsDeleted(w: World, e: Event, digest: Digest, t: string)
    requires Good(w, digest) && Legal(w, e, digest)
    requires Cleans(e.op) && e.cut >= |CleanupScript(w.dir, e.op.now, e.scan)|
    requires !Inserts(e, t)
    requires t in w.dir.json && w.dir.json[t].Parsed? && w.dir.json[t].metadata.expiresAtMs <= e.op.now
    ensures t !in Next(w, e, digest).dir.json
  {
    var cleanup, rest := CleanupScript(w.dir, e.op.now, e.scan), AfterCleanup(w.dir, e.op, digest);
    var later := rest[..e.cut - |cleanup|];
    ScriptIsCleanupThenRest(w.dir, e.op, e.scan, digest);
    PrefixOfConcat(cleanup, rest, e.cut);
    ApplyAllConcat(w.dir, cleanup, later);
    CleanupDropsExpired(w.dir, e.op.now, e.scan, t);
    RestWritesOnlyItsToken(w.dir, e.op, digest);
    NothingWrites(ApplyAll(w.dir, cleanup), later, t);
  }

  lemma CleanupDropsExpired(d: Directory, now: int, scan: Scan, t: string)
    requires ScanOf(d, now, scan) && ValidToken(t)
    requires t in d.json && d.json[t].Parsed? && d.json[t].metadata.expiresAtMs <= now
    ensures t !in ApplyAll(d, CleanupScript(d, now, scan)).json
  {
    CleanupEffect(d, now, scan);
  }

  /**
   Once some operation has seen a token past its expiry and finished its cleanup,
   no later lookup of that token answers, even if the clock goes back, until some
   insert draws the same token again.
   */
  lemma ExpiredIsNeverServedAgain(before: seq<Event>, e: Event, after: seq<Event>, op: Operation, digest: Digest)
    requires op.Lookup?
    requires var w := Reached(before, digest);
             && Legal(w, e, digest) && Cleans(e.op)
             && e.cut >= |CleanupScript(w.dir, e.op.now, e.scan)|
             && op.token in w.dir.json && w.dir.json[op.token].Parsed?
             && w.dir.json[op.token].metadata.expiresAtMs <= e.op.now
    requires !Inserts(e, op.token) && NeverInserts(after, op.token)
    ensures LookupResultOf(Reached(before + [e] + after, digest).dir, op, digest) == Miss
  {
    EveryRunIsGood(before, digest);
    ExpiredIsDeleted(Reached(before, digest), e, digest, op.token);
    ReachedOneMore(before, e, digest);
    AbsentUntilReinserted(before + [e], after, digest, op.token);
  }
}
