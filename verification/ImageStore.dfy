/**
 The image capability store itself: it deletes and writes files in place, and
 every method performs exactly the script that the run model gives its operation.
 */
module ImageStore {
  import opened Prelude
  import opened ImageFiles
  import opened ImageRuns
  import opened ImageVerifier

  datatype Snapshot = Snapshot(
    entries: map<string, Metadata>,
    totalBytes: nat,
    expired: set<string>,
    corrupt: set<string>)

  datatype InsertResult =
    | TooLarge
    | UnsupportedMime
    | StillDrawing
    | PayloadNotWritten
    | MetadataNotWritten
    | Inserted(token: string)

  /** The stems a cleanup reports under one verdict. */
  ghost function Judged(d: Directory, now: int, verdict: Verdict): set<string> {
    set s | s in d.json && Judge(d, s, now) == verdict
  }

  /** One verdict entered into the snapshot. */
  function Record(snapshot: Snapshot, d: Directory, stem: string, now: int): Snapshot
    requires stem in d.json
  {
    match Judge(d, stem, now)
    case Keep =>
      var m := d.json[stem].metadata;
      snapshot.(entries := snapshot.entries[stem := m],
                totalBytes := SatAddU64(snapshot.totalBytes, m.byteLength))
    case Corrupt => snapshot.(corrupt := snapshot.corrupt + {stem})
    case Expired => snapshot.(expired := snapshot.expired + {stem})
    case Foreign => snapshot
  }

  function Recorded(d: Directory, order: seq<string>, now: int): Snapshot
    requires forall s :: s in order ==> s in d.json
  {
    if order == [] then Snapshot(map[], 0, {}, {})
    else Record(Recorded(d, order[..|order| - 1], now), d, order[|order| - 1], now)
  }

  lemma {:induction false} RecordedKeys(d: Directory, order: seq<string>, now: int)
    requires forall s :: s in order ==> s in d.json
    ensures var r := Recorded(d, order, now);
            && (forall s :: s in r.entries <==> s in order && Judge(d, s, now) == Keep)
            && (forall s :: s in r.entries ==> r.entries[s] == d.json[s].metadata)
            && (forall s :: s in r.expired <==> s in order && Judge(d, s, now) == Expired)
            && (forall s :: s in r.corrupt <==> s in order && Judge(d, s, now) == Corrupt)
  {
    if order != [] {
      var init, last := order[..|order| - 1], order[|order| - 1];
      assert order == init + [last];
      RecordedKeys(d, init, now);
    }
  }

  lemma Appended<T>(a: seq<T>, b: seq<T>, c: seq<T>)
    ensures (a + b) + c == a + (b + c)
  {
  }

  lemma OneMoreEntry(entries: map<string, Metadata>, total: nat, stem: string, m: Metadata)
    requires stem !in entries && total == IndexedBytes(entries)
    ensures SatAddU64(total, m.byteLength) == IndexedBytes(entries[stem := m])
  {
    SumInsert(Lengths(entries), stem, m.byteLength);
    assert Lengths(entries[stem := m]) == Lengths(entries)[stem := m.byteLength];
  }

  /** A saturating running sum over distinct entries is the saturated true sum. */
  lemma {:induction false} RecordedTotal(d: Directory, order: seq<string>, now: int)
    requires forall s :: s in order ==> s in d.json
    requires forall i, j :: 0 <= i < j < |order| ==> order[i] != order[j]
    ensures Recorded(d, order, now).totalBytes == IndexedBytes(Recorded(d, order, now).entries)
  {
    if order == [] {
      assert Lengths(Recorded(d, order, now).entries) == map[];
    } else {
      var init, last := order[..|order| - 1], order[|order| - 1];
      RecordedTotal(d, init, now);
      RecordedKeys(d, init, now);
      assert last !in init;
      var r := Recorded(d, init, now);
      if Judge(d, last, now) == Keep {
        OneMoreEntry(r.entries, r.totalBytes, last, d.json[last].metadata);
      }
    }
  }

  /** A complete listing records the live entries, their bytes, and every expired and corrupt token. */
  lemma RecordedAll(d: Directory, order: seq<string>, now: int)
    requires Lists(order, d.json.Keys)
    ensures var r := Recorded(d, order, now);
            && r.entries == LiveEntries(d, now)
            && r.totalBytes == IndexedBytes(r.entries)
            && r.expired == Judged(d, now, Expired)
            && r.corrupt == Judged(d, now, Corrupt)
  {
    RecordedKeys(d, order, now);
    RecordedTotal(d, order, now);
    var r := Recorded(d, order, now);
    assert r.entries == LiveEntries(d, now) by {
      KeptIsLive(d, now);
      assert forall s :: s in r.entries <==> s in LiveEntries(d, now);
    }
    assert r.expired == Judged(d, now, Expired);
    assert r.corrupt == Judged(d, now, Corrupt);
  }

  lemma KeptIsLive(d: Directory, now: int)
    ensures forall s :: s in d.json ==> (Judge(d, s, now) == Keep <==> s in LiveEntries(d, now))
  {
  }

  /** A stem not yet reached looks as it did at the start of the pass. */
  lemma UnreachedStem(d: Directory, order: seq<string>, i: nat, now: int, stuck: set<string>)
    requires Lists(order, d.json.Keys) && i < |order|
    ensures forall s :: s in order[..i] ==> s in d.json
    ensures var current := ApplyAll(d, FirstPass(d, order[..i], now, stuck));
            var stem := order[i];
            && stem in d.json && stem in current.json && current.json[stem] == d.json[stem]
            && (stem in current.bin <==> stem in d.bin)
            && Judge(current, stem, now) == Judge(d, stem, now)
  {
    FirstPassEffect(d, order[..i], now, stuck);
    assert order[i] !in order[..i];
    assert order[i] in d.json;
  }

  lemma OneMoreStem(d: Directory, order: seq<string>, i: nat, now: int, stuck: set<string>)
    requires (forall s :: s in order ==> s in d.json) && i < |order|
    ensures Recorded(d, order[..i + 1], now) == Record(Recorded(d, order[..i], now), d, order[i], now)
    ensures FirstPass(d, order[..i + 1], now, stuck)
         == FirstPass(d, order[..i], now, stuck) + Treatment(d, order[i], now, stuck)
  {
    assert order[..i + 1][..i] == order[..i];
  }

  /** One round of the first pass, seen from the directory it finds. */
  lemma ScanRound(
    origin: Directory, before: seq<Step>, d: Directory, order: seq<string>, i: nat, now: int, stuck: set<string>)
    requires d == ApplyAll(origin, before) && Lists(order, d.json.Keys) && i < |order|
    ensures forall s :: s in order[..i + 1] ==> s in d.json
    ensures var current := ApplyAll(origin, before + FirstPass(d, order[..i], now, stuck));
            && order[i] in current.json
            && Recorded(d, order[..i + 1], now) == Record(Recorded(d, order[..i], now), current, order[i], now)
            && before + FirstPass(d, order[..i + 1], now, stuck)
               == before + FirstPass(d, order[..i], now, stuck) + Treatment(current, order[i], now, stuck)
  {
    ApplyAllConcat(origin, before, FirstPass(d, order[..i], now, stuck));
    UnreachedStem(d, order, i, now, stuck);
    OneMoreStem(d, order, i, now, stuck);
    Appended(before, FirstPass(d, order[..i], now, stuck), Treatment(d, order[i], now, stuck));
  }

  /** The first drawn token that names no file. */
  function FirstFree(d: Directory, draws: seq<string>): (r: Option<string>)
    ensures r.Some? ==> r.value in draws && r.value !in d.json && r.value !in d.bin
    ensures r == None ==> forall t :: t in draws ==> t in d.json || t in d.bin
  {
    if draws == [] then None
    else if draws[0] !in d.json && draws[0] !in d.bin then Some(draws[0])
    else FirstFree(d, draws[1..])
  }

  /** The drawn token that is taken comes after draws that all name files. */
  lemma {:induction false} FirstFreeIsFirst(d: Directory, draws: seq<string>) returns (i: nat)
    requires FirstFree(d, draws).Some?
    ensures i < |draws| && FirstFree(d, draws) == Some(draws[i])
    ensures forall j :: 0 <= j < i ==> draws[j] in d.json || draws[j] in d.bin
  {
    if draws[0] !in d.json && draws[0] !in d.bin {
      i := 0;
    } else {
      i := FirstFreeIsFirst(d, draws[1..]);
      i := i + 1;
    }
  }

  function MetadataSteps(token: string, m: Metadata, outcome: WriteOutcome): seq<Step> {
    match outcome
    case Written => [WriteJson(token, m)]
    case FailedEarly => [RemoveBin(token)]
    case FailedLate => [WriteJson(token, m), RemoveBin(token)]
  }

  lemma WriteScriptParts(op: Operation, digest: Digest)
    requires op.Insert? && op.payloadWrite == Written
    ensures WriteScript(op, digest)
         == [WriteBin(op.token, op.data)]
            + MetadataSteps(op.token, NewMetadata(op.data, op.mime, op.now, digest), op.metadataWrite)
  {
  }

  lemma NonemptyWhenFull(index: map<string, Metadata>, total: nat, length: nat)
    requires NeedsRoom(|index|, total, length) && length <= MAX_TOTAL_BYTES
    requires total <= Sum(Lengths(index))
    ensures index != map[]
  {
    assert |index| == 0 ==> index == map[] && Lengths(index) == map[];
  }

  /** One turn of the eviction loop moves one victim from what is to come to what is gone. */
  lemma EvictionStep(gone: seq<string>, index: map<string, Metadata>, total: nat, length: nat, oldest: string)
    requires NeedsRoom(|index|, total, length) && IsOldest(index, oldest)
    requires total <= Sum(Lengths(index))
    ensures var less := SatSub(total, index[oldest].byteLength);
            && gone + Victims(index, total, length) == (gone + [oldest]) + Victims(index - {oldest}, less, length)
            && less <= Sum(Lengths(index - {oldest}))
    ensures RemovePairs(gone + [oldest]) == RemovePairs(gone) + RemovePair(oldest)
    ensures |index - {oldest}| < |index|
  {
    OldestUnique(index, oldest, Oldest(index));
    DropKey(index, oldest);
    assert (gone + [oldest])[..|gone|] == gone;
    Appended(gone, [oldest], Victims(index - {oldest}, SatSub(total, index[oldest].byteLength), length));
  }

  /** The entry that is oldest by creation time, then token. */
  method FindOldest(entries: map<string, Metadata>) returns (oldest: string)
    requires entries != map[]
    ensures IsOldest(entries, oldest)
  {
    var left := entries.Keys;
    oldest :| oldest in left;
    left := left - {oldest};
    while left != {}
      invariant oldest in entries && oldest !in left && left <= entries.Keys
      invariant forall u :: u in entries && u != oldest && u !in left ==> Older(oldest, entries[oldest], u, entries[u])
      decreases |left|
    {
      var t :| t in left;
      left := left - {t};
      StringLessTotal(t, oldest);
      if Older(t, entries[t], oldest, entries[oldest]) {
        forall u | u in entries && u != t && u !in left
          ensures Older(t, entries[t], u, entries[u])
        {
          if u != oldest {
            OlderTransitive(t, entries[t], oldest, entries[oldest], u, entries[u]);
          }
        }
        oldest := t;
      }
    }
  }

  /**
   The store on its directory. `steps` is every file step taken since `origin`, so
   each `steps[..k]` is a directory some crash could leave.
   */
  class ImageCapabilityStore {
    var json: map<string, JsonFile>
    var bin: map<string, Bytes>
    ghost var origin: Directory
    ghost var steps: seq<Step>

    ghost function Dir(): Directory
      reads this
    {
      Directory(json, bin)
    }

    ghost predicate Valid()
      reads this
    {
      Dir() == ApplyAll(origin, steps)
    }

    constructor (dir: Directory)
      ensures Valid() && Dir() == dir && origin == dir && steps == []
    {
      json, bin := dir.json, dir.bin;
      origin, steps := dir, [];
    }

    method RemoveMetadataFile(stem: string)
      requires Valid()
      modifies `json, `steps
      ensures Valid() && steps == old(steps) + [RemoveJson(stem)]
      ensures json == old(json) - {stem}
    {
      assert (steps + [RemoveJson(stem)])[..|steps|] == steps;
      json := json - {stem};
      steps := steps + [RemoveJson(stem)];
    }

    method RemovePayloadFile(stem: string)
      requires Valid()
      modifies `bin, `steps
      ensures Valid() && steps == old(steps) + [RemoveBin(stem)]
      ensures bin == old(bin) - {stem}
    {
      assert (steps + [RemoveBin(stem)])[..|steps|] == steps;
      bin := bin - {stem};
      steps := steps + [RemoveBin(stem)];
    }

    method WritePayloadFile(stem: string, data: Bytes)
      requires Valid()
      modifies `bin, `steps
      ensures Valid() && steps == old(steps) + [WriteBin(stem, data)]
      ensures bin == old(bin)[stem := data]
    {
      assert (steps + [WriteBin(stem, data)])[..|steps|] == steps;
      bin := bin[stem := data];
      steps := steps + [WriteBin(stem, data)];
    }

    method WriteMetadataFile(stem: string, m: Metadata)
      requires Valid()
      modifies `json, `steps
      ensures Valid() && steps == old(steps) + [WriteJson(stem, m)]
      ensures json == old(json)[stem := Parsed(m)]
    {
      assert (steps + [WriteJson(stem, m)])[..|steps|] == steps;
      json := json[stem := Parsed(m)];
      steps := steps + [WriteJson(stem, m)];
    }

    method RemovePairLocked(token: string)
      requires Valid()
      modifies `json, `bin, `steps
      ensures Valid() && steps == old(steps) + RemovePair(token)
      ensures json == old(json) - {token} && bin == old(bin) - {token}
    {
      RemoveMetadataFile(token);
      RemovePayloadFile(token);
    }

    /** Judges one `.json` file, deletes what the verdict asks for, and records it. */
    method HandleMetadata(stem: string, now: int, stuck: set<string>, before: Snapshot) returns (after: Snapshot)
      requires Valid() && stem in json
      modifies `json, `bin, `steps
      ensures Valid() && steps == old(steps) + Treatment(old(Dir()), stem, now, stuck)
      ensures after == Record(before, old(Dir()), stem, now)
    {
      after := before;
      if !ValidToken(stem) {
        if stem !in stuck {
          RemoveMetadataFile(stem);
        }
      } else if json[stem].Unreadable? || !ValidMetadata(json[stem].metadata) {
        RemovePairLocked(stem);
        after := after.(corrupt := after.corrupt + {stem});
      } else if json[stem].metadata.expiresAtMs <= now {
        RemovePairLocked(stem);
        after := after.(expired := after.expired + {stem});
      } else if stem !in bin {
        RemovePairLocked(stem);
        after := after.(corrupt := after.corrupt + {stem});
      } else {
        var m := json[stem].metadata;
        after := after.(entries := after.entries[stem := m],
                        totalBytes := SatAddU64(after.totalBytes, m.byteLength));
      }
    }

    /** First pass: every `.json` file in listing order. */
    method ScanMetadata(now: int, order: seq<string>, stuck: set<string>) returns (snapshot: Snapshot)
      requires Valid() && Lists(order, json.Keys)
      modifies `json, `bin, `steps
      ensures Valid() && steps == old(steps) + FirstPass(old(Dir()), order, now, stuck)
      ensures snapshot == Recorded(old(Dir()), order, now)
    {
      ghost var d := Dir();
      snapshot := Snapshot(map[], 0, {}, {});
      for i := 0 to |order|
        invariant Valid()
        invariant forall s :: s in order[..i] ==> s in d.json
        invariant snapshot == Recorded(d, order[..i], now)
        invariant steps == old(steps) + FirstPass(d, order[..i], now, stuck)
      {
        ScanRound(origin, old(steps), d, order, i, now, stuck);
        snapshot := HandleMetadata(order[i], now, stuck, snapshot);
      }
      assert order[..|order|] == order;
    }

    /** Second pass: deletes payloads that had no metadata file. */
    method ScanPayloads(binOrder: seq<string>, tokens: set<string>)
      requires Valid()
      modifies `bin, `steps
      ensures Valid() && steps == old(steps) + SecondPass(binOrder, tokens)
    {
      for i := 0 to |binOrder|
        invariant Valid()
        invariant steps == old(steps) + SecondPass(binOrder[..i], tokens)
      {
        assert binOrder[..i + 1][..i] == binOrder[..i];
        if !ValidToken(binOrder[i]) || binOrder[i] !in tokens {
          RemovePayloadFile(binOrder[i]);
        }
      }
      assert binOrder[..|binOrder|] == binOrder;
    }

    /**
     For every directory and every listing order: the files left and the index
     returned are exactly the valid, unexpired, complete pairs, and the byte count
     is their sum.
     */
    method CleanupLocked(now: int, scan: Scan) returns (snapshot: Snapshot)
      requires Valid() && ScanOf(Dir(), now, scan)
      modifies `json, `bin, `steps
      ensures Valid() && steps == old(steps) + CleanupScript(old(Dir()), now, scan)
      ensures Dir() == Cleaned(old(Dir()), now, scan.stuck)
      ensures snapshot.entries == LiveEntries(old(Dir()), now)
      ensures snapshot.totalBytes == IndexedBytes(snapshot.entries)
      ensures snapshot.expired == Judged(old(Dir()), now, Expired)
      ensures snapshot.corrupt == Judged(old(Dir()), now, Corrupt)
    {
      ghost var d := Dir();
      RecordedAll(d, scan.jsonOrder, now);
      CleanupEffect(d, now, scan);
      ApplyAllConcat(origin, steps, CleanupScript(d, now, scan));
      Appended(steps, FirstPass(d, scan.jsonOrder, now, scan.stuck), SecondPass(scan.binOrder, MetadataTokens(d)));
      var tokens := set s | s in json && ValidToken(s);
      snapshot := ScanMetadata(now, scan.jsonOrder, scan.stuck);
      ScanPayloads(scan.binOrder, tokens);
    }

    /** The eviction loop of an insert, on the index a cleanup returned. */
    method EvictForRoom(entries: map<string, Metadata>, totalBytes: nat, length: nat)
      requires Valid() && length <= MAX_TOTAL_BYTES && totalBytes == IndexedBytes(entries)
      modifies `json, `bin, `steps
      ensures Valid() && steps == old(steps) + RemovePairs(Victims(entries, totalBytes, length))
    {
      ghost var gone: seq<string> := [];
      var index := entries;
      var total: nat := totalBytes;
      while |index| >= MAX_ENTRIES || SatAddU64(total, length) > MAX_TOTAL_BYTES
        invariant Valid()
        invariant total <= Sum(Lengths(index))
        invariant gone + Victims(index, total, length) == Victims(entries, totalBytes, length)
        invariant steps == old(steps) + RemovePairs(gone)
        decreases |index|
      {
        NonemptyWhenFull(index, total, length);
        var oldest := FindOldest(index);
        EvictionStep(gone, index, total, length, oldest);
        Appended(old(steps), RemovePairs(gone), RemovePair(oldest));
        RemovePairLocked(oldest);
        gone := gone + [oldest];
        index, total := index - {oldest}, SatSub(total, index[oldest].byteLength);
      }
      assert gone + [] == gone;
    }

    /** Takes the first drawn token that names no file. */
    method DrawToken(draws: seq<string>) returns (token: Option<string>)
      requires Valid()
      ensures token == FirstFree(Dir(), draws)
    {
      for i := 0 to |draws|
        invariant FirstFree(Dir(), draws) == FirstFree(Dir(), draws[i..])
      {
        if draws[i] !in json && draws[i] !in bin {
          return Some(draws[i]);
        }
        assert draws[i..][1..] == draws[i + 1..];
      }
      return None;
    }

    /**
     Stores an image under the first of `draws` that is unused once room has been made.
     `payloadWrite` and `metadataWrite` are how the two file writes end.
     */
    method InsertAt<S(!new)>(
        h: Hasher<S>, data: Bytes, mime: string, now: int, draws: seq<string>,
        payloadWrite: WriteOutcome, metadataWrite: WriteOutcome, scan: Scan)
      returns (result: InsertResult, ghost op: Operation)
      requires Valid() && ScanOf(Dir(), now, scan)
      requires forall t :: t in draws ==> ValidToken(t)
      modifies `json, `bin, `steps
      ensures Valid()
      ensures op.Insert? && op == Insert(data, mime, now, op.token, payloadWrite, metadataWrite)
      ensures result.StillDrawing? ==> steps == old(steps) + MakeRoomScript(old(Dir()), |data|, now, scan)
      ensures !result.StillDrawing? ==> steps == old(steps) + Script(old(Dir()), op, scan, DigestOf(h))
      ensures result.Inserted? || result.PayloadNotWritten? || result.MetadataNotWritten? ==>
                FreshToken(old(Dir()), op, scan)
      ensures result.StillDrawing? ==>
                FirstFree(ApplyAll(old(Dir()), MakeRoomScript(old(Dir()), |data|, now, scan)), draws) == None
      ensures !result.StillDrawing? ==>
                result == if |data| > MAX_TOTAL_BYTES then TooLarge
                          else if !ValidMime(mime) then UnsupportedMime
                          else if payloadWrite != Written then PayloadNotWritten
                          else if metadataWrite != Written then MetadataNotWritten
                          else Inserted(op.token)
      ensures result.TooLarge? <==> |data| > 268_435_456
      ensures result.UnsupportedMime? <==>
                |data| <= 268_435_456 && mime !in {"image/png", "image/jpeg", "image/webp"}
      ensures result.TooLarge? || result.UnsupportedMime? ==> steps == old(steps)
    {
      op := Insert(data, mime, now, "", payloadWrite, metadataWrite);
      if |data| > MAX_TOTAL_BYTES {
        return TooLarge, op;
      }
      if !ValidMime(mime) {
        return UnsupportedMime, op;
      }
      ghost var d := Dir();
      MakeRoom(|data|, now, scan);
      ApplyAllConcat(origin, old(steps), MakeRoomScript(d, |data|, now, scan));
      var token := DrawToken(draws);
      if token == None {
        return StillDrawing, op;
      }
      op := Insert(data, mime, now, token.value, payloadWrite, metadataWrite);
      Appended(old(steps), MakeRoomScript(d, |data|, now, scan), WriteScript(op, DigestOf(h)));
      result := WriteNew(h, data, mime, now, token.value, payloadWrite, metadataWrite);
    }

    /** Cleanup, then eviction. */
    method MakeRoom(length: nat, now: int, scan: Scan)
      requires Valid() && ScanOf(Dir(), now, scan) && length <= MAX_TOTAL_BYTES
      modifies `json, `bin, `steps
      ensures Valid() && steps == old(steps) + MakeRoomScript(old(Dir()), length, now, scan)
    {
      ghost var d := Dir();
      var snapshot := CleanupLocked(now, scan);
      EvictForRoom(snapshot.entries, snapshot.totalBytes, length);
      Appended(old(steps), CleanupScript(d, now, scan),
               RemovePairs(Victims(snapshot.entries, snapshot.totalBytes, length)));
    }

    /** The write sequence of an insert, payload first, with the roll-back after a failed metadata write. */
    method WriteNew<S(!new)>(
        h: Hasher<S>, data: Bytes, mime: string, now: int, token: string,
        payloadWrite: WriteOutcome, metadataWrite: WriteOutcome)
      returns (result: InsertResult)
      requires Valid()
      modifies `json, `bin, `steps
      ensures Valid()
      ensures var op := Insert(data, mime, now, token, payloadWrite, metadataWrite);
              steps == old(steps) + WriteScript(op, DigestOf(h))
      ensures result == if payloadWrite != Written then PayloadNotWritten
                        else if metadataWrite != Written then MetadataNotWritten
                        else Inserted(token)
    {
      var metadata := Metadata(SCHEMA_VERSION, mime, |data|, h.finish(Update(h, h.init, data)),
                               now, SatAddI64(now, TTL_MS));
      if payloadWrite != FailedEarly {
        WritePayloadFile(token, data);
      }
      if payloadWrite != Written {
        return PayloadNotWritten;
      }
      ghost var op := Insert(data, mime, now, token, payloadWrite, metadataWrite);
      WriteScriptParts(op, DigestOf(h));
      Appended(old(steps), [WriteBin(token, data)], MetadataSteps(token, metadata, metadataWrite));
      WriteMetadata(token, metadata, metadataWrite);
      result := if metadataWrite == Written then Inserted(token) else MetadataNotWritten;
    }

    /** The metadata write, with the roll-back of the payload when it fails. */
    method WriteMetadata(token: string, metadata: Metadata, metadataWrite: WriteOutcome)
      requires Valid()
      modifies `json, `bin, `steps
      ensures Valid() && steps == old(steps) + MetadataSteps(token, metadata, metadataWrite)
    {
      if metadataWrite != FailedEarly {
        WriteMetadataFile(token, metadata);
      }
      if metadataWrite != Written {
        RemovePayloadFile(token);
      }
    }

    /**
     Looks an image up: cleanup, index, verification. It answers what the run model
     says a lookup answers, and a refusal for lack of memory deletes nothing.
     */
    method GetAtMode<S(!new)>(
        h: Hasher<S>, token: string, now: int, mode: Mode, scan: Scan,
        parent: ResidentMemory, overhead: nat, spare: nat, allocates: bool)
      returns (result: LookupResult, ghost memory: bool)
      requires Valid() && ScanOf(Dir(), now, scan) && Incremental(h)
      modifies `json, `bin, `steps, parent`used, parent`highWater
      ensures Valid()
      ensures Live(old(Dir()), token, now) ==>
                memory == MemoryAvailable(parent.limit, old(parent.used), mode,
                                          old(json)[token].metadata.byteLength, overhead, spare, allocates)
      ensures result == LookupResultOf(old(Dir()), Lookup(token, now, mode, memory), DigestOf(h))
      ensures steps == old(steps) + Script(old(Dir()), Lookup(token, now, mode, memory), scan, DigestOf(h))
    {
      memory := true;
      if !ValidToken(token) {
        return Miss, memory;
      }
      ghost var d := Dir();
      Appended(steps, CleanupScript(d, now, scan), []);
      var snapshot := CleanupLocked(now, scan);
      if token !in snapshot.entries {
        return Miss, memory;
      }
      var m := snapshot.entries[token];
      Appended(old(steps), CleanupScript(d, now, scan), RemovePair(token));
      result, memory := Serve(h, token, m, mode, parent, overhead, spare, allocates);
    }

    /** Serves an indexed entry, or removes its pair when the payload does not match the metadata. */
    method Serve<S(!new)>(
        h: Hasher<S>, token: string, m: Metadata, mode: Mode,
        parent: ResidentMemory, overhead: nat, spare: nat, allocates: bool)
      returns (result: LookupResult, ghost memory: bool)
      requires Valid() && token in bin && Incremental(h)
      modifies `json, `bin, `steps, parent`used, parent`highWater
      ensures Valid()
      ensures memory == MemoryAvailable(parent.limit, old(parent.used), mode, m.byteLength, overhead, spare, allocates)
      ensures var verdict := Verify(m, old(bin)[token], memory, DigestOf(h));
              && result == (match verdict
                            case Rejected => Miss
                            case NoMemory => OutOfMemory
                            case Accepted =>
                              Hit(if mode == Head then [] else old(bin)[token], m.mimeType, m.byteLength))
              && steps == old(steps) + if verdict == Rejected then RemovePair(token) else []
    {
      memory := MemoryAvailable(parent.limit, parent.used, mode, m.byteLength, overhead, spare, allocates);
      var file := PayloadFile(|bin[token]|, bin[token]);
      var payload := ReadVerifiedPayload(h, m, Some(file), mode, parent, overhead, spare, allocates);
      assert steps + [] == steps;
      match payload
      case Discard =>
        RemovePairLocked(token);
        result := Miss;
      case NoCapacity =>
        result := OutOfMemory;
      case Verified(data) =>
        result := Hit(data, m.mimeType, m.byteLength);
    }
  }
}
