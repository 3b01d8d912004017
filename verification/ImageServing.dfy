/**
 What the image store promises to those who use it, in plain numbers: an inserted
 image is served for an hour and no longer, nothing else is, and the store never
 holds more than 128 files of 256 MiB.
 */
module ImageServing {
  import opened Prelude
  import opened Text
  import opened ImageFiles
  import opened ImageRuns

  // ----------------------------------------------------------------- plain terms

  /** 64 hexadecimal digits of either case. */
  predicate Hex64Plain(s: string) {
    |s| == 64 && forall i :: 0 <= i < 64 ==> s[i] in "0123456789abcdefABCDEF"
  }

  lemma Hex64Exactly(s: string)
    ensures Hex64(s) <==> Hex64Plain(s)
  {
    forall c: char ensures HexDigit(c) <==> c in "0123456789abcdefABCDEF" {
      HexDigitExactly(c);
    }
  }

  lemma HexDigitExactly(c: char)
    ensures HexDigit(c) <==> c in "0123456789abcdefABCDEF"
  {
    if '0' <= c <= '9' {
      assert "0123456789abcdefABCDEF"[c as int - '0' as int] == c;
    } else if 'a' <= c <= 'f' {
      assert "0123456789abcdefABCDEF"[10 + (c as int - 'a' as int)] == c;
    } else if 'A' <= c <= 'F' {
      assert "0123456789abcdefABCDEF"[16 + (c as int - 'A' as int)] == c;
    }
  }

  /** A metadata file that parses, of this version, with sane fields, and not expired at `now`. */
  predicate Readable(j: JsonFile, now: int) {
    && j.Parsed? && j.metadata.schemaVersion == 1 && j.metadata.byteLength <= 268_435_456
    && j.metadata.createdAtMs < j.metadata.expiresAtMs && now < j.metadata.expiresAtMs
    && Hex64Plain(j.metadata.sha256) && j.metadata.mimeType in {"image/png", "image/jpeg", "image/webp"}
  }

  lemma LiveExactly(d: Directory, t: string, now: int)
    ensures Live(d, t, now) <==> Hex64Plain(t) && t in d.json && t in d.bin && Readable(d.json[t], now)
  {
    Hex64Exactly(t);
    if t in d.json && d.json[t].Parsed? {
      Hex64Exactly(d.json[t].metadata.sha256);
    }
  }

  /** What a cleanup keeps of the files with a valid name, field by field. */
  lemma CleanupKeepsExactly(d: Directory, now: int, scan: Scan, t: string)
    requires ScanOf(d, now, scan)
    ensures var after := ApplyAll(d, CleanupScript(d, now, scan));
            && (t in after.bin <==> Hex64Plain(t) && t in d.json && t in d.bin && Readable(d.json[t], now))
            && (Hex64Plain(t) ==> (t in after.json <==> t in after.bin))
            && (t in after.bin ==> after.bin[t] == d.bin[t] && t in after.json && after.json[t] == d.json[t])
  {
    CleanupEffect(d, now, scan);
    LiveExactly(d, t, now);
    Hex64Exactly(t);
  }

  /** Whatever the directory holds, a lookup serves exactly the payloads of the recorded length and hash. */
  lemma HitExactly(d: Directory, t: string, now: int, mode: Mode, digest: Digest, r: LookupResult)
    ensures LookupResultOf(d, Lookup(t, now, mode, true), digest) == r && r.Hit? <==>
            && Hex64Plain(t) && t in d.json && t in d.bin && Readable(d.json[t], now)
            && |d.bin[t]| == d.json[t].metadata.byteLength && digest(d.bin[t]) == d.json[t].metadata.sha256
            && r == Hit(if mode == Head then [] else d.bin[t], d.json[t].metadata.mimeType, |d.bin[t]|)
  {
    LiveExactly(d, t, now);
  }

  /** At every file step of every run: at most 128 payload files of at most 256 MiB in all. */
  lemma EveryRunIsBounded(run: seq<Event>, digest: Digest)
    ensures |Reached(run, digest).dir.bin| <= 128 && Sum(Sizes(Reached(run, digest).dir.bin)) <= 268_435_456
  {
    EveryRunIsGood(run, digest);
  }

  /** What an eviction removes: oldest first, no more than it must, until fewer than 128 are left and the bytes fit. */
  lemma EvictionInNumbers(entries: map<string, Metadata>, length: nat)
    requires length <= 268_435_456
    ensures var v := Victims(entries, Sum(Lengths(entries)), length);
            var left := Without(entries, v);
            && |left| < 128 && Sum(Lengths(left)) + length <= 268_435_456
            && (forall k :: 0 <= k < |v| ==>
                  var more := Without(entries, v[..k]);
                  |more| >= 128 || Sum(Lengths(more)) + length > 268_435_456)
            && (forall i, j :: 0 <= i < j < |v| ==>
                  v[i] in entries && v[j] in entries && ComesBefore(entries, v[i], v[j]))
            && (forall a, b :: a in v && a in entries && b in left ==> ComesBefore(entries, a, b))
  {
    var v := Victims(entries, Sum(Lengths(entries)), length);
    EvictionIsShortestPrefix(entries, length);
    RoomInNumbers(Without(entries, v), length);
    forall k | 0 <= k < |v|
      ensures var more := Without(entries, v[..k]);
              |more| >= 128 || Sum(Lengths(more)) + length > 268_435_456
    {
      RoomInNumbers(Without(entries, v[..k]), length);
    }
    OldestGoFirst(entries, v);
  }

  lemma RoomInNumbers(entries: map<string, Metadata>, length: nat)
    requires length <= 268_435_456
    ensures HasRoom(entries, length) <==> |entries| < 128 && Sum(Lengths(entries)) + length <= 268_435_456
  {
  }

  lemma OldestGoFirst(entries: map<string, Metadata>, v: seq<string>)
    requires Ascending(entries, v) && OthersNewer(entries, v)
    ensures forall i, j :: 0 <= i < j < |v| ==>
              v[i] in entries && v[j] in entries && ComesBefore(entries, v[i], v[j])
    ensures forall a, b :: a in v && a in entries && b in Without(entries, v) ==> ComesBefore(entries, a, b)
  {
    forall a, b | a in v && a in entries && b in Without(entries, v) ensures ComesBefore(entries, a, b) {
      assert b in entries && b !in v;
    }
  }

  /** Created earlier, or at the same time with the smaller token. */
  predicate ComesBefore(entries: map<string, Metadata>, a: string, b: string)
    requires a in entries && b in entries
  {
    || entries[a].createdAtMs < entries[b].createdAtMs
    || (entries[a].createdAtMs == entries[b].createdAtMs && StringLess(a, b))
  }

  // ------------------------------------------------------------- steps that spare a token

  predicate Untouched(steps: seq<Step>, t: string) { forall i :: 0 <= i < |steps| ==> steps[i].stem != t }

  lemma UntouchedConcat(a: seq<Step>, b: seq<Step>, t: string)
    requires Untouched(a, t) && Untouched(b, t)
    ensures Untouched(a + b, t)
  {
  }

  lemma {:induction false} UntouchedKeeps(d: Directory, steps: seq<Step>, t: string)
    requires Untouched(steps, t)
    ensures var after := ApplyAll(d, steps);
            && (t in after.json <==> t in d.json) && (t in after.bin <==> t in d.bin)
            && (t in d.json ==> after.json[t] == d.json[t]) && (t in d.bin ==> after.bin[t] == d.bin[t])
  {
    if steps != [] {
      UntouchedKeeps(d, steps[..|steps| - 1], t);
    }
  }

  lemma {:induction false} FirstPassSpares(d: Directory, order: seq<string>, now: int, stuck: set<string>, t: string)
    requires forall s :: s in order ==> s in d.json
    requires Live(d, t, now)
    ensures Untouched(FirstPass(d, order, now, stuck), t)
  {
    if order != [] {
      var init, last := order[..|order| - 1], order[|order| - 1];
      FirstPassSpares(d, init, now, stuck, t);
      UntouchedConcat(FirstPass(d, init, now, stuck), Treatment(d, last, now, stuck), t);
    }
  }

  lemma {:induction false} SecondPassSpares(order: seq<string>, tokens: set<string>, t: string)
    requires ValidToken(t) && t in tokens
    ensures Untouched(SecondPass(order, tokens), t)
  {
    if order != [] {
      SecondPassSpares(order[..|order| - 1], tokens, t);
    }
  }

  lemma CleanupSpares(d: Directory, now: int, scan: Scan, t: string)
    requires ScanOf(d, now, scan) && Live(d, t, now)
    ensures Untouched(CleanupScript(d, now, scan), t)
  {
    FirstPassSpares(d, scan.jsonOrder, now, scan.stuck, t);
    SecondPassSpares(scan.binOrder, MetadataTokens(d), t);
    UntouchedConcat(FirstPass(d, scan.jsonOrder, now, scan.stuck), SecondPass(scan.binOrder, MetadataTokens(d)), t);
  }

  lemma {:induction false} RemovePairsSpares(tokens: seq<string>, t: string)
    requires t !in tokens
    ensures Untouched(RemovePairs(tokens), t)
  {
    if tokens != [] {
      var init, last := tokens[..|tokens| - 1], tokens[|tokens| - 1];
      assert last in tokens && forall u :: u in init ==> u in tokens;
      RemovePairsSpares(init, t);
      UntouchedConcat(RemovePairs(init), RemovePair(last), t);
    }
  }

  // ---------------------------------------------------------------- an inserted image

  /** The pair of an image inserted at `now`, as it lies in the directory. */
  predicate Held(d: Directory, t: string, image: Image, now: int, digest: Digest) {
    && t in d.bin && d.bin[t] == image.data && t in d.json
    && d.json[t] == Parsed(Metadata(1, image.mime, |image.data|, digest(image.data), now, ExpiresAt(now)))
  }

  /** One hour later, within the width of a time. */
  function ExpiresAt(now: int): int { Min(now + 3_600_000, 0x7FFF_FFFF_FFFF_FFFF) }

  /** What an insert accepts: an image type, at most 256 MiB, and a hash as SHA-256 is written. */
  predicate Acceptable(t: string, image: Image, now: int, digest: Digest) {
    && Hex64Plain(t) && |image.data| <= 268_435_456 && image.mime in {"image/png", "image/jpeg", "image/webp"}
    && -0x8000_0000_0000_0000 <= now < 0x7FFF_FFFF_FFFF_FFFF && Hex64Plain(digest(image.data))
  }

  /** The event inserts the image at `now` under `t`: both files are written, and no step is missing. */
  ghost predicate InsertsWhole(w: World, e: Event, t: string, image: Image, now: int, digest: Digest) {
    && e.op == Insert(image.data, image.mime, now, t, Written, Written)
    && Legal(w, e, digest) && e.cut == |Script(w.dir, e.op, e.scan, digest)|
  }

  lemma {:induction false} InsertedIsHeld(w: World, e: Event, t: string, image: Image, now: int, digest: Digest)
    requires InsertsWhole(w, e, t, image, now, digest) && Acceptable(t, image, now, digest)
    ensures Held(Next(w, e, digest).dir, t, image, now, digest)
  {
    var room := MakeRoomScript(w.dir, |image.data|, now, e.scan);
    assert |WriteScript(e.op, digest)| == 2;
    WrittenAfterRoom(w, e, digest);
    WriteEffect(ApplyAll(w.dir, room), e.op, 2, digest);
    assert WriteScript(e.op, digest)[..2] == WriteScript(e.op, digest);
  }

  /** An insert that is too large or of another type does nothing at all; any other makes room and writes both files. */
  lemma RefusedExactly(d: Directory, op: Operation, scan: Scan, digest: Digest)
    requires op.Insert? && ScanOf(d, op.now, scan)
    ensures Script(d, op, scan, digest)
         == if |op.data| <= 268_435_456 && op.mime in {"image/png", "image/jpeg", "image/webp"}
            then MakeRoomScript(d, |op.data|, op.now, scan) + WriteScript(op, digest) else []
  {
  }

  /** The undisturbed insert of the image. */
  ghost function WholeInsert(w: World, t: string, image: Image, now: int, scan: Scan, digest: Digest): Event
    requires ScanOf(w.dir, now, scan)
  {
    var op := Insert(image.data, image.mime, now, t, Written, Written);
    Event(op, scan, |Script(w.dir, op, scan, digest)|)
  }

  /** In every world, however full, every acceptable image can be inserted whole under every token without files. */
  lemma {:induction false} AnyImageIsInserted(
    w: World, t: string, image: Image, now: int, scan: Scan, digest: Digest)
    requires Acceptable(t, image, now, digest) && ScanOf(w.dir, now, scan)
    requires t !in w.dir.json && t !in w.dir.bin
    ensures var e := WholeInsert(w, t, image, now, scan, digest);
            InsertsWhole(w, e, t, image, now, digest) && Held(Next(w, e, digest).dir, t, image, now, digest)
  {
    var room := MakeRoomScript(w.dir, |image.data|, now, scan);
    Hex64Exactly(t);
    MakeRoomDeletes(w.dir, |image.data|, now, scan);
    DeletingShrinks(w.dir, room);
    InsertedIsHeld(w, WholeInsert(w, t, image, now, scan, digest), t, image, now, digest);
  }

  lemma HeldIsLive(d: Directory, t: string, image: Image, now: int, at: int, digest: Digest)
    requires Held(d, t, image, now, digest) && Acceptable(t, image, now, digest)
    ensures Live(d, t, at) <==> at < ExpiresAt(now)
  {
    LiveExactly(d, t, at);
  }

  /** A held image is looked up with its bytes, type and length for an hour, and not at all from then on. */
  lemma HeldIsServedExactly(
    d: Directory, t: string, image: Image, now: int, at: int, mode: Mode, memory: bool, digest: Digest)
    requires Held(d, t, image, now, digest) && Acceptable(t, image, now, digest)
    ensures LookupResultOf(d, Lookup(t, at, mode, memory), digest)
         == if at >= ExpiresAt(now) then Miss
            else if !memory then OutOfMemory
            else Hit(if mode == Head then [] else image.data, image.mime, |image.data|)
  {
    HeldIsLive(d, t, image, now, at, digest);
  }

  // ------------------------------------------------------------- events that leave it alone

  /** The tokens an insert evicts, when it runs on this directory. */
  ghost function Evicted(d: Directory, op: Operation): seq<string>
    requires op.Insert?
  {
    if !Insertable(op.data, op.mime) then []
    else
      var entries := LiveEntries(d, op.now);
      Victims(entries, IndexedBytes(entries), |op.data|)
  }

  /** The event's clock has not come to the image's expiry, and it does not evict its token. */
  ghost predicate Spares(w: World, e: Event, t: string, now: int) {
    e.op.now < ExpiresAt(now) && (e.op.Insert? ==> t !in Evicted(w.dir, e.op))
  }

  lemma {:induction false} RoomSpares(w: World, e: Event, t: string, image: Image, now: int, digest: Digest)
    requires Held(w.dir, t, image, now, digest) && Acceptable(t, image, now, digest)
    requires Legal(w, e, digest) && Spares(w, e, t, now) && e.op.Insert? && Insertable(e.op.data, e.op.mime)
    ensures Untouched(MakeRoomScript(w.dir, |e.op.data|, e.op.now, e.scan), t)
  {
    HeldIsLive(w.dir, t, image, now, e.op.now, digest);
    CleanupSpares(w.dir, e.op.now, e.scan, t);
    RemovePairsSpares(Evicted(w.dir, e.op), t);
    UntouchedConcat(CleanupScript(w.dir, e.op.now, e.scan), RemovePairs(Evicted(w.dir, e.op)), t);
  }

  lemma {:induction false} InsertSpares(w: World, e: Event, t: string, image: Image, now: int, digest: Digest)
    requires Held(w.dir, t, image, now, digest) && Acceptable(t, image, now, digest)
    requires Legal(w, e, digest) && Spares(w, e, t, now) && e.op.Insert? && Insertable(e.op.data, e.op.mime)
    ensures Untouched(Script(w.dir, e.op, e.scan, digest), t)
  {
    var room := MakeRoomScript(w.dir, |e.op.data|, e.op.now, e.scan);
    RoomSpares(w, e, t, image, now, digest);
    UntouchedKeeps(w.dir, room, t);
    FreshIsAnother(w.dir, e.op, e.scan, t);
    WritesSpare(e.op, t, digest);
    UntouchedConcat(room, WriteScript(e.op, digest), t);
  }

  lemma FreshIsAnother(d: Directory, op: Operation, scan: Scan, t: string)
    requires op.Insert? && ScanOf(d, op.now, scan) && FreshToken(d, op, scan)
    requires t in ApplyAll(d, MakeRoomScript(d, |op.data|, op.now, scan)).json
    ensures op.token != t
  {
  }

  lemma WritesSpare(op: Operation, t: string, digest: Digest)
    requires op.Insert? && op.token != t
    ensures Untouched(WriteScript(op, digest), t)
  {
  }

  lemma {:induction false} LookupSpares(w: World, e: Event, t: string, image: Image, now: int, digest: Digest)
    requires Held(w.dir, t, image, now, digest) && Acceptable(t, image, now, digest)
    requires Legal(w, e, digest) && Spares(w, e, t, now) && e.op.Lookup? && ValidToken(e.op.token)
    ensures Untouched(Script(w.dir, e.op, e.scan, digest), t)
  {
    HeldIsLive(w.dir, t, image, now, e.op.now, digest);
    CleanupSpares(w.dir, e.op.now, e.scan, t);
    var discarded := Discarded(w.dir, e.op, digest);
    assert Untouched(discarded, t);
    UntouchedConcat(CleanupScript(w.dir, e.op.now, e.scan), discarded, t);
  }

  lemma {:induction false} SparedIsHeld(w: World, e: Event, t: string, image: Image, now: int, digest: Digest)
    requires Held(w.dir, t, image, now, digest) && Acceptable(t, image, now, digest)
    requires Legal(w, e, digest) ==> Spares(w, e, t, now)
    ensures Held(Next(w, e, digest).dir, t, image, now, digest)
  {
    if Legal(w, e, digest) {
      var script := Script(w.dir, e.op, e.scan, digest);
      if e.op.Insert? && Insertable(e.op.data, e.op.mime) {
        InsertSpares(w, e, t, image, now, digest);
      } else if e.op.Lookup? && ValidToken(e.op.token) {
        LookupSpares(w, e, t, image, now, digest);
      } else if e.op.Open? {
        HeldIsLive(w.dir, t, image, now, e.op.now, digest);
        CleanupSpares(w.dir, e.op.now, e.scan, t);
      }
      assert Untouched(script[..e.cut], t);
      UntouchedKeeps(w.dir, script[..e.cut], t);
    }
  }

  /** Every event of the run, as far as it is possible where it comes, spares the token. */
  ghost predicate AllSpare(w: World, run: seq<Event>, t: string, now: int, digest: Digest) {
    run == [] ||
    var front, e := run[..|run| - 1], run[|run| - 1];
    && AllSpare(w, front, t, now, digest)
    && (Legal(From(w, front, digest), e, digest) ==> Spares(From(w, front, digest), e, t, now))
  }

  /** The world a run leads to from `w`. */
  ghost function From(w: World, run: seq<Event>, digest: Digest): World {
    if run == [] then w else Next(From(w, run[..|run| - 1], digest), run[|run| - 1], digest)
  }

  lemma {:induction false} SparedRunHolds(w: World, run: seq<Event>, t: string, image: Image, now: int, digest: Digest)
    requires Held(w.dir, t, image, now, digest) && Acceptable(t, image, now, digest)
    requires AllSpare(w, run, t, now, digest)
    ensures Held(From(w, run, digest).dir, t, image, now, digest)
  {
    if run != [] {
      SparedRunHolds(w, run[..|run| - 1], t, image, now, digest);
      SparedIsHeld(From(w, run[..|run| - 1], digest), run[|run| - 1], t, image, now, digest);
    }
  }

  /**
   The promise of the store. An image whose insert completed at `now`, in any world a
   run leads to, is found by every lookup for exactly one hour, with its own bytes (none
   for HEAD), type and length, through any events that come between and neither evict it
   nor clean up past that hour; from then on it is not found.
   */
  lemma {:induction false} InsertedIsServedExactly(
    before: seq<Event>, e: Event, after: seq<Event>, t: string, image: Image, now: int,
    at: int, mode: Mode, memory: bool, digest: Digest)
    requires InsertsWhole(Reached(before, digest), e, t, image, now, digest) && Acceptable(t, image, now, digest)
    requires AllSpare(Next(Reached(before, digest), e, digest), after, t, now, digest)
    ensures var w := From(Next(Reached(before, digest), e, digest), after, digest);
            LookupResultOf(w.dir, Lookup(t, at, mode, memory), digest)
            == if at >= Min(now + 3_600_000, 0x7FFF_FFFF_FFFF_FFFF) then Miss
               else if !memory then OutOfMemory
               else Hit(if mode == Head then [] else image.data, image.mime, |image.data|)
  {
    var w := Next(Reached(before, digest), e, digest);
    InsertedIsHeld(Reached(before, digest), e, t, image, now, digest);
    SparedRunHolds(w, after, t, image, now, digest);
    HeldIsServedExactly(From(w, after, digest).dir, t, image, now, at, mode, memory, digest);
  }

  /** The worlds in question are those runs lead to. */
  lemma {:induction false} FromReached(before: seq<Event>, run: seq<Event>, digest: Digest)
    ensures From(Reached(before, digest), run, digest) == Reached(before + run, digest)
  {
    if run == [] {
      assert before + run == before;
    } else {
      FromReached(before, run[..|run| - 1], digest);
      assert (before + run)[..|before + run| - 1] == before + run[..|run| - 1];
    }
  }

  /** An insert evicts nothing while fewer than 128 files are there and its bytes fit beside theirs. */
  lemma {:induction false} NothingEvictedWithRoom(run: seq<Event>, op: Operation, digest: Digest)
    requires op.Insert?
    requires var bin := Reached(run, digest).dir.bin;
             |bin| < 128 && Sum(Sizes(bin)) + |op.data| <= 268_435_456
    ensures Evicted(Reached(run, digest).dir, op) == []
  {
    var w := Reached(run, digest);
    var entries := LiveEntries(w.dir, op.now);
    EveryRunIsGood(run, digest);
    GoodIndex(w, op.now, digest);
    SumSubmap(Lengths(entries), Sizes(w.dir.bin));
    CardinalityMonotone(entries.Keys, w.dir.bin.Keys);
  }
}
