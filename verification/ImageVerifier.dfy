/**
 The chunked payload verifier of the image store, and the memory budget it
 reserves its buffer from.
 */
module ImageVerifier {
  import opened Prelude
  import opened ImageFiles
  import opened ImageRuns

  const HEAD_BUFFER_BYTES: nat := 64 * 1024

  /** An incremental hash: absorbing `a` and then `b` is absorbing `a + b`. */
  datatype Hasher<!S> = Hasher(init: S, update: (S, Bytes) -> S, finish: S -> string)

  function Update<S>(h: Hasher<S>, s: S, data: Bytes): S { h.update(s, data) }

  ghost predicate Joins<S>(h: Hasher<S>, s: S, a: Bytes, b: Bytes) {
    Update(h, Update(h, s, a), b) == Update(h, s, a + b)
  }

  ghost predicate Incremental<S(!new)>(h: Hasher<S>) {
    && Update(h, h.init, []) == h.init
    && forall s: S, a: Bytes, b: Bytes :: Joins(h, s, a, b)
  }

  function DigestOf<S>(h: Hasher<S>): Digest {
    (data: Bytes) => h.finish(Update(h, h.init, data))
  }

  /** A reservation of `n` more bytes fits. */
  predicate Fits(limit: Option<nat>, used: nat, n: nat) {
    n == 0 || (used + n <= U64_MAX && (limit.Some? ==> used + n <= limit.value))
  }

  /** Logical bytes retained by their owners. */
  class ResidentMemory {
    var limit: Option<nat>
    var used: nat
    var highWater: nat

    constructor (limit: Option<nat>)
      ensures this.limit == limit && used == 0 && highWater == 0
    {
      this.limit, used, highWater := limit, 0, 0;
    }

    method Reserve(n: nat) returns (granted: bool)
      modifies `used, `highWater
      ensures granted <==> n == 0 || (old(used) + n <= U64_MAX && (limit.Some? ==> old(used) + n <= limit.value))
      ensures used == old(used) + (if granted then n else 0)
      ensures highWater == if granted && n > 0 then Max(old(highWater), used) else old(highWater)
    {
      if n == 0 {
        return true;
      }
      granted := used + n <= U64_MAX && (limit.None? || used + n <= limit.value);
      if granted {
        used := used + n;
        highWater := Max(highWater, used);
      }
    }

    method Release(n: nat)
      modifies `used
      ensures used == SatSub(old(used), n)
    {
      used := SatSub(used, n);
    }
  }

  /** An opened payload file: the length its inode reports, and the bytes reads then return. */
  datatype PayloadFile = PayloadFile(statLength: nat, content: Bytes)

  datatype Payload = Discard | NoCapacity | Verified(data: Bytes)

  function BufferLength(mode: Mode, length: nat): nat {
    if mode == Body then length else Min(length, HEAD_BUFFER_BYTES)
  }

  /** The bytes one verification reserves: the buffer, a fixed overhead, and spare allocator capacity. */
  function Charge(mode: Mode, length: nat, overhead: nat, spare: nat): nat {
    SatAddU64(BufferLength(mode, length), overhead) + spare
  }

  predicate MemoryAvailable(
    limit: Option<nat>, used: nat, mode: Mode, length: nat, overhead: nat, spare: nat, allocates: bool)
  {
    var first := SatAddU64(BufferLength(mode, length), overhead);
    Fits(limit, used, first) && allocates && Fits(limit, used + first, spare)
  }

  /** Memory suffices exactly when the buffer (for HEAD at most 64 KiB), its overhead and its slack fit the limit. */
  lemma MemoryInNumbers(
    limit: nat, used: nat, mode: Mode, length: nat, overhead: nat, spare: nat, allocates: bool)
    requires overhead > 0 && used + length + overhead + spare <= U64_MAX
    ensures MemoryAvailable(Some(limit), used, mode, length, overhead, spare, allocates) <==>
            && allocates
            && used + (if mode == Head && length > 65_536 then 65_536 else length) + overhead + spare <= limit
  {
  }

  /** `read_exact` into a slice of the buffer; the file must hold that many bytes. */
  method ReadExact(data: array<byte>, offset: nat, content: Bytes, from: nat, n: nat)
    requires offset + n <= data.Length && from + n <= |content|
    modifies data
    ensures data[offset..offset + n] == content[from..from + n]
    ensures data[..offset] == old(data[..offset])
    ensures data[..offset + n] == old(data[..offset]) + content[from..from + n]
  {
    forall i | 0 <= i < n {
      data[offset + i] := content[from + i];
    }
    assert data[..offset + n] == data[..offset] + data[offset..offset + n];
  }

  lemma Absorb<S(!new)>(h: Hasher<S>, content: Bytes, done: nat, n: nat)
    requires Incremental(h) && done + n <= |content|
    ensures Update(h, Update(h, h.init, content[..done]), content[done..done + n])
            == Update(h, h.init, content[..done + n])
    ensures content[..done] + content[done..done + n] == content[..done + n]
  {
    assert content[..done] + content[done..done + n] == content[..done + n];
    assert Joins(h, h.init, content[..done], content[done..done + n]);
  }

  /**
   The read loop: fills a buffer of the whole length (Body) or reuses one of at
   most 64 KiB (Head), hashing chunk by chunk. It stops early when the file ends.
   */
  method HashChunks<S(!new)>(h: Hasher<S>, content: Bytes, length: nat, mode: Mode)
    returns (complete: bool, hasher: S, read: Bytes)
    requires Incremental(h)
    ensures complete <==> length <= |content|
    ensures complete ==> hasher == Update(h, h.init, content[..length])
    ensures complete && mode == Body ==> read == content[..length]
  {
    var bufferLength := BufferLength(mode, length);
    var data := new byte[bufferLength](_ => 0);
    hasher := h.init;
    var done: nat := 0;
    assert content[..0] == [] && data[..0] == [];
    while done < length
      invariant done <= length && done <= |content|
      invariant hasher == Update(h, h.init, content[..done])
      invariant mode == Body ==> data.Length == length && data[..done] == content[..done]
    {
      var chunk: nat := Min(length - done, bufferLength);
      var offset := if mode == Body then done else 0;
      if |content| < done + chunk {
        return false, hasher, [];
      }
      Absorb(h, content, done, chunk);
      ReadExact(data, offset, content, done, chunk);
      hasher := Update(h, hasher, data[offset..offset + chunk]);
      done := done + chunk;
    }
    if mode == Body {
      assert data[..] == data[..length];
    }
    return true, hasher, data[..];
  }

  /**
   Opens, checks the length, reserves memory, reads and hashes the payload, then
   probes one byte past the end. `spare` and `allocates` stand for the allocator.
   */
  method ReadVerifiedPayload<S(!new)>(
      h: Hasher<S>, m: Metadata, file: Option<PayloadFile>, mode: Mode,
      parent: ResidentMemory, overhead: nat, spare: nat, allocates: bool)
    returns (payload: Payload)
    requires Incremental(h)
    modifies parent`used, parent`highWater
    ensures var memory :=
              MemoryAvailable(parent.limit, old(parent.used), mode, m.byteLength, overhead, spare, allocates);
            && (payload.NoCapacity? <==> file.Some? && file.value.statLength == m.byteLength && !memory)
            && (payload.Verified? <==>
                  && file.Some? && memory && file.value.statLength == |file.value.content| == m.byteLength
                  && DigestOf(h)(file.value.content) == m.sha256)
            && (payload.Verified? ==> payload.data == if mode == Body then file.value.content else [])
    ensures parent.used == old(parent.used)
            + if payload.Verified? && mode == Body then Charge(mode, m.byteLength, overhead, spare) else 0
    ensures parent.highWater <= Max(old(parent.highWater),
                                    old(parent.used) + Charge(mode, m.byteLength, overhead, spare))
    ensures mode == Head ==> parent.highWater <= Max(old(parent.highWater),
                                                     old(parent.used) + 65_536 + overhead + spare)
  {
    if file.None? || file.value.statLength != m.byteLength {
      return Discard;
    }
    var content, length := file.value.content, m.byteLength;
    var first := SatAddU64(BufferLength(mode, length), overhead);
    var granted := parent.Reserve(first);
    if !granted {
      return NoCapacity;
    }
    if allocates {
      granted := parent.Reserve(spare);
    }
    if !allocates || !granted {
      parent.Release(first);
      return NoCapacity;
    }
    var complete, hasher, read := HashChunks(h, content, length, mode);
    assert complete && |content| == length ==> content[..length] == content;
    if !complete || |content| > length || h.finish(hasher) != m.sha256 {
      parent.Release(first + spare);
      return Discard;
    }
    if mode == Head {
      parent.Release(first + spare);
      return Verified([]);
    }
    return Verified(read);
  }
}
