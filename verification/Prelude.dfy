/** Values and arithmetic shared by the models: options, machine integers and finite sums. */
module Prelude {

  datatype Option<+T> = None | Some(value: T)

  newtype byte = x: int | 0 <= x < 256

  type Bytes = seq<byte>

  const U32_MAX: nat := 0xFFFF_FFFF
  const U64_MAX: nat := 0xFFFF_FFFF_FFFF_FFFF
  const I64_MAX: int := 0x7FFF_FFFF_FFFF_FFFF
  const I64_MIN: int := -0x8000_0000_0000_0000

  type U32 = n: nat | n <= U32_MAX
  type U64 = n: nat | n <= U64_MAX
  type I64 = n: int | I64_MIN <= n <= I64_MAX

  function Min(a: int, b: int): int { if a <= b then a else b }

  function Max(a: int, b: int): int { if a <= b then b else a }

  /** `u64::saturating_add`. */
  function SatAddU64(a: nat, b: nat): nat { if a + b <= U64_MAX then a + b else U64_MAX }

  /** `saturating_sub` on an unsigned type. */
  function SatSub(a: nat, b: nat): nat { if b <= a then a - b else 0 }

  /** `i64::saturating_add`. */
  function SatAddI64(a: int, b: int): int { Max(I64_MIN, Min(I64_MAX, a + b)) }

  /** The sum of the values of a finite map. */
  ghost function Sum<K>(sizes: map<K, nat>): nat {
    if sizes == map[] then 0
    else
      var k :| k in sizes;
      sizes[k] + Sum(sizes - {k})
  }

  /** The sum does not depend on the order in which keys are taken. */
  lemma {:induction false} SumRemove<K>(sizes: map<K, nat>, k: K)
    requires k in sizes
    ensures Sum(sizes) == sizes[k] + Sum(sizes - {k})
    decreases |sizes|
  {
    var c :| c in sizes && Sum(sizes) == sizes[c] + Sum(sizes - {c});
    if c != k {
      SumRemove(sizes - {c}, k);
      SumRemove(sizes - {k}, c);
      assert sizes - {c} - {k} == sizes - {k} - {c};
    }
  }

  lemma SumInsert<K>(sizes: map<K, nat>, k: K, n: nat)
    requires k !in sizes
    ensures Sum(sizes[k := n]) == Sum(sizes) + n
  {
    SumRemove(sizes[k := n], k);
    assert sizes[k := n] - {k} == sizes;
  }

  lemma {:induction false} SumSubmap<K>(small: map<K, nat>, large: map<K, nat>)
    requires small.Keys <= large.Keys
    requires forall k :: k in small ==> small[k] == large[k]
    ensures Sum(small) <= Sum(large)
    decreases |large|
  {
    if small != map[] {
      var k :| k in small;
      SumRemove(small, k);
      SumRemove(large, k);
      SumSubmap(small - {k}, large - {k});
    }
  }

  /** `order` is one complete listing of `keys`: every key once, in any order. */
  ghost predicate Lists<K>(order: seq<K>, keys: set<K>) {
    && (forall i, j :: 0 <= i < j < |order| ==> order[i] != order[j])
    && (forall k :: k in order ==> k in keys)
    && (forall k :: k in keys ==> k in order)
  }

  /** Byte-wise string order, as `str` compares. */
  predicate StringLess(a: string, b: string) {
    if b == "" then false
    else if a == "" then true
    else a[0] < b[0] || (a[0] == b[0] && StringLess(a[1..], b[1..]))
  }

  lemma StringLessTotal(a: string, b: string)
    ensures StringLess(a, b) || StringLess(b, a) || a == b
    ensures !(StringLess(a, b) && StringLess(b, a))
    ensures !StringLess(a, a)
  {
    if a != "" && b != "" && a[0] == b[0] {
      StringLessTotal(a[1..], b[1..]);
      if a[1..] == b[1..] {
        assert a == [a[0]] + a[1..] == [b[0]] + b[1..] == b;
      }
    }
  }

  lemma StringLessTransitive(a: string, b: string, c: string)
    requires StringLess(a, b) && StringLess(b, c)
    ensures StringLess(a, c)
  {
    if a != "" && a[0] == b[0] && b[0] == c[0] {
      StringLessTransitive(a[1..], b[1..], c[1..]);
    }
  }

  /** The texts agree up to `i`, where the first ends or has the smaller character. */
  predicate LessAt(a: string, b: string, i: nat) {
    i <= |a| && i < |b| && a[..i] == b[..i] && (i == |a| || a[i] < b[i])
  }

  lemma {:induction false} LessSomewhere(a: string, b: string) returns (i: nat)
    requires StringLess(a, b)
    ensures LessAt(a, b, i)
  {
    i := 0;
    if a != "" && a[0] == b[0] {
      i := LessSomewhere(a[1..], b[1..]);
      i := i + 1;
      assert a[..i] == [a[0]] + a[1..][..i - 1] && b[..i] == [b[0]] + b[1..][..i - 1];
    }
  }

  lemma {:induction false} LessThere(a: string, b: string, i: nat)
    requires LessAt(a, b, i)
    ensures StringLess(a, b)
  {
    if i > 0 {
      assert a[0] == a[..i][0] == b[..i][0] == b[0];
      assert a[1..][..i - 1] == a[..i][1..] && b[1..][..i - 1] == b[..i][1..];
      LessThere(a[1..], b[1..], i - 1);
    }
  }

  /** One text is less exactly when it is a proper prefix, or has the smaller character where they first differ. */
  lemma {:induction false} StringLessExactly(a: string, b: string)
    ensures StringLess(a, b) <==> exists i: nat :: LessAt(a, b, i)
  {
    if StringLess(a, b) {
      var i := LessSomewhere(a, b);
    }
    if i: nat :| LessAt(a, b, i) {
      LessThere(a, b, i);
    }
  }
}
