/** Half-hour cycle slots and the source texts that name them. */
module HealthSlots {
  import opened Prelude
  import opened Decimals

  const U128_MAX: nat := 0xFFFF_FFFF_FFFF_FFFF_FFFF_FFFF_FFFF_FFFF

  const SLOT_SECONDS: nat := 1800

  const SLOT_PREFIX: string := "cc-switch-router-cycle:utc-"

  /** The slot of an instant in milliseconds, as the second it begins at. */
  function Slot(at: nat): nat { at / 1000 / SLOT_SECONDS * SLOT_SECONDS }

  function Named(prefix: string, slot: nat): string { prefix + Decimal(slot) }

  function RouterCycleSource(at: nat): string { Named(SLOT_PREFIX, Slot(at)) }

  /** `str::parse::<u128>`, which takes one leading plus sign. */
  function ParseU128(text: string): Option<nat> {
    var s := if text != "" && text[0] == '+' then text[1..] else text;
    if s != "" && Digits(s) && Value(s) <= U128_MAX then Some(Value(s)) else None
  }

  function SlotAfter(prefix: string, source: string): Option<nat> {
    if prefix <= source then ParseU128(source[|prefix|..]) else None
  }

  /** The slot a source text names. */
  function NamedSlot(source: string): Option<nat> { SlotAfter(SLOT_PREFIX, source) }

  predicate Begins(slot: nat, at: nat) {
    slot % 1800 == 0 && slot * 1000 <= at < (slot + 1800) * 1000
  }

  /** An instant lies in one slot and no other. */
  lemma ExactlyOneSlot(at: nat, slot: nat)
    ensures Begins(slot, at) <==> slot == Slot(at)
  {
    var seconds := at / 1000;
    var n := seconds / SLOT_SECONDS;
    assert n * SLOT_SECONDS <= seconds < (n + 1) * SLOT_SECONDS;
    assert seconds * 1000 <= at < (seconds + 1) * 1000;
    if Begins(slot, at) {
      var m := slot / SLOT_SECONDS;
      assert slot == m * SLOT_SECONDS;
      assert slot <= seconds < slot + SLOT_SECONDS;
      assert m <= n <= m;
    }
  }

  /** A slot number written the way it is printed: no sign and no leading zero. */
  predicate Plain(text: string) { text != "" && text[0] != '+' && (|text| > 1 ==> text[0] != '0') }

  /** A number reads back from its decimal text, which is plain. */
  lemma {:induction false} DecimalParses(n: nat)
    requires n <= U128_MAX
    ensures ParseU128(Decimal(n)) == Some(n) && Plain(Decimal(n))
  {
    DecimalHasItsValue(n);
    assert Digit(Decimal(n)[0]);
  }

  /** A plain text that reads as a number is its decimal text. */
  lemma {:induction false} PlainIsDecimal(text: string, n: nat)
    requires Plain(text) && ParseU128(text) == Some(n)
    ensures text == Decimal(n)
  {
    ValueHasItsDecimal(text);
  }

  lemma AfterPrefix(prefix: string, source: string, text: string)
    ensures source == prefix + text <==> prefix <= source && source[|prefix|..] == text
  {
    if prefix <= source {
      assert source == prefix + source[|prefix|..];
    }
  }

  lemma {:induction false} PrintedSlotReadsBack(prefix: string, source: string, slot: nat)
    requires slot <= U128_MAX
    ensures source == Named(prefix, slot)
            <==> SlotAfter(prefix, source) == Some(slot) && Plain(source[|prefix|..])
  {
    AfterPrefix(prefix, source, Decimal(slot));
    DecimalParses(slot);
    if prefix <= source {
      var text := source[|prefix|..];
      if ParseU128(text) == Some(slot) && Plain(text) {
        PlainIsDecimal(text, slot);
      }
    }
  }

  /** The slot text prints and parses back. */
  lemma {:induction false} SourceNamesItsSlot(at: nat)
    requires at <= U128_MAX
    ensures RouterCycleSource(at) == "cc-switch-router-cycle:utc-" + Decimal(Slot(at))
    ensures NamedSlot(RouterCycleSource(at)) == Some(Slot(at))
  {
    PrintedSlotReadsBack(SLOT_PREFIX, RouterCycleSource(at), Slot(at));
  }

  /**
   * A time belongs to the slot a source names exactly when it gives that source text,
   * for sources that write the number plainly. Other spellings of a slot number
   * (`+1800`, `01800`) also name a slot, and no time gives their text.
   */
  lemma {:induction false} InSlotExactlyWhenSameSource(source: string, at: nat)
    requires at <= U128_MAX
    ensures NamedSlot(source) == Some(Slot(at)) && Plain(source[|SLOT_PREFIX|..])
            <==> RouterCycleSource(at) == source
  {
    PrintedSlotReadsBack(SLOT_PREFIX, source, Slot(at));
  }

  // ---------------------------------------------------------- the spellings of a number

  /** A text reads as a number of 128 bits if and only if it is its decimal text, after zeros, after a sign or not. */
  lemma {:induction false} SpellingsExactly(text: string, n: nat)
    ensures ParseU128(text) == Some(n) <==>
            && n <= 0xFFFF_FFFF_FFFF_FFFF_FFFF_FFFF_FFFF_FFFF
            && (Padded(text, n) || (text != "" && text[0] == '+' && Padded(text[1..], n)))
  {
    PaddedExactly(text, n);
    if text != "" {
      PaddedExactly(text[1..], n);
      assert text[0] == '+' ==> !Digit(text[0]);
    }
  }
}
