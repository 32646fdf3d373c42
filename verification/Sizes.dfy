/** The length prefixes inside an encoding, and the limits they have to keep. */
module Sizes {
  import opened Bits
  import opened Descriptor
  import opened Serialize

  // ----- records in parts -----

  /** The key and the value of a record. */
  lemma {:induction false} TaggedSplit(f: Field, v: Value, t: seq<byte>)
    requires ValueOk(false, f, v) && SerTagged(f, v).Some?
    ensures SerTagged(f, v).value + t == Key(f.tag, WireType(f.ltype)) + (SerValue(f, v).value + t)
    ensures |SerValue(f, v).value| <= |SerTagged(f, v).value|
  {
  }

  lemma {:induction false} UnpackedSplit(f: Field, items: seq<Value>, t: seq<byte>)
    requires ItemsOk(f, items) && items != [] && SerUnpacked(f, items).Some?
    ensures ValueOk(false, f, items[0]) && ItemsOk(f, items[1..])
    ensures SerTagged(f, items[0]).Some? && SerUnpacked(f, items[1..]).Some?
    ensures SerUnpacked(f, items).value + t == SerTagged(f, items[0]).value + (SerUnpacked(f, items[1..]).value + t)
    ensures |SerTagged(f, items[0]).value| <= |SerUnpacked(f, items).value|
    ensures |SerUnpacked(f, items[1..]).value| <= |SerUnpacked(f, items).value|
  {
  }

  lemma {:induction false} FromSplit(fields: seq<Field>, slots: seq<Slot>, i: nat)
    requires Shaped(fields, slots) && i < |fields| && SerFrom(fields, slots, i).Some?
    ensures SlotOk(false, fields[i], slots[i])
    ensures SerField(fields[i], slots[i]).Some? && SerFrom(fields, slots, i + 1).Some?
    ensures SerFrom(fields, slots, i).value == SerField(fields[i], slots[i]).value + SerFrom(fields, slots, i + 1).value
  {
  }

  // ----- limits -----

  /** A 64-bit `size_t`. */
  const SIZE_LIMIT: nat := 0x1_0000_0000_0000_0000

  /** What the 32-bit varint decoder reads as a length. */
  const LENGTH_LIMIT: nat := 0x1_0000_0000

  predicate Below(limit: nat, o: Output) {
    o.Some? ==> |o.value| < limit
  }

  /** Every length prefix that is to be written inside a value is below the limit. */
  predicate ValueSized(limit: nat, f: Field, v: Value)
    requires ValueOk(false, f, v)
    decreases f, 0
  {
    f.ltype.LSubmessage? ==> Sized(limit, f.sub, v.slots) && Below(limit, SerMsg(f.sub, v.slots))
  }

  predicate ItemsSized(limit: nat, f: Field, items: seq<Value>)
    requires ItemsOk(f, items)
    decreases f, 1
  {
    && (f.ltype.Packable() ==> Below(limit, SerPacked(f, items)))
    && forall k :: 0 <= k < |items| ==> ValueSized(limit, f, items[k])
  }

  predicate SlotSized(limit: nat, f: Field, slot: Slot)
    requires SlotOk(false, f, slot)
    decreases f, 2
  {
    match slot
    case Plain(v) => f.htype.HRequired? || !IsDefaultValue(f, v) ==> ValueSized(limit, f, v)
    case Maybe(has, v) => has ==> ValueSized(limit, f, v)
    case Many(items) => |items| <= f.arraySize ==> ItemsSized(limit, f, items)
    case Member(active) => active.Some? ==> ValueSized(limit, f, active.value)
  }

  predicate Sized(limit: nat, fields: seq<Field>, slots: seq<Slot>)
    requires Shaped(fields, slots)
    decreases fields, 3
  {
    forall i :: 0 <= i < |fields| ==> SlotOk(false, fields[i], slots[i]) && SlotSized(limit, fields[i], slots[i])
  }

  /** In an encoding below the limit every length prefix is below it. */
  lemma {:induction false} ValueSizedIfBelow(limit: nat, f: Field, v: Value)
    requires ValueOk(false, f, v) && SerValue(f, v).Some? && Below(limit, SerValue(f, v))
    ensures ValueSized(limit, f, v)
    decreases f, 0
  {
    if f.ltype.LSubmessage? {
      SizedIfBelow(limit, f.sub, v.slots);
    }
  }

  lemma {:induction false} UnpackedSized(limit: nat, f: Field, items: seq<Value>)
    requires ItemsOk(f, items) && SerUnpacked(f, items).Some? && Below(limit, SerUnpacked(f, items))
    ensures forall k :: 0 <= k < |items| ==> ValueSized(limit, f, items[k])
    decreases f, 1, |items|
  {
    if items != [] {
      UnpackedSplit(f, items, []);
      TaggedSplit(f, items[0], []);
      ValueSizedIfBelow(limit, f, items[0]);
      UnpackedSized(limit, f, items[1..]);
      forall k | 0 <= k < |items|
        ensures ValueSized(limit, f, items[k])
      {
        if k > 0 {
          assert items[k] == items[1..][k - 1];
        }
      }
    }
  }

  lemma {:induction false} SlotSizedIfBelow(limit: nat, f: Field, slot: Slot)
    requires SlotOk(false, f, slot) && SerField(f, slot).Some? && Below(limit, SerField(f, slot))
    ensures SlotSized(limit, f, slot)
    decreases f, 2
  {
    match slot
    case Plain(v) =>
      if f.htype.HRequired? || !IsDefaultValue(f, v) {
        TaggedSplit(f, v, []);
        ValueSizedIfBelow(limit, f, v);
      }
    case Maybe(has, v) =>
      if has {
        TaggedSplit(f, v, []);
        ValueSizedIfBelow(limit, f, v);
      }
    case Many(items) =>
      if items != [] && !f.ltype.Packable() && |items| <= f.arraySize {
        UnpackedSized(limit, f, items);
      }
    case Member(active) =>
      if active.Some? {
        TaggedSplit(f, active.value, []);
        ValueSizedIfBelow(limit, f, active.value);
      }
  }

  lemma {:induction false} SizedFrom(limit: nat, fields: seq<Field>, slots: seq<Slot>, i: nat)
    requires Shaped(fields, slots) && i <= |fields|
    requires SerFrom(fields, slots, i).Some? && Below(limit, SerFrom(fields, slots, i))
    ensures forall j :: i <= j < |fields| ==>
              SlotOk(false, fields[j], slots[j]) && SlotSized(limit, fields[j], slots[j])
    decreases fields, 3, |fields| - i
  {
    if i < |fields| {
      assert SlotOk(false, fields[i], slots[i]);
      SlotSizedIfBelow(limit, fields[i], slots[i]);
      SizedFrom(limit, fields, slots, i + 1);
    }
  }

  lemma {:induction false} SizedIfBelow(limit: nat, fields: seq<Field>, slots: seq<Slot>)
    requires Shaped(fields, slots) && SerMsg(fields, slots).Some? && Below(limit, SerMsg(fields, slots))
    ensures Sized(limit, fields, slots)
    decreases fields, 4
  {
    SizedFrom(limit, fields, slots, 0);
  }

  // ----- a larger limit -----

  lemma {:induction false} ValueSizedUpTo(low: nat, high: nat, f: Field, v: Value)
    requires low <= high && ValueOk(false, f, v) && ValueSized(low, f, v)
    ensures ValueSized(high, f, v)
    decreases f, 0
  {
    if f.ltype.LSubmessage? {
      SizedUpTo(low, high, f.sub, v.slots);
    }
  }

  lemma {:induction false} SlotSizedUpTo(low: nat, high: nat, f: Field, slot: Slot)
    requires low <= high && SlotOk(false, f, slot) && SlotSized(low, f, slot)
    ensures SlotSized(high, f, slot)
    decreases f, 1
  {
    match slot
    case Plain(v) =>
      if f.htype.HRequired? || !IsDefaultValue(f, v) {
        ValueSizedUpTo(low, high, f, v);
      }
    case Maybe(has, v) =>
      if has {
        ValueSizedUpTo(low, high, f, v);
      }
    case Many(items) =>
      if |items| <= f.arraySize {
        forall k | 0 <= k < |items|
          ensures ValueSized(high, f, items[k])
        {
          ValueSizedUpTo(low, high, f, items[k]);
        }
      }
    case Member(active) =>
      if active.Some? {
        ValueSizedUpTo(low, high, f, active.value);
      }
  }

  lemma {:induction false} SizedUpTo(low: nat, high: nat, fields: seq<Field>, slots: seq<Slot>)
    requires low <= high && Shaped(fields, slots) && Sized(low, fields, slots)
    ensures Sized(high, fields, slots)
    decreases fields, 2
  {
    forall i | 0 <= i < |fields|
      ensures SlotOk(false, fields[i], slots[i]) && SlotSized(high, fields[i], slots[i])
    {
      SlotSizedUpTo(low, high, fields[i], slots[i]);
    }
  }
}
