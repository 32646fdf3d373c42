/** Whatever bytes the decoder accepts, the struct it leaves behind is well formed: counts within
    their arrays, strings terminated, byte strings within their buffers, one member per union. */
module Canonical {
  import opened Bits
  import opened Varint
  import opened Descriptor
  import opened Parse

  lemma {:induction false} LittleEndianBound(s: seq<byte>)
    ensures FromLittleEndian(s) < Pow2(8 * |s|)
  {
    if s != [] {
      LittleEndianBound(s[1..]);
      Pow2Small();
      Pow2Add(8, 8 * (|s| - 1));
    }
  }

  lemma {:induction false} FixedOk(s: seq<byte>, n: nat)
    requires n == 4 || n == 8
    requires Fixed(s, n).Ok?
    ensures Fixed(s, n).value.Num? && UnsignedFits(Fixed(s, n).value.n, n)
  {
    LittleEndianBound(s[..n]);
    if n == 4 {
      Pow2Word();
    } else {
      Pow2Long();
    }
  }

  /** A decoded leaf fits its field. */
  lemma {:induction false} DecLeafOk(f: Field, s: seq<byte>)
    requires SizeOk(f) && DecLeaf(f, s).Ok?
    ensures LeafOk(true, f, DecLeaf(f, s).value)
  {
    match f.ltype
    case LFixed32 => FixedOk(s, 4);
    case LFixed64 => FixedOk(s, 8);
    case _ =>
  }

  predicate LeavesOk(f: Field, items: seq<Value>) {
    forall k :: 0 <= k < |items| ==> LeafOk(true, f, items[k])
  }

  lemma {:induction false} DecPackedOk(f: Field, region: seq<byte>, items: seq<Value>)
    requires SizeOk(f) && LeavesOk(f, items) && |items| <= f.arraySize
    requires DecPacked(f, region, items).Some?
    ensures LeavesOk(f, DecPacked(f, region, items).value)
    ensures |DecPacked(f, region, items).value| <= f.arraySize
    decreases |region|
  {
    if region != [] {
      DecLeafOk(f, region);
      var r := DecLeaf(f, region);
      DecPackedOk(f, r.rest, items + [r.value]);
    }
  }

  /** Storing to a union member keeps the struct well formed. */
  lemma {:induction false} SelectOk(fields: seq<Field>, slots: seq<Slot>, i: nat, v: Value)
    requires WellFormed(fields, slots) && i < |fields|
    requires fields[i].htype.HOneof? && ValueOk(true, fields[i], v)
    ensures WellFormed(fields, Select(fields, slots, i, v))
  {
    var r := Select(fields, slots, i, v);
    forall j | 0 <= j < |fields|
      ensures SlotOk(true, fields[j], r[j])
    {
      assert SlotOk(true, fields[j], slots[j]);
    }
    forall j, k | 0 <= j < |fields| && 0 <= k < |fields| && j != k && SameUnion(fields, j, k)
      ensures !(IsActive(r[j]) && IsActive(r[k]))
    {
      if j != i && k != i {
        assert IsActive(r[j]) ==> IsActive(slots[j]);
        assert IsActive(r[k]) ==> IsActive(slots[k]);
      }
    }
  }

  /** Replacing one slot outside the unions keeps the struct well formed. */
  lemma {:induction false} UpdateOk(fields: seq<Field>, slots: seq<Slot>, i: nat, slot: Slot)
    requires WellFormed(fields, slots) && i < |fields|
    requires !fields[i].htype.HOneof? && SlotOk(true, fields[i], slot)
    ensures WellFormed(fields, slots[i := slot])
  {
    var r := slots[i := slot];
    forall j, k | 0 <= j < |fields| && 0 <= k < |fields| && j != k && SameUnion(fields, j, k)
      ensures !(IsActive(r[j]) && IsActive(r[k]))
    {
      assert j != i && k != i;
    }
    forall j | 0 <= j < |fields|
      ensures SlotOk(true, fields[j], r[j])
    {
      assert SlotOk(true, fields[j], slots[j]);
    }
  }

  lemma {:induction false} DecValueOk(f: Field, s: seq<byte>, base: seq<Slot>)
    requires ValidField(f) && |base| == |f.sub| && DecValue(f, s, base).Ok?
    requires f.ltype.LSubmessage? ==> WellFormed(f.sub, base)
    ensures ValueOk(true, f, DecValue(f, s, base).value)
    decreases |s|, 0
  {
    if f.ltype.LSubmessage? {
      DecNoInitOk(f.sub, TakeString(s).value, base);
    } else {
      DecLeafOk(f, s);
    }
  }

  lemma {:induction false} BaseOk(f: Field, v: Value)
    requires ValueOk(true, f, v)
    ensures f.ltype.LSubmessage? ==> WellFormed(f.sub, StructOf(f, v))
  {
  }

  lemma {:induction false} DecSingleOk(fields: seq<Field>, i: nat, wt: nat, s: seq<byte>, slots: seq<Slot>)
    requires ValidFields(fields) && WellFormed(fields, slots) && i < |fields|
    requires fields[i].htype.HRequired? || fields[i].htype.HOptional?
    requires DecField(fields, i, wt, s, slots).Ok?
    ensures WellFormed(fields, DecField(fields, i, wt, s, slots).value)
    decreases |s|, 1
  {
    var f, slot := fields[i], slots[i];
    assert ValidField(f) && SlotOk(true, f, slot);
    var base := StructOf(f, slot.v);
    BaseOk(f, slot.v);
    DecValueOk(f, s, base);
    var v := DecValue(f, s, base).value;
    UpdateOk(fields, slots, i, if f.HasFlag() then Maybe(true, v) else Plain(v));
  }

  lemma {:induction false} PackedItemsOk(f: Field, region: seq<byte>, items: seq<Value>)
    requires ValidField(f) && f.htype.HRepeated? && f.ltype.Packable()
    requires SlotOk(true, f, Many(items)) && DecPacked(f, region, items).Some?
    ensures SlotOk(true, f, Many(DecPacked(f, region, items).value))
  {
    assert LeavesOk(f, items) by {
      forall k | 0 <= k < |items|
        ensures LeafOk(true, f, items[k])
      {
        assert ValueOk(true, f, items[k]);
      }
    }
    DecPackedOk(f, region, items);
  }

  lemma {:induction false} DecRepeatedOk(fields: seq<Field>, i: nat, wt: nat, s: seq<byte>, slots: seq<Slot>)
    requires ValidFields(fields) && WellFormed(fields, slots) && i < |fields|
    requires fields[i].htype.HRepeated?
    requires DecField(fields, i, wt, s, slots).Ok?
    ensures WellFormed(fields, DecField(fields, i, wt, s, slots).value)
    decreases |s|, 1
  {
    var f, slot := fields[i], slots[i];
    assert ValidField(f) && SlotOk(true, f, slot);
    if wt == WT_STRING && f.ltype.Packable() {
      var region := TakeString(s).value;
      PackedItemsOk(f, region, slot.items);
      UpdateOk(fields, slots, i, Many(DecPacked(f, region, slot.items).value));
    } else {
      if f.ltype.LSubmessage? {
        DefaultsOk(f.sub);
      }
      DecValueOk(f, s, Defaults(f.sub));
      UpdateOk(fields, slots, i, Many(slot.items + [DecValue(f, s, Defaults(f.sub)).value]));
    }
  }

  lemma {:induction false} DecOneofOk(fields: seq<Field>, i: nat, wt: nat, s: seq<byte>, slots: seq<Slot>)
    requires ValidFields(fields) && WellFormed(fields, slots) && i < |fields|
    requires fields[i].htype.HOneof?
    requires DecField(fields, i, wt, s, slots).Ok?
    ensures WellFormed(fields, DecField(fields, i, wt, s, slots).value)
    decreases |s|, 1
  {
    var f := fields[i];
    assert ValidField(f);
    if f.ltype.LSubmessage? {
      DefaultsOk(f.sub);
    }
    DecValueOk(f, s, Defaults(f.sub));
    SelectOk(fields, slots, i, DecValue(f, s, Defaults(f.sub)).value);
  }

  lemma {:induction false} DecRecordOk(fields: seq<Field>, tag: nat, wt: nat, s: seq<byte>, slots: seq<Slot>)
    requires ValidFields(fields) && WellFormed(fields, slots)
    requires DecRecord(fields, tag, wt, s, slots).Ok?
    ensures WellFormed(fields, DecRecord(fields, tag, wt, s, slots).value)
    decreases |s|, 2
  {
    match FindField(fields, tag)
    case None =>
    case Some(i) =>
      match fields[i].htype
      case HRepeated => DecRepeatedOk(fields, i, wt, s, slots);
      case HOneof => DecOneofOk(fields, i, wt, s, slots);
      case _ => DecSingleOk(fields, i, wt, s, slots);
  }

  lemma {:induction false} DecLoopOk(fields: seq<Field>, s: seq<byte>, slots: seq<Slot>, seen: set<nat>)
    requires ValidFields(fields) && WellFormed(fields, slots)
    requires DecLoop(fields, s, slots, seen).Ok?
    ensures WellFormed(fields, DecLoop(fields, s, slots, seen).value.slots)
    decreases |s|, 3
  {
    if s != [] && DecVarint32(s).value != 0 {
      var (tag, wt, rest) := (DecVarint32(s).value / 8, DecVarint32(s).value % 8, DecVarint32(s).rest);
      var r := DecRecord(fields, tag, wt, rest, slots);
      DecRecordOk(fields, tag, wt, rest, slots);
      DecLoopOk(fields, r.rest, r.value, MarkSeen(fields, tag, seen));
    }
  }

  /** Decoding into a well-formed struct leaves a well-formed struct. */
  lemma {:induction false} DecNoInitOk(fields: seq<Field>, s: seq<byte>, slots: seq<Slot>)
    requires ValidFields(fields) && WellFormed(fields, slots)
    requires DecNoInit(fields, s, slots).Ok?
    ensures WellFormed(fields, DecNoInit(fields, s, slots).value)
    decreases |s|, 4
  {
    DecLoopOk(fields, s, slots, {});
  }

  /** `pb_decode` only ever produces well-formed structs. */
  lemma {:induction false} DecodeOk(fields: seq<Field>, s: seq<byte>)
    requires ValidFields(fields) && Decode(fields, s).Ok?
    ensures WellFormed(fields, Decode(fields, s).value)
  {
    DefaultsOk(fields);
    DecNoInitOk(fields, s, Defaults(fields));
  }
}
