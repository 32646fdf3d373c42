/** What becomes of any struct the C types allow, well formed or not: its encoding decodes exactly
    when every string in it is terminated, and then to a normal form of the struct. */
module Normal {
  import opened Wrappers
  import opened Bits
  import opened Varint
  import opened Descriptor
  import opened Parse
  import opened Serialize
  import opened Sizes
  import opened RoundTrip

  // ----- the normal form -----

  function NormalValue(f: Field, v: Value): Value
    requires ValueOk(false, f, v)
    decreases f, 0
  {
    if f.ltype.LSubmessage? then Struct(NormalStruct(f.sub, v.slots)) else v
  }

  function NormalItems(f: Field, items: seq<Value>): (r: seq<Value>)
    requires ItemsOk(f, items)
    ensures |r| == |items|
    decreases f, 1
  {
    seq(|items|, k requires 0 <= k < |items| => NormalValue(f, items[k]))
  }

  /** What is not encoded is at its default. */
  function NormalSlot(f: Field, slot: Slot): Slot
    requires SlotOk(false, f, slot)
    decreases f, 2
  {
    match f.htype
    case HRequired => Plain(NormalValue(f, slot.v))
    case HOptional =>
      if f.sizeOffset == 0 then
        Plain(if IsDefaultValue(f, slot.v) then Default(f) else NormalValue(f, slot.v))
      else if slot.has then Maybe(true, NormalValue(f, slot.v))
      else Maybe(false, Default(f))
    case HRepeated => Many(NormalItems(f, slot.items))
    case HOneof =>
      (match slot.active
       case None => Member(None)
       case Some(v) => Member(Some(NormalValue(f, v))))
  }

  function NormalStruct(fields: seq<Field>, slots: seq<Slot>): (r: seq<Slot>)
    requires Shaped(fields, slots)
    ensures |r| == |fields|
    decreases fields, 3
  {
    seq(|fields|, i requires 0 <= i < |fields| =>
      assert SlotOk(false, fields[i], slots[i]);
      NormalSlot(fields[i], slots[i]))
  }

  // ----- terminated strings -----

  predicate ValueTerminated(f: Field, v: Value)
    requires ValueOk(false, f, v)
    decreases f, 0
  {
    && (f.ltype.LSubmessage? ==> Terminated(f.sub, v.slots))
    && (f.ltype.LString? ==> |v.bytes| < f.dataSize)
  }

  predicate SlotTerminated(f: Field, slot: Slot)
    requires SlotOk(false, f, slot)
    decreases f, 1
  {
    match slot
    case Plain(v) => f.htype.HRequired? || !IsDefaultValue(f, v) ==> ValueTerminated(f, v)
    case Maybe(has, v) => has ==> ValueTerminated(f, v)
    case Many(items) => forall k :: 0 <= k < |items| ==> ValueTerminated(f, items[k])
    case Member(active) => active.Some? ==> ValueTerminated(f, active.value)
  }

  /** Every string that is to be encoded has its terminator inside its field. */
  predicate Terminated(fields: seq<Field>, slots: seq<Slot>)
    requires Shaped(fields, slots)
    decreases fields, 2
  {
    forall i :: 0 <= i < |fields| ==> SlotOk(false, fields[i], slots[i]) && SlotTerminated(fields[i], slots[i])
  }

  // ----- the normal form is a struct, and empty when the struct is -----

  lemma {:induction false} DefaultIsEmpty(f: Field, v: Value)
    requires ValidField(f) && f.dflt.None? && ValueOk(false, f, v) && IsDefaultValue(f, v)
    ensures ValueOk(false, f, Default(f)) && IsDefaultValue(f, Default(f))
    decreases f, 0
  {
    DefaultOk(f);
    OkIsShaped(f, Default(f));
    if f.ltype.LSubmessage? {
      DefaultsAreEmpty(f.sub, v.slots);
    }
  }

  lemma {:induction false} DefaultsAreEmpty(fields: seq<Field>, slots: seq<Slot>)
    requires ValidFields(fields) && Shaped(fields, slots) && AllDefault(fields, slots)
    requires Shaped(fields, Defaults(fields))
    ensures AllDefault(fields, Defaults(fields))
    decreases fields, 1
  {
    forall i | 0 <= i < |fields|
      ensures IsDefaultAt(fields, Defaults(fields), i)
    {
      var f := fields[i];
      assert ValidField(f) && IsDefaultAt(fields, slots, i) && SlotOk(false, f, slots[i]);
      assert Defaults(fields)[i] == DefaultSlot(f);
      if f.htype.HOptional? && f.sizeOffset == 0 {
        DefaultIsEmpty(f, slots[i].v);
      } else if f.htype.HOneof? {
        NoneActive(fields, i);
      }
    }
  }

  lemma {:induction false} NoneActive(fields: seq<Field>, i: nat)
    requires i < |fields|
    ensures !UnionActive(fields, Defaults(fields), i)
  {
    assert forall j :: 0 <= j < |fields| ==> Defaults(fields)[j] == DefaultSlot(fields[j]);
  }

  lemma {:induction false} NormalValueShaped(f: Field, v: Value)
    requires ValidField(f) && ValueOk(false, f, v)
    ensures ValueOk(false, f, NormalValue(f, v))
    ensures IsDefaultValue(f, NormalValue(f, v)) == IsDefaultValue(f, v)
    decreases f, 0
  {
    if f.ltype.LSubmessage? {
      NormalShaped(f.sub, v.slots);
    }
  }

  lemma {:induction false} NormalSlotShaped(f: Field, slot: Slot)
    requires ValidField(f) && SlotOk(false, f, slot)
    ensures SlotOk(false, f, NormalSlot(f, slot))
    ensures IsActive(NormalSlot(f, slot)) == IsActive(slot)
    ensures f.htype.HOptional? && f.sizeOffset == 0 ==>
              IsDefaultValue(f, NormalSlot(f, slot).v) == IsDefaultValue(f, slot.v)
    decreases f, 1
  {
    match f.htype
    case HRequired => NormalValueShaped(f, slot.v);
    case HOptional =>
      if f.sizeOffset == 0 && IsDefaultValue(f, slot.v) {
        DefaultIsEmpty(f, slot.v);
      } else if f.sizeOffset != 0 && !slot.has {
        DefaultOk(f);
        OkIsShaped(f, Default(f));
      } else {
        NormalValueShaped(f, slot.v);
      }
    case HRepeated =>
      forall k | 0 <= k < |slot.items|
        ensures ValueOk(false, f, NormalItems(f, slot.items)[k])
      {
        NormalValueShaped(f, slot.items[k]);
      }
    case HOneof =>
      if slot.active.Some? {
        NormalValueShaped(f, slot.active.value);
      }
  }

  lemma {:induction false} NormalShaped(fields: seq<Field>, slots: seq<Slot>)
    requires ValidFields(fields) && Shaped(fields, slots)
    ensures Shaped(fields, NormalStruct(fields, slots))
    ensures AllDefault(fields, NormalStruct(fields, slots)) == AllDefault(fields, slots)
    decreases fields, 2
  {
    var n := NormalStruct(fields, slots);
    forall i | 0 <= i < |fields|
      ensures SlotOk(false, fields[i], n[i]) && IsActive(n[i]) == IsActive(slots[i])
    {
      assert ValidField(fields[i]) && SlotOk(false, fields[i], slots[i]);
      NormalSlotShaped(fields[i], slots[i]);
    }
    forall i | 0 <= i < |fields|
      ensures IsDefaultAt(fields, n, i) == IsDefaultAt(fields, slots, i)
    {
      assert ValidField(fields[i]) && SlotOk(false, fields[i], slots[i]);
      NormalSlotShaped(fields[i], slots[i]);
      assert UnionActive(fields, n, i) == UnionActive(fields, slots, i);
    }
    assert AllDefault(fields, slots) ==> forall i :: 0 <= i < |fields| ==> IsDefaultAt(fields, slots, i);
    assert AllDefault(fields, n) ==> forall i :: 0 <= i < |fields| ==> IsDefaultAt(fields, n, i);
  }

  // ----- it is well formed and has the same encoding -----

  lemma {:induction false} NormalValueOk(f: Field, v: Value)
    requires ValidField(f) && ValueOk(false, f, v) && ValueTerminated(f, v) && SerValue(f, v).Some?
    ensures var n := NormalValue(f, v);
            && ValueOk(true, f, n) && ValueOk(false, f, n) && SerValue(f, n) == SerValue(f, v)
            && (ValueSized(LENGTH_LIMIT, f, v) ==> ValueSized(LENGTH_LIMIT, f, n))
    decreases f, 0
  {
    NormalValueShaped(f, v);
    if f.ltype.LSubmessage? {
      NormalOk(f.sub, v.slots);
    }
  }

  lemma {:induction false} NormalItemsOk(f: Field, items: seq<Value>)
    requires ValidField(f) && ItemsOk(f, items) && SerUnpacked(f, items).Some?
    requires forall k :: 0 <= k < |items| ==> ValueTerminated(f, items[k])
    ensures ItemsOk(f, NormalItems(f, items)) && StrictItems(f, NormalItems(f, items))
    ensures SerUnpacked(f, NormalItems(f, items)) == SerUnpacked(f, items)
    ensures forall k :: 0 <= k < |items| && ValueSized(LENGTH_LIMIT, f, items[k]) ==>
              ValueSized(LENGTH_LIMIT, f, NormalItems(f, items)[k])
    decreases f, 1, |items|
  {
    var n := NormalItems(f, items);
    if items != [] {
      UnpackedSplit(f, items, []);
      NormalValueOk(f, items[0]);
      NormalItemsOk(f, items[1..]);
      assert n[1..] == NormalItems(f, items[1..]);
      assert n == [n[0]] + n[1..];
      forall k | 0 <= k < |items|
        ensures ValueOk(false, f, n[k]) && ValueOk(true, f, n[k])
        ensures ValueSized(LENGTH_LIMIT, f, items[k]) ==> ValueSized(LENGTH_LIMIT, f, n[k])
      {
        if k > 0 {
          assert n[k] == n[1..][k - 1] && items[k] == items[1..][k - 1];
        }
      }
    }
  }

  lemma {:induction false} NormalArrayOk(f: Field, items: seq<Value>)
    requires ValidField(f) && ItemsOk(f, items) && SerArray(f, items).Some?
    requires forall k :: 0 <= k < |items| ==> ValueTerminated(f, items[k])
    ensures ItemsOk(f, NormalItems(f, items)) && StrictItems(f, NormalItems(f, items)) && |items| <= f.arraySize
    ensures SerArray(f, NormalItems(f, items)) == SerArray(f, items)
    ensures ItemsSized(LENGTH_LIMIT, f, items) ==> ItemsSized(LENGTH_LIMIT, f, NormalItems(f, items))
    decreases f, 2
  {
    if f.ltype.Packable() {
      assert NormalItems(f, items) == items;
    } else if items != [] {
      NormalItemsOk(f, items);
    }
  }

  lemma {:induction false} NormalSlotOk(f: Field, slot: Slot)
    requires ValidField(f) && SlotOk(false, f, slot) && SlotTerminated(f, slot) && SerField(f, slot).Some?
    ensures SlotOk(true, f, NormalSlot(f, slot)) && SlotOk(false, f, NormalSlot(f, slot))
    ensures SerField(f, NormalSlot(f, slot)) == SerField(f, slot)
    ensures SlotSized(LENGTH_LIMIT, f, slot) ==> SlotSized(LENGTH_LIMIT, f, NormalSlot(f, slot))
    decreases f, 3
  {
    NormalSlotShaped(f, slot);
    match f.htype
    case HRequired => NormalValueOk(f, slot.v);
    case HOptional =>
      if (if f.sizeOffset != 0 then slot.has else !IsDefaultValue(f, slot.v)) {
        NormalValueOk(f, slot.v);
      } else {
        DefaultOk(f);
      }
    case HRepeated => NormalArrayOk(f, slot.items);
    case HOneof =>
      if slot.active.Some? {
        NormalValueOk(f, slot.active.value);
      }
  }

  lemma {:induction false} EachFieldSome(fields: seq<Field>, slots: seq<Slot>, i: nat, j: nat)
    requires Shaped(fields, slots) && i <= j < |fields| && SerFrom(fields, slots, i).Some?
    ensures SlotOk(false, fields[j], slots[j]) && SerField(fields[j], slots[j]).Some?
    decreases j - i
  {
    FromSplit(fields, slots, i);
    if i < j {
      EachFieldSome(fields, slots, i + 1, j);
    }
  }

  /** The first `n` fields in normal form, the others at their defaults. */
  function NormalFront(fields: seq<Field>, slots: seq<Slot>, n: nat): (m: seq<Slot>)
    requires Shaped(fields, slots) && n <= |fields|
    ensures |m| == |fields|
  {
    Mixed(fields, NormalStruct(fields, slots), n)
  }

  lemma {:induction false} NormalFrontOk(fields: seq<Field>, slots: seq<Slot>, n: nat)
    requires ValidFields(fields) && Shaped(fields, slots) && SerMsg(fields, slots).Some? && n <= |fields|
    requires forall j :: 0 <= j < n ==> SlotOk(false, fields[j], slots[j]) && SlotTerminated(fields[j], slots[j])
    ensures WellFormed(fields, NormalFront(fields, slots, n))
    decreases fields, 4
  {
    var m := NormalFront(fields, slots, n);
    DefaultsOk(fields);
    forall i | 0 <= i < |fields|
      ensures SlotOk(true, fields[i], m[i]) && (IsActive(m[i]) ==> IsActive(slots[i]))
    {
      assert ValidField(fields[i]);
      if i < n {
        EachFieldSome(fields, slots, 0, i);
        NormalSlotOk(fields[i], slots[i]);
        NormalSlotShaped(fields[i], slots[i]);
        assert m[i] == NormalSlot(fields[i], slots[i]);
      } else {
        assert m[i] == Defaults(fields)[i] == DefaultSlot(fields[i]);
      }
    }
  }

  lemma {:induction false} NormalEncodes(fields: seq<Field>, slots: seq<Slot>, i: nat)
    requires ValidFields(fields) && Shaped(fields, slots) && i <= |fields| && SerFrom(fields, slots, i).Some?
    requires Terminated(fields, slots) && Shaped(fields, NormalStruct(fields, slots))
    ensures SerFrom(fields, NormalStruct(fields, slots), i) == SerFrom(fields, slots, i)
    decreases fields, 4, |fields| - i
  {
    if i < |fields| {
      FromSplit(fields, slots, i);
      assert ValidField(fields[i]);
      NormalSlotOk(fields[i], slots[i]);
      NormalEncodes(fields, slots, i + 1);
    }
  }

  /** The normal form is well formed and has the same encoding. */
  lemma {:induction false} NormalOk(fields: seq<Field>, slots: seq<Slot>)
    requires ValidFields(fields) && Shaped(fields, slots) && Terminated(fields, slots) && SerMsg(fields, slots).Some?
    ensures var n := NormalStruct(fields, slots);
            && WellFormed(fields, n) && Shaped(fields, n) && SerMsg(fields, n) == SerMsg(fields, slots)
            && (Sized(LENGTH_LIMIT, fields, slots) ==> Sized(LENGTH_LIMIT, fields, n))
    decreases fields, 5
  {
    var n := NormalStruct(fields, slots);
    NormalShaped(fields, slots);
    NormalFrontOk(fields, slots, |fields|);
    assert NormalFront(fields, slots, |fields|) == n;
    NormalEncodes(fields, slots, 0);
    forall i | 0 <= i < |fields|
      ensures SlotOk(false, fields[i], n[i])
      ensures SlotSized(LENGTH_LIMIT, fields[i], slots[i]) ==> SlotSized(LENGTH_LIMIT, fields[i], n[i])
    {
      assert ValidField(fields[i]);
      EachFieldSome(fields, slots, 0, i);
      NormalSlotOk(fields[i], slots[i]);
    }
  }

  // ----- a string without terminator is rejected -----

  lemma {:induction false} ValueRejects(f: Field, v: Value, t: seq<byte>)
    requires ValidField(f) && ValueOk(false, f, v) && !ValueTerminated(f, v)
    requires SerValue(f, v).Some? && ValueSized(LENGTH_LIMIT, f, v)
    ensures DecValue(f, SerValue(f, v).value + t, Defaults(f.sub)) == Err
    decreases f, 0
  {
    if f.ltype.LSubmessage? {
      TakeDelimited(SerMsg(f.sub, v.slots).value, t);
      MsgRejects(f.sub, v.slots, 0, {});
      assert NormalFront(f.sub, v.slots, 0) == Defaults(f.sub);
    } else {
      TakeDelimited(v.bytes, t);
    }
  }

  lemma {:induction false} TaggedRejects(fields: seq<Field>, i: nat, v: Value, t: seq<byte>, m: seq<Slot>,
                                         seen: set<nat>)
    requires ValidFields(fields) && i < |fields| && |m| == |fields| && ValidField(fields[i])
    requires ValueOk(false, fields[i], v) && !ValueTerminated(fields[i], v)
    requires SerTagged(fields[i], v).Some? && ValueSized(LENGTH_LIMIT, fields[i], v)
    requires !fields[i].htype.HRepeated? ==> m[i] == DefaultSlot(fields[i])
    ensures DecLoop(fields, SerTagged(fields[i], v).value + t, m, seen) == Err
    decreases fields[i], 1
  {
    var f := fields[i];
    TaggedSplit(f, v, t);
    ValueRejects(f, v, t);
    BaseOfDefault(f);
    RecordFails(fields, i, WireType(f.ltype), SerTagged(f, v).value + t, SerValue(f, v).value + t, m, seen);
  }

  lemma {:induction false} BaseOfDefault(f: Field)
    requires ValidField(f)
    ensures StructOf(f, Default(f)) == Defaults(f.sub)
  {
  }

  lemma {:induction false} UnpackedRejects(fields: seq<Field>, i: nat, m: seq<Slot>, acc: seq<Value>, items: seq<Value>,
                                           t: seq<byte>, seen: set<nat>)
    requires ValidFields(fields) && i < |fields| && |m| == |fields| && ValidField(fields[i])
    requires fields[i].htype.HRepeated? && m[i] == Many(acc) && |acc| + |items| <= fields[i].arraySize
    requires ItemsOk(fields[i], items) && SerUnpacked(fields[i], items).Some?
    requires forall k :: 0 <= k < |items| ==> ValueSized(LENGTH_LIMIT, fields[i], items[k])
    requires exists k :: 0 <= k < |items| && !ValueTerminated(fields[i], items[k])
    ensures DecLoop(fields, SerUnpacked(fields[i], items).value + t, m, seen) == Err
    decreases fields[i], 2, |items|
  {
    var f, v, tail := fields[i], items[0], items[1..];
    UnpackedSplit(f, items, t);
    var rest := SerUnpacked(f, tail).value + t;
    if !ValueTerminated(f, v) {
      TaggedRejects(fields, i, v, rest, m, seen);
    } else {
      var n := NormalValue(f, v);
      NormalValueOk(f, v);
      ElementRoundTrip(fields, i, m, n, rest, seen);
      assert exists k :: 0 <= k < |tail| && !ValueTerminated(f, tail[k]) by {
        var k :| 0 <= k < |items| && !ValueTerminated(f, items[k]);
        assert tail[k - 1] == items[k];
      }
      UnpackedRejects(fields, i, m[i := Many(acc + [n])], acc + [n], tail, t, seen + {i});
    }
  }

  lemma {:induction false} FieldRejects(fields: seq<Field>, i: nat, slot: Slot, t: seq<byte>, m: seq<Slot>,
                                        seen: set<nat>)
    requires ValidFields(fields) && i < |fields| && |m| == |fields| && ValidField(fields[i])
    requires SlotOk(false, fields[i], slot) && !SlotTerminated(fields[i], slot)
    requires SerField(fields[i], slot).Some? && SlotSized(LENGTH_LIMIT, fields[i], slot)
    requires m[i] == DefaultSlot(fields[i])
    ensures DecLoop(fields, SerField(fields[i], slot).value + t, m, seen) == Err
    decreases fields[i], 3
  {
    var f := fields[i];
    match slot
    case Plain(v) => TaggedRejects(fields, i, v, t, m, seen);
    case Maybe(_, v) => TaggedRejects(fields, i, v, t, m, seen);
    case Many(items) => UnpackedRejects(fields, i, m, [], items, t, seen);
    case Member(active) => TaggedRejects(fields, i, active.value, t, m, seen);
  }

  // ----- one field after the other -----

  /** Decoding the encoding of a terminated field puts its normal form in place. */
  lemma {:induction false} FieldNormalises(fields: seq<Field>, slots: seq<Slot>, i: nat, t: seq<byte>, seen: set<nat>)
    returns (seen': set<nat>)
    requires ValidFields(fields) && Shaped(fields, slots) && SerMsg(fields, slots).Some? && i < |fields|
    requires forall j :: 0 <= j <= i ==> SlotOk(false, fields[j], slots[j]) && SlotTerminated(fields[j], slots[j])
    requires SerField(fields[i], slots[i]).Some? && SlotSized(LENGTH_LIMIT, fields[i], slots[i])
    ensures DecLoop(fields, SerField(fields[i], slots[i]).value + t, NormalFront(fields, slots, i), seen)
         == DecLoop(fields, t, NormalFront(fields, slots, i + 1), seen')
    ensures seen <= seen' && (fields[i].htype.HRequired? ==> i in seen')
  {
    var m := NormalFront(fields, slots, i + 1);
    assert ValidField(fields[i]);
    NormalFrontOk(fields, slots, i + 1);
    WellFormedIsShaped(fields, m);
    NormalSlotOk(fields[i], slots[i]);
    assert m[i] == NormalSlot(fields[i], slots[i]);
    assert Mixed(fields, m, i) == NormalFront(fields, slots, i) && Mixed(fields, m, i + 1) == m;
    seen' := FieldRoundTrip(fields, m, i, t, seen);
  }

  lemma {:induction false} MsgRejects(fields: seq<Field>, slots: seq<Slot>, i: nat, seen: set<nat>)
    requires ValidFields(fields) && Shaped(fields, slots) && i <= |fields|
    requires SerMsg(fields, slots).Some? && Sized(LENGTH_LIMIT, fields, slots) && !Terminated(fields, slots)
    requires SerFrom(fields, slots, i).Some?
    requires forall j :: 0 <= j < i ==> SlotOk(false, fields[j], slots[j]) && SlotTerminated(fields[j], slots[j])
    ensures DecLoop(fields, SerFrom(fields, slots, i).value, NormalFront(fields, slots, i), seen) == Err
    decreases fields, 4, |fields| - i
  {
    if i < |fields| {
      FromSplit(fields, slots, i);
      assert ValidField(fields[i]) && SlotSized(LENGTH_LIMIT, fields[i], slots[i]);
      var t := SerFrom(fields, slots, i + 1).value;
      if SlotTerminated(fields[i], slots[i]) {
        var seen' := FieldNormalises(fields, slots, i, t, seen);
        MsgRejects(fields, slots, i + 1, seen');
      } else {
        assert NormalFront(fields, slots, i)[i] == Defaults(fields)[i] == DefaultSlot(fields[i]);
        FieldRejects(fields, i, slots[i], t, NormalFront(fields, slots, i), seen);
      }
    }
  }
}
