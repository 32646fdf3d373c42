/** Field descriptors (`pb_field_t`) and the message structs they describe.

    A struct in memory is seen as one slot per field: a string up to its terminator, an array up
    to its count, a union through its `which` member. */
module Descriptor {
  import opened Wrappers
  import opened Bits

  /** `PB_SIZE_MAX` of the 32-bit field configuration; marks a further member of a union. */
  const PB_SIZE_MAX: nat := 0xFFFF_FFFF

  /** Room taken by the size member in front of a `bytes` array. */
  const BYTES_HEADER: nat := 4

  const VOID_PTR_SIZE: nat := 8

  /** Number of required fields whose presence is tracked. */
  const MAX_REQUIRED: nat := 64

  datatype LType =
    | LVarint | LUVarint | LSVarint | LFixed32 | LFixed64
    | LBytes | LString | LSubmessage | LExtension | LFixedLengthBytes
  {
    predicate Packable() {
      LVarint? || LUVarint? || LSVarint? || LFixed32? || LFixed64?
    }
  }

  datatype HType = HRequired | HOptional | HRepeated | HOneof

  datatype AType = AStatic | APointer | ACallback

  datatype Field = Field(
    tag: nat, ltype: LType, htype: HType, atype: AType,
    dataOffset: nat, sizeOffset: int, dataSize: nat, arraySize: nat,
    sub: seq<Field>, dflt: Option<Value>)
  {
    /** Optional field with a `has_` member, as opposed to a proto3 singular field. */
    predicate HasFlag() {
      htype.HOptional? && sizeOffset != 0
    }
  }

  datatype Value = Num(n: int) | Blob(bytes: seq<byte>) | Struct(slots: seq<Slot>)

  datatype Slot =
    | Plain(v: Value)                  // required or proto3 singular
    | Maybe(has: bool, v: Value)       // optional, with its has_ member
    | Many(items: seq<Value>)          // repeated, up to its count
    | Member(active: Option<Value>)    // union member: its value when `which` is its tag

  /** The unions of a message: consecutive oneof fields that share their storage have the same
      leader. */
  function UnionOf(fields: seq<Field>, i: nat): (u: nat)
    requires i < |fields|
    ensures u <= i
  {
    if i > 0 && JoinsUnion(fields[i - 1], fields[i]) then UnionOf(fields, i - 1) else i
  }

  predicate JoinsUnion(prev: Field, cur: Field) {
    prev.htype.HOneof? && cur.htype.HOneof? && cur.dataOffset == PB_SIZE_MAX
  }

  predicate SameUnion(fields: seq<Field>, i: nat, j: nat)
    requires i < |fields| && j < |fields|
  {
    fields[i].htype.HOneof? && fields[j].htype.HOneof? && UnionOf(fields, i) == UnionOf(fields, j)
  }

  // ----- values a field can hold -----

  predicate SignedFits(n: int, size: nat) {
    match size
    case 1 => -0x80 <= n < 0x80
    case 2 => -0x8000 <= n < 0x8000
    case 4 => -0x8000_0000 <= n < 0x8000_0000
    case 8 => -0x8000_0000_0000_0000 <= n < 0x8000_0000_0000_0000
    case _ => false
  }

  predicate UnsignedFits(n: int, size: nat) {
    match size
    case 1 => 0 <= n < 0x100
    case 2 => 0 <= n < 0x1_0000
    case 4 => 0 <= n < 0x1_0000_0000
    case 8 => 0 <= n < 0x1_0000_0000_0000_0000
    case _ => false
  }

  predicate IntegerSize(size: nat) {
    size == 1 || size == 2 || size == 4 || size == 8
  }

  /** What the C type of a leaf field can hold. With `strict`, the array bounds and the string
      terminator are respected as well. */
  predicate LeafOk(strict: bool, f: Field, v: Value) {
    match f.ltype
    case LVarint => v.Num? && (SignedFits(v.n, f.dataSize) || (!strict && !IntegerSize(f.dataSize)))
    case LSVarint => v.Num? && (SignedFits(v.n, f.dataSize) || (!strict && !IntegerSize(f.dataSize)))
    case LUVarint => v.Num? && (UnsignedFits(v.n, f.dataSize) || (!strict && !IntegerSize(f.dataSize)))
    case LFixed32 => v.Num? && UnsignedFits(v.n, 4)
    case LFixed64 => v.Num? && UnsignedFits(v.n, 8)
    case LBytes => v.Blob? && |v.bytes| <= PB_SIZE_MAX && (strict ==> |v.bytes| + BYTES_HEADER <= f.dataSize)
    case LString => v.Blob? && 0 !in v.bytes && |v.bytes| <= f.dataSize && (strict ==> |v.bytes| < f.dataSize)
    case LFixedLengthBytes => v.Blob? && |v.bytes| == f.dataSize
    case LSubmessage => false
    case LExtension => false
  }

  predicate ValueOk(strict: bool, f: Field, v: Value)
    decreases f, 1
  {
    if f.ltype.LSubmessage? then v.Struct? && MsgOk(strict, f.sub, v.slots) else LeafOk(strict, f, v)
  }

  predicate SlotOk(strict: bool, f: Field, slot: Slot)
    decreases f, 2
  {
    match f.htype
    case HRequired => slot.Plain? && ValueOk(strict, f, slot.v)
    case HOptional =>
      if f.sizeOffset == 0 then slot.Plain? && ValueOk(strict, f, slot.v)
      else slot.Maybe? && ValueOk(strict, f, slot.v) && (strict && !slot.has ==> slot.v == Default(f))
    case HRepeated =>
      && slot.Many?
      && (strict ==> |slot.items| <= f.arraySize)
      && forall k :: 0 <= k < |slot.items| ==> ValueOk(strict, f, slot.items[k])
    case HOneof => slot.Member? && (slot.active.Some? ==> ValueOk(strict, f, slot.active.value))
  }

  /** A struct the C types allow; with `strict`, one that keeps every documented convention. */
  predicate MsgOk(strict: bool, fields: seq<Field>, slots: seq<Slot>)
    decreases fields, 3
  {
    && |slots| == |fields|
    && (forall i :: 0 <= i < |fields| ==> SlotOk(strict, fields[i], slots[i]))
    && Exclusive(fields, slots)
  }

  predicate IsActive(slot: Slot) {
    slot.Member? && slot.active.Some?
  }

  /** A union holds one member at a time. */
  predicate Exclusive(fields: seq<Field>, slots: seq<Slot>)
    requires |slots| == |fields|
  {
    forall i, j :: 0 <= i < |fields| && 0 <= j < |fields| && i != j && SameUnion(fields, i, j) ==>
      !(IsActive(slots[i]) && IsActive(slots[j]))
  }

  predicate Shaped(fields: seq<Field>, slots: seq<Slot>) {
    MsgOk(false, fields, slots)
  }

  predicate WellFormed(fields: seq<Field>, slots: seq<Slot>) {
    MsgOk(true, fields, slots)
  }

  // ----- defaults -----

  function ZeroLeaf(f: Field): Value {
    match f.ltype
    case LBytes => Blob([])
    case LString => Blob([])
    case LFixedLengthBytes => Blob(seq(f.dataSize, _ => 0))
    case _ => Num(0)
  }

  /** The value `pb_field_set_to_default` leaves in a field's data member. */
  function Default(f: Field): Value
    decreases f, 0
  {
    if f.ltype.LSubmessage? then Struct(Defaults(f.sub))
    else if f.dflt.Some? then f.dflt.value
    else ZeroLeaf(f)
  }

  function DefaultSlot(f: Field): Slot
    decreases f, 1
  {
    match f.htype
    case HRequired => Plain(Default(f))
    case HOptional => if f.sizeOffset == 0 then Plain(Default(f)) else Maybe(false, Default(f))
    case HRepeated => Many([])
    case HOneof => Member(None)
  }

  /** `pb_message_set_to_defaults` */
  function Defaults(fields: seq<Field>): (slots: seq<Slot>)
    ensures |slots| == |fields|
    decreases fields, 2
  {
    seq(|fields|, i requires 0 <= i < |fields| => DefaultSlot(fields[i]))
  }

  // ----- what a struct holds before anything is decoded into it -----

  /** The declared default where there is one; otherwise zero, nothing, or all zero bytes. */
  predicate InitialValue(f: Field, v: Value)
    decreases f, 0
  {
    if f.ltype.LSubmessage? then v.Struct? && InitialStruct(f.sub, v.slots)
    else if f.dflt.Some? then v == f.dflt.value
    else if f.ltype.LBytes? || f.ltype.LString? then v == Blob([])
    else if f.ltype.LFixedLengthBytes? then
      v.Blob? && |v.bytes| == f.dataSize && forall k :: 0 <= k < f.dataSize ==> v.bytes[k] == 0
    else v == Num(0)
  }

  /** Optional fields are absent, arrays empty and unions without a member in use. */
  predicate InitialSlot(f: Field, slot: Slot)
    decreases f, 1
  {
    match f.htype
    case HRequired => slot.Plain? && InitialValue(f, slot.v)
    case HOptional =>
      if f.sizeOffset == 0 then slot.Plain? && InitialValue(f, slot.v)
      else slot.Maybe? && !slot.has && InitialValue(f, slot.v)
    case HRepeated => slot == Many([])
    case HOneof => slot == Member(None)
  }

  predicate InitialStruct(fields: seq<Field>, slots: seq<Slot>)
    decreases fields, 2
  {
    |slots| == |fields| && forall i :: 0 <= i < |fields| ==> InitialSlot(fields[i], slots[i])
  }

  lemma {:induction false} DefaultIsInitial(f: Field)
    ensures InitialValue(f, Default(f))
    decreases f, 0
  {
    if f.ltype.LSubmessage? {
      DefaultsAreInitial(f.sub);
    }
  }

  lemma {:induction false} DefaultSlotIsInitial(f: Field)
    ensures InitialSlot(f, DefaultSlot(f))
    decreases f, 1
  {
    DefaultIsInitial(f);
  }

  /** The struct that decoding starts from holds the initial values. */
  lemma {:induction false} DefaultsAreInitial(fields: seq<Field>)
    ensures InitialStruct(fields, Defaults(fields))
    decreases fields, 2
  {
    forall i | 0 <= i < |fields|
      ensures InitialSlot(fields[i], Defaults(fields)[i])
    {
      DefaultSlotIsInitial(fields[i]);
      assert Defaults(fields)[i] == DefaultSlot(fields[i]);
    }
  }

  lemma {:induction false} InitialValueUnique(f: Field, v: Value, w: Value)
    requires InitialValue(f, v) && InitialValue(f, w)
    ensures v == w
    decreases f, 0
  {
    if f.ltype.LSubmessage? {
      InitialUnique(f.sub, v.slots, w.slots);
    } else if f.dflt.None? && f.ltype.LFixedLengthBytes? {
      assert v.bytes == w.bytes;
    }
  }

  /** There is one initial struct. */
  lemma {:induction false} InitialUnique(fields: seq<Field>, m: seq<Slot>, n: seq<Slot>)
    requires InitialStruct(fields, m) && InitialStruct(fields, n)
    ensures m == n
    decreases fields, 2
  {
    forall i | 0 <= i < |fields|
      ensures m[i] == n[i]
    {
      assert InitialSlot(fields[i], m[i]) && InitialSlot(fields[i], n[i]);
      if fields[i].htype.HRequired? || fields[i].htype.HOptional? {
        InitialValueUnique(fields[i], m[i].v, n[i].v);
      }
    }
  }

  // ----- descriptors the generator emits -----

  predicate DistinctTags(fields: seq<Field>) {
    forall i, j :: 0 <= i < j < |fields| ==> fields[i].tag != fields[j].tag
  }

  predicate SizeOk(f: Field) {
    match f.ltype
    case LVarint => IntegerSize(f.dataSize)
    case LUVarint => IntegerSize(f.dataSize)
    case LSVarint => IntegerSize(f.dataSize)
    case LFixed32 => f.dataSize == 4
    case LFixed64 => f.dataSize == 8
    case LBytes => f.dataSize >= BYTES_HEADER
    case LString => f.dataSize >= 1
    case LSubmessage => true
    case LFixedLengthBytes => true
    case LExtension => false
  }

  /** A statically allocated field as the generator's macros emit it. */
  predicate ValidField(f: Field)
    decreases f, 0
  {
    && 1 <= f.tag < 0x2000_0000
    && f.atype.AStatic?
    && f.dataSize <= PB_SIZE_MAX
    && SizeOk(f)
    && (f.htype.HRepeated? || f.htype.HOneof? ==> f.sizeOffset != 0)
    && (f.dflt.Some? ==> !f.ltype.LSubmessage? && LeafOk(true, f, f.dflt.value))
    && (f.dflt.Some? && f.htype.HOptional? ==> f.sizeOffset != 0)
    && (f.ltype.LSubmessage? ==> ValidFields(f.sub))
  }

  predicate ValidFields(fields: seq<Field>)
    decreases fields, 1
  {
    DistinctTags(fields) && forall i :: 0 <= i < |fields| ==> ValidField(fields[i])
  }

  // ----- finding a field and counting the required ones -----

  /** Position of the first non-extension field with a tag. */
  function FindField(fields: seq<Field>, tag: nat): (r: Option<nat>)
    ensures r.Some? ==> r.value < |fields| && Matches(fields[r.value], tag)
    ensures r.None? ==> forall i :: 0 <= i < |fields| ==> !Matches(fields[i], tag)
  {
    if fields == [] then None
    else if Matches(fields[0], tag) then Some(0)
    else
      match FindField(fields[1..], tag)
      case None => None
      case Some(i) => Some(i + 1)
  }

  predicate Matches(f: Field, tag: nat) {
    f.tag == tag && !f.ltype.LExtension?
  }

  /** How many of the first `n` fields are required. */
  function RequiredBefore(fields: seq<Field>, n: nat): (c: nat)
    requires n <= |fields|
    ensures c <= n
  {
    if n == 0 then 0
    else RequiredBefore(fields, n - 1) + if fields[n - 1].htype.HRequired? then 1 else 0
  }

  lemma {:induction false} FindOwnTag(fields: seq<Field>, i: nat)
    requires i < |fields| && DistinctTags(fields) && !fields[i].ltype.LExtension?
    ensures FindField(fields, fields[i].tag) == Some(i)
  {
    assert Matches(fields[i], fields[i].tag);
  }

  // ----- defaults are well formed -----

  lemma {:induction false} ZeroLeafOk(f: Field)
    requires SizeOk(f) && !f.ltype.LSubmessage?
    ensures LeafOk(true, f, ZeroLeaf(f))
  {
  }

  lemma {:induction false} DefaultOk(f: Field)
    requires ValidField(f)
    ensures ValueOk(true, f, Default(f))
    decreases f, 0
  {
    if f.ltype.LSubmessage? {
      DefaultsOk(f.sub);
    } else {
      ZeroLeafOk(f);
    }
  }

  /** Initialising a struct leaves it well formed. */
  lemma {:induction false} DefaultsOk(fields: seq<Field>)
    requires ValidFields(fields)
    ensures WellFormed(fields, Defaults(fields))
    decreases fields, 1
  {
    var slots := Defaults(fields);
    forall i | 0 <= i < |fields|
      ensures SlotOk(true, fields[i], slots[i])
    {
      DefaultOk(fields[i]);
      assert slots[i] == DefaultSlot(fields[i]);
    }
  }

  /** What is well formed is in particular allowed by the C types. */
  lemma {:induction false} WellFormedIsShaped(fields: seq<Field>, slots: seq<Slot>)
    requires WellFormed(fields, slots)
    ensures Shaped(fields, slots)
    decreases fields, 1
  {
    forall i | 0 <= i < |fields|
      ensures SlotOk(false, fields[i], slots[i])
    {
      var f, slot := fields[i], slots[i];
      assert SlotOk(true, f, slot);
      match slot
      case Plain(v) => OkIsShaped(f, v);
      case Maybe(has, v) => OkIsShaped(f, v);
      case Many(items) =>
        forall k | 0 <= k < |items|
          ensures ValueOk(false, f, items[k])
        {
          OkIsShaped(f, items[k]);
        }
      case Member(active) =>
        if active.Some? {
          OkIsShaped(f, active.value);
        }
    }
  }

  lemma {:induction false} OkIsShaped(f: Field, v: Value)
    requires ValueOk(true, f, v)
    ensures ValueOk(false, f, v)
    decreases f, 0
  {
    if f.ltype.LSubmessage? {
      WellFormedIsShaped(f.sub, v.slots);
    }
  }
}
