/** The bytes `pb_encode` emits for a message, or nothing where it reports an error. */
module Serialize {
  import opened Wrappers
  import opened Bits
  import opened Varint
  import ZigZag
  import opened Descriptor
  import opened Parse

  type Output = Option<seq<byte>>

  function Join(a: Output, b: Output): Output {
    if a.Some? && b.Some? then Some(a.value + b.value) else None
  }

  function Key(tag: nat, wt: nat): seq<byte> {
    EncVarint(tag * 8 + wt)
  }

  /** `pb_encode_tag_for_field` */
  function WireType(t: LType): nat {
    match t
    case LVarint => WT_VARINT
    case LUVarint => WT_VARINT
    case LSVarint => WT_VARINT
    case LFixed32 => WT_32BIT
    case LFixed64 => WT_64BIT
    case _ => WT_STRING
  }

  /** A length prefix and the bytes it announces. */
  function Delimited(b: seq<byte>): seq<byte> {
    EncVarint(|b|) + b
  }

  function LittleEndian(v: nat, n: nat): (s: seq<byte>)
    ensures |s| == n
  {
    if n == 0 then [] else [v % 0x100] + LittleEndian(v / 0x100, n - 1)
  }

  /** `(uint64_t)value` */
  function AsWord64(n: int): int {
    if n < 0 then n + 0x1_0000_0000_0000_0000 else n
  }

  /** The encoder of a leaf field. */
  function SerLeaf(f: Field, v: Value): Output
    requires LeafOk(false, f, v)
  {
    match f.ltype
    case LVarint => if IntegerSize(f.dataSize) then Some(EncVarint(AsWord64(v.n))) else None
    case LUVarint => if IntegerSize(f.dataSize) then Some(EncVarint(v.n)) else None
    case LSVarint => if IntegerSize(f.dataSize) then Some(EncVarint(ZigZag.Interleaved(v.n))) else None
    case LFixed32 => Some(LittleEndian(v.n, 4))
    case LFixed64 => Some(LittleEndian(v.n, 8))
    case LBytes => if |v.bytes| + BYTES_HEADER > f.dataSize then None else Some(Delimited(v.bytes))
    case LString => Some(Delimited(v.bytes))
    case LFixedLengthBytes => Some(Delimited(v.bytes))
  }

  function SerValue(f: Field, v: Value): Output
    requires ValueOk(false, f, v)
    decreases f, 0
  {
    if !f.ltype.LSubmessage? then SerLeaf(f, v)
    else
      match SerMsg(f.sub, v.slots)
      case None => None
      case Some(b) => Some(Delimited(b))
  }

  /** Field key and value. */
  function SerTagged(f: Field, v: Value): Output
    requires ValueOk(false, f, v)
    decreases f, 1
  {
    Join(Some(Key(f.tag, WireType(f.ltype))), SerValue(f, v))
  }

  predicate ItemsOk(f: Field, items: seq<Value>) {
    forall k :: 0 <= k < |items| ==> ValueOk(false, f, items[k])
  }

  /** The elements of a packed array, one after the other. */
  function SerPacked(f: Field, items: seq<Value>): Output
    requires ItemsOk(f, items) && f.ltype.Packable()
  {
    if items == [] then Some([])
    else
      assert ValueOk(false, f, items[0]);
      Join(SerLeaf(f, items[0]), SerPacked(f, items[1..]))
  }

  /** One record per element. */
  function SerUnpacked(f: Field, items: seq<Value>): Output
    requires ItemsOk(f, items)
    decreases f, 2, |items|
  {
    if items == [] then Some([])
    else Join(SerTagged(f, items[0]), SerUnpacked(f, items[1..]))
  }

  /** `encode_array` */
  function SerArray(f: Field, items: seq<Value>): Output
    requires ItemsOk(f, items)
    decreases f, 3
  {
    if items == [] then Some([])
    else if |items| > f.arraySize then None
    else if f.ltype.Packable() then
      match SerPacked(f, items)
      case None => None
      case Some(body) => Some(Key(f.tag, WT_STRING) + Delimited(body))
    else SerUnpacked(f, items)
  }

  // ----- proto3 presence -----

  /** `which` of the union that field `i` belongs to is nonzero. */
  predicate UnionActive(fields: seq<Field>, slots: seq<Slot>, i: nat)
    requires i < |fields| && |slots| == |fields|
  {
    exists j :: 0 <= j < |fields| && SameUnion(fields, i, j) && IsActive(slots[j])
  }

  predicate ZeroLeafValue(f: Field, v: Value)
    requires LeafOk(false, f, v)
  {
    match f.ltype
    case LBytes => v.bytes == []
    case LString => v.bytes == []
    case LFixedLengthBytes => f.dataSize == 0
    case LVarint => v.n == 0
    case LUVarint => v.n == 0
    case LSVarint => v.n == 0
    case LFixed32 => v.n == 0
    case LFixed64 => v.n == 0
  }

  /** `pb_check_proto3_default_value` for a field without `has_` member. */
  predicate IsDefaultValue(f: Field, v: Value)
    requires ValueOk(false, f, v)
    decreases f, 0
  {
    if f.ltype.LSubmessage? then AllDefault(f.sub, v.slots) else ZeroLeafValue(f, v)
  }

  /** `pb_check_proto3_default_value` for the field at position `i` of a struct. */
  predicate IsDefaultAt(fields: seq<Field>, slots: seq<Slot>, i: nat)
    requires MsgOk(false, fields, slots) && i < |fields|
    decreases fields, 0
  {
    assert SlotOk(false, fields[i], slots[i]);
    match fields[i].htype
    case HRequired => false
    case HRepeated => slots[i].items == []
    case HOneof => !UnionActive(fields, slots, i)
    case HOptional =>
      if fields[i].sizeOffset != 0 then !slots[i].has else IsDefaultValue(fields[i], slots[i].v)
  }

  predicate AllDefault(fields: seq<Field>, slots: seq<Slot>)
    requires MsgOk(false, fields, slots)
    decreases fields, 1
  {
    forall i :: 0 <= i < |fields| ==> IsDefaultAt(fields, slots, i)
  }

  // ----- messages -----

  /** `encode_basic_field` */
  function SerField(f: Field, slot: Slot): Output
    requires SlotOk(false, f, slot)
    decreases f, 4
  {
    match f.htype
    case HRequired => SerTagged(f, slot.v)
    case HOptional =>
      if (if f.sizeOffset != 0 then slot.has else !IsDefaultValue(f, slot.v)) then SerTagged(f, slot.v)
      else Some([])
    case HRepeated => SerArray(f, slot.items)
    case HOneof => if slot.active.Some? then SerTagged(f, slot.active.value) else Some([])
  }

  function SerFrom(fields: seq<Field>, slots: seq<Slot>, i: nat): Output
    requires MsgOk(false, fields, slots) && i <= |fields|
    decreases fields, 0, |fields| - i
  {
    if i == |fields| then Some([])
    else Join(SerField(fields[i], slots[i]), SerFrom(fields, slots, i + 1))
  }

  /** `pb_encode` */
  function SerMsg(fields: seq<Field>, slots: seq<Slot>): Output
    requires MsgOk(false, fields, slots)
    decreases fields, 1
  {
    SerFrom(fields, slots, 0)
  }
}
