/** Decoding undoes encoding: on exactly the bytes `pb_encode` emits, `pb_decode` gives back the
    message, for every descriptor and every well-formed message nested to any depth. */
module RoundTrip {
  import opened Wrappers
  import opened Bits
  import opened Varint
  import ZigZag
  import opened Descriptor
  import opened Parse
  import opened Serialize
  import opened Canonical
  import opened Sizes

  // ----- leaves -----

  lemma {:induction false} WordOfInt(n: int, size: nat)
    requires SignedFits(n, size)
    ensures 0 <= AsWord64(n) < 0x1_0000_0000_0000_0000
    ensures size == 8 ==> AsInt64(AsWord64(n)) == n
    ensures size != 8 ==> AsInt32(Low32(AsWord64(n))) == n
  {
    if size != 8 && n < 0 {
      WrapMultiple(n + 0x1_0000_0000, 0x1_0000_0000, 0xFFFF_FFFF);
      assert AsWord64(n) == n + 0x1_0000_0000 + 0xFFFF_FFFF * 0x1_0000_0000;
    }
  }

  lemma {:induction false} VarintLeaf(f: Field, v: Value, t: seq<byte>)
    requires f.ltype.LVarint? || f.ltype.LUVarint? || f.ltype.LSVarint?
    requires LeafOk(true, f, v)
    ensures SerLeaf(f, v).Some?
    ensures DecLeaf(f, SerLeaf(f, v).value + t) == Ok(v, t)
  {
    match f.ltype
    case LVarint =>
      WordOfInt(v.n, f.dataSize);
      VarintRoundTrip(AsWord64(v.n), t);
    case LUVarint => VarintRoundTrip(v.n, t);
    case LSVarint => VarintRoundTrip(ZigZag.Interleaved(v.n), t);
  }

  lemma {:induction false} LittleEndianRoundTrip(v: nat, n: nat)
    requires v < Pow2(8 * n)
    ensures FromLittleEndian(LittleEndian(v, n)) == v
    decreases n
  {
    if n > 0 {
      Pow2Small();
      Pow2Add(8, 8 * (n - 1));
      LittleEndianRoundTrip(v / 0x100, n - 1);
      assert LittleEndian(v, n)[1..] == LittleEndian(v / 0x100, n - 1);
    }
  }

  lemma {:induction false} FixedLeaf(v: nat, n: nat, t: seq<byte>)
    requires n == 4 || n == 8
    requires UnsignedFits(v, n)
    ensures Fixed(LittleEndian(v, n) + t, n) == Ok(Num(v), t)
  {
    Pow2Word();
    Pow2Long();
    LittleEndianRoundTrip(v, n);
    var s := LittleEndian(v, n) + t;
    assert s[..n] == LittleEndian(v, n) && s[n..] == t;
  }

  /** A length-delimited byte string is read back whole. */
  lemma {:induction false} TakeDelimited(b: seq<byte>, t: seq<byte>)
    requires |b| < LENGTH_LIMIT
    ensures DecVarint32(Delimited(b) + t) == Ok(|b|, b + t)
    ensures Take(b + t, |b|) == Ok(b, t)
    ensures TakeString(Delimited(b) + t) == Ok(b, t)
  {
    Varint32RoundTrip(|b|, b + t);
    assert Delimited(b) + t == EncVarint(|b|) + (b + t);
    assert (b + t)[..|b|] == b && (b + t)[|b|..] == t;
  }

  lemma {:induction false} LeafRoundTrip(f: Field, v: Value, t: seq<byte>)
    requires LeafOk(true, f, v) && SizeOk(f) && f.dataSize <= PB_SIZE_MAX
    ensures SerLeaf(f, v).Some?
    ensures DecLeaf(f, SerLeaf(f, v).value + t) == Ok(v, t)
  {
    match f.ltype
    case LFixed32 => FixedLeaf(v.n, 4, t);
    case LFixed64 => FixedLeaf(v.n, 8, t);
    case LBytes => TakeDelimited(v.bytes, t);
    case LString => TakeDelimited(v.bytes, t);
    case LFixedLengthBytes =>
      TakeDelimited(v.bytes, t);
      if v.bytes == [] {
        assert v == ZeroLeaf(f);
      }
    case _ => VarintLeaf(f, v, t);
  }

  // ----- packed arrays -----

  lemma {:induction false} PackedNext(f: Field, v: Value, s: seq<byte>, t: seq<byte>, acc: seq<Value>)
    requires DecLeaf(f, s) == Ok(v, t) && |acc| < f.arraySize
    ensures DecPacked(f, s, acc) == DecPacked(f, t, acc + [v])
  {
  }

  lemma {:induction false} PackedSplit(f: Field, items: seq<Value>)
    requires f.ltype.Packable() && ItemsOk(f, items) && LeavesOk(f, items) && items != []
    ensures ItemsOk(f, items[1..]) && LeavesOk(f, items[1..]) && LeafOk(true, f, items[0]) && LeafOk(false, f, items[0])
    ensures SerPacked(f, items) == Join(SerLeaf(f, items[0]), SerPacked(f, items[1..]))
  {
    assert ValueOk(false, f, items[0]);
  }

  lemma {:induction false} AppendHead(acc: seq<Value>, items: seq<Value>)
    requires items != []
    ensures acc + [items[0]] + items[1..] == acc + items
  {
  }

  lemma {:induction false} PackedRoundTrip(f: Field, items: seq<Value>, acc: seq<Value>)
    requires SizeOk(f) && f.ltype.Packable() && f.dataSize <= PB_SIZE_MAX
    requires LeavesOk(f, items) && ItemsOk(f, items)
    requires |acc| + |items| <= f.arraySize
    ensures SerPacked(f, items).Some?
    ensures DecPacked(f, SerPacked(f, items).value, acc) == Some(acc + items)
    decreases |items|
  {
    if items == [] {
      assert acc + items == acc;
    } else {
      var head, tail := items[0], items[1..];
      PackedSplit(f, items);
      AppendHead(acc, items);
      PackedRoundTrip(f, tail, acc + [head]);
      LeafRoundTrip(f, head, SerPacked(f, tail).value);
      PackedNext(f, head, SerPacked(f, items).value, SerPacked(f, tail).value, acc);
    }
  }

  lemma {:induction false} PackedSome(f: Field, items: seq<Value>)
    requires SizeOk(f) && f.ltype.Packable() && f.dataSize <= PB_SIZE_MAX
    requires LeavesOk(f, items) && ItemsOk(f, items)
    ensures SerPacked(f, items).Some?
  {
    if items != [] {
      LeafRoundTrip(f, items[0], []);
      PackedSome(f, items[1..]);
    }
  }

  lemma {:induction false} LeafNotEmpty(f: Field, v: Value)
    requires LeafOk(false, f, v) && SerLeaf(f, v).Some?
    ensures SerLeaf(f, v).value != []
  {
  }

  // ----- a proto3 singular field is left out exactly when decoding would restore it -----

  lemma {:induction false} DefaultValueIsDefault(f: Field, v: Value)
    requires ValidField(f) && ValueOk(true, f, v) && ValueOk(false, f, v)
    requires f.htype.HOptional? && f.sizeOffset == 0
    requires IsDefaultValue(f, v)
    ensures v == Default(f)
    decreases f, 0
  {
    if f.ltype.LSubmessage? {
      AllDefaultIsDefaults(f.sub, v.slots);
    } else if f.ltype.LFixedLengthBytes? {
      assert v.bytes == [];
    }
  }

  /** The proto3 check finds nothing to encode only in the struct that decoding starts from. */
  lemma {:induction false} AllDefaultIsDefaults(fields: seq<Field>, slots: seq<Slot>)
    requires ValidFields(fields) && WellFormed(fields, slots) && Shaped(fields, slots)
    requires AllDefault(fields, slots)
    ensures slots == Defaults(fields)
    decreases fields, 1
  {
    forall i | 0 <= i < |fields|
      ensures slots[i] == Defaults(fields)[i]
    {
      var f := fields[i];
      assert IsDefaultAt(fields, slots, i) && ValidField(f);
      assert SlotOk(true, f, slots[i]) && SlotOk(false, f, slots[i]);
      assert Defaults(fields)[i] == DefaultSlot(f);
      if f.htype.HOptional? && f.sizeOffset == 0 {
        DefaultValueIsDefault(f, slots[i].v);
      } else if f.htype.HOneof? {
        assert SameUnion(fields, i, i);
      }
    }
  }

  // ----- one record -----

  /** The struct after the first `i` fields have been decoded. */
  function Mixed(fields: seq<Field>, slots: seq<Slot>, i: nat): (m: seq<Slot>)
    requires |slots| == |fields| && i <= |fields|
    ensures |m| == |fields|
  {
    slots[..i] + Defaults(fields)[i..]
  }

  lemma {:induction false} KeyRoundTrip(tag: nat, wt: nat, t: seq<byte>)
    requires 1 <= tag < 0x2000_0000 && wt < 8
    ensures DecVarint32(Key(tag, wt) + t) == Ok(tag * 8 + wt, t)
    ensures (tag * 8 + wt) / 8 == tag && (tag * 8 + wt) % 8 == wt
  {
    Varint32RoundTrip(tag * 8 + wt, t);
  }

  lemma {:induction false} RecordOfField(fields: seq<Field>, i: nat, wt: nat, body: seq<byte>, m: seq<Slot>)
    requires ValidFields(fields) && i < |fields| && |m| == |fields|
    ensures DecRecord(fields, fields[i].tag, wt, body, m) == DecField(fields, i, wt, body, m)
    ensures FindField(fields, fields[i].tag) == Some(i)
  {
    assert ValidField(fields[i]);
    FindOwnTag(fields, i);
  }

  /** A record whose field decodes is consumed by one round of the loop. */
  lemma {:induction false} RecordStep(fields: seq<Field>, i: nat, wt: nat, s: seq<byte>, body: seq<byte>, m: seq<Slot>,
                                      seen: set<nat>, m': seq<Slot>, t: seq<byte>)
    requires ValidFields(fields) && i < |fields| && |m| == |fields| && wt < 8
    requires s == Key(fields[i].tag, wt) + body
    requires DecField(fields, i, wt, body, m) == Ok(m', t)
    ensures DecLoop(fields, s, m, seen) == DecLoop(fields, t, m', seen + {i})
  {
    var tag := fields[i].tag;
    assert ValidField(fields[i]);
    KeyRoundTrip(tag, wt, body);
    RecordOfField(fields, i, wt, body, m);
    assert s != [] && MarkSeen(fields, tag, seen) == seen + {i};
  }

  /** A record whose field does not decode ends the loop. */
  lemma {:induction false} RecordFails(fields: seq<Field>, i: nat, wt: nat, s: seq<byte>, body: seq<byte>, m: seq<Slot>,
                                       seen: set<nat>)
    requires ValidFields(fields) && i < |fields| && |m| == |fields| && wt < 8
    requires s == Key(fields[i].tag, wt) + body
    requires DecField(fields, i, wt, body, m) == Err
    ensures DecLoop(fields, s, m, seen) == Err
  {
    assert ValidField(fields[i]);
    KeyRoundTrip(fields[i].tag, wt, body);
    RecordOfField(fields, i, wt, body, m);
  }

  lemma {:induction false} MixedStep(fields: seq<Field>, slots: seq<Slot>, i: nat)
    requires |slots| == |fields| && i < |fields|
    ensures Mixed(fields, slots, i)[i] == DefaultSlot(fields[i])
    ensures Mixed(fields, slots, i)[i := slots[i]] == Mixed(fields, slots, i + 1)
    ensures slots[i] == DefaultSlot(fields[i]) ==> Mixed(fields, slots, i + 1) == Mixed(fields, slots, i)
  {
    assert Defaults(fields)[i] == DefaultSlot(fields[i]);
  }

  /** Selecting the union member of a well-formed struct disturbs no other field. */
  lemma {:induction false} SelectStep(fields: seq<Field>, slots: seq<Slot>, i: nat)
    requires WellFormed(fields, slots) && i < |fields|
    requires fields[i].htype.HOneof? && IsActive(slots[i])
    ensures Select(fields, Mixed(fields, slots, i), i, slots[i].active.value) == Mixed(fields, slots, i + 1)
  {
    var m, m' := Mixed(fields, slots, i), Mixed(fields, slots, i + 1);
    var r := Select(fields, m, i, slots[i].active.value);
    forall j | 0 <= j < |fields|
      ensures r[j] == m'[j]
    {
      if j != i && SameUnion(fields, i, j) {
        assert SlotOk(true, fields[j], slots[j]);
        assert !(IsActive(slots[i]) && IsActive(slots[j]));
        assert Defaults(fields)[j] == DefaultSlot(fields[j]);
      }
    }
  }

  // ----- whole messages -----

  lemma {:induction false} ValueRoundTrip(f: Field, v: Value, t: seq<byte>, base: seq<Slot>)
    requires ValidField(f) && ValueOk(true, f, v) && ValueOk(false, f, v)
    requires SerValue(f, v).Some? && ValueSized(LENGTH_LIMIT, f, v)
    requires |base| == |f.sub| && (f.ltype.LSubmessage? ==> base == Defaults(f.sub))
    ensures DecValue(f, SerValue(f, v).value + t, base) == Ok(v, t)
    decreases f, 0
  {
    if f.ltype.LSubmessage? {
      var b := SerMsg(f.sub, v.slots).value;
      var seen := MsgRoundTrip(f.sub, v.slots, 0, {});
      assert Mixed(f.sub, v.slots, 0) == Defaults(f.sub);
      TakeDelimited(b, t);
      assert DecNoInit(f.sub, b, base) == Ok(v.slots, []);
    } else {
      LeafRoundTrip(f, v, t);
    }
  }

  /** What decoding a value makes of field `i` of a struct decoded so far. */
  lemma {:induction false} SingleField(fields: seq<Field>, slots: seq<Slot>, i: nat, wt: nat, s: seq<byte>,
                                       t: seq<byte>)
    requires i < |fields| && |slots| == |fields|
    requires SlotOk(true, fields[i], slots[i])
    requires slots[i].Plain? || (slots[i].Maybe? && slots[i].has)
    requires var base := StructOf(fields[i], Default(fields[i])); DecValue(fields[i], s, base) == Ok(slots[i].v, t)
    ensures DecField(fields, i, wt, s, Mixed(fields, slots, i)) == Ok(Mixed(fields, slots, i + 1), t)
  {
    MixedStep(fields, slots, i);
  }

  lemma {:induction false} OneofField(fields: seq<Field>, slots: seq<Slot>, i: nat, wt: nat, s: seq<byte>, t: seq<byte>)
    requires WellFormed(fields, slots) && i < |fields|
    requires fields[i].htype.HOneof? && IsActive(slots[i])
    requires DecValue(fields[i], s, Defaults(fields[i].sub)) == Ok(slots[i].active.value, t)
    ensures DecField(fields, i, wt, s, Mixed(fields, slots, i)) == Ok(Mixed(fields, slots, i + 1), t)
  {
    SelectStep(fields, slots, i);
  }

  /** An element record is not mistaken for a packed array. */
  lemma {:induction false} UnpackedField(fields: seq<Field>, i: nat, s: seq<byte>, m: seq<Slot>, v: Value, t: seq<byte>)
    requires i < |fields| && |m| == |fields| && fields[i].htype.HRepeated? && m[i].Many?
    requires |m[i].items| < fields[i].arraySize
    requires DecValue(fields[i], s, Defaults(fields[i].sub)) == Ok(v, t)
    ensures DecField(fields, i, WireType(fields[i].ltype), s, m) == Ok(m[i := Many(m[i].items + [v])], t)
  {
  }

  lemma {:induction false} PackedField(fields: seq<Field>, i: nat, region: seq<byte>, m: seq<Slot>,
                                       items: seq<Value>, t: seq<byte>)
    requires i < |fields| && |m| == |fields| && fields[i].htype.HRepeated? && fields[i].ltype.Packable()
    requires |region| < LENGTH_LIMIT && DecPacked(fields[i], region, Items(m[i])) == Some(items)
    ensures DecField(fields, i, WT_STRING, Delimited(region) + t, m) == Ok(m[i := Many(items)], t)
  {
    TakeDelimited(region, t);
  }

  /** A tagged value is one record, after which field `i` holds the value. */
  lemma {:induction false} SingleRoundTrip(fields: seq<Field>, slots: seq<Slot>, i: nat, t: seq<byte>, seen: set<nat>)
    requires ValidFields(fields) && i < |fields| && |slots| == |fields|
    requires ValidField(fields[i]) && SlotOk(true, fields[i], slots[i])
    requires slots[i].Plain? || (slots[i].Maybe? && slots[i].has)
    requires ValueOk(true, fields[i], slots[i].v) && ValueOk(false, fields[i], slots[i].v)
    requires SerTagged(fields[i], slots[i].v).Some?
    requires ValueSized(LENGTH_LIMIT, fields[i], slots[i].v)
    ensures DecLoop(fields, SerTagged(fields[i], slots[i].v).value + t, Mixed(fields, slots, i), seen)
         == DecLoop(fields, t, Mixed(fields, slots, i + 1), seen + {i})
    decreases fields, 0
  {
    var f, v, wt := fields[i], slots[i].v, WireType(fields[i].ltype);
    var s := SerTagged(f, v).value + t;
    TaggedSplit(f, v, t);
    var body := SerValue(f, v).value + t;
    ValueRoundTrip(f, v, t, StructOf(f, Default(f)));
    SingleField(fields, slots, i, wt, body, t);
    RecordStep(fields, i, wt, s, body, Mixed(fields, slots, i), seen, Mixed(fields, slots, i + 1), t);
  }

  lemma {:induction false} OneofRoundTrip(fields: seq<Field>, slots: seq<Slot>, i: nat, t: seq<byte>, seen: set<nat>)
    requires ValidFields(fields) && WellFormed(fields, slots) && i < |fields|
    requires ValidField(fields[i]) && fields[i].htype.HOneof? && IsActive(slots[i])
    requires ValueOk(true, fields[i], slots[i].active.value) && ValueOk(false, fields[i], slots[i].active.value)
    requires SerTagged(fields[i], slots[i].active.value).Some?
    requires ValueSized(LENGTH_LIMIT, fields[i], slots[i].active.value)
    ensures DecLoop(fields, SerTagged(fields[i], slots[i].active.value).value + t, Mixed(fields, slots, i), seen)
         == DecLoop(fields, t, Mixed(fields, slots, i + 1), seen + {i})
    decreases fields, 0
  {
    var f, v, wt := fields[i], slots[i].active.value, WireType(fields[i].ltype);
    var s := SerTagged(f, v).value + t;
    TaggedSplit(f, v, t);
    var body := SerValue(f, v).value + t;
    ValueRoundTrip(f, v, t, Defaults(f.sub));
    OneofField(fields, slots, i, wt, body, t);
    RecordStep(fields, i, wt, s, body, Mixed(fields, slots, i), seen, Mixed(fields, slots, i + 1), t);
  }

  /** One element record appends one element. */
  lemma {:induction false} ElementRoundTrip(fields: seq<Field>, i: nat, m: seq<Slot>, v: Value, t: seq<byte>,
                                            seen: set<nat>)
    requires ValidFields(fields) && i < |fields| && |m| == |fields| && ValidField(fields[i])
    requires fields[i].htype.HRepeated? && m[i].Many? && |m[i].items| < fields[i].arraySize
    requires ValueOk(true, fields[i], v) && ValueOk(false, fields[i], v)
    requires SerTagged(fields[i], v).Some? && ValueSized(LENGTH_LIMIT, fields[i], v)
    ensures DecLoop(fields, SerTagged(fields[i], v).value + t, m, seen)
         == DecLoop(fields, t, m[i := Many(m[i].items + [v])], seen + {i})
    decreases fields, 0
  {
    var f, wt := fields[i], WireType(fields[i].ltype);
    var s := SerTagged(f, v).value + t;
    TaggedSplit(f, v, t);
    var body := SerValue(f, v).value + t;
    ValueRoundTrip(f, v, t, Defaults(f.sub));
    UnpackedField(fields, i, body, m, v, t);
    RecordStep(fields, i, wt, s, body, m, seen, m[i := Many(m[i].items + [v])], t);
  }

  lemma {:induction false} AppendTwice(m: seq<Slot>, i: nat, acc: seq<Value>, items: seq<Value>)
    requires i < |m| && m[i] == Many(acc) && items != []
    ensures m[i := Many(acc + [items[0]])][i := Many(acc + [items[0]] + items[1..])] == m[i := Many(acc + items)]
  {
    assert acc + [items[0]] + items[1..] == acc + items;
  }

  /** One record per element appends the elements. */
  lemma {:induction false} UnpackedRoundTrip(fields: seq<Field>, i: nat, m: seq<Slot>, acc: seq<Value>,
                                             items: seq<Value>, t: seq<byte>, seen: set<nat>) returns (seen': set<nat>)
    requires ValidFields(fields) && i < |fields| && |m| == |fields| && ValidField(fields[i])
    requires fields[i].htype.HRepeated? && m[i] == Many(acc)
    requires |acc| + |items| <= fields[i].arraySize
    requires ItemsOk(fields[i], items) && StrictItems(fields[i], items)
    requires SerUnpacked(fields[i], items).Some?
    requires forall k :: 0 <= k < |items| ==> ValueSized(LENGTH_LIMIT, fields[i], items[k])
    ensures DecLoop(fields, SerUnpacked(fields[i], items).value + t, m, seen)
         == DecLoop(fields, t, m[i := Many(acc + items)], seen')
    ensures seen <= seen' <= seen + {i}
    decreases fields, 1, |items|
  {
    var f := fields[i];
    if items == [] {
      seen' := seen;
      assert acc + items == acc && m[i := Many(acc)] == m;
      assert SerUnpacked(f, items).value + t == t;
    } else {
      var v, tail := items[0], items[1..];
      UnpackedSplit(f, items, t);
      ElementRoundTrip(fields, i, m, v, SerUnpacked(f, tail).value + t, seen);
      seen' := UnpackedRoundTrip(fields, i, m[i := Many(acc + [v])], acc + [v], tail, t, seen + {i});
      AppendTwice(m, i, acc, items);
    }
  }

  predicate StrictItems(f: Field, items: seq<Value>) {
    forall k :: 0 <= k < |items| ==> ValueOk(true, f, items[k])
  }

  /** A packed region is one record. */
  lemma {:induction false} RegionStep(fields: seq<Field>, i: nat, m: seq<Slot>, region: seq<byte>, items: seq<Value>,
                                      t: seq<byte>, seen: set<nat>)
    requires ValidFields(fields) && i < |fields| && |m| == |fields| && |region| < LENGTH_LIMIT
    requires fields[i].htype.HRepeated? && fields[i].ltype.Packable()
    requires DecPacked(fields[i], region, Items(m[i])) == Some(items)
    ensures DecLoop(fields, Key(fields[i].tag, WT_STRING) + Delimited(region) + t, m, seen)
         == DecLoop(fields, t, m[i := Many(items)], seen + {i})
  {
    var key, body := Key(fields[i].tag, WT_STRING), Delimited(region) + t;
    PackedField(fields, i, region, m, items, t);
    RecordStep(fields, i, WT_STRING, key + body, body, m, seen, m[i := Many(items)], t);
    assert key + Delimited(region) + t == key + body;
  }

  /** A packed array is one record. */
  lemma {:induction false} PackedStep(fields: seq<Field>, i: nat, m: seq<Slot>, acc: seq<Value>, items: seq<Value>,
                                      t: seq<byte>, seen: set<nat>)
    requires ValidFields(fields) && i < |fields| && |m| == |fields|
    requires fields[i].htype.HRepeated? && fields[i].ltype.Packable() && m[i] == Many(acc)
    requires |acc| + |items| <= fields[i].arraySize
    requires ItemsOk(fields[i], items) && LeavesOk(fields[i], items)
    ensures SerPacked(fields[i], items).Some?
    ensures |SerPacked(fields[i], items).value| < LENGTH_LIMIT ==>
              DecLoop(fields, Key(fields[i].tag, WT_STRING) + Delimited(SerPacked(fields[i], items).value) + t, m, seen)
              == DecLoop(fields, t, m[i := Many(acc + items)], seen + {i})
  {
    var f := fields[i];
    assert ValidField(f);
    PackedRoundTrip(f, items, acc);
    var region := SerPacked(f, items).value;
    if |region| < LENGTH_LIMIT {
      RegionStep(fields, i, m, region, acc + items, t, seen);
    }
  }

  lemma {:induction false} LeavesOfSlot(f: Field, items: seq<Value>)
    requires f.htype.HRepeated? && f.ltype.Packable() && SlotOk(true, f, Many(items))
    ensures LeavesOk(f, items)
  {
    forall k | 0 <= k < |items|
      ensures LeafOk(true, f, items[k])
    {
      assert ValueOk(true, f, items[k]);
    }
  }

  lemma {:induction false} ArrayRoundTrip(fields: seq<Field>, slots: seq<Slot>, i: nat, t: seq<byte>, seen: set<nat>)
    returns (seen': set<nat>)
    requires ValidFields(fields) && WellFormed(fields, slots) && Shaped(fields, slots) && i < |fields|
    requires fields[i].htype.HRepeated? && slots[i].Many? && ItemsOk(fields[i], slots[i].items)
    requires SerArray(fields[i], slots[i].items).Some?
    requires ItemsSized(LENGTH_LIMIT, fields[i], slots[i].items)
    ensures DecLoop(fields, SerArray(fields[i], slots[i].items).value + t, Mixed(fields, slots, i), seen)
         == DecLoop(fields, t, Mixed(fields, slots, i + 1), seen')
    ensures seen <= seen' <= seen + {i}
    decreases fields, 2
  {
    var f, items, m := fields[i], slots[i].items, Mixed(fields, slots, i);
    assert SlotOk(true, f, slots[i]);
    MixedStep(fields, slots, i);
    assert [] + items == items;
    if items == [] {
      seen' := seen;
      assert SerArray(f, items).value + t == t;
    } else if f.ltype.Packable() {
      LeavesOfSlot(f, items);
      PackedStep(fields, i, m, [], items, t, seen);
      seen' := seen + {i};
    } else {
      assert StrictItems(f, items) && ValidField(f);
      seen' := UnpackedRoundTrip(fields, i, m, [], items, t, seen);
    }
  }

  lemma {:induction false} FieldRoundTrip(fields: seq<Field>, slots: seq<Slot>, i: nat, t: seq<byte>, seen: set<nat>)
    returns (seen': set<nat>)
    requires ValidFields(fields) && WellFormed(fields, slots) && Shaped(fields, slots) && i < |fields|
    requires SlotOk(false, fields[i], slots[i])
    requires SerField(fields[i], slots[i]).Some? && SlotSized(LENGTH_LIMIT, fields[i], slots[i])
    ensures DecLoop(fields, SerField(fields[i], slots[i]).value + t, Mixed(fields, slots, i), seen)
         == DecLoop(fields, t, Mixed(fields, slots, i + 1), seen')
    ensures seen <= seen' <= seen + {i} && (fields[i].htype.HRequired? ==> i in seen')
    decreases fields, 3
  {
    var f, slot := fields[i], slots[i];
    assert ValidField(f) && SlotOk(true, f, slot);
    MixedStep(fields, slots, i);
    var s := SerField(f, slot).value;
    seen' := seen + {i};
    match f.htype
    case HRequired => SingleRoundTrip(fields, slots, i, t, seen);
    case HOptional =>
      if (if f.sizeOffset != 0 then slot.has else !IsDefaultValue(f, slot.v)) {
        SingleRoundTrip(fields, slots, i, t, seen);
      } else {
        if f.sizeOffset == 0 {
          DefaultValueIsDefault(f, slot.v);
        }
        seen' := seen;
        assert s + t == t;
      }
    case HRepeated => seen' := ArrayRoundTrip(fields, slots, i, t, seen);
    case HOneof =>
      if slot.active.Some? {
        OneofRoundTrip(fields, slots, i, t, seen);
      } else {
        seen' := seen;
        assert s + t == t;
      }
  }

  /** Decoding what is serialised from field `i` on completes the struct. */
  lemma {:induction false} MsgRoundTrip(fields: seq<Field>, slots: seq<Slot>, i: nat, seen: set<nat>)
    returns (seen': set<nat>)
    requires ValidFields(fields) && WellFormed(fields, slots) && Shaped(fields, slots) && i <= |fields|
    requires SerFrom(fields, slots, i).Some? && Sized(LENGTH_LIMIT, fields, slots)
    ensures DecLoop(fields, SerFrom(fields, slots, i).value, Mixed(fields, slots, i), seen)
         == Ok(Progress(slots, seen', false), [])
    ensures seen <= seen' && forall j :: i <= j < |fields| && fields[j].htype.HRequired? ==> j in seen'
    decreases fields, 4, |fields| - i
  {
    if i == |fields| {
      seen' := seen;
      assert Mixed(fields, slots, i) == slots;
    } else {
      var t := SerFrom(fields, slots, i + 1).value;
      assert SlotOk(false, fields[i], slots[i]) && SlotSized(LENGTH_LIMIT, fields[i], slots[i]);
      var seen1 := FieldRoundTrip(fields, slots, i, t, seen);
      seen' := MsgRoundTrip(fields, slots, i + 1, seen1);
    }
  }
}
