/** What the encoder emits for fields a receiver does not know is skipped exactly: a message of a
    longer descriptor can be read with a shorter one. */
module Evolution {
  import opened Wrappers
  import opened Bits
  import opened Varint
  import opened Descriptor
  import opened Parse
  import opened Serialize
  import opened RoundTrip
  import opened Sizes
  import opened Merge

  // ----- one record -----

  lemma {:induction false} SkipsVarint(v: nat, t: seq<byte>)
    ensures Parse.SkipField(WT_VARINT, EncVarint(v) + t) == Ok((), t)
  {
    EncVarintSize(v, t);
    assert (EncVarint(v) + t)[|EncVarint(v)|..] == t;
  }

  lemma {:induction false} SkipsFixed(v: nat, n: nat, t: seq<byte>)
    requires n == 4 || n == 8
    ensures Parse.SkipField(if n == 4 then WT_32BIT else WT_64BIT, LittleEndian(v, n) + t) == Ok((), t)
  {
    assert (LittleEndian(v, n) + t)[n..] == t;
  }

  lemma {:induction false} SkipsDelimited(b: seq<byte>, t: seq<byte>)
    requires |b| < LENGTH_LIMIT
    ensures Parse.SkipField(WT_STRING, Delimited(b) + t) == Ok((), t)
  {
    TakeDelimited(b, t);
  }

  /** `pb_skip_field` skips exactly what the encoder of any field emits. */
  lemma {:induction false} SkipUndoesEncode(f: Field, v: Value, t: seq<byte>)
    requires ValueOk(false, f, v) && SerValue(f, v).Some?
    requires f.dataSize <= PB_SIZE_MAX && ValueSized(LENGTH_LIMIT, f, v)
    ensures Parse.SkipField(WireType(f.ltype), SerValue(f, v).value + t) == Ok((), t)
  {
    match f.ltype
    case LVarint => SkipsVarint(AsWord64(v.n), t);
    case LUVarint => SkipsVarint(v.n, t);
    case LSVarint => SkipsVarint(ZigZag.Interleaved(v.n), t);
    case LFixed32 => SkipsFixed(v.n, 4, t);
    case LFixed64 => SkipsFixed(v.n, 8, t);
    case LSubmessage => SkipsDelimited(SerMsg(f.sub, v.slots).value, t);
    case LBytes => SkipsDelimited(v.bytes, t);
    case LString => SkipsDelimited(v.bytes, t);
    case LFixedLengthBytes => SkipsDelimited(v.bytes, t);
  }

  /** A descriptor that does not declare a tag, and a field that has it. */
  predicate Undeclared(fields: seq<Field>, f: Field) {
    ValidField(f) && FindField(fields, f.tag).None?
  }

  lemma {:induction false} TaggedIsUnknown(fields: seq<Field>, f: Field, v: Value)
    requires Undeclared(fields, f) && ValueOk(false, f, v)
    requires SerTagged(f, v).Some? && ValueSized(LENGTH_LIMIT, f, v)
    ensures UnknownRecord(fields, SerTagged(f, v).value)
  {
    var body := SerValue(f, v).value;
    TaggedSplit(f, v, []);
    KeyRoundTrip(f.tag, WireType(f.ltype), body);
    SkipUndoesEncode(f, v, []);
    assert body + [] == body;
  }

  lemma {:induction false} PackedIsUnknown(fields: seq<Field>, f: Field, body: seq<byte>)
    requires Undeclared(fields, f) && |body| < LENGTH_LIMIT
    ensures UnknownRecord(fields, Key(f.tag, WT_STRING) + Delimited(body))
  {
    KeyRoundTrip(f.tag, WT_STRING, Delimited(body));
    SkipsDelimited(body, []);
    assert Delimited(body) + [] == Delimited(body);
  }

  // ----- all the records of a field -----

  lemma {:induction false} UnpackedSkipped(fields: seq<Field>, f: Field, items: seq<Value>, t: seq<byte>, m: seq<Slot>,
                                           seen: set<nat>)
    requires |m| == |fields| && Undeclared(fields, f) && ItemsOk(f, items)
    requires SerUnpacked(f, items).Some?
    requires forall k :: 0 <= k < |items| ==> ValueSized(LENGTH_LIMIT, f, items[k])
    ensures DecLoop(fields, SerUnpacked(f, items).value + t, m, seen) == DecLoop(fields, t, m, seen)
    decreases |items|
  {
    if items == [] {
      assert [] + t == t;
    } else {
      UnpackedSplit(f, items, t);
      TaggedIsUnknown(fields, f, items[0]);
      UnknownRecordSkipped(fields, SerTagged(f, items[0]).value, SerUnpacked(f, items[1..]).value + t, m, seen);
      UnpackedSkipped(fields, f, items[1..], t, m, seen);
    }
  }

  lemma {:induction false} ArraySkipped(fields: seq<Field>, f: Field, items: seq<Value>, t: seq<byte>, m: seq<Slot>,
                                        seen: set<nat>)
    requires |m| == |fields| && Undeclared(fields, f) && ItemsOk(f, items)
    requires SerArray(f, items).Some? && ItemsSized(LENGTH_LIMIT, f, items)
    ensures DecLoop(fields, SerArray(f, items).value + t, m, seen) == DecLoop(fields, t, m, seen)
  {
    var s := SerArray(f, items).value;
    if items == [] {
      assert [] + t == t;
    } else if f.ltype.Packable() {
      PackedIsUnknown(fields, f, SerPacked(f, items).value);
      UnknownRecordSkipped(fields, s, t, m, seen);
    } else {
      UnpackedSkipped(fields, f, items, t, m, seen);
    }
  }

  /** Whatever a field emits, a descriptor that does not declare it reads over it. */
  lemma {:induction false} FieldSkipped(fields: seq<Field>, f: Field, slot: Slot, t: seq<byte>, m: seq<Slot>,
                                        seen: set<nat>)
    requires |m| == |fields| && Undeclared(fields, f) && SlotOk(false, f, slot)
    requires SerField(f, slot).Some? && SlotSized(LENGTH_LIMIT, f, slot)
    ensures DecLoop(fields, SerField(f, slot).value + t, m, seen) == DecLoop(fields, t, m, seen)
  {
    var s := SerField(f, slot).value;
    if f.htype.HRepeated? {
      ArraySkipped(fields, f, slot.items, t, m, seen);
    } else if s == [] {
      assert [] + t == t;
    } else {
      var v := if f.htype.HOneof? then slot.active.value else slot.v;
      TaggedIsUnknown(fields, f, v);
      UnknownRecordSkipped(fields, s, t, m, seen);
    }
  }

  // ----- a message of a longer descriptor -----

  lemma {:induction false} SizedAt(fields: seq<Field>, slots: seq<Slot>, i: nat)
    requires Shaped(fields, slots) && Sized(LENGTH_LIMIT, fields, slots) && i < |fields|
    ensures SlotOk(false, fields[i], slots[i]) && SlotSized(LENGTH_LIMIT, fields[i], slots[i])
  {
  }

  lemma {:induction false} RestSkipped(known: seq<Field>, fields: seq<Field>, slots: seq<Slot>, i: nat, m: seq<Slot>,
                                       seen: set<nat>)
    requires |m| == |known| && Shaped(fields, slots) && i <= |fields|
    requires forall j :: i <= j < |fields| ==> Undeclared(known, fields[j])
    requires SerFrom(fields, slots, i).Some? && Sized(LENGTH_LIMIT, fields, slots)
    ensures DecLoop(known, SerFrom(fields, slots, i).value, m, seen) == Ok(Progress(m, seen, false), [])
    decreases |fields| - i
  {
    if i < |fields| {
      FromSplit(fields, slots, i);
      SizedAt(fields, slots, i);
      FieldSkipped(known, fields[i], slots[i], SerFrom(fields, slots, i + 1).value, m, seen);
      RestSkipped(known, fields, slots, i + 1, m, seen);
    }
  }

  lemma {:induction false} UnionOfPrefix(fields: seq<Field>, n: nat, i: nat)
    requires i < n <= |fields|
    ensures UnionOf(fields[..n], i) == UnionOf(fields, i)
    decreases i
  {
    if i > 0 {
      UnionOfPrefix(fields, n, i - 1);
    }
  }

  /** A front part of a descriptor and of its struct. */
  lemma {:induction false} PrefixOk(strict: bool, fields: seq<Field>, slots: seq<Slot>, n: nat)
    requires MsgOk(strict, fields, slots) && n <= |fields|
    ensures MsgOk(strict, fields[..n], slots[..n])
  {
    var known, front := fields[..n], slots[..n];
    forall i | 0 <= i < n
      ensures SlotOk(strict, known[i], front[i])
    {
      assert SlotOk(strict, fields[i], slots[i]);
    }
    forall i, j | 0 <= i < n && 0 <= j < n && i != j && SameUnion(known, i, j)
      ensures !(IsActive(front[i]) && IsActive(front[j]))
    {
      UnionOfPrefix(fields, n, i);
      UnionOfPrefix(fields, n, j);
      assert SameUnion(fields, i, j);
    }
  }

  lemma {:induction false} PrefixSized(fields: seq<Field>, slots: seq<Slot>, n: nat)
    requires Shaped(fields, slots) && Sized(LENGTH_LIMIT, fields, slots)
    requires n <= |fields| && Shaped(fields[..n], slots[..n])
    ensures Sized(LENGTH_LIMIT, fields[..n], slots[..n])
  {
    forall i | 0 <= i < n
      ensures SlotOk(false, fields[..n][i], slots[..n][i]) && SlotSized(LENGTH_LIMIT, fields[..n][i], slots[..n][i])
    {
      assert SlotSized(LENGTH_LIMIT, fields[i], slots[i]);
    }
  }

  lemma {:induction false} PrefixValid(fields: seq<Field>, n: nat)
    requires ValidFields(fields) && n <= |fields|
    ensures ValidFields(fields[..n])
    ensures forall j :: n <= j < |fields| ==> Undeclared(fields[..n], fields[j])
  {
    assert forall i :: 0 <= i < n ==> fields[..n][i] == fields[i];
    forall j | n <= j < |fields|
      ensures Undeclared(fields[..n], fields[j])
    {
      assert ValidField(fields[j]);
    }
  }

  /** The encoding starts with that of the front part. */
  lemma {:induction false} SerPrefix(fields: seq<Field>, slots: seq<Slot>, n: nat, i: nat)
    requires Shaped(fields, slots) && i <= n <= |fields| && Shaped(fields[..n], slots[..n])
    requires SerFrom(fields, slots, i).Some?
    ensures SerFrom(fields[..n], slots[..n], i).Some? && SerFrom(fields, slots, n).Some?
    ensures SerFrom(fields, slots, i).value
         == SerFrom(fields[..n], slots[..n], i).value + SerFrom(fields, slots, n).value
    decreases n - i
  {
    if i < n {
      FromSplit(fields, slots, i);
      SerPrefix(fields, slots, n, i + 1);
      assert fields[..n][i] == fields[i] && slots[..n][i] == slots[i];
    }
  }

  /** Fields go out in the order of the descriptor: the last field's bytes follow those of the message
      without it. */
  lemma {:induction false} FieldsInOrder(fields: seq<Field>, slots: seq<Slot>)
    requires fields != [] && Shaped(fields, slots) && SerMsg(fields, slots).Some?
    ensures var n := |fields| - 1;
            && Shaped(fields[..n], slots[..n]) && SerMsg(fields[..n], slots[..n]).Some?
            && SlotOk(false, fields[n], slots[n]) && SerField(fields[n], slots[n]).Some?
            && SerMsg(fields, slots).value
               == SerMsg(fields[..n], slots[..n]).value + SerField(fields[n], slots[n]).value
  {
    var n := |fields| - 1;
    PrefixOk(false, fields, slots, n);
    SerPrefix(fields, slots, n, 0);
    FromSplit(fields, slots, n);
    assert SerFrom(fields, slots, n + 1) == Some([]);
    assert SerField(fields[n], slots[n]).value + [] == SerField(fields[n], slots[n]).value;
  }

  /** Fields added at the end of a message do not disturb receivers that do not know them: a
      well-formed struct of the longer descriptor decodes to its front part. */
  lemma {:induction false} AddedFieldsAreIgnored(fields: seq<Field>, slots: seq<Slot>, n: nat)
    requires ValidFields(fields) && WellFormed(fields, slots) && Shaped(fields, slots) && n <= |fields|
    requires SerMsg(fields, slots).Some? && Sized(LENGTH_LIMIT, fields, slots)
    ensures Decode(fields[..n], SerMsg(fields, slots).value) == Ok(slots[..n], [])
  {
    var known, front := fields[..n], slots[..n];
    PrefixValid(fields, n);
    PrefixOk(true, fields, slots, n);
    PrefixOk(false, fields, slots, n);
    PrefixSized(fields, slots, n);
    SerPrefix(fields, slots, n, 0);
    var seen := MsgRoundTrip(known, front, 0, {});
    assert Mixed(known, front, 0) == Defaults(known);
    LoopExtends(known, SerFrom(known, front, 0).value, SerFrom(fields, slots, n).value, Defaults(known), {});
    RestSkipped(known, fields, slots, n, front, seen);
  }

  // ----- a message of a shorter descriptor -----

  /** The struct of a shorter descriptor, filled up with defaults. */
  function FilledUp(fields: seq<Field>, front: seq<Slot>): (slots: seq<Slot>)
    requires |front| <= |fields|
    ensures |slots| == |fields| && slots[..|front|] == front
  {
    front + Defaults(fields)[|front|..]
  }

  lemma {:induction false} FilledUpOk(fields: seq<Field>, front: seq<Slot>)
    requires ValidFields(fields) && |front| <= |fields| && WellFormed(fields[..|front|], front)
    ensures WellFormed(fields, FilledUp(fields, front))
  {
    var n, slots := |front|, FilledUp(fields, front);
    DefaultsOk(fields);
    forall i | 0 <= i < |fields|
      ensures SlotOk(true, fields[i], slots[i])
      ensures i >= n ==> !IsActive(slots[i])
    {
      if i < n {
        assert SlotOk(true, fields[..n][i], front[i]);
      } else {
        assert slots[i] == Defaults(fields)[i] == DefaultSlot(fields[i]);
      }
    }
    forall i, j | 0 <= i < |fields| && 0 <= j < |fields| && i != j && SameUnion(fields, i, j)
      ensures !(IsActive(slots[i]) && IsActive(slots[j]))
    {
      if i < n && j < n {
        UnionOfPrefix(fields, n, i);
        UnionOfPrefix(fields, n, j);
        assert SameUnion(fields[..n], i, j);
      }
    }
  }

  /** The encoding of field `i` and of what follows it in the shorter message. */
  lemma {:induction false} FrontSplit(fields: seq<Field>, slots: seq<Slot>, known: seq<Field>, front: seq<Slot>, i: nat)
    requires known <= fields && front <= slots && |known| == |front| && |slots| == |fields| && i < |known|
    requires Shaped(known, front) && Sized(LENGTH_LIMIT, known, front) && SerFrom(known, front, i).Some?
    ensures SlotOk(false, fields[i], slots[i]) && SlotSized(LENGTH_LIMIT, fields[i], slots[i])
    ensures SerField(fields[i], slots[i]).Some? && SerFrom(known, front, i + 1).Some?
    ensures SerFrom(known, front, i).value
         == SerField(fields[i], slots[i]).value + SerFrom(known, front, i + 1).value
  {
    FromSplit(known, front, i);
    SizedAt(known, front, i);
    assert known[i] == fields[i] && front[i] == slots[i];
  }

  lemma {:induction false} FrontDecodes(fields: seq<Field>, slots: seq<Slot>, known: seq<Field>, front: seq<Slot>,
                                        i: nat, seen: set<nat>) returns (seen': set<nat>)
    requires ValidFields(fields) && WellFormed(fields, slots) && Shaped(fields, slots)
    requires known <= fields && front <= slots && |known| == |front| && i <= |known|
    requires slots == front + Defaults(fields)[|front|..]
    requires Shaped(known, front) && Sized(LENGTH_LIMIT, known, front) && SerFrom(known, front, i).Some?
    ensures DecLoop(fields, SerFrom(known, front, i).value, Mixed(fields, slots, i), seen)
         == Ok(Progress(slots, seen', false), [])
    ensures forall j :: i <= j < |known| && fields[j].htype.HRequired? ==> j in seen'
    ensures seen <= seen' && forall j :: j in seen' ==> j in seen || j < |known|
    decreases |known| - i
  {
    if i == |known| {
      seen' := seen;
      assert Mixed(fields, slots, i) == slots;
    } else {
      FrontSplit(fields, slots, known, front, i);
      var seen1 := FieldRoundTrip(fields, slots, i, SerFrom(known, front, i + 1).value, seen);
      seen' := FrontDecodes(fields, slots, known, front, i + 1, seen1);
    }
  }

  /** Some field behind the first `n` is required, and tracked by the decoder. */
  predicate RequiresMore(fields: seq<Field>, n: nat) {
    exists j :: n <= j < |fields| && fields[j].htype.HRequired? && RequiredBefore(fields, j) < MAX_REQUIRED
  }

  lemma {:induction false} RequiredOfFront(fields: seq<Field>, n: nat, seen: set<nat>)
    requires n <= |fields|
    requires forall j :: 0 <= j < n && fields[j].htype.HRequired? ==> j in seen
    requires forall j :: j in seen ==> j < n
    ensures RequiredSeen(fields, seen) <==> !RequiresMore(fields, n)
  {
  }

  lemma {:induction false} AddedAreInitial(fields: seq<Field>, front: seq<Slot>)
    requires |front| <= |fields|
    ensures forall j :: |front| <= j < |fields| ==> InitialSlot(fields[j], FilledUp(fields, front)[j])
  {
    DefaultsAreInitial(fields);
    forall j | |front| <= j < |fields|
      ensures InitialSlot(fields[j], FilledUp(fields, front)[j])
    {
      assert FilledUp(fields, front)[j] == Defaults(fields)[j];
    }
  }

  /** A message of a shorter descriptor decodes with the longer one, the added fields at their
      defaults, exactly when no tracked required field was added. */
  lemma {:induction false} MissingFieldsTakeDefaults(fields: seq<Field>, front: seq<Slot>)
    requires ValidFields(fields) && |front| <= |fields|
    requires WellFormed(fields[..|front|], front) && Shaped(fields[..|front|], front)
    requires SerMsg(fields[..|front|], front).Some? && Sized(LENGTH_LIMIT, fields[..|front|], front)
    ensures Decode(fields, SerMsg(fields[..|front|], front).value)
         == if RequiresMore(fields, |front|) then Err else Ok(FilledUp(fields, front), [])
    ensures forall j :: |front| <= j < |fields| ==> InitialSlot(fields[j], FilledUp(fields, front)[j])
  {
    AddedAreInitial(fields, front);
    var n, slots := |front|, FilledUp(fields, front);
    FilledUpOk(fields, front);
    WellFormedIsShaped(fields, slots);
    var seen := FrontDecodes(fields, slots, fields[..n], front, 0, {});
    assert Mixed(fields, slots, 0) == Defaults(fields);
    RequiredOfFront(fields, n, seen);
  }
}
