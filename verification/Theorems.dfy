/** The laws of the codec as a whole, stated for every descriptor, message and byte string. */
module Theorems {
  import opened Wrappers
  import opened Bits
  import opened Varint
  import opened Descriptor
  import opened Parse
  import opened Serialize
  import opened Canonical
  import opened RoundTrip
  import opened Sizes
  import opened Normal
  import opened Merge

  // ----- the encoder accepts every well-formed message -----

  lemma {:induction false} LeafTotal(f: Field, v: Value)
    requires SizeOk(f) && LeafOk(true, f, v)
    ensures SerLeaf(f, v).Some?
  {
  }

  lemma {:induction false} ValueTotal(f: Field, v: Value)
    requires ValidField(f) && ValueOk(true, f, v) && ValueOk(false, f, v)
    ensures SerValue(f, v).Some?
    decreases f, 0
  {
    if f.ltype.LSubmessage? {
      MsgTotal(f.sub, v.slots, 0);
    } else {
      LeafTotal(f, v);
    }
  }

  lemma {:induction false} PackedTotal(f: Field, items: seq<Value>)
    requires SizeOk(f) && f.ltype.Packable() && ItemsOk(f, items) && LeavesOk(f, items)
    ensures SerPacked(f, items).Some?
  {
    if items != [] {
      LeafTotal(f, items[0]);
      PackedTotal(f, items[1..]);
    }
  }

  lemma {:induction false} UnpackedTotal(f: Field, items: seq<Value>)
    requires ValidField(f) && ItemsOk(f, items) && StrictItems(f, items)
    ensures SerUnpacked(f, items).Some?
    decreases f, 1, |items|
  {
    if items != [] {
      ValueTotal(f, items[0]);
      UnpackedTotal(f, items[1..]);
    }
  }

  lemma {:induction false} FieldTotal(f: Field, slot: Slot)
    requires ValidField(f) && SlotOk(true, f, slot) && SlotOk(false, f, slot)
    ensures SerField(f, slot).Some?
    decreases f, 2
  {
    match slot
    case Plain(v) => ValueTotal(f, v);
    case Maybe(_, v) => ValueTotal(f, v);
    case Many(items) =>
      assert StrictItems(f, items);
      if f.ltype.Packable() {
        LeavesOfSlot(f, items);
        PackedTotal(f, items);
      } else {
        UnpackedTotal(f, items);
      }
    case Member(active) =>
      if active.Some? {
        ValueTotal(f, active.value);
      }
  }

  lemma {:induction false} MsgTotal(fields: seq<Field>, slots: seq<Slot>, i: nat)
    requires ValidFields(fields) && WellFormed(fields, slots) && Shaped(fields, slots) && i <= |fields|
    ensures SerFrom(fields, slots, i).Some?
    decreases fields, 0, |fields| - i
  {
    if i < |fields| {
      assert SlotOk(true, fields[i], slots[i]) && SlotOk(false, fields[i], slots[i]) && ValidField(fields[i]);
      FieldTotal(fields[i], slots[i]);
      MsgTotal(fields, slots, i + 1);
    }
  }

  /** A well-formed message can be encoded. */
  lemma {:induction false} EncoderTotal(fields: seq<Field>, slots: seq<Slot>)
    requires ValidFields(fields) && WellFormed(fields, slots)
    ensures Shaped(fields, slots) && SerMsg(fields, slots).Some?
  {
    WellFormedIsShaped(fields, slots);
    MsgTotal(fields, slots, 0);
  }

  // ----- round trips -----

  /** Encoding and decoding a well-formed message gives back the message. */
  lemma {:induction false} MessageRoundTrip(fields: seq<Field>, slots: seq<Slot>)
    requires ValidFields(fields) && WellFormed(fields, slots) && Shaped(fields, slots)
    requires SerMsg(fields, slots).Some? && Sized(LENGTH_LIMIT, fields, slots)
    ensures Decode(fields, SerMsg(fields, slots).value) == Ok(slots, [])
  {
    var seen := MsgRoundTrip(fields, slots, 0, {});
    assert Mixed(fields, slots, 0) == Defaults(fields);
  }

  /** Among the structs the C types allow, those that survive are exactly the well-formed ones. */
  lemma {:induction false} RoundTripExactly(fields: seq<Field>, slots: seq<Slot>)
    requires ValidFields(fields) && Shaped(fields, slots)
    requires SerMsg(fields, slots).Some? && Sized(LENGTH_LIMIT, fields, slots)
    ensures Decode(fields, SerMsg(fields, slots).value) == Ok(slots, []) <==> WellFormed(fields, slots)
  {
    var s := SerMsg(fields, slots).value;
    if WellFormed(fields, slots) {
      MessageRoundTrip(fields, slots);
    }
    if Decode(fields, s) == Ok(slots, []) {
      DecodeOk(fields, s);
    }
  }

  /** What any struct the C types allow comes back as: its encoding decodes if and only if every
      encoded string is terminated, and then to the normal form, in which absent fields are at their
      defaults. The normal form of a struct is the struct itself exactly when it is well formed. */
  lemma {:induction false} DecodesExactly(fields: seq<Field>, slots: seq<Slot>)
    requires ValidFields(fields) && Shaped(fields, slots)
    requires SerMsg(fields, slots).Some? && Sized(LENGTH_LIMIT, fields, slots)
    ensures Decode(fields, SerMsg(fields, slots).value)
         == if Terminated(fields, slots) then Ok(NormalStruct(fields, slots), []) else Err
    ensures WellFormed(fields, slots) <==> Terminated(fields, slots) && NormalStruct(fields, slots) == slots
  {
    if Terminated(fields, slots) {
      NormalOk(fields, slots);
      MessageRoundTrip(fields, NormalStruct(fields, slots));
    } else {
      MsgRejects(fields, slots, 0, {});
      assert NormalFront(fields, slots, 0) == Defaults(fields);
    }
    RoundTripExactly(fields, slots);
  }

  /** One required string field of three bytes. */
  const SHORT_STRING: Field := Field(1, LString, HRequired, AStatic, 0, 0, 3, 0, [], None)

  lemma {:induction false} FullStringEncodes(v: Value)
    requires v == Blob([0x61, 0x62, 0x63])
    ensures ValidFields([SHORT_STRING]) && Shaped([SHORT_STRING], [Plain(v)])
    ensures !Terminated([SHORT_STRING], [Plain(v)]) && Sized(LENGTH_LIMIT, [SHORT_STRING], [Plain(v)])
    ensures SerMsg([SHORT_STRING], [Plain(v)]) == Some([0x0A, 3, 0x61, 0x62, 0x63])
  {
    var f, fields, slots := SHORT_STRING, [SHORT_STRING], [Plain(v)];
    assert ValidField(f) && LeafOk(false, f, v) && SlotOk(false, f, slots[0]);
    assert !SlotTerminated(f, slots[0]) && SlotSized(LENGTH_LIMIT, f, slots[0]);
    var s: seq<byte> := [0x0A, 3, 0x61, 0x62, 0x63];
    assert SerTagged(f, v) == Some(s) by {
      assert Key(1, WT_STRING) == [0x0A] && EncVarint(3) == [3];
      assert [3] + v.bytes == s[1..];
      assert SerLeaf(f, v) == Some(s[1..]);
      assert [0x0A] + s[1..] == s;
    }
    assert SerFrom(fields, slots, 1) == Some([]) && SerField(fields[0], slots[0]) == SerTagged(f, v);
    assert SerFrom(fields, slots, 0) == Join(SerTagged(f, v), Some([]));
    assert s + [] == s;
  }

  /** A string that fills its buffer is encoded but cannot be decoded: one required string field
      of three bytes that holds "abc". */
  lemma {:induction false} UnterminatedString()
    ensures exists f: Field, slots: seq<Slot> ::
              && ValidFields([f]) && Shaped([f], slots) && !WellFormed([f], slots)
              && SerMsg([f], slots) == Some([0x0A, 3, 0x61, 0x62, 0x63])
              && Decode([f], [0x0A, 3, 0x61, 0x62, 0x63]).Err?
  {
    var f, slots := SHORT_STRING, [Plain(Blob([0x61, 0x62, 0x63]))];
    FullStringEncodes(slots[0].v);
    DecodesExactly([f], slots);
  }

  /** Whatever the decoder accepts, the encoder accepts, and decoding what it emits gives the
      same struct again. */
  lemma {:induction false} Canonicalisation(fields: seq<Field>, s: seq<byte>)
    requires ValidFields(fields) && Decode(fields, s).Ok?
    ensures var slots := Decode(fields, s).value;
            && WellFormed(fields, slots) && Shaped(fields, slots)
            && SerMsg(fields, slots).Some?
            && (Sized(LENGTH_LIMIT, fields, slots) ==>
                  Decode(fields, SerMsg(fields, slots).value) == Ok(slots, []))
  {
    var slots := Decode(fields, s).value;
    DecodeOk(fields, s);
    EncoderTotal(fields, slots);
    if Sized(LENGTH_LIMIT, fields, slots) {
      MessageRoundTrip(fields, slots);
    }
  }

  // ----- merging -----

  /** An encoding is read to its end; with a zero byte behind it, it is not. */
  lemma {:induction false} EncodingReadsThrough(fields: seq<Field>, slots: seq<Slot>)
    requires ValidFields(fields) && WellFormed(fields, slots) && Shaped(fields, slots)
    requires SerMsg(fields, slots).Some? && Sized(LENGTH_LIMIT, fields, slots)
    ensures ReadsThrough(fields, SerMsg(fields, slots).value, Defaults(fields))
    ensures !ReadsThrough(fields, SerMsg(fields, slots).value + [0], Defaults(fields))
  {
    var s := SerMsg(fields, slots).value;
    var seen := MsgRoundTrip(fields, slots, 0, {});
    assert Mixed(fields, slots, 0) == Defaults(fields);
    LoopExtends(fields, s, [0], Defaults(fields), {});
    LoopEnds(fields, [0], slots, seen);
  }

  /** Whatever follows an encoding is decoded into the struct it stands for: the merge of two
      messages needs no second copy of the required fields. */
  lemma {:induction false} EncodingsMerge(fields: seq<Field>, slots: seq<Slot>, b: seq<byte>)
    requires ValidFields(fields) && WellFormed(fields, slots) && Shaped(fields, slots)
    requires SerMsg(fields, slots).Some? && Sized(LENGTH_LIMIT, fields, slots)
    ensures var q := DecLoop(fields, b, slots, {});
            Decode(fields, SerMsg(fields, slots).value + b)
            == if q.Ok? then Ok(q.value.slots, q.rest) else Err
  {
    var s := SerMsg(fields, slots).value;
    var seen := MsgRoundTrip(fields, slots, 0, {});
    assert Mixed(fields, slots, 0) == Defaults(fields);
    LoopExtends(fields, s, b, Defaults(fields), {});
    SeenIsCarried(fields, b, slots, seen);
  }
}
