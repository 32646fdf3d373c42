/** The encoder as the C code runs it, each procedure proved to emit what `Serialize` says: into a
    buffer when it fits, or into nothing when only the size is wanted. */
module Encoder {
  import opened Wrappers
  import opened Bits
  import opened Varint
  import ZigZag
  import opened Descriptor
  import opened Parse
  import opened Serialize
  import opened Sizes
  import opened FieldIterator
  import opened OutputStream

  // ----- joining outputs -----

  lemma {:induction false} JoinAssociative(a: Output, b: Output, c: Output)
    ensures Join(a, Join(b, c)) == Join(Join(a, b), c)
  {
    if a.Some? && b.Some? && c.Some? {
      assert a.value + (b.value + c.value) == a.value + b.value + c.value;
    }
  }

  lemma {:induction false} JoinEmpty(a: Output)
    ensures Join(Some([]), a) == a && Join(a, Some([])) == a
  {
    if a.Some? {
      assert [] + a.value == a.value && a.value + [] == a.value;
    }
  }

  /** One more part of an output that is emitted part by part. */
  lemma {:induction false} EmitPart(a: Snap, b: Snap, c: Snap, ok: bool, done: Output, next: Output, rest: Output)
    requires Emitted(a, b, true, done) && Emitted(b, c, ok, next)
    ensures Join(done, Join(next, rest)) == Join(Join(done, next), rest)
    ensures ok ==> Emitted(a, c, true, Join(done, next))
    ensures !ok ==> Emitted(a, c, false, Join(done, Join(next, rest)))
  {
    JoinAssociative(done, next, rest);
    EmitNext(a, b, c, ok, done, next);
    if !ok {
      EmitFailed(a, c, Join(done, next), rest);
    }
  }

  // ----- leaves -----

  /** `pb_encode_tag` */
  method EncodeTag(s: OStream, wireType: nat, tag: nat) returns (ok: bool)
    requires s.Valid() && tag <= PB_SIZE_MAX && wireType < 8
    modifies s, s.buf
    ensures Emitted(old(s.Now()), s.Now(), ok, Some(Key(tag, wireType)))
  {
    ok := s.EncodeVarint(tag * 8 + wireType);
  }

  /** `pb_encode_string` */
  method EncodeString(s: OStream, bytes: seq<byte>) returns (ok: bool)
    requires s.Valid() && |bytes| <= PB_SIZE_MAX
    modifies s, s.buf
    ensures Emitted(old(s.Now()), s.Now(), ok, Some(Delimited(bytes)))
  {
    ghost var s0, prefix := s.Now(), Some(EncVarint(|bytes|));
    ok := s.EncodeVarint(|bytes|);
    ghost var s1 := s.Now();
    if !ok {
      EmitFailed(s0, s1, prefix, Some(bytes));
      return;
    }
    ok := s.WriteBytes(bytes);
    EmitNext(s0, s1, s.Now(), ok, prefix, Some(bytes));
  }

  /** `pb_encode_svarint` */
  method EncodeSVarint(s: OStream, value: int) returns (ok: bool)
    requires s.Valid() && -0x8000_0000_0000_0000 <= value < 0x8000_0000_0000_0000
    modifies s, s.buf
    ensures Emitted(old(s.Now()), s.Now(), ok, Some(EncVarint(ZigZag.Interleaved(value))))
  {
    Pow2Long();
    ZigZag.EncodeMeaning(value);
    var zigzagged := ZigZag.Encode(value);
    ok := s.EncodeVarint(zigzagged);
  }

  lemma {:induction false} LittleEndianAt(v: nat, n: nat, i: nat)
    requires i < n
    ensures LittleEndian(v, n)[i] == v / Pow2(8 * i) % 0x100
    decreases i
  {
    if i > 0 {
      LittleEndianAt(v / 0x100, n - 1, i - 1);
      Pow2Small();
      Pow2Add(8, 8 * (i - 1));
      DivDiv(v, 0x100, Pow2(8 * (i - 1)));
    }
  }

  /** `pb_encode_fixed32` and `pb_encode_fixed64`: byte `i` is `(value >> 8*i) & 0xFF`. */
  method EncodeFixed(s: OStream, value: nat, n: nat) returns (ok: bool)
    requires s.Valid()
    modifies s, s.buf
    ensures Emitted(old(s.Now()), s.Now(), ok, Some(LittleEndian(value, n)))
  {
    var bytes := seq(n, i requires 0 <= i < n => value / Pow2(8 * i) % 0x100);
    assert bytes == LittleEndian(value, n) by {
      forall i | 0 <= i < n
        ensures bytes[i] == LittleEndian(value, n)[i]
      {
        LittleEndianAt(value, n, i);
      }
    }
    ok := s.WriteBytes(bytes);
  }

  /** `pb_enc_string`: the length is found by looking for the terminator, no further than the end
      of the field. */
  method EncodeStringField(s: OStream, f: Field, v: Value) returns (ok: bool)
    requires s.Valid() && f.ltype.LString? && LeafOk(false, f, v) && f.dataSize <= PB_SIZE_MAX
    modifies s, s.buf
    ensures Emitted(old(s.Now()), s.Now(), ok, SerLeaf(f, v))
  {
    var memory := v.bytes + seq(f.dataSize - |v.bytes|, _ => 0);
    var size := 0;
    while size < f.dataSize && memory[size] != 0
      invariant size <= |v.bytes|
    {
      size := size + 1;
    }
    assert size == |v.bytes| && memory[..size] == v.bytes;
    ok := EncodeString(s, memory[..size]);
  }

  /** The encoder of a leaf field. Scalars of a size that no integer type has are an error. */
  method EncodeLeafField(s: OStream, f: Field, v: Value) returns (ok: bool)
    requires s.Valid() && LeafOk(false, f, v) && f.dataSize <= PB_SIZE_MAX
    modifies s, s.buf
    ensures Emitted(old(s.Now()), s.Now(), ok, SerLeaf(f, v))
  {
    if (f.ltype.LVarint? || f.ltype.LUVarint? || f.ltype.LSVarint?) && !IntegerSize(f.dataSize) {
      return false;
    }
    match f.ltype {
      case LVarint => ok := s.EncodeVarint(AsWord64(v.n));
      case LUVarint => ok := s.EncodeVarint(v.n);
      case LSVarint => ok := EncodeSVarint(s, v.n);
      case LFixed32 => ok := EncodeFixed(s, v.n, 4);
      case LFixed64 => ok := EncodeFixed(s, v.n, 8);
      case LBytes =>
        if |v.bytes| + BYTES_HEADER > f.dataSize {
          return false;
        }
        ok := EncodeString(s, v.bytes);
      case LString => ok := EncodeStringField(s, f, v);
      case LFixedLengthBytes => ok := EncodeString(s, v.bytes);
    }
  }

  // ----- fields -----

  /** The encoder that `PB_ENCODERS` gives for the field's type. */
  method EncodeValue(s: OStream, f: Field, v: Value) returns (ok: bool)
    requires s.Valid() && ValidField(f) && ValueOk(false, f, v) && ValueSized(SIZE_LIMIT, f, v)
    modifies s, s.buf
    ensures Emitted(old(s.Now()), s.Now(), ok, SerValue(f, v))
    decreases f, 0
  {
    if f.ltype.LSubmessage? {
      ok := EncodeSubmessage(s, f.sub, v.slots);
    } else {
      ok := EncodeLeafField(s, f, v);
    }
  }

  /** A message behind its length. */
  function SerDelimited(fields: seq<Field>, slots: seq<Slot>): Output
    requires Shaped(fields, slots)
  {
    match SerMsg(fields, slots)
    case None => None
    case Some(b) => Some(Delimited(b))
  }

  /** `pb_encode_submessage`: the size is computed by a first pass over the message that writes
      nothing; a second pass then writes exactly that many bytes. */
  method EncodeSubmessage(s: OStream, fields: seq<Field>, slots: seq<Slot>) returns (ok: bool)
    requires s.Valid() && ValidFields(fields) && Shaped(fields, slots)
    requires Sized(SIZE_LIMIT, fields, slots) && Below(SIZE_LIMIT, SerMsg(fields, slots))
    modifies s, s.buf
    ensures Emitted(old(s.Now()), s.Now(), ok, SerDelimited(fields, slots))
    decreases fields, 8
  {
    var sizing := new OStream.Sizing();
    var sized := EncodeMessage(sizing, fields, slots);
    if !sized {
      return false;
    }
    var size := sizing.bytesWritten;
    ghost var body := SerMsg(fields, slots);
    ghost var s0, prefix := s.Now(), Some(EncVarint(size));
    assert size == |body.value|;
    ok := s.EncodeVarint(size);
    ghost var s1 := s.Now();
    if !ok {
      EmitFailed(s0, s1, prefix, body);
      return;
    }
    ok := EncodeBody(s, fields, slots, size);
    EmitNext(s0, s1, s.Now(), ok, prefix, body);
  }

  /** The second pass of `pb_encode_submessage`: a substream that may take exactly `size` bytes. */
  method EncodeBody(s: OStream, fields: seq<Field>, slots: seq<Slot>, size: nat) returns (ok: bool)
    requires s.Valid() && ValidFields(fields) && Shaped(fields, slots) && Sized(SIZE_LIMIT, fields, slots)
    requires SerMsg(fields, slots).Some? && |SerMsg(fields, slots).value| == size
    modifies s, s.buf
    ensures Emitted(old(s.Now()), s.Now(), ok, SerMsg(fields, slots))
    decreases fields, 7
  {
    if s.buf == null {
      ok := s.Write([], size);
      return;
    }
    if s.bytesWritten + size > s.maxSize {
      return false;
    }
    var sub := new OStream.Sub(s, size);
    ok := EncodeMessage(sub, fields, slots);
    s.bytesWritten := s.bytesWritten + sub.bytesWritten;
    s.state := sub.state;
    if sub.bytesWritten != size {
      return false;
    }
  }

  /** `pb_encode_tag_for_field`, then the value. */
  method EncodeTagged(s: OStream, f: Field, v: Value) returns (ok: bool)
    requires s.Valid() && ValidField(f) && ValueOk(false, f, v) && ValueSized(SIZE_LIMIT, f, v)
    modifies s, s.buf
    ensures Emitted(old(s.Now()), s.Now(), ok, SerTagged(f, v))
    decreases f, 1
  {
    ghost var s0, key := s.Now(), Some(Key(f.tag, WireType(f.ltype)));
    ok := EncodeTag(s, WireType(f.ltype), f.tag);
    ghost var s1 := s.Now();
    if !ok {
      EmitFailed(s0, s1, key, SerValue(f, v));
      return;
    }
    ok := EncodeValue(s, f, v);
    EmitNext(s0, s1, s.Now(), ok, key, SerValue(f, v));
  }

  // ----- arrays -----

  /** The elements of a packed array, written or only counted. */
  method EncodePackedItems(s: OStream, f: Field, items: seq<Value>) returns (ok: bool)
    requires s.Valid() && ValidField(f) && ItemsOk(f, items) && f.ltype.Packable()
    modifies s, s.buf
    ensures Emitted(old(s.Now()), s.Now(), ok, SerPacked(f, items))
  {
    ghost var s0, done: Output := s.Now(), Some([]);
    EmitNothing(s0);
    JoinEmpty(SerPacked(f, items));
    assert items[0..] == items;
    for i := 0 to |items|
      invariant Emitted(s0, s.Now(), true, done)
      invariant SerPacked(f, items) == Join(done, SerPacked(f, items[i..]))
    {
      assert ValueOk(false, f, items[i]);
      assert items[i..][1..] == items[i + 1..];
      ghost var here, next, rest := s.Now(), SerLeaf(f, items[i]), SerPacked(f, items[i + 1..]);
      ok := EncodeLeafField(s, f, items[i]);
      EmitPart(s0, here, s.Now(), ok, done, next, rest);
      if !ok {
        return;
      }
      done := Join(done, next);
    }
    JoinEmpty(done);
    return true;
  }

  /** One record per element. */
  method EncodeUnpackedItems(s: OStream, f: Field, items: seq<Value>) returns (ok: bool)
    requires s.Valid() && ValidField(f) && ItemsOk(f, items) && ItemsSized(SIZE_LIMIT, f, items)
    modifies s, s.buf
    ensures Emitted(old(s.Now()), s.Now(), ok, SerUnpacked(f, items))
    decreases f, 2
  {
    ghost var s0, done: Output := s.Now(), Some([]);
    EmitNothing(s0);
    JoinEmpty(SerUnpacked(f, items));
    assert items[0..] == items;
    for i := 0 to |items|
      invariant Emitted(s0, s.Now(), true, done)
      invariant SerUnpacked(f, items) == Join(done, SerUnpacked(f, items[i..]))
    {
      assert ValueOk(false, f, items[i]) && ValueSized(SIZE_LIMIT, f, items[i]);
      assert items[i..][1..] == items[i + 1..];
      ghost var here, next, rest := s.Now(), SerTagged(f, items[i]), SerUnpacked(f, items[i + 1..]);
      ok := EncodeTagged(s, f, items[i]);
      EmitPart(s0, here, s.Now(), ok, done, next, rest);
      if !ok {
        return;
      }
      done := Join(done, next);
    }
    JoinEmpty(done);
    return true;
  }

  /** The shortcut for fixed-width elements is their exact size. */
  lemma {:induction false} FixedPackedSize(f: Field, items: seq<Value>)
    requires ItemsOk(f, items) && (f.ltype.LFixed32? || f.ltype.LFixed64?)
    ensures SerPacked(f, items).Some?
    ensures |SerPacked(f, items).value| == (if f.ltype.LFixed32? then 4 else 8) * |items|
  {
    if items != [] {
      FixedPackedSize(f, items[1..]);
    }
  }

  /** The size of a packed array: a product for fixed widths, a dry run otherwise. */
  method PackedSize(f: Field, items: seq<Value>) returns (ok: bool, size: nat)
    requires ValidField(f) && ItemsOk(f, items) && f.ltype.Packable()
    ensures ok == SerPacked(f, items).Some?
    ensures ok ==> size == |SerPacked(f, items).value|
  {
    if f.ltype.LFixed32? {
      FixedPackedSize(f, items);
      return true, 4 * |items|;
    } else if f.ltype.LFixed64? {
      FixedPackedSize(f, items);
      return true, 8 * |items|;
    }
    var sizing := new OStream.Sizing();
    ok := EncodePackedItems(sizing, f, items);
    size := sizing.bytesWritten;
  }

  /** The packed branch of `encode_array`. */
  method EncodePackedArray(s: OStream, f: Field, items: seq<Value>) returns (ok: bool)
    requires s.Valid() && ValidField(f) && ItemsOk(f, items) && f.ltype.Packable()
    requires Below(SIZE_LIMIT, SerPacked(f, items))
    requires SerPacked(f, items).Some?
    modifies s, s.buf
    ensures Emitted(old(s.Now()), s.Now(), ok, Some(Key(f.tag, WT_STRING) + Delimited(SerPacked(f, items).value)))
  {
    ghost var body := SerPacked(f, items);
    ghost var key := Some(Key(f.tag, WT_STRING));
    ghost var prefix := Some(EncVarint(|body.value|));
    ghost var s0 := s.Now();
    PackedLayout(key.value, body.value);
    ok := EncodeTag(s, WT_STRING, f.tag);
    ghost var s1 := s.Now();
    if !ok {
      EmitFailed(s0, s1, key, Join(prefix, body));
      return;
    }
    var sized, size := PackedSize(f, items);
    ok := s.EncodeVarint(size);
    ghost var s2 := s.Now();
    EmitNext(s0, s1, s2, ok, key, prefix);
    if !ok {
      EmitFailed(s0, s2, Join(key, prefix), body);
      return;
    }
    if s.buf == null {
      ok := s.Write([], size);
    } else {
      ok := EncodePackedItems(s, f, items);
    }
    EmitNext(s0, s2, s.Now(), ok, Join(key, prefix), body);
  }

  lemma {:induction false} PackedLayout(key: seq<byte>, body: seq<byte>)
    ensures var prefix := EncVarint(|body|);
            && Some(key + Delimited(body)) == Join(Some(key), Join(Some(prefix), Some(body)))
            && Some(key + Delimited(body)) == Join(Join(Some(key), Some(prefix)), Some(body))
  {
    JoinAssociative(Some(key), Some(EncVarint(|body|)), Some(body));
  }

  /** `encode_array` */
  method EncodeArray(s: OStream, f: Field, items: seq<Value>) returns (ok: bool)
    requires s.Valid() && ValidField(f) && ItemsOk(f, items)
    requires |items| <= f.arraySize ==> ItemsSized(SIZE_LIMIT, f, items)
    modifies s, s.buf
    ensures Emitted(old(s.Now()), s.Now(), ok, SerArray(f, items))
    decreases f, 3
  {
    if |items| == 0 {
      EmitNothing(s.Now());
      return true;
    }
    if |items| > f.arraySize {
      return false;
    }
    if f.ltype.Packable() {
      ValidPacked(f, items);
      ok := EncodePackedArray(s, f, items);
    } else {
      ok := EncodeUnpackedItems(s, f, items);
    }
  }

  /** A scalar of a valid width always has an encoding. */
  lemma {:induction false} ValidPacked(f: Field, items: seq<Value>)
    requires ValidField(f) && ItemsOk(f, items) && f.ltype.Packable()
    ensures SerPacked(f, items).Some?
  {
    if items != [] {
      assert ValueOk(false, f, items[0]);
      ValidPacked(f, items[1..]);
    }
  }

  // ----- proto3 presence -----

  predicate DefaultUpTo(fields: seq<Field>, slots: seq<Slot>, n: nat)
    requires Shaped(fields, slots) && n <= |fields|
  {
    forall i :: 0 <= i < n ==> IsDefaultAt(fields, slots, i)
  }

  lemma {:induction false} DefaultStep(fields: seq<Field>, slots: seq<Slot>, n: nat)
    requires Shaped(fields, slots) && n < |fields|
    ensures DefaultUpTo(fields, slots, n + 1) <==> DefaultUpTo(fields, slots, n) && IsDefaultAt(fields, slots, n)
    ensures AllDefault(fields, slots) ==> IsDefaultAt(fields, slots, n)
    ensures n + 1 == |fields| ==> (AllDefault(fields, slots) <==> DefaultUpTo(fields, slots, n + 1))
  {
  }

  /** `pb_check_proto3_default_value` on a submessage: every field is looked at in turn. */
  method CheckAllDefault(fields: seq<Field>, slots: seq<Slot>) returns (isDefault: bool)
    requires ValidFields(fields) && Shaped(fields, slots)
    ensures isDefault == AllDefault(fields, slots)
    decreases fields, 2
  {
    if fields == [] {
      return true;
    }
    var iter := new FieldIter(fields, 0);
    var more := true;
    while more
      invariant iter.Valid() && iter.fields == fields
      invariant more ==> DefaultUpTo(fields, slots, iter.pos)
      invariant !more ==> AllDefault(fields, slots)
      decreases more, |fields| - iter.pos
    {
      var i := iter.pos;
      DefaultStep(fields, slots, i);
      var zero := CheckDefaultAt(fields, slots, i);
      if !zero {
        return false;
      }
      more := iter.Next();
    }
    return true;
  }

  /** `pb_check_proto3_default_value` */
  method CheckDefaultAt(fields: seq<Field>, slots: seq<Slot>, i: nat) returns (isDefault: bool)
    requires ValidFields(fields) && Shaped(fields, slots) && i < |fields|
    ensures isDefault == IsDefaultAt(fields, slots, i)
    decreases fields, 1
  {
    var f, slot := fields[i], slots[i];
    assert ValidField(f) && SlotOk(false, f, slot);
    match f.htype {
      case HRequired => return false;
      case HRepeated => return |slot.items| == 0;
      case HOneof =>
        WhichIsZero(fields, slots, i, 0);
        return Which(fields, slots, i, 0) == 0;
      case HOptional =>
        if f.sizeOffset != 0 {
          return !slot.has;
        }
        isDefault := CheckDefaultValue(f, slot.v);
    }
  }

  method CheckDefaultValue(f: Field, v: Value) returns (isDefault: bool)
    requires ValidField(f) && ValueOk(false, f, v)
    ensures isDefault == IsDefaultValue(f, v)
    decreases f, 0
  {
    match f.ltype {
      case LBytes => return |v.bytes| == 0;
      case LString =>
        var first := if |v.bytes| > 0 then v.bytes[0] else 0;
        return first == 0;
      case LFixedLengthBytes => return f.dataSize == 0;
      case LSubmessage => isDefault := CheckAllDefault(f.sub, v.slots);
      case LVarint => isDefault := CheckNumber(f, v.n);
      case LUVarint => isDefault := CheckNumber(f, v.n);
      case LSVarint => isDefault := CheckNumber(f, v.n);
      case LFixed32 => isDefault := CheckNumber(f, v.n);
      case LFixed64 => isDefault := CheckNumber(f, v.n);
    }
  }

  // ----- how a struct lies in memory -----

  /** The content of the `which` member of the union that field `i` belongs to: the tag of the
      member in use, from position `j` on, or 0. */
  function Which(fields: seq<Field>, slots: seq<Slot>, i: nat, j: nat): nat
    requires |slots| == |fields| && i < |fields| && j <= |fields|
    decreases |fields| - j
  {
    if j == |fields| then 0
    else if SameUnion(fields, i, j) && IsActive(slots[j]) then fields[j].tag
    else Which(fields, slots, i, j + 1)
  }

  lemma {:induction false} WhichIsZero(fields: seq<Field>, slots: seq<Slot>, i: nat, j: nat)
    requires ValidFields(fields) && |slots| == |fields| && i < |fields| && j <= |fields|
    ensures Which(fields, slots, i, j) == 0
       <==> forall k :: j <= k < |fields| && SameUnion(fields, i, k) ==> !IsActive(slots[k])
    decreases |fields| - j
  {
    if j < |fields| {
      assert ValidField(fields[j]);
      WhichIsZero(fields, slots, i, j + 1);
    }
  }

  /** `which` is a member's tag exactly when that member is in use. */
  lemma {:induction false} WhichIsTag(fields: seq<Field>, slots: seq<Slot>, i: nat, j: nat)
    requires ValidFields(fields) && |slots| == |fields| && Exclusive(fields, slots) && i < |fields| && j <= |fields|
    requires fields[i].htype.HOneof?
    ensures Which(fields, slots, i, j) == fields[i].tag <==> j <= i && IsActive(slots[i])
    decreases |fields| - j
  {
    assert ValidField(fields[i]) && SameUnion(fields, i, i);
    if j < |fields| {
      WhichIsTag(fields, slots, i, j + 1);
    }
  }

  /** A number as it lies in memory: its two's complement, least significant byte first. */
  function Image(n: int, size: nat): (bytes: seq<byte>)
    requires 0 <= n + Pow2(8 * size)
    ensures |bytes| == size
  {
    LittleEndian(if n < 0 then n + Pow2(8 * size) else n, size)
  }

  predicate ZeroBytes(s: seq<byte>) {
    forall k :: 0 <= k < |s| ==> s[k] == 0
  }

  lemma {:induction false} ZeroBytesStep(s: seq<byte>)
    requires s != []
    ensures ZeroBytes(s) <==> s[0] == 0 && ZeroBytes(s[1..])
  {
    if s[0] == 0 && ZeroBytes(s[1..]) {
      assert forall k :: 0 < k < |s| ==> s[k] == s[1..][k - 1];
    }
  }

  lemma {:induction false} ZeroMeaning(w: nat, n: nat)
    requires w < Pow2(8 * n)
    ensures ZeroBytes(LittleEndian(w, n)) <==> w == 0
    decreases n
  {
    if n > 0 {
      Pow2Small();
      Pow2Add(8, 8 * (n - 1));
      ZeroMeaning(w / 0x100, n - 1);
      ZeroBytesStep(LittleEndian(w, n));
      assert LittleEndian(w, n)[1..] == LittleEndian(w / 0x100, n - 1);
    }
  }

  lemma {:induction false} NumberRange(f: Field, n: int)
    requires SizeOk(f) && f.ltype.Packable() && LeafOk(false, f, Num(n))
    ensures 0 < n + Pow2(8 * f.dataSize) && n < Pow2(8 * f.dataSize)
  {
    Pow2Small();
    Pow2Add(8, 8);
    Pow2Word();
    Pow2Long();
  }

  lemma {:induction false} ImageMeaning(f: Field, n: int)
    requires SizeOk(f) && f.ltype.Packable() && LeafOk(false, f, Num(n))
    ensures 0 <= n + Pow2(8 * f.dataSize)
    ensures ZeroBytes(Image(n, f.dataSize)) <==> n == 0
  {
    NumberRange(f, n);
    ZeroMeaning(if n < 0 then n + Pow2(8 * f.dataSize) else n, f.dataSize);
  }

  /** The byte-by-byte comparison with zero: a number is zero exactly when all its bytes are. */
  method CheckNumber(f: Field, n: int) returns (zero: bool)
    requires SizeOk(f) && f.ltype.Packable() && LeafOk(false, f, Num(n))
    ensures zero == (n == 0)
  {
    ImageMeaning(f, n);
    var bytes := Image(n, f.dataSize);
    for i := 0 to |bytes|
      invariant forall k :: 0 <= k < i ==> bytes[k] == 0
    {
      if bytes[i] != 0 {
        return false;
      }
    }
    assert ZeroBytes(bytes);
    return true;
  }

  // ----- messages -----

  /** `encode_basic_field` */
  method EncodeBasicField(s: OStream, f: Field, slot: Slot, which: nat) returns (ok: bool)
    requires f.htype.HOneof? ==> (which == f.tag <==> IsActive(slot))
    requires s.Valid() && ValidField(f) && SlotOk(false, f, slot) && SlotSized(SIZE_LIMIT, f, slot)
    modifies s, s.buf
    ensures Emitted(old(s.Now()), s.Now(), ok, SerField(f, slot))
    decreases f, 4
  {
    EmitNothing(s.Now());
    match f.htype {
      case HRequired => ok := EncodeTagged(s, f, slot.v);
      case HOptional =>
        var present;
        if f.sizeOffset != 0 {
          present := slot.has;
        } else {
          var zero := CheckDefaultValue(f, slot.v);
          present := !zero;
        }
        if !present {
          return true;
        }
        ok := EncodeTagged(s, f, slot.v);
      case HRepeated => ok := EncodeArray(s, f, slot.items);
      case HOneof =>
        if which != f.tag {
          return true;
        }
        ok := EncodeTagged(s, f, slot.active.value);
    }
  }

  lemma {:induction false} SerStep(fields: seq<Field>, slots: seq<Slot>, i: nat)
    requires Shaped(fields, slots) && Sized(SIZE_LIMIT, fields, slots) && i < |fields|
    ensures SlotOk(false, fields[i], slots[i]) && SlotSized(SIZE_LIMIT, fields[i], slots[i])
    ensures SerFrom(fields, slots, i) == Join(SerField(fields[i], slots[i]), SerFrom(fields, slots, i + 1))
  {
  }

  /** What is emitted up to the field at position `i`, and what is still to come. */
  ghost predicate Halfway(fields: seq<Field>, slots: seq<Slot>, i: nat, done: Output)
    requires Shaped(fields, slots) && i <= |fields|
  {
    SerMsg(fields, slots) == Join(done, SerFrom(fields, slots, i))
  }

  lemma {:induction false} HalfwayStarts(fields: seq<Field>, slots: seq<Slot>)
    requires Shaped(fields, slots)
    ensures Halfway(fields, slots, 0, Some([]))
    ensures fields == [] ==> SerMsg(fields, slots) == Some([])
  {
    JoinEmpty(SerMsg(fields, slots));
  }

  lemma {:induction false} HalfwayEnds(fields: seq<Field>, slots: seq<Slot>, done: Output)
    requires Shaped(fields, slots) && Halfway(fields, slots, |fields|, done)
    ensures SerMsg(fields, slots) == done
  {
    JoinEmpty(done);
  }

  /** The field at position `i`, behind what has been emitted since `s0`. */
  method EncodeFieldAt(s: OStream, fields: seq<Field>, slots: seq<Slot>, i: nat, ghost s0: Snap, ghost done: Output)
    returns (ok: bool, ghost next: Output)
    requires s.Valid() && ValidFields(fields) && i < |fields|
    requires Shaped(fields, slots) && Sized(SIZE_LIMIT, fields, slots)
    requires Emitted(s0, s.Now(), true, done) && Halfway(fields, slots, i, done)
    modifies s, s.buf
    ensures ok ==> Emitted(s0, s.Now(), true, next) && Halfway(fields, slots, i + 1, next)
    ensures !ok ==> Emitted(s0, s.Now(), false, SerMsg(fields, slots))
    decreases fields, 4
  {
    SerStep(fields, slots, i);
    if fields[i].htype.HOneof? {
      WhichIsTag(fields, slots, i, 0);
    }
    ghost var here := s.Now();
    ok := EncodeBasicField(s, fields[i], slots[i], Which(fields, slots, i, 0));
    EmitPart(s0, here, s.Now(), ok, done, SerField(fields[i], slots[i]), SerFrom(fields, slots, i + 1));
    next := Join(done, SerField(fields[i], slots[i]));
  }

  /** One round of the loop: the field the iterator is on, then on to the next. */
  method EncodeRound(s: OStream, iter: FieldIter, slots: seq<Slot>, ghost s0: Snap, ghost done: Output)
    returns (ok: bool, more: bool, ghost next: Output)
    requires s.Valid() && iter.Valid() && iter.fields != []
    requires ValidFields(iter.fields) && Shaped(iter.fields, slots) && Sized(SIZE_LIMIT, iter.fields, slots)
    requires Emitted(s0, s.Now(), true, done) && Halfway(iter.fields, slots, iter.pos, done)
    modifies s, s.buf, iter
    ensures iter.Valid() && (ok && more ==> iter.pos == old(iter.pos) + 1)
    ensures ok ==> Emitted(s0, s.Now(), true, next)
    ensures ok ==> Halfway(iter.fields, slots, if more then iter.pos else |iter.fields|, next)
    ensures !ok ==> Emitted(s0, s.Now(), false, SerMsg(iter.fields, slots))
    decreases iter.fields, 5
  {
    more := false;
    ok, next := EncodeFieldAt(s, iter.fields, slots, iter.pos, s0, done);
    if !ok {
      return;
    }
    ghost var now := s.Now();
    more := iter.Next();
    assert s.Now() == now;
  }

  /** `pb_encode` */
  method EncodeMessage(s: OStream, fields: seq<Field>, slots: seq<Slot>) returns (ok: bool)
    requires s.Valid() && ValidFields(fields) && Shaped(fields, slots) && Sized(SIZE_LIMIT, fields, slots)
    modifies s, s.buf
    ensures Emitted(old(s.Now()), s.Now(), ok, SerMsg(fields, slots))
    decreases fields, 6
  {
    ghost var s0, done: Output := s.Now(), Some([]);
    EmitNothing(s0);
    HalfwayStarts(fields, slots);
    if fields == [] {
      return true;
    }
    var iter := new FieldIter(fields, 0);
    var more := true;
    while more
      invariant iter.Valid() && iter.fields == fields
      invariant Emitted(s0, s.Now(), true, done)
      invariant Halfway(fields, slots, if more then iter.pos else |fields|, done)
      decreases more, |fields| - iter.pos
    {
      ok, more, done := EncodeRound(s, iter, slots, s0, done);
      if !ok {
        return;
      }
    }
    HalfwayEnds(fields, slots, done);
    return true;
  }

  /** `pb_get_encoded_size`: the exact number of bytes that encoding the message emits. */
  method GetEncodedSize(fields: seq<Field>, slots: seq<Slot>) returns (ok: bool, size: nat)
    requires ValidFields(fields) && Shaped(fields, slots) && Sized(SIZE_LIMIT, fields, slots)
    ensures ok == SerMsg(fields, slots).Some?
    ensures ok ==> size == |SerMsg(fields, slots).value|
  {
    var stream := new OStream.Sizing();
    ok := EncodeMessage(stream, fields, slots);
    size := stream.bytesWritten;
  }
}
