/** The decoder as the C code runs it: over a stream, a field iterator and the required-field
    bitmap, each procedure proved to do what its rule in `Parse` says. */
module Decoder {
  import opened Wrappers
  import opened Bits
  import opened Varint
  import ZigZag
  import opened Descriptor
  import opened Parse
  import opened Canonical
  import opened FieldIterator
  import opened Required
  import opened InputStream

  // ----- numbers -----

  /** `(intN_t)v` for a 64-bit `v`, with `m` the number of values of the narrow type. */
  function Narrow(v: int, m: nat): int
    requires m > 0 && -0x8000_0000_0000_0000 <= v < 0x8000_0000_0000_0000
  {
    var u := Wrap(if v < 0 then v + 0x1_0000_0000_0000_0000 else v, m);
    if u < m / 2 then u else u - m
  }

  /** The cast changes a value exactly when the value does not fit. */
  lemma {:induction false} NarrowExact(v: int, m: nat, q: nat)
    requires m >= 2 && m % 2 == 0 && m * q == 0x1_0000_0000_0000_0000 && q > 0
    requires -0x8000_0000_0000_0000 <= v < 0x8000_0000_0000_0000
    ensures Narrow(v, m) == v <==> 0 <= v + m / 2 < m
  {
    if 0 <= v + m / 2 < m && v < 0 {
      WrapMultiple(v + m, m, q - 1);
      assert (q - 1) * m == 0x1_0000_0000_0000_0000 - m;
      assert Wrap(v + m, m) == v + m;
    }
  }

  /** Clamping to the field's size and comparing, as the signed decoders do. */
  method CheckSigned(value: int, size: nat) returns (ok: bool)
    requires -0x8000_0000_0000_0000 <= value < 0x8000_0000_0000_0000
    ensures ok == SignedFits(value, size)
  {
    var clamped: int;
    if size == 8 {
      clamped := value;
    } else if size == 4 {
      NarrowExact(value, 0x1_0000_0000, 0x1_0000_0000);
      clamped := Narrow(value, 0x1_0000_0000);
    } else if size == 2 {
      NarrowExact(value, 0x1_0000, 0x1_0000_0000_0000);
      clamped := Narrow(value, 0x1_0000);
    } else if size == 1 {
      NarrowExact(value, 0x100, 0x100_0000_0000_0000);
      clamped := Narrow(value, 0x100);
    } else {
      return false;
    }
    return clamped == value;
  }

  /** `pb_dec_varint`: fields of at most 32 bits are cast to `int32_t` first. */
  method DecVarintField(s: IStream, f: Field) returns (ok: bool, v: Value)
    requires s.Valid() && f.ltype.LVarint?
    modifies s
    ensures s.Valid() && s.End() == old(s.End()) && s.state >= old(s.state)
    ensures Agrees(ok, v, Number(f, DecVarint(old(s.Remaining()))), s.Remaining())
  {
    var got, value := s.DecodeVarint();
    if !got {
      return false, Num(0);
    }
    var svalue := if f.dataSize == 8 then AsInt64(value) else AsInt32(Low32(value));
    ok := CheckSigned(svalue, f.dataSize);
    v := Num(svalue);
  }

  /** `pb_dec_uvarint` */
  method DecUVarintField(s: IStream, f: Field) returns (ok: bool, v: Value)
    requires s.Valid() && f.ltype.LUVarint?
    modifies s
    ensures s.Valid() && s.End() == old(s.End()) && s.state >= old(s.state)
    ensures Agrees(ok, v, Number(f, DecVarint(old(s.Remaining()))), s.Remaining())
  {
    var got, value := s.DecodeVarint();
    if !got {
      return false, Num(0);
    }
    var clamped: nat;
    if f.dataSize == 8 {
      clamped := value;
    } else if f.dataSize == 4 {
      clamped := Low32(value);
    } else if f.dataSize == 2 {
      clamped := Wrap(value, 0x1_0000);
    } else if f.dataSize == 1 {
      clamped := Wrap(value, 0x100);
    } else {
      return false, Num(0);
    }
    return clamped == value, Num(value);
  }

  /** `pb_decode_svarint` */
  method DecodeSVarint(s: IStream) returns (ok: bool, dest: int)
    requires s.Valid()
    modifies s
    ensures s.Valid() && s.End() == old(s.End()) && s.state >= old(s.state)
    ensures var r := DecVarint(old(s.Remaining()));
            ok == r.Ok? && (ok ==> dest == ZigZag.Deinterleaved(r.value) && s.Remaining() == r.rest)
    ensures -0x8000_0000_0000_0000 <= dest < 0x8000_0000_0000_0000
  {
    dest := 0;
    var value;
    ok, value := s.DecodeVarint();
    if ok {
      Pow2Long();
      ZigZag.DecodeMeaning(value);
      dest := ZigZag.Decode(value);
    }
  }

  /** `pb_dec_svarint` */
  method DecSVarintField(s: IStream, f: Field) returns (ok: bool, v: Value)
    requires s.Valid() && f.ltype.LSVarint?
    modifies s
    ensures s.Valid() && s.End() == old(s.End()) && s.state >= old(s.state)
    ensures Agrees(ok, v, Number(f, DecVarint(old(s.Remaining()))), s.Remaining())
  {
    var got, value := DecodeSVarint(s);
    if !got {
      return false, Num(0);
    }
    ok := CheckSigned(value, f.dataSize);
    v := Num(value);
  }

  lemma {:induction false} LittleEndianAppend(p: seq<byte>, b: byte)
    ensures FromLittleEndian(p + [b]) == FromLittleEndian(p) + Scaled(b, 8 * |p|)
  {
    if p == [] {
      assert [b][1..] == [];
    } else {
      LittleEndianAppend(p[1..], b);
      assert (p + [b])[1..] == p[1..] + [b];
      ScaledByte(b, 8 * (|p| - 1));
    }
  }

  lemma {:induction false} ScaledByte(x: nat, n: nat)
    ensures Scaled(x, n + 8) == 0x100 * Scaled(x, n)
  {
    assert Scaled(x, n + 2) == 4 * Scaled(x, n);
    assert Scaled(x, n + 4) == 4 * Scaled(x, n + 2);
    assert Scaled(x, n + 6) == 4 * Scaled(x, n + 4);
    assert Scaled(x, n + 8) == 4 * Scaled(x, n + 6);
  }

  /** `value |= (uintN_t)b << 8k` for the next byte of a little-endian word of `n` bytes. */
  lemma {:induction false} OrByte(p: seq<byte>, b: byte, n: nat)
    requires |p| < n
    ensures Or(FromLittleEndian(p), Shl(b, 8 * |p|, 8 * n)) == FromLittleEndian(p + [b])
  {
    LittleEndianBound(p);
    LittleEndianBound(p + [b]);
    OrShl(FromLittleEndian(p), b, 8 * |p|, 8 * n);
    LittleEndianAppend(p, b);
    PowMonotone(8 * |p + [b]|, 8 * n);
  }

  /** Or-ing the bytes of a word together, each at its place. */
  function Assemble(b: seq<byte>, k: nat, n: nat): nat
    requires k <= |b|
  {
    if k == 0 then 0 else Or(Assemble(b, k - 1, n), Shl(b[k - 1], 8 * (k - 1), 8 * n))
  }

  lemma {:induction false} AssembleIsLittleEndian(b: seq<byte>, k: nat, n: nat)
    requires k <= |b| && k <= n
    ensures Assemble(b, k, n) == FromLittleEndian(b[..k])
    decreases k
  {
    if k > 0 {
      AssembleIsLittleEndian(b, k - 1, n);
      OrByte(b[..k - 1], b[k - 1], n);
      assert b[..k] == b[..k - 1] + [b[k - 1]];
    }
  }

  /** `pb_decode_fixed32` and `pb_decode_fixed64`, by width. */
  method DecFixed(s: IStream, n: nat) returns (ok: bool, v: Value)
    requires s.Valid()
    modifies s
    ensures s.Valid() && s.End() == old(s.End()) && s.state >= old(s.state)
    ensures Agrees(ok, v, Fixed(old(s.Remaining()), n), s.Remaining())
  {
    var bytes := new byte[n];
    ok := s.Read(bytes, n);
    assert bytes[..n] == bytes[..];
    AssembleIsLittleEndian(bytes[..], n, n);
    v := Num(Assemble(bytes[..], n, n));
  }

  // ----- byte strings -----

  /** `pb_dec_bytes` */
  method DecBytesField(s: IStream, f: Field) returns (ok: bool, v: Value)
    requires s.Valid() && f.ltype.LBytes?
    modifies s
    ensures s.Valid() && s.End() == old(s.End()) && s.state >= old(s.state)
    ensures Agrees(ok, v, DecBytes(f, old(s.Remaining())), s.Remaining())
  {
    v := Num(0);
    var got, size := s.DecodeVarint32();
    if !got || size > PB_SIZE_MAX {
      return false, v;
    }
    var allocSize := size + BYTES_HEADER;
    if allocSize > f.dataSize {
      return false, v;
    }
    var dest := new byte[f.dataSize - BYTES_HEADER];
    ok := s.Read(dest, size);
    v := Blob(dest[..size]);
  }

  lemma {:induction false} TerminatedCopy(copy: seq<byte>, b: seq<byte>)
    requires |b| < |copy| && copy[..|b|] == b && copy[|b|] == 0
    ensures UpToNul(copy) == UpToNul(b)
    decreases |b|
  {
    if b != [] && b[0] != 0 {
      assert copy[0] == copy[..|b|][0] && copy[1..][..|b| - 1] == copy[..|b|][1..];
      TerminatedCopy(copy[1..], b[1..]);
    }
  }

  /** `pb_dec_string`: the bytes are copied into the field and a terminator is put behind them, so
      that the field then holds what lies in front of the first NUL. */
  method DecStringField(s: IStream, f: Field) returns (ok: bool, v: Value)
    requires s.Valid() && f.ltype.LString?
    requires f.dataSize <= PB_SIZE_MAX
    modifies s
    ensures s.Valid() && s.End() == old(s.End()) && s.state >= old(s.state)
    ensures Agrees(ok, v, DecString(f, old(s.Remaining())), s.Remaining())
  {
    v := Num(0);
    var got, size := s.DecodeVarint32();
    if !got {
      return false, v;
    }
    var allocSize := Low32(size + 1);
    if allocSize < size || allocSize > f.dataSize {
      return false, v;
    }
    assert allocSize == size + 1;
    var text;
    ok, text := ReadTerminated(s, size, f.dataSize);
    v := Blob(text);
  }

  /** Puts a terminator behind the bytes read and looks at the buffer as a C string. */
  method Terminate(dest: array<byte>, size: nat) returns (text: seq<byte>)
    requires size < dest.Length
    modifies dest
    ensures text == UpToNul(old(dest[..size]))
  {
    ghost var b := dest[..size];
    dest[size] := 0;
    assert dest[..][..size] == b;
    TerminatedCopy(dest[..], b);
    text := UpToNul(dest[..]);
  }

  /** Reads a string into a buffer of the field's size. */
  method ReadTerminated(s: IStream, size: nat, capacity: nat) returns (ok: bool, text: seq<byte>)
    requires s.Valid() && size < capacity
    modifies s
    ensures s.Valid() && s.End() == old(s.End()) && s.state >= old(s.state)
    ensures var r := Take(old(s.Remaining()), size);
            ok == r.Ok? && (ok ==> text == UpToNul(r.value) && s.Remaining() == r.rest)
  {
    var dest := new byte[capacity];
    ok := s.Read(dest, size);
    ghost var left := s.Remaining();
    text := Terminate(dest, size);
    assert s.Remaining() == left;
  }

  /** `pb_dec_fixed_length_bytes` */
  method DecFixedLengthBytesField(s: IStream, f: Field) returns (ok: bool, v: Value)
    requires s.Valid() && f.ltype.LFixedLengthBytes?
    modifies s
    ensures s.Valid() && s.End() == old(s.End()) && s.state >= old(s.state)
    ensures Agrees(ok, v, DecFixedLengthBytes(f, old(s.Remaining())), s.Remaining())
  {
    v := Num(0);
    var got, size := s.DecodeVarint32();
    if !got || size > PB_SIZE_MAX {
      return false, v;
    }
    if size == 0 {
      return true, Blob(seq(f.dataSize, _ => 0));
    }
    if size != f.dataSize {
      return false, v;
    }
    var dest := new byte[f.dataSize];
    ok := s.Read(dest, f.dataSize);
    assert dest[..f.dataSize] == dest[..];
    v := Blob(dest[..]);
  }

  /** The decoder of a leaf field, by its type. */
  method DecLeafField(s: IStream, f: Field) returns (ok: bool, v: Value)
    requires s.Valid() && f.dataSize <= PB_SIZE_MAX
    modifies s
    ensures s.Valid() && s.End() == old(s.End()) && s.state >= old(s.state)
    ensures Agrees(ok, v, DecLeaf(f, old(s.Remaining())), s.Remaining())
  {
    match f.ltype {
      case LVarint => ok, v := DecVarintField(s, f);
      case LUVarint => ok, v := DecUVarintField(s, f);
      case LSVarint => ok, v := DecSVarintField(s, f);
      case LFixed32 => ok, v := DecFixed(s, 4);
      case LFixed64 => ok, v := DecFixed(s, 8);
      case LBytes => ok, v := DecBytesField(s, f);
      case LString => ok, v := DecStringField(s, f);
      case LFixedLengthBytes => ok, v := DecFixedLengthBytesField(s, f);
      case LSubmessage => ok, v := false, Num(0);
      case LExtension => ok, v := false, Num(0);
    }
  }

  // ----- fields and messages -----

  lemma {:induction false} PackedRule(f: Field, region: seq<byte>, items: seq<Value>)
    ensures region == [] ==> DecPacked(f, region, items) == Some(items)
    ensures region != [] && |items| >= f.arraySize ==> DecPacked(f, region, items) == None
    ensures region != [] && |items| < f.arraySize ==>
              var r := DecLeaf(f, region);
              DecPacked(f, region, items) == if r.Ok? then DecPacked(f, r.rest, items + [r.value]) else None
  {
  }

  /** The packed branch of `decode_static_field`: elements are read until the region is used up or
      the array is full, and the region must then be used up. */
  method DecPackedArray(s: IStream, f: Field, items: seq<Value>) returns (ok: bool, all: seq<Value>)
    requires s.Valid() && f.dataSize <= PB_SIZE_MAX
    modifies s
    ensures s.Valid() && s.End() <= old(s.End()) && s.state >= old(s.state)
    ensures ok ==> s.End() == old(s.End())
    ensures var r := TakeString(old(s.Remaining()));
            && ok == (r.Ok? && DecPacked(f, r.value, items).Some?)
            && (ok ==> all == DecPacked(f, r.value, items).value && s.Remaining() == r.rest)
  {
    all := items;
    ghost var r := TakeString(s.Remaining());
    var got, sub := s.MakeSubstream();
    if !got {
      return false, all;
    }
    var status := true;
    ghost var end := sub.End();
    while sub.bytesLeft > 0 && |all| < f.arraySize
      invariant sub.Valid() && sub.End() == old(s.End()) - s.bytesLeft && sub.state >= s.state
      invariant s.Valid() && sub.End() + s.bytesLeft <= s.buf.Length && s.state >= old(s.state)
      invariant status && DecPacked(f, sub.Remaining(), all) == DecPacked(f, r.value, items)
      invariant sub.End() == end && s.Behind(end) == r.rest
      decreases sub.bytesLeft
    {
      PackedRule(f, sub.Remaining(), all);
      var read, v := DecLeafField(sub, f);
      if !read {
        status := false;
        break;
      }
      all := all + [v];
    }
    PackedRule(f, sub.Remaining(), all);
    if sub.bytesLeft != 0 {
      return false, all;
    }
    assert status ==> DecPacked(f, r.value, items) == Some(all);
    var closed := s.CloseSubstream(sub);
    return status, all;
  }

  // ----- defaults -----

  /** `pb_field_set_to_default` */
  method FieldSetToDefault(f: Field) returns (slot: Slot)
    ensures slot == DefaultSlot(f) && InitialSlot(f, slot)
    decreases f, 0
  {
    DefaultSlotIsInitial(f);
    if f.htype.HRepeated? {
      return Many([]);
    } else if f.htype.HOneof? {
      return Member(None);
    }
    var data;
    if f.ltype.LSubmessage? {
      var slots := MessageSetToDefaults(f.sub);
      data := Struct(slots);
    } else if f.dflt.Some? {
      data := f.dflt.value;
    } else {
      data := ZeroLeaf(f);
    }
    if f.htype.HOptional? && f.sizeOffset != 0 {
      return Maybe(false, data);
    }
    return Plain(data);
  }

  /** `pb_message_set_to_defaults` */
  method MessageSetToDefaults(fields: seq<Field>) returns (slots: seq<Slot>)
    ensures slots == Defaults(fields) && InitialStruct(fields, slots)
    decreases fields, 1
  {
    DefaultsAreInitial(fields);
    slots := [];
    if fields == [] {
      return;
    }
    var iter := new FieldIter(fields, 0);
    var more := true;
    while more
      invariant iter.Valid() && iter.fields == fields
      invariant |slots| == if more then iter.pos else |fields|
      invariant forall k :: 0 <= k < |slots| ==> slots[k] == DefaultSlot(fields[k])
      decreases more, |fields| - |slots|
    {
      var slot := FieldSetToDefault(fields[iter.pos]);
      slots := slots + [slot];
      more := iter.Next();
    }
    assert forall k :: 0 <= k < |fields| ==> Defaults(fields)[k] == DefaultSlot(fields[k]);
  }

  /** A descriptor and a struct that can be decoded into. */
  predicate Ready(fields: seq<Field>, slots: seq<Slot>) {
    ValidFields(fields) && WellFormed(fields, slots)
  }

  lemma {:induction false} SubmessageRule(f: Field, s: seq<byte>, base: seq<Slot>)
    requires f.ltype.LSubmessage? && |base| == |f.sub|
    ensures TakeString(s).Err? ==> DecValue(f, s, base) == Err
    ensures TakeString(s).Ok? ==>
              var r := DecNoInit(f.sub, TakeString(s).value, base);
              DecValue(f, s, base) == if r.Ok? then Ok(Struct(r.value), TakeString(s).rest) else Err
  {
  }

  /** `pb_dec_submessage`: the nested decode sees its region and nothing else. Array entries are
      initialised first; other submessages are decoded into what is there. */
  method DecSubmessage(s: IStream, f: Field, base: seq<Slot>) returns (ok: bool, v: Value)
    requires s.Valid() && f.ltype.LSubmessage? && Ready(f.sub, base)
    requires f.htype.HRepeated? ==> base == Defaults(f.sub)
    modifies s
    ensures s.Valid() && s.End() <= old(s.End()) && s.state >= old(s.state)
    ensures ok ==> s.End() == old(s.End())
    ensures Agrees(ok, v, DecValue(f, old(s.Remaining()), base), s.Remaining())
    decreases s.bytesLeft, 1
  {
    v := Num(0);
    ghost var s0 := s.Remaining();
    SubmessageRule(f, s0, base);
    var got, sub := s.MakeSubstream();
    if !got {
      return false, v;
    }
    ghost var end := sub.End();
    var status, slots := DecodeNested(sub, f, base);
    assert s.Behind(end) == TakeString(s0).rest;
    var closed := s.CloseSubstream(sub);
    return status, Struct(slots);
  }

  /** The part of `pb_dec_submessage` between opening the region and closing it. */
  method DecodeNested(sub: IStream, f: Field, base: seq<Slot>) returns (ok: bool, slots: seq<Slot>)
    requires sub.Valid() && f.ltype.LSubmessage? && Ready(f.sub, base)
    requires f.htype.HRepeated? ==> base == Defaults(f.sub)
    modifies sub
    ensures sub.Valid() && sub.End() <= old(sub.End()) && sub.state >= old(sub.state)
    ensures ok ==> sub.End() == old(sub.End())
    ensures Agrees(ok, slots, DecNoInit(f.sub, old(sub.Remaining()), base), sub.Remaining())
    decreases sub.bytesLeft, 9
  {
    if f.htype.HRepeated? {
      ok, slots := DecodeMessage(sub, f.sub);
    } else {
      ok, slots := DecodeNoInit(sub, f.sub, base);
    }
  }

  method DecodeMessage(s: IStream, fields: seq<Field>) returns (ok: bool, slots: seq<Slot>)
    requires s.Valid() && ValidFields(fields)
    modifies s
    ensures s.Valid() && s.End() <= old(s.End()) && s.state >= old(s.state)
    ensures ok ==> s.End() == old(s.End())
    ensures Agrees(ok, slots, Parse.Decode(fields, old(s.Remaining())), s.Remaining())
    decreases s.bytesLeft, 8
  {
    DefaultsOk(fields);
    slots := MessageSetToDefaults(fields);
    ok, slots := DecodeNoInit(s, fields, slots);
  }

  /** The decoder that `PB_DECODERS` gives for the field's type. */
  method DecodeValue(s: IStream, f: Field, base: seq<Slot>) returns (ok: bool, v: Value)
    requires s.Valid() && ValidField(f) && |base| == |f.sub|
    requires f.ltype.LSubmessage? ==> Ready(f.sub, base)
    requires f.ltype.LSubmessage? && f.htype.HRepeated? ==> base == Defaults(f.sub)
    modifies s
    ensures s.Valid() && s.End() <= old(s.End()) && s.state >= old(s.state)
    ensures ok ==> s.End() == old(s.End())
    ensures Agrees(ok, v, DecValue(f, old(s.Remaining()), base), s.Remaining())
    decreases s.bytesLeft, 2
  {
    if f.ltype.LSubmessage? {
      ok, v := DecSubmessage(s, f, base);
    } else {
      ok, v := DecLeafField(s, f);
    }
  }

  lemma {:induction false} BaseReady(fields: seq<Field>, slots: seq<Slot>, i: nat)
    requires Ready(fields, slots) && i < |fields|
    ensures ValidField(fields[i]) && SlotOk(true, fields[i], slots[i])
    ensures fields[i].ltype.LSubmessage? ==> Ready(fields[i].sub, Defaults(fields[i].sub))
    ensures fields[i].ltype.LSubmessage? && (fields[i].htype.HRequired? || fields[i].htype.HOptional?) ==>
              Ready(fields[i].sub, StructOf(fields[i], Current(slots[i])))
  {
    var f := fields[i];
    assert ValidField(f) && SlotOk(true, f, slots[i]);
    if f.ltype.LSubmessage? {
      DefaultsOk(f.sub);
      if f.htype.HRequired? || f.htype.HOptional? {
        BaseOk(f, slots[i].v);
      }
    }
  }

  /** The repeated branch of `decode_static_field`: a packed region or one more entry. */
  method DecodeArrayField(s: IStream, wireType: nat, f: Field, items: seq<Value>)
    returns (ok: bool, items': seq<Value>)
    requires s.Valid() && ValidField(f) && f.htype.HRepeated?
    requires f.ltype.LSubmessage? ==> Ready(f.sub, Defaults(f.sub))
    modifies s
    ensures s.Valid() && s.End() <= old(s.End()) && s.state >= old(s.state)
    ensures ok ==> s.End() == old(s.End())
    ensures Agrees(ok, items', DecArray(f, wireType, old(s.Remaining()), items), s.Remaining())
    decreases s.bytesLeft, 3
  {
    items' := items;
    if wireType == WT_STRING && f.ltype.Packable() {
      ok, items' := DecPackedArray(s, f, items);
    } else if |items| >= f.arraySize {
      ok := false;
    } else {
      var v;
      ok, v := DecodeValue(s, f, Defaults(f.sub));
      items' := items + [v];
    }
  }

  /** `decode_static_field` */
  method DecodeStaticField(s: IStream, wireType: nat, fields: seq<Field>, i: nat, slots: seq<Slot>)
    returns (ok: bool, slots': seq<Slot>)
    requires s.Valid() && Ready(fields, slots) && i < |fields|
    modifies s
    ensures s.Valid() && s.End() <= old(s.End()) && s.state >= old(s.state)
    ensures ok ==> s.End() == old(s.End())
    ensures Agrees(ok, slots', DecField(fields, i, wireType, old(s.Remaining()), slots), s.Remaining())
    decreases s.bytesLeft, 4
  {
    var f, v := fields[i], Num(0);
    slots' := slots;
    BaseReady(fields, slots, i);
    match f.htype {
      case HRequired =>
        ok, v := DecodeValue(s, f, StructOf(f, Current(slots[i])));
        slots' := slots[i := Plain(v)];
      case HOptional =>
        ok, v := DecodeValue(s, f, StructOf(f, Current(slots[i])));
        slots' := slots[i := if f.sizeOffset != 0 then Maybe(true, v) else Plain(v)];
      case HRepeated =>
        var items;
        ok, items := DecodeArrayField(s, wireType, f, slots[i].items);
        slots' := slots[i := Many(items)];
      case HOneof =>
        var base := MessageSetToDefaults(f.sub);
        ok, v := DecodeValue(s, f, base);
        slots' := Select(fields, slots, i, v);
    }
  }

  /** The rule for one round of the record loop. */
  lemma {:induction false} LoopRound(fields: seq<Field>, s: seq<byte>, slots: seq<Slot>, seen: set<nat>)
    requires |slots| == |fields| && s != []
    ensures var k := DecVarint32(s);
            DecLoop(fields, s, slots, seen)
            == if k.Err? then Err
               else if k.value == 0 then Ok(Progress(slots, seen, true), k.rest)
               else
                 var r := DecRecord(fields, k.value / 8, k.value % 8, k.rest, slots);
                 if r.Err? then Err else DecLoop(fields, r.rest, r.value, MarkSeen(fields, k.value / 8, seen))
  {
  }

  lemma {:induction false} LoopStops(fields: seq<Field>, slots: seq<Slot>, seen: set<nat>)
    requires |slots| == |fields|
    ensures DecLoop(fields, [], slots, seen) == Ok(Progress(slots, seen, false), [])
  {
  }

  /** Sets the bit of the field the iterator is on, if it is a tracked required field. */
  method MarkField(iter: FieldIter, fieldsSeen: array<nat>, ghost seen: set<nat>)
    requires iter.Valid() && iter.fields != [] && fieldsSeen.Length == 2
    requires Represents(fieldsSeen[0], fieldsSeen[1], iter.fields, seen)
    modifies fieldsSeen
    ensures Represents(fieldsSeen[0], fieldsSeen[1], iter.fields, seen + {iter.pos})
  {
    var i, r := iter.pos, iter.requiredIndex;
    if iter.fields[i].htype.HRequired? && r < MAX_REQUIRED {
      MarkRequired(fieldsSeen[0], fieldsSeen[1], iter.fields, seen, i);
      var bit := Pow2(r % 32);
      fieldsSeen[r / 32] := Or(fieldsSeen[r / 32], bit);
    } else {
      MarkOther(fieldsSeen[0], fieldsSeen[1], iter.fields, seen, i);
    }
  }

  /** One record: an unknown tag is skipped, a known one is marked and decoded. */
  method DecodeRecord(s: IStream, iter: FieldIter, wireType: nat, tag: nat, slots: seq<Slot>, fieldsSeen: array<nat>,
                      ghost seen: set<nat>) returns (ok: bool, slots': seq<Slot>)
    requires s.Valid() && iter.Valid() && Ready(iter.fields, slots) && fieldsSeen.Length == 2
    requires Represents(fieldsSeen[0], fieldsSeen[1], iter.fields, seen)
    modifies s, iter, fieldsSeen
    ensures s.Valid() && s.End() <= old(s.End()) && s.state >= old(s.state)
    ensures ok ==> s.End() == old(s.End())
    ensures iter.Valid()
    ensures Agrees(ok, slots', DecRecord(iter.fields, tag, wireType, old(s.Remaining()), slots), s.Remaining())
    ensures ok ==> Represents(fieldsSeen[0], fieldsSeen[1], iter.fields, MarkSeen(iter.fields, tag, seen))
    decreases s.bytesLeft, 5
  {
    slots' := slots;
    var found := iter.Find(tag);
    if !found {
      ok := s.SkipField(wireType);
      return;
    }
    if iter.fields == [] {
      // the terminator: a required field of no valid size
      var got, value := s.DecodeVarint();
      return false, slots;
    }
    var i := iter.pos;
    FoundField(iter.fields, tag, i);
    MarkField(iter, fieldsSeen, seen);
    ok, slots' := DecodeStaticField(s, wireType, iter.fields, i, slots);
  }

  lemma {:induction false} FoundField(fields: seq<Field>, tag: nat, i: nat)
    requires DistinctTags(fields) && i < |fields| && Matches(fields[i], tag)
    ensures FindField(fields, tag) == Some(i)
  {
    FindOwnTag(fields, i);
  }

  /** The record loop of `pb_decode_noinit`. */
  method DecodeRecords(s: IStream, iter: FieldIter, slots0: seq<Slot>, fieldsSeen: array<nat>)
    returns (ok: bool, slots: seq<Slot>, ghost seen: set<nat>, ghost zero: bool)
    requires s.Valid() && iter.Valid() && Ready(iter.fields, slots0) && fieldsSeen.Length == 2
    requires Represents(fieldsSeen[0], fieldsSeen[1], iter.fields, {})
    modifies s, iter, fieldsSeen
    ensures s.Valid() && s.End() <= old(s.End()) && s.state >= old(s.state)
    ensures ok ==> s.End() == old(s.End())
    ensures ok == DecLoop(iter.fields, old(s.Remaining()), slots0, {}).Ok?
    ensures ok ==>
              DecLoop(iter.fields, old(s.Remaining()), slots0, {}) == Ok(Progress(slots, seen, zero), s.Remaining())
    ensures ok ==> iter.Valid() && Represents(fieldsSeen[0], fieldsSeen[1], iter.fields, seen)
    decreases s.bytesLeft, 6
  {
    slots, seen, zero := slots0, {}, false;
    var fields := iter.fields;
    ghost var spec := DecLoop(fields, s.Remaining(), slots0, {});
    while s.bytesLeft > 0
      invariant s.Valid() && s.End() == old(s.End()) && s.state >= old(s.state)
      invariant iter.Valid() && Ready(fields, slots) && !zero
      invariant spec == DecLoop(fields, s.Remaining(), slots, seen)
      invariant Represents(fieldsSeen[0], fieldsSeen[1], fields, seen)
      decreases s.bytesLeft
    {
      LoopRound(fields, s.Remaining(), slots, seen);
      var got, wireType, tag, eof := s.DecodeTag();
      if !got {
        if eof {
          zero := true;
          return true, slots, seen, zero;
        }
        return false, slots, seen, zero;
      }
      if DecRecord(fields, tag, wireType, s.Remaining(), slots).Ok? {
        DecRecordOk(fields, tag, wireType, s.Remaining(), slots);
      }
      var decoded;
      decoded, slots := DecodeRecord(s, iter, wireType, tag, slots, fieldsSeen, seen);
      if !decoded {
        return false, slots, seen, zero;
      }
      seen := MarkSeen(fields, tag, seen);
    }
    LoopStops(fields, slots, seen);
    return true, slots, seen, zero;
  }

  /** `pb_decode_noinit` */
  method DecodeNoInit(s: IStream, fields: seq<Field>, slots0: seq<Slot>) returns (ok: bool, slots: seq<Slot>)
    requires s.Valid() && Ready(fields, slots0)
    modifies s
    ensures s.Valid() && s.End() <= old(s.End()) && s.state >= old(s.state)
    ensures ok ==> s.End() == old(s.End())
    ensures Agrees(ok, slots, DecNoInit(fields, old(s.Remaining()), slots0), s.Remaining())
    decreases s.bytesLeft, 7
  {
    var fieldsSeen := new nat[2];
    fieldsSeen[0], fieldsSeen[1] := 0, 0;
    var iter := new FieldIter(fields, 0);
    NothingSeen(fields);
    ghost var seen, zero;
    ok, slots, seen, zero := DecodeRecords(s, iter, slots0, fieldsSeen);
    if !ok {
      return;
    }
    ok := CheckRequired(iter, fieldsSeen, seen);
  }
}
