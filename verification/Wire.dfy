/** The bytes of the format in numbers: what each field type puts on the wire, and what the decoder
    takes from it, without reference to the names that encoder and decoder share. */
module Wire {
  import opened Wrappers
  import opened Bits
  import opened Varint
  import opened Descriptor
  import opened Parse
  import opened Serialize
  import opened Canonical
  import opened Sizes
  import opened RoundTrip

  // ----- keys -----

  lemma {:induction false} KeyOnTheWire(tag: nat, wt: nat, t: seq<byte>)
    requires 1 <= tag < 0x2000_0000 && wt < 8
    ensures DecVarint(Key(tag, wt) + t) == Ok(8 * tag + wt, t)
  {
    VarintRoundTrip(tag * 8 + wt, t);
  }

  /** The key in front of a value: eight times the tag, plus 0 for varints, 1 for eight bytes, 5 for
      four bytes and 2 for everything with a length. */
  lemma {:induction false} TaggedKey(f: Field, v: Value, t: seq<byte>)
    requires ValidField(f) && ValueOk(false, f, v) && SerTagged(f, v).Some?
    ensures var key := DecVarint(SerTagged(f, v).value + t);
            && key.Ok? && key.rest == SerValue(f, v).value + t
            && (f.ltype.LVarint? || f.ltype.LUVarint? || f.ltype.LSVarint? ==> key.value == 8 * f.tag)
            && (f.ltype.LFixed64? ==> key.value == 8 * f.tag + 1)
            && (f.ltype.LBytes? || f.ltype.LString? || f.ltype.LSubmessage? || f.ltype.LFixedLengthBytes? ==>
                  key.value == 8 * f.tag + 2)
            && (f.ltype.LFixed32? ==> key.value == 8 * f.tag + 5)
  {
    TaggedSplit(f, v, t);
    KeyOnTheWire(f.tag, WireType(f.ltype), SerValue(f, v).value + t);
  }

  /** Scalars of an array always go out packed: one key of wire type 2, one length, the elements. */
  lemma {:induction false} ArraysArePacked(f: Field, items: seq<Value>, t: seq<byte>)
    requires ValidField(f) && f.ltype.Packable() && ItemsOk(f, items) && items != []
    requires SerArray(f, items).Some? && Below(SIZE_LIMIT, SerPacked(f, items))
    ensures SerPacked(f, items).Some?
    ensures var body := SerPacked(f, items).value;
            var key := DecVarint(SerArray(f, items).value + t);
            key.Ok? && key.value == 8 * f.tag + 2 && DecVarint(key.rest) == Ok(|body|, body + t)
  {
    var body := SerPacked(f, items).value;
    var key := Key(f.tag, WT_STRING);
    assert SerArray(f, items).value + t == key + (Delimited(body) + t);
    KeyOnTheWire(f.tag, WT_STRING, Delimited(body) + t);
    assert Delimited(body) + t == EncVarint(|body|) + (body + t);
    VarintRoundTrip(|body|, body + t);
  }

  // ----- numbers -----

  lemma {:induction false} TenBytes(v: nat)
    requires 0x8000_0000_0000_0000 <= v < 0x1_0000_0000_0000_0000
    ensures |EncVarint(v)| == 10
  {
    Pow2Long();
    EncVarintPrefix(v, 9);
    EncVarintFits(v);
  }

  /** A signed number of any width goes out sign-extended to 64 bits, negative ones in ten bytes, as
      the shortest varint of that number. */
  lemma {:induction false} SignedOnTheWire(f: Field, n: int, t: seq<byte>)
    requires f.ltype.LVarint? && SignedFits(n, f.dataSize)
    ensures SerLeaf(f, Num(n)).Some?
    ensures var s := SerLeaf(f, Num(n)).value;
            && DecVarint(s + t) == Ok(if n < 0 then n + 0x1_0000_0000_0000_0000 else n, t)
            && (n < 0 ==> |s| == 10)
            && forall p :: IsVarint(p) && Base128(p) == DecVarint(s + t).value ==> |s| <= |p|
  {
    var u := if n < 0 then n + 0x1_0000_0000_0000_0000 else n;
    VarintRoundTrip(u, t);
    if n < 0 {
      TenBytes(u);
    }
    forall p | IsVarint(p) && Base128(p) == u
      ensures |EncVarint(u)| <= |p|
    {
      EncVarintShortest(u, p);
    }
  }

  /** The bytes of a signed number do not depend on the width of its field. */
  lemma {:induction false} WidthDoesNotMatter(f: Field, g: Field, n: int)
    requires f.ltype.LVarint? && g.ltype.LVarint? && SignedFits(n, f.dataSize) && SignedFits(n, g.dataSize)
    ensures SerLeaf(f, Num(n)).Some? && SerLeaf(f, Num(n)) == SerLeaf(g, Num(n))
  {
  }

  lemma {:induction false} UnsignedOnTheWire(f: Field, n: int, t: seq<byte>)
    requires f.ltype.LUVarint? && UnsignedFits(n, f.dataSize)
    ensures SerLeaf(f, Num(n)).Some? && DecVarint(SerLeaf(f, Num(n)).value + t) == Ok(n, t)
  {
    VarintRoundTrip(n, t);
  }

  lemma {:induction false} ZigZagOnTheWire(f: Field, n: int, t: seq<byte>)
    requires f.ltype.LSVarint? && SignedFits(n, f.dataSize)
    ensures SerLeaf(f, Num(n)).Some?
    ensures DecVarint(SerLeaf(f, Num(n)).value + t) == Ok(if n < 0 then -2 * n - 1 else 2 * n, t)
  {
    VarintRoundTrip(if n < 0 then -2 * n - 1 else 2 * n, t);
  }

  function Four(s: seq<byte>): nat
    requires |s| >= 4
  {
    s[0] as nat + 0x100 * s[1] as nat + 0x1_0000 * s[2] as nat + 0x100_0000 * s[3] as nat
  }

  lemma {:induction false} FourLittleEndian(s: seq<byte>)
    requires |s| >= 4
    ensures FromLittleEndian(s[..4]) == Four(s)
  {
    var a := s[..4];
    assert a[1..][1..] == a[2..] && a[2..][1..] == a[3..] && a[3..][1..] == [];
    assert FromLittleEndian(a[3..]) == s[3] as nat;
    assert FromLittleEndian(a[2..]) == s[2] as nat + 0x100 * FromLittleEndian(a[3..]);
    assert FromLittleEndian(a[1..]) == s[1] as nat + 0x100 * FromLittleEndian(a[2..]);
  }

  lemma {:induction false} LittleEndianConcat(a: seq<byte>, b: seq<byte>)
    ensures FromLittleEndian(a + b) == FromLittleEndian(a) + Scaled(FromLittleEndian(b), 8 * |a|)
    decreases |a|
  {
    if a == [] {
      assert a + b == b;
    } else {
      assert (a + b)[1..] == a[1..] + b;
      LittleEndianConcat(a[1..], b);
      Scaled256(FromLittleEndian(b), 8 * (|a| - 1));
    }
  }

  lemma {:induction false} Scaled256(x: nat, n: nat)
    ensures Scaled(x, n + 8) == 0x100 * Scaled(x, n)
  {
    Scaled128(x, n);
    assert Scaled(x, n + 8) == 2 * Scaled(x, n + 7);
  }

  /** The lower four bytes come first. */
  lemma {:induction false} EightLittleEndian(s: seq<byte>)
    requires |s| >= 8
    ensures FromLittleEndian(s[..8]) == Four(s) + 0x1_0000_0000 * Four(s[4..])
  {
    assert s[..8] == s[..4] + s[4..8] && s[4..][..4] == s[4..8];
    FourLittleEndian(s);
    FourLittleEndian(s[4..]);
    LittleEndianConcat(s[..4], s[4..8]);
    Pow2Word();
    ScaledIsProduct(Four(s[4..]), 32);
  }

  /** Four bytes are a number with the least significant byte first, and nothing less will do. */
  lemma {:induction false} Fixed32FromTheWire(f: Field, s: seq<byte>)
    requires f.ltype.LFixed32?
    ensures DecLeaf(f, s) == if |s| >= 4 then Ok(Num(Four(s)), s[4..]) else Err
  {
    if |s| >= 4 {
      FourLittleEndian(s);
    }
  }

  lemma {:induction false} Fixed64FromTheWire(f: Field, s: seq<byte>)
    requires f.ltype.LFixed64?
    ensures DecLeaf(f, s) == if |s| >= 8 then Ok(Num(Four(s) + 0x1_0000_0000 * Four(s[4..])), s[8..]) else Err
  {
    if |s| >= 8 {
      EightLittleEndian(s);
    }
  }

  /** And they go out that way. */
  lemma {:induction false} FixedOnTheWire(f: Field, n: nat)
    requires SizeOk(f) && LeafOk(false, f, Num(n)) && (f.ltype.LFixed32? || f.ltype.LFixed64?)
    ensures SerLeaf(f, Num(n)).Some?
    ensures var s := SerLeaf(f, Num(n)).value;
            && (f.ltype.LFixed32? ==> |s| == 4 && n == Four(s))
            && (f.ltype.LFixed64? ==> |s| == 8 && n == Four(s) + 0x1_0000_0000 * Four(s[4..]))
  {
    Pow2Word();
    Pow2Long();
    var size := if f.ltype.LFixed32? then 4 else 8;
    var s := SerLeaf(f, Num(n)).value;
    LittleEndianRoundTrip(n, size);
    assert s[..size] == s;
    if f.ltype.LFixed32? {
      FourLittleEndian(s);
    } else {
      EightLittleEndian(s);
    }
  }

  /** What a signed field makes of a varint: fields of at most 32 bits look at its low 32 bits only
      and take them as signed; what then does not fit is rejected. */
  lemma {:induction false} SignedFromTheWire(f: Field, s: seq<byte>, u: nat, t: seq<byte>)
    requires f.ltype.LVarint? && DecVarint(s) == Ok(u, t)
    ensures var low := Low32(u);
            var n := if low < 0x8000_0000 then low else low - 0x1_0000_0000;
            && (f.dataSize == 8 ==>
                  DecLeaf(f, s) == Ok(Num(if u < 0x8000_0000_0000_0000 then u else u - 0x1_0000_0000_0000_0000), t))
            && (f.dataSize == 4 ==> DecLeaf(f, s) == Ok(Num(n), t))
            && (f.dataSize == 2 ==> DecLeaf(f, s) == if -0x8000 <= n < 0x8000 then Ok(Num(n), t) else Err)
            && (f.dataSize == 1 ==> DecLeaf(f, s) == if -0x80 <= n < 0x80 then Ok(Num(n), t) else Err)
  {
  }

  /** Unsigned fields reject what does not fit. */
  lemma {:induction false} UnsignedFromTheWire(f: Field, s: seq<byte>, u: nat, t: seq<byte>)
    requires f.ltype.LUVarint? && DecVarint(s) == Ok(u, t)
    ensures f.dataSize == 8 ==> DecLeaf(f, s) == Ok(Num(u), t)
    ensures f.dataSize == 4 ==> DecLeaf(f, s) == if u < 0x1_0000_0000 then Ok(Num(u), t) else Err
    ensures f.dataSize == 2 ==> DecLeaf(f, s) == if u < 0x1_0000 then Ok(Num(u), t) else Err
    ensures f.dataSize == 1 ==> DecLeaf(f, s) == if u < 0x100 then Ok(Num(u), t) else Err
  {
  }

  /** So do zigzag fields. */
  lemma {:induction false} ZigZagFromTheWire(f: Field, s: seq<byte>, u: nat, t: seq<byte>)
    requires f.ltype.LSVarint? && DecVarint(s) == Ok(u, t)
    ensures var n := if u % 2 == 0 then u / 2 else -(u / 2) - 1;
            && (f.dataSize == 8 ==> DecLeaf(f, s) == Ok(Num(n), t))
            && (f.dataSize == 4 ==> DecLeaf(f, s) == if -0x8000_0000 <= n < 0x8000_0000 then Ok(Num(n), t) else Err)
            && (f.dataSize == 2 ==> DecLeaf(f, s) == if -0x8000 <= n < 0x8000 then Ok(Num(n), t) else Err)
            && (f.dataSize == 1 ==> DecLeaf(f, s) == if -0x80 <= n < 0x80 then Ok(Num(n), t) else Err)
  {
  }

  /** A 32-bit negative number that was not sign-extended is accepted all the same. */
  lemma {:induction false} OldNegative(f: Field, n: int, t: seq<byte>)
    requires f.ltype.LVarint? && f.dataSize == 4 && -0x8000_0000 <= n < 0
    ensures DecLeaf(f, EncVarint(n + 0x1_0000_0000) + t) == Ok(Num(n), t)
  {
    VarintRoundTrip(n + 0x1_0000_0000, t);
    SignedFromTheWire(f, EncVarint(n + 0x1_0000_0000) + t, n + 0x1_0000_0000, t);
  }

  // ----- strings and bytes -----

  /** Strings, byte strings and fixed-length bytes go out as their length and then their bytes; only a
      byte string that does not fit behind its four-byte size member is an error. */
  lemma {:induction false} BytesOnTheWire(f: Field, b: seq<byte>, t: seq<byte>)
    requires LeafOk(false, f, Blob(b)) && f.dataSize <= PB_SIZE_MAX
    ensures SerLeaf(f, Blob(b)).Some? <==> !f.ltype.LBytes? || |b| + 4 <= f.dataSize
    ensures SerLeaf(f, Blob(b)).Some? ==> DecVarint(SerLeaf(f, Blob(b)).value + t) == Ok(|b|, b + t)
  {
    assert Delimited(b) + t == EncVarint(|b|) + (b + t);
    VarintRoundTrip(|b|, b + t);
  }

  /** What they make of a length `n` with `rest` behind it. A string keeps what lies in front of its
      first NUL and needs room for a terminator; fixed-length bytes take their own length, or no bytes
      for all zeros. */
  lemma {:induction false} BytesFromTheWire(f: Field, s: seq<byte>, n: nat, rest: seq<byte>)
    requires DecVarint32(s) == Ok(n, rest)
    ensures f.ltype.LBytes? ==>
              DecLeaf(f, s) == if n + 4 <= f.dataSize && n <= |rest| then Ok(Blob(rest[..n]), rest[n..]) else Err
    ensures f.ltype.LString? ==>
              DecLeaf(f, s)
              == if n < f.dataSize && n <= |rest| then Ok(Blob(UpToNul(rest[..n])), rest[n..]) else Err
    ensures f.ltype.LFixedLengthBytes? ==>
              DecLeaf(f, s)
              == if n == 0 then Ok(Blob(seq(f.dataSize, _ => 0)), rest)
                 else if n == f.dataSize && n <= |rest| then Ok(Blob(rest[..n]), rest[n..])
                 else Err
  {
  }

  /** A C string ends in front of its first NUL. */
  lemma {:induction false} FirstNul(a: seq<byte>, b: seq<byte>)
    requires 0 !in a
    ensures UpToNul(a + [0] + b) == a && UpToNul(a) == a
    decreases |a|
  {
    if a != [] {
      assert (a + [0] + b)[1..] == a[1..] + [0] + b;
      FirstNul(a[1..], b);
      assert [a[0]] + a[1..] == a;
    }
  }

  /** A leaf whose varint or length is damaged is rejected. */
  lemma {:induction false} DamagedLeaf(f: Field, s: seq<byte>)
    ensures (f.ltype.LVarint? || f.ltype.LUVarint? || f.ltype.LSVarint?) && DecVarint(s).Err? ==> DecLeaf(f, s).Err?
    ensures (f.ltype.LBytes? || f.ltype.LString? || f.ltype.LFixedLengthBytes?) && DecVarint32(s).Err? ==>
              DecLeaf(f, s).Err?
  {
  }

  /** Elements behind which something is no element make the packed record fail. */
  lemma {:induction false} DamagedPacked(f: Field, items: seq<Value>, bad: seq<byte>, acc: seq<Value>)
    requires SizeOk(f) && f.ltype.Packable() && f.dataSize <= PB_SIZE_MAX && LeavesOk(f, items) && ItemsOk(f, items)
    requires bad != [] && DecLeaf(f, bad).Err?
    ensures SerPacked(f, items).Some?
    ensures DecPacked(f, SerPacked(f, items).value + bad, acc) == None
    decreases |items|
  {
    PackedSome(f, items);
    if items == [] {
      assert [] + bad == bad;
    } else {
      var head, tail := items[0], items[1..];
      PackedSplit(f, items);
      DamagedPacked(f, tail, bad, acc + [head]);
      PackedFront(f, items, bad);
      var rest := SerPacked(f, tail).value + bad;
      LeafRoundTrip(f, head, rest);
      OneElement(f, head, SerLeaf(f, head).value + rest, rest, acc);
    }
  }

  lemma {:induction false} PackedFront(f: Field, items: seq<Value>, t: seq<byte>)
    requires f.ltype.Packable() && ItemsOk(f, items) && LeavesOk(f, items) && items != []
    requires ItemsOk(f, items[1..]) && LeafOk(false, f, items[0])
    requires SerLeaf(f, items[0]).Some? && SerPacked(f, items[1..]).Some?
    ensures SerPacked(f, items).Some?
    ensures SerPacked(f, items).value + t == SerLeaf(f, items[0]).value + (SerPacked(f, items[1..]).value + t)
  {
    PackedSplit(f, items);
  }

  lemma {:induction false} OneElement(f: Field, v: Value, s: seq<byte>, rest: seq<byte>, acc: seq<Value>)
    requires DecLeaf(f, s) == Ok(v, rest) && DecPacked(f, rest, acc + [v]) == None
    ensures DecPacked(f, s, acc) == None
  {
    assert s != [];
  }

  /** A key that is no 32-bit varint ends the decode with an error. */
  lemma {:induction false} DamagedKey(fields: seq<Field>, s: seq<byte>, m: seq<Slot>, seen: set<nat>)
    requires |m| == |fields| && s != [] && DecVarint32(s).Err?
    ensures DecLoop(fields, s, m, seen) == Err
  {
  }

  lemma {:induction false} DamagedValue(f: Field, s: seq<byte>, base: seq<Slot>)
    requires f.ltype.LSubmessage? && |base| == |f.sub|
    requires var n := DecVarint32(s); n.Err? || n.value > |n.rest|
    ensures DecValue(f, s, base) == Err
  {
    assert TakeString(s) == Err;
  }

  lemma {:induction false} DamagedArray(f: Field, wt: nat, s: seq<byte>, items: seq<Value>)
    requires f.ltype.LSubmessage? || (f.ltype.Packable() && wt == 2)
    requires var n := DecVarint32(s); n.Err? || n.value > |n.rest|
    ensures DecArray(f, wt, s, items) == Err
  {
    assert TakeString(s) == Err;
    if f.ltype.LSubmessage? {
      DamagedValue(f, s, Defaults(f.sub));
    }
  }

  /** So does the region of a submessage or of a packed array that has no 32-bit length, or fewer
      bytes than announced. */
  lemma {:induction false} DamagedRegion(fields: seq<Field>, i: nat, wt: nat, s: seq<byte>, m: seq<Slot>)
    requires i < |fields| && |m| == |fields|
    requires fields[i].ltype.LSubmessage? || (fields[i].htype.HRepeated? && fields[i].ltype.Packable() && wt == 2)
    requires var n := DecVarint32(s); n.Err? || n.value > |n.rest|
    ensures DecField(fields, i, wt, s, m) == Err
  {
    var f := fields[i];
    match f.htype
    case HRequired => DamagedValue(f, s, StructOf(f, Current(m[i])));
    case HOptional => DamagedValue(f, s, StructOf(f, Current(m[i])));
    case HRepeated => DamagedArray(f, wt, s, Items(m[i]));
    case HOneof => DamagedValue(f, s, Defaults(f.sub));
  }

  // ----- skipping -----

  /** What is passed over for each wire type: a varint of any length, eight bytes, a length and that
      many bytes, four bytes; the other wire types do not exist. */
  lemma {:induction false} SkipExactly(wt: nat, s: seq<byte>)
    ensures wt == 1 ==> Parse.SkipField(wt, s) == if |s| >= 8 then Ok((), s[8..]) else Err
    ensures wt == 5 ==> Parse.SkipField(wt, s) == if |s| >= 4 then Ok((), s[4..]) else Err
    ensures wt == 2 ==>
              var n := DecVarint32(s);
              Parse.SkipField(wt, s)
              == if n.Ok? && n.value <= |n.rest| then Ok((), n.rest[n.value..]) else Err
    ensures wt == 3 || wt == 4 || wt >= 6 ==> Parse.SkipField(wt, s) == Err
  {
  }

  lemma {:induction false} SkipsVarints(s: seq<byte>)
    ensures Parse.SkipField(0, s).Ok? <==> exists n :: 0 <= n <= |s| && IsVarint(s[..n])
    ensures forall n :: 0 <= n <= |s| && IsVarint(s[..n]) ==> Parse.SkipField(0, s) == Ok((), s[n..])
  {
    var m := VarintSize(s);
    if m > 0 {
      VarintSizeAt(s, m);
    }
    forall n | 0 <= n <= |s| && IsVarint(s[..n])
      ensures n == m
    {
      VarintSizeAt(s, n);
    }
  }

  /** On an empty descriptor tag 0 is no unknown field but an error. */
  lemma {:induction false} EmptyDescriptor(key: nat, s: seq<byte>)
    requires 0 < key < 8
    ensures Decode([], EncVarint(key) + s) == Err
  {
    Varint32RoundTrip(key, s);
    assert DecRecord([], key / 8, key % 8, s, []) == Err;
    assert DecLoop([], EncVarint(key) + s, [], {}) == Err;
    assert Defaults([]) == [];
  }

  // ----- what is left out -----

  /** A field emits nothing exactly when it is absent: never if it is required, without `has_`, with
      no entries, with no member in use, or, without any of these, if its value is zero or empty.
      A submessage is empty if it emits nothing itself. */
  lemma {:induction false} LeftOutExactly(f: Field, slot: Slot)
    requires ValidField(f) && SlotOk(false, f, slot)
    ensures f.htype.HRequired? ==> SerField(f, slot) != Some([])
    ensures f.htype.HOptional? && f.sizeOffset != 0 ==> (SerField(f, slot) == Some([]) <==> !slot.has)
    ensures f.htype.HOptional? && f.sizeOffset == 0 ==> (SerField(f, slot) == Some([]) <==> Empty(f, slot.v))
    ensures f.htype.HRepeated? ==> (SerField(f, slot) == Some([]) <==> slot.items == [])
    ensures f.htype.HOneof? ==> (SerField(f, slot) == Some([]) <==> slot.active.None?)
    decreases f, 1
  {
    match f.htype
    case HRequired => TaggedNotEmpty(f, slot.v);
    case HOptional =>
      TaggedNotEmpty(f, slot.v);
      EmptyIsDefault(f, slot.v);
    case HRepeated =>
      if slot.items != [] {
        ArrayNotEmpty(f, slot.items);
      }
    case HOneof =>
      if slot.active.Some? {
        TaggedNotEmpty(f, slot.active.value);
      }
  }

  predicate Empty(f: Field, v: Value)
    requires ValueOk(false, f, v)
  {
    if f.ltype.LSubmessage? then SerMsg(f.sub, v.slots) == Some([])
    else if f.ltype.LFixedLengthBytes? then f.dataSize == 0
    else v == Num(0) || v == Blob([])
  }

  lemma {:induction false} TaggedNotEmpty(f: Field, v: Value)
    requires ValueOk(false, f, v)
    ensures SerTagged(f, v) != Some([])
  {
  }

  lemma {:induction false} ArrayNotEmpty(f: Field, items: seq<Value>)
    requires ItemsOk(f, items) && items != []
    ensures SerArray(f, items) != Some([])
  {
    if SerArray(f, items).Some? && !f.ltype.Packable() {
      UnpackedSplit(f, items, []);
      TaggedNotEmpty(f, items[0]);
      assert SerUnpacked(f, items).value + [] == SerUnpacked(f, items).value;
    }
  }

  lemma {:induction false} EmptyIsDefault(f: Field, v: Value)
    requires ValidField(f) && ValueOk(false, f, v)
    ensures Empty(f, v) <==> IsDefaultValue(f, v)
    decreases f, 0
  {
    if f.ltype.LSubmessage? {
      EmptyMessageExactly(f.sub, v.slots);
    }
  }

  /** The proto3 check holds exactly of the messages whose encoding is empty. */
  lemma {:induction false} EmptyMessageExactly(fields: seq<Field>, slots: seq<Slot>)
    requires ValidFields(fields) && Shaped(fields, slots)
    ensures SerMsg(fields, slots) == Some([]) <==> AllDefault(fields, slots)
    decreases fields, 3
  {
    AllEmpty(fields, slots, 0);
    if AllDefault(fields, slots) {
      forall i | 0 <= i < |fields|
        ensures SlotOk(false, fields[i], slots[i]) && SerField(fields[i], slots[i]) == Some([])
      {
        EmptyAt(fields, slots, i);
      }
    }
    if SerMsg(fields, slots) == Some([]) {
      NoneInUse(fields, slots);
      forall i | 0 <= i < |fields|
        ensures IsDefaultAt(fields, slots, i)
      {
        EmptyAt(fields, slots, i);
      }
    }
  }

  lemma {:induction false} JoinNothing(a: Output, b: Output)
    ensures Join(a, b) == Some([]) <==> a == Some([]) && b == Some([])
  {
    if a.Some? && b.Some? {
      assert |a.value + b.value| == |a.value| + |b.value|;
    }
  }

  lemma {:induction false} AllEmpty(fields: seq<Field>, slots: seq<Slot>, i: nat)
    requires Shaped(fields, slots) && i <= |fields|
    ensures SerFrom(fields, slots, i) == Some([])
       <==> forall j :: i <= j < |fields| ==>
              SlotOk(false, fields[j], slots[j]) && SerField(fields[j], slots[j]) == Some([])
    decreases |fields| - i
  {
    if i < |fields| {
      assert SlotOk(false, fields[i], slots[i]);
      AllEmpty(fields, slots, i + 1);
      JoinNothing(SerField(fields[i], slots[i]), SerFrom(fields, slots, i + 1));
    }
  }

  lemma {:induction false} NoneInUse(fields: seq<Field>, slots: seq<Slot>)
    requires ValidFields(fields) && Shaped(fields, slots) && SerMsg(fields, slots) == Some([])
    ensures forall i :: 0 <= i < |fields| ==> !IsActive(slots[i])
    decreases fields, 2
  {
    AllEmpty(fields, slots, 0);
    forall i | 0 <= i < |fields|
      ensures !IsActive(slots[i])
    {
      assert SlotOk(false, fields[i], slots[i]);
      if IsActive(slots[i]) {
        TaggedNotEmpty(fields[i], slots[i].active.value);
      }
    }
  }

  lemma {:induction false} EmptyAt(fields: seq<Field>, slots: seq<Slot>, i: nat)
    requires ValidFields(fields) && Shaped(fields, slots) && i < |fields|
    ensures SlotOk(false, fields[i], slots[i])
    ensures IsDefaultAt(fields, slots, i) ==> SerField(fields[i], slots[i]) == Some([])
    ensures SerField(fields[i], slots[i]) == Some([]) && (forall j :: 0 <= j < |fields| ==> !IsActive(slots[j])) ==>
              IsDefaultAt(fields, slots, i)
    decreases fields, 2
  {
    var f := fields[i];
    assert ValidField(f) && SlotOk(false, f, slots[i]);
    LeftOutExactly(f, slots[i]);
    match f.htype
    case HOptional => EmptyIsDefault(f, slots[i].v);
    case HOneof => assert SameUnion(fields, i, i);
    case _ =>
  }
}
