/** Laws of the record loop: what follows a message does not change how it is read, concatenated
    messages merge, and records with undeclared tags leave no trace. */
module Merge {
  import opened Bits
  import opened Varint
  import opened Descriptor
  import opened Parse

  // ----- bytes behind a value do not matter -----

  lemma {:induction false} Var32LoopExtends(s: seq<byte>, t: seq<byte>, k: nat, x: nat)
    requires x < 0x1_0000_0000 && Var32Loop(s, k, x).Ok?
    ensures var r := Var32Loop(s, k, x); Var32Loop(s + t, k, x) == Ok(r.value, r.rest + t)
    decreases |s|
  {
    assert (s + t)[0] == s[0] && (s + t)[1..] == s[1..] + t;
    if s[0] >= 0x80 {
      Var32LoopExtends(s[1..], t, (k + 7) % 0x100, NextResult(x, s[0], k));
    }
  }

  lemma {:induction false} DecVarint32Extends(s: seq<byte>, t: seq<byte>)
    requires DecVarint32(s).Ok?
    ensures var r := DecVarint32(s); DecVarint32(s + t) == Ok(r.value, r.rest + t)
  {
    assert (s + t)[0] == s[0] && (s + t)[1..] == s[1..] + t;
    if s[0] >= 0x80 {
      Var32LoopExtends(s[1..], t, 7, s[0] % 0x80);
    }
  }

  lemma {:induction false} TakeExtends(s: seq<byte>, t: seq<byte>, n: nat)
    requires Take(s, n).Ok?
    ensures Take(s + t, n) == Ok(Take(s, n).value, Take(s, n).rest + t)
  {
    assert (s + t)[..n] == s[..n] && (s + t)[n..] == s[n..] + t;
  }

  lemma {:induction false} TakeStringExtends(s: seq<byte>, t: seq<byte>)
    requires TakeString(s).Ok?
    ensures TakeString(s + t) == Ok(TakeString(s).value, TakeString(s).rest + t)
  {
    DecVarint32Extends(s, t);
    var r := DecVarint32(s);
    TakeExtends(r.rest, t, r.value);
  }

  lemma {:induction false} SkipFieldExtends(wt: nat, s: seq<byte>, t: seq<byte>)
    requires SkipField(wt, s).Ok?
    ensures SkipField(wt, s + t) == Ok((), SkipField(wt, s).rest + t)
  {
    if wt == WT_VARINT {
      VarintSizeExtends(s, t);
      var n := VarintSize(s);
      assert (s + t)[n..] == s[n..] + t;
    } else if wt == WT_STRING {
      TakeStringExtends(s, t);
    } else {
      TakeExtends(s, t, if wt == WT_64BIT then 8 else 4);
    }
  }

  lemma {:induction false} BlobExtends(f: Field, s: seq<byte>, t: seq<byte>)
    requires f.ltype.LBytes? || f.ltype.LString? || f.ltype.LFixedLengthBytes?
    requires DecLeaf(f, s).Ok?
    ensures DecLeaf(f, s + t) == Ok(DecLeaf(f, s).value, DecLeaf(f, s).rest + t)
  {
    DecVarint32Extends(s, t);
    var r := DecVarint32(s);
    if !(f.ltype.LFixedLengthBytes? && r.value == 0) {
      TakeExtends(r.rest, t, r.value);
    }
  }

  lemma {:induction false} DecLeafExtends(f: Field, s: seq<byte>, t: seq<byte>)
    requires DecLeaf(f, s).Ok?
    ensures DecLeaf(f, s + t) == Ok(DecLeaf(f, s).value, DecLeaf(f, s).rest + t)
  {
    match f.ltype
    case LVarint => DecVarintExtends(s, t);
    case LUVarint => DecVarintExtends(s, t);
    case LSVarint => DecVarintExtends(s, t);
    case LFixed32 => TakeExtends(s, t, 4);
    case LFixed64 => TakeExtends(s, t, 8);
    case _ => BlobExtends(f, s, t);
  }

  lemma {:induction false} DecValueExtends(f: Field, s: seq<byte>, t: seq<byte>, base: seq<Slot>)
    requires |base| == |f.sub| && DecValue(f, s, base).Ok?
    ensures var r := DecValue(f, s, base); DecValue(f, s + t, base) == Ok(r.value, r.rest + t)
  {
    if f.ltype.LSubmessage? {
      TakeStringExtends(s, t);
    } else {
      DecLeafExtends(f, s, t);
    }
  }

  lemma {:induction false} DecFieldExtends(fields: seq<Field>, i: nat, wt: nat, s: seq<byte>, t: seq<byte>,
                                           m: seq<Slot>)
    requires i < |fields| && |m| == |fields| && DecField(fields, i, wt, s, m).Ok?
    ensures var r := DecField(fields, i, wt, s, m); DecField(fields, i, wt, s + t, m) == Ok(r.value, r.rest + t)
  {
    var f := fields[i];
    match f.htype
    case HRequired => DecValueExtends(f, s, t, StructOf(f, Current(m[i])));
    case HOptional => DecValueExtends(f, s, t, StructOf(f, Current(m[i])));
    case HRepeated =>
      if wt == WT_STRING && f.ltype.Packable() {
        TakeStringExtends(s, t);
      } else {
        DecValueExtends(f, s, t, Defaults(f.sub));
      }
    case HOneof => DecValueExtends(f, s, t, Defaults(f.sub));
  }

  lemma {:induction false} DecRecordExtends(fields: seq<Field>, tag: nat, wt: nat, s: seq<byte>, t: seq<byte>,
                                            m: seq<Slot>)
    requires |m| == |fields| && DecRecord(fields, tag, wt, s, m).Ok?
    ensures var r := DecRecord(fields, tag, wt, s, m); DecRecord(fields, tag, wt, s + t, m) == Ok(r.value, r.rest + t)
  {
    match FindField(fields, tag)
    case Some(i) => DecFieldExtends(fields, i, wt, s, t, m);
    case None => SkipFieldExtends(wt, s, t);
  }

  // ----- one round of the loop -----

  /** A zero tag ends the loop. */
  lemma {:induction false} LoopEnds(fields: seq<Field>, s: seq<byte>, m: seq<Slot>, seen: set<nat>)
    requires |m| == |fields| && DecVarint32(s).Ok? && DecVarint32(s).value == 0
    ensures DecLoop(fields, s, m, seen) == Ok(Progress(m, seen, true), DecVarint32(s).rest)
  {
  }

  lemma {:induction false} LoopStep(fields: seq<Field>, s: seq<byte>, m: seq<Slot>, seen: set<nat>, key: nat,
                                    body: seq<byte>, m': seq<Slot>, t: seq<byte>)
    requires |m| == |fields| && |m'| == |fields|
    requires DecVarint32(s) == Ok(key, body) && key != 0
    requires DecRecord(fields, key / 8, key % 8, body, m) == Ok(m', t)
    ensures DecLoop(fields, s, m, seen) == DecLoop(fields, t, m', MarkSeen(fields, key / 8, seen))
  {
  }

  /** How the loop starts when it does not fail. */
  lemma {:induction false} LoopStarts(fields: seq<Field>, s: seq<byte>, m: seq<Slot>, seen: set<nat>)
    returns (key: nat, body: seq<byte>, m': seq<Slot>, t: seq<byte>)
    requires |m| == |fields| && s != [] && DecLoop(fields, s, m, seen).Ok?
    ensures DecVarint32(s) == Ok(key, body)
    ensures key != 0 ==>
              && |m'| == |fields| && |t| < |s|
              && DecRecord(fields, key / 8, key % 8, body, m) == Ok(m', t)
              && DecLoop(fields, s, m, seen) == DecLoop(fields, t, m', MarkSeen(fields, key / 8, seen))
  {
    key, body, m', t := DecVarint32(s).value, DecVarint32(s).rest, m, [];
    if key != 0 {
      var r := DecRecord(fields, key / 8, key % 8, body, m);
      m', t := r.value, r.rest;
    }
  }

  /** When the loop has used up `a`, it goes on with what follows `a` from the state it has
      reached; when a zero tag stopped it, it does not look at what follows. */
  lemma {:induction false} LoopExtends(fields: seq<Field>, a: seq<byte>, t: seq<byte>, m: seq<Slot>, seen: set<nat>)
    requires |m| == |fields| && DecLoop(fields, a, m, seen).Ok?
    ensures var r := DecLoop(fields, a, m, seen);
            DecLoop(fields, a + t, m, seen)
            == if r.value.zero then Ok(r.value, r.rest + t) else DecLoop(fields, t, r.value.slots, r.value.seen)
    decreases |a|
  {
    if a == [] {
      assert a + t == t;
    } else {
      var key, body, m', u := LoopStarts(fields, a, m, seen);
      DecVarint32Extends(a, t);
      if key == 0 {
        LoopEnds(fields, a, m, seen);
        LoopEnds(fields, a + t, m, seen);
      } else {
        DecRecordExtends(fields, key / 8, key % 8, body, t, m);
        LoopStep(fields, a + t, m, seen, key, body + t, m', u + t);
        LoopExtends(fields, u, t, m', MarkSeen(fields, key / 8, seen));
      }
    }
  }

  /** The fields seen so far are only carried along. */
  lemma {:induction false} SeenIsCarried(fields: seq<Field>, s: seq<byte>, m: seq<Slot>, seen: set<nat>)
    requires |m| == |fields|
    ensures DecLoop(fields, s, m, {}).Ok? <==> DecLoop(fields, s, m, seen).Ok?
    ensures DecLoop(fields, s, m, seen).Ok? ==>
              var p, r := DecLoop(fields, s, m, {}).value, DecLoop(fields, s, m, {}).rest;
              DecLoop(fields, s, m, seen) == Ok(Progress(p.slots, seen + p.seen, p.zero), r)
    decreases |s|
  {
    if DecLoop(fields, s, m, {}).Ok? || DecLoop(fields, s, m, seen).Ok? {
      if s != [] && DecVarint32(s).value != 0 {
        var key, body := DecVarint32(s).value, DecVarint32(s).rest;
        var r := DecRecord(fields, key / 8, key % 8, body, m);
        assert r.Ok?;
        LoopStep(fields, s, m, {}, key, body, r.value, r.rest);
        LoopStep(fields, s, m, seen, key, body, r.value, r.rest);
        var tag := key / 8;
        SeenIsCarried(fields, r.rest, r.value, MarkSeen(fields, tag, {}));
        SeenIsCarried(fields, r.rest, r.value, MarkSeen(fields, tag, seen));
        var q := DecLoop(fields, r.rest, r.value, {});
        if q.Ok? {
          assert MarkSeen(fields, tag, seen) + q.value.seen == seen + (MarkSeen(fields, tag, {}) + q.value.seen);
        }
      } else {
        assert seen + {} == seen;
        if s != [] {
          LoopEnds(fields, s, m, {});
          LoopEnds(fields, s, m, seen);
        }
      }
    }
  }

  // ----- concatenation is merge -----

  /** `a` is read to its end, with no zero tag on the way. */
  predicate ReadsThrough(fields: seq<Field>, a: seq<byte>, m: seq<Slot>)
    requires |m| == |fields|
  {
    DecLoop(fields, a, m, {}).Ok? && !DecLoop(fields, a, m, {}).value.zero
  }

  /** What decoding `a + b` comes to: both loops run, and the required fields may be spread over
      the two parts. */
  lemma {:induction false} ConcatenationExactly(fields: seq<Field>, a: seq<byte>, b: seq<byte>, m: seq<Slot>)
    requires |m| == |fields| && ReadsThrough(fields, a, m)
    ensures var p := DecLoop(fields, a, m, {}).value;
            var q := DecLoop(fields, b, p.slots, {});
            DecNoInit(fields, a + b, m)
            == if q.Ok? && RequiredSeen(fields, p.seen + q.value.seen) then Ok(q.value.slots, q.rest) else Err
  {
    var p := DecLoop(fields, a, m, {}).value;
    LoopExtends(fields, a, b, m, {});
    SeenIsCarried(fields, b, p.slots, p.seen);
  }

  /** Decoding `a` and then `b` into a struct is decoding `a + b` into it. */
  lemma {:induction false} ConcatenationMerges(fields: seq<Field>, a: seq<byte>, b: seq<byte>, m: seq<Slot>)
    requires |m| == |fields| && ReadsThrough(fields, a, m)
    requires DecNoInit(fields, a, m).Ok?
    requires DecNoInit(fields, b, DecNoInit(fields, a, m).value).Ok?
    ensures DecNoInit(fields, a + b, m) == DecNoInit(fields, b, DecNoInit(fields, a, m).value)
  {
    ConcatenationExactly(fields, a, b, m);
  }

  /** A first message that ends with a zero tag hides the second. */
  lemma {:induction false} ZeroTagHides(fields: seq<Field>, a: seq<byte>, b: seq<byte>, m: seq<Slot>)
    requires |m| == |fields| && DecNoInit(fields, a, m).Ok? && !ReadsThrough(fields, a, m)
    ensures var r := DecNoInit(fields, a, m); DecNoInit(fields, a + b, m) == Ok(r.value, r.rest + b)
  {
    LoopExtends(fields, a, b, m, {});
  }

  // ----- unknown fields -----

  /** One well-formed record whose tag the descriptor does not declare. */
  predicate UnknownRecord(fields: seq<Field>, r: seq<byte>) {
    var key := DecVarint32(r);
    && key.Ok? && key.value != 0
    && FindField(fields, key.value / 8).None?
    && (fields == [] ==> key.value / 8 != 0)
    && SkipField(key.value % 8, key.rest) == Ok((), [])
  }

  lemma {:induction false} UnknownRecordSkipped(fields: seq<Field>, r: seq<byte>, t: seq<byte>, m: seq<Slot>,
                                                seen: set<nat>)
    requires |m| == |fields| && UnknownRecord(fields, r)
    ensures DecLoop(fields, r + t, m, seen) == DecLoop(fields, t, m, seen)
  {
    var key, body := DecVarint32(r).value, DecVarint32(r).rest;
    DecVarint32Extends(r, t);
    SkipFieldExtends(key % 8, body, t);
    assert [] + t == t;
    LoopStep(fields, r + t, m, seen, key, body + t, m, t);
  }

  /** Inserting an unknown record at a record boundary changes neither success nor the struct. */
  lemma {:induction false} UnknownFieldsAreTransparent(fields: seq<Field>, a: seq<byte>, r: seq<byte>, b: seq<byte>,
                                                       m: seq<Slot>)
    requires |m| == |fields| && ReadsThrough(fields, a, m) && UnknownRecord(fields, r)
    ensures DecNoInit(fields, a + r + b, m) == DecNoInit(fields, a + b, m)
  {
    var p := DecLoop(fields, a, m, {}).value;
    assert a + r + b == a + (r + b);
    LoopExtends(fields, a, r + b, m, {});
    LoopExtends(fields, a, b, m, {});
    UnknownRecordSkipped(fields, r, b, p.slots, p.seen);
  }
}
