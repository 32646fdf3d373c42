/** What a second record of the same field does to what the first has left: embedded messages merge,
    everything else is replaced. */
module Nested {
  import opened Bits
  import opened Varint
  import opened Descriptor
  import opened Parse
  import opened Serialize
  import opened Sizes
  import opened RoundTrip
  import opened Merge
  import opened Order

  // ----- records of one field -----

  /** A record of a field: its key, with any wire type, and a body. */
  function Record(f: Field, wt: nat, body: seq<byte>): seq<byte> {
    Key(f.tag, wt) + body
  }

  lemma {:induction false} RecordIs(fields: seq<Field>, i: nat, wt: nat, body: seq<byte>, m: seq<Slot>, m': seq<Slot>,
                                    t: seq<byte>, seen: set<nat>)
    requires ValidFields(fields) && i < |fields| && |m| == |fields| && wt < 8
    requires DecField(fields, i, wt, body + t, m) == Ok(m', t)
    ensures DecLoop(fields, Record(fields[i], wt, body) + t, m, seen) == DecLoop(fields, t, m', seen + {i})
  {
    assert Record(fields[i], wt, body) + t == Key(fields[i].tag, wt) + (body + t);
    RecordStep(fields, i, wt, Key(fields[i].tag, wt) + (body + t), body + t, m, seen, m', t);
  }

  /** The struct inside a required or optional submessage field, present or not. */
  predicate Holds(f: Field, slot: Slot, inner: seq<Slot>) {
    && f.ltype.LSubmessage? && |inner| == |f.sub|
    && match f.htype
       case HRequired => slot == Plain(Struct(inner))
       case HOptional =>
         if f.sizeOffset == 0 then slot == Plain(Struct(inner)) else slot.Maybe? && slot.v == Struct(inner)
       case _ => false
  }

  /** The slot that then holds `inner`, and is present. */
  function Holding(f: Field, inner: seq<Slot>): Slot {
    if f.htype.HOptional? && f.sizeOffset != 0 then Maybe(true, Struct(inner)) else Plain(Struct(inner))
  }

  lemma {:induction false} SubmessageField(fields: seq<Field>, i: nat, wt: nat, a: seq<byte>, m: seq<Slot>,
                                           inner: seq<Slot>, t: seq<byte>)
    requires i < |fields| && |m| == |fields| && Holds(fields[i], m[i], inner) && |a| < LENGTH_LIMIT
    ensures var r := DecNoInit(fields[i].sub, a, inner);
            DecField(fields, i, wt, Delimited(a) + t, m)
            == if r.Ok? then Ok(m[i := Holding(fields[i], r.value)], t) else Err
  {
    TakeDelimited(a, t);
    assert StructOf(fields[i], Current(m[i])) == inner;
  }

  /** A record of a required or optional submessage is decoded into the struct that is there, and
      what the nested decode leaves of its region is passed over. */
  lemma {:induction false} SubmessageRecord(fields: seq<Field>, i: nat, wt: nat, a: seq<byte>, m: seq<Slot>,
                                            inner: seq<Slot>, t: seq<byte>, seen: set<nat>)
    requires ValidFields(fields) && i < |fields| && |m| == |fields| && wt < 8
    requires Holds(fields[i], m[i], inner) && |a| < LENGTH_LIMIT
    ensures var r := DecNoInit(fields[i].sub, a, inner);
            DecLoop(fields, Record(fields[i], wt, Delimited(a)) + t, m, seen)
            == if r.Ok? then DecLoop(fields, t, m[i := Holding(fields[i], r.value)], seen + {i}) else Err
  {
    var f := fields[i];
    SubmessageField(fields, i, wt, a, m, inner, t);
    var r := DecNoInit(f.sub, a, inner);
    if r.Ok? {
      RecordIs(fields, i, wt, Delimited(a), m, m[i := Holding(f, r.value)], t, seen);
    } else {
      var body := Delimited(a) + t;
      assert Record(f, wt, Delimited(a)) + t == Key(f.tag, wt) + body;
      RecordFails(fields, i, wt, Key(f.tag, wt) + body, body, m, seen);
    }
  }

  /** Two records of an embedded message are one record of both contents: the message merges. */
  lemma {:induction false} SubmessagesMerge(fields: seq<Field>, i: nat, wt: nat, a: seq<byte>, b: seq<byte>,
                                            m: seq<Slot>, inner: seq<Slot>, t: seq<byte>, seen: set<nat>)
    requires ValidFields(fields) && i < |fields| && |m| == |fields| && wt < 8
    requires Holds(fields[i], m[i], inner) && |a| + |b| < LENGTH_LIMIT
    requires ReadsThrough(fields[i].sub, a, inner) && DecNoInit(fields[i].sub, a, inner).Ok?
    requires DecNoInit(fields[i].sub, b, DecNoInit(fields[i].sub, a, inner).value).Ok?
    ensures var f := fields[i];
            DecLoop(fields, Record(f, wt, Delimited(a)) + (Record(f, wt, Delimited(b)) + t), m, seen)
            == DecLoop(fields, Record(f, wt, Delimited(a + b)) + t, m, seen)
  {
    var f := fields[i];
    var one := DecNoInit(f.sub, a, inner).value;
    var m' := m[i := Holding(f, one)];
    ConcatenationMerges(f.sub, a, b, inner);
    SubmessageRecord(fields, i, wt, a, m, inner, Record(f, wt, Delimited(b)) + t, seen);
    SubmessageRecord(fields, i, wt, b, m', one, t, seen + {i});
    SubmessageRecord(fields, i, wt, a + b, m, inner, t, seen);
    assert seen + {i} + {i} == seen + {i};
    assert m'[i := Holding(f, DecNoInit(f.sub, b, one).value)] == m[i := Holding(f, DecNoInit(f.sub, b, one).value)];
  }

  // ----- what is replaced -----

  /** A field whose new value does not depend on the old: all but arrays and required or optional
      submessages. */
  predicate Replaced(f: Field) {
    f.htype.HOneof? || (!f.htype.HRepeated? && !f.ltype.LSubmessage?)
  }

  /** The new value, wherever it is decoded into. */
  lemma {:induction false} ReplacedValue(fields: seq<Field>, j: nat, wt: nat, s: seq<byte>, m: seq<Slot>, n: seq<Slot>)
    requires j < |fields| && |m| == |fields| && |n| == |fields| && Replaced(fields[j])
    ensures var x, y := DecField(fields, j, wt, s, m), DecField(fields, j, wt, s, n);
            && (x.Ok? <==> y.Ok?)
            && (x.Ok? ==> x.rest == y.rest && x.value[j] == y.value[j])
  {
    var f := fields[j];
    if !f.htype.HOneof? {
      assert DecValue(f, s, StructOf(f, Current(m[j]))) == DecLeaf(f, s) == DecValue(f, s, StructOf(f, Current(n[j])));
    }
  }

  lemma {:induction false} ReplacedField(fields: seq<Field>, i: nat, j: nat, wi: nat, wj: nat, a: seq<byte>,
                                         b: seq<byte>, m: seq<Slot>)
    requires i < |fields| && j < |fields| && |m| == |fields|
    requires Replaced(fields[j]) && (i == j || SameUnion(fields, i, j))
    requires DecField(fields, i, wi, a, m).Ok?
    ensures DecField(fields, j, wj, b, DecField(fields, i, wi, a, m).value) == DecField(fields, j, wj, b, m)
  {
    var n := DecField(fields, i, wi, a, m).value;
    WritesOwnSlot(fields, i, wi, a, m);
    ReplacedValue(fields, j, wj, b, m, n);
    var x, y := DecField(fields, j, wj, b, n), DecField(fields, j, wj, b, m);
    if x.Ok? {
      WritesOwnSlot(fields, j, wj, b, n);
      WritesOwnSlot(fields, j, wj, b, m);
      SameAfter(fields, i, j, m, n, x.value, y.value);
    }
  }

  lemma {:induction false} SameAfter(fields: seq<Field>, i: nat, j: nat, m: seq<Slot>, n: seq<Slot>, x: seq<Slot>,
                                     y: seq<Slot>)
    requires i < |fields| && j < |fields| && |m| == |n| == |x| == |y| == |fields|
    requires i == j || SameUnion(fields, i, j)
    requires OnlyOwnSlot(fields, i, m, n) && OnlyOwnSlot(fields, j, n, x) && OnlyOwnSlot(fields, j, m,
                         y) && x[j] == y[j] ensures x == y
  {
    forall k | 0 <= k < |fields|
      ensures x[k] == y[k]
    {
      if k != j {
        assert SameUnion(fields, i, k) ==> SameUnion(fields, j, k);
      }
    }
  }

  /** The last record of a scalar, a string, a byte string or a union decides alone: a record of the
      same field, or of another member of its union, in front of it leaves no trace in the struct. */
  lemma {:induction false} LastRecordWins(fields: seq<Field>, i: nat, j: nat, wi: nat, wj: nat, a: seq<byte>,
                                          b: seq<byte>, m: seq<Slot>, t: seq<byte>, seen: set<nat>)
    requires ValidFields(fields) && i < |fields| && j < |fields| && |m| == |fields| && wi < 8 && wj < 8
    requires Replaced(fields[j]) && (i == j || SameUnion(fields, i, j))
    requires DecField(fields, i, wi, a, m).Ok? && DecField(fields, i, wi, a, m).rest == []
    requires DecField(fields, j, wj, b, m).Ok? && DecField(fields, j, wj, b, m).rest == []
    ensures DecLoop(fields, Record(fields[i], wi, a) + (Record(fields[j], wj, b) + t), m, seen)
         == DecLoop(fields, Record(fields[j], wj, b) + t, m, seen + {i})
  {
    var u := Record(fields[j], wj, b) + t;
    var n, x := DecField(fields, i, wi, a, m).value, DecField(fields, j, wj, b, m).value;
    ReplacedField(fields, i, j, wi, wj, a, b, m);
    DecFieldExtends(fields, i, wi, a, u, m);
    DecFieldExtends(fields, j, wj, b, t, m);
    DecFieldExtends(fields, j, wj, b, t, n);
    assert [] + u == u && [] + t == t;
    RecordIs(fields, i, wi, a, m, n, u, seen);
    RecordIs(fields, j, wj, b, n, x, t, seen + {i});
    RecordIs(fields, j, wj, b, m, x, t, seen + {i});
  }

  // ----- the wire type of a record -----

  lemma {:induction false} SameField(fields: seq<Field>, i: nat, v: nat, w: nat, s: seq<byte>, m: seq<Slot>)
    requires i < |fields| && |m| == |fields|
    requires !(fields[i].htype.HRepeated? && fields[i].ltype.Packable()) || (v != 2 && w != 2)
    ensures DecField(fields, i, v, s, m) == DecField(fields, i, w, s, m)
  {
  }

  /** The decoder does not look at the wire type of a field it knows, except that an array of scalars
      takes wire type 2 for a packed record. */
  lemma {:induction false} WireTypeIgnored(fields: seq<Field>, i: nat, v: nat, w: nat, body: seq<byte>, m: seq<Slot>,
                                           seen: set<nat>)
    requires ValidFields(fields) && i < |fields| && |m| == |fields| && v < 8 && w < 8
    requires !(fields[i].htype.HRepeated? && fields[i].ltype.Packable()) || (v != 2 && w != 2)
    ensures DecLoop(fields, Record(fields[i], v, body), m, seen) == DecLoop(fields, Record(fields[i], w, body), m, seen)
  {
    var f := fields[i];
    SameField(fields, i, v, w, body, m);
    var r := DecField(fields, i, v, body, m);
    if r.Ok? {
      RecordStep(fields, i, v, Record(f, v, body), body, m, seen, r.value, r.rest);
      RecordStep(fields, i, w, Record(f, w, body), body, m, seen, r.value, r.rest);
    } else {
      RecordFails(fields, i, v, Record(f, v, body), body, m, seen);
      RecordFails(fields, i, w, Record(f, w, body), body, m, seen);
    }
  }
}
