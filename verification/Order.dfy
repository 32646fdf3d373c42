/** The order of records only matters within a field and within a union. */
module Order {
  import opened Wrappers
  import opened Bits
  import opened Varint
  import opened Descriptor
  import opened Parse
  import opened Merge

  /** What becomes of slot `k` when field `i` takes a value: its own slot is replaced, the rest of
      its union is deselected, and all others stay. */
  predicate OnlyOwnSlot(fields: seq<Field>, i: nat, m: seq<Slot>, m': seq<Slot>)
    requires i < |fields| && |m| == |fields| && |m'| == |fields|
  {
    forall k :: 0 <= k < |fields| && k != i ==> m'[k] == if SameUnion(fields, i, k) then Member(None) else m[k]
  }

  /** Decoding a field writes no slot but its own and those of its union. */
  lemma {:induction false} WritesOwnSlot(fields: seq<Field>, i: nat, wt: nat, s: seq<byte>, m: seq<Slot>)
    requires i < |fields| && |m| == |fields| && DecField(fields, i, wt, s, m).Ok?
    ensures OnlyOwnSlot(fields, i, m, DecField(fields, i, wt, s, m).value)
  {
  }

  /** Decoding a field reads no slot but its own. */
  lemma {:induction false} ReadsOwnSlot(fields: seq<Field>, i: nat, wt: nat, s: seq<byte>, m: seq<Slot>, n: seq<Slot>)
    requires i < |fields| && |m| == |fields| && |n| == |fields| && m[i] == n[i]
    ensures var a, b := DecField(fields, i, wt, s, m), DecField(fields, i, wt, s, n);
            && (a.Ok? <==> b.Ok?)
            && (a.Ok? ==> a.rest == b.rest && a.value[i] == b.value[i])
  {
  }

  /** One whole record of field `i`, in a struct whose slot for the field is that of `m`. */
  predicate RecordOf(fields: seq<Field>, i: nat, r: seq<byte>, m: seq<Slot>)
    requires i < |fields| && |m| == |fields|
  {
    var key := DecVarint32(r);
    && key.Ok? && key.value != 0 && FindField(fields, key.value / 8) == Some(i)
    && DecField(fields, i, key.value % 8, key.rest, m).Ok?
    && DecField(fields, i, key.value % 8, key.rest, m).rest == []
  }

  /** The struct after a record. */
  function After(fields: seq<Field>, i: nat, r: seq<byte>, m: seq<Slot>): (m': seq<Slot>)
    requires i < |fields| && |m| == |fields| && RecordOf(fields, i, r, m)
    ensures |m'| == |fields|
  {
    DecField(fields, i, DecVarint32(r).value % 8, DecVarint32(r).rest, m).value
  }

  lemma {:induction false} RecordDecodes(fields: seq<Field>, i: nat, r: seq<byte>, t: seq<byte>, m: seq<Slot>,
                                         seen: set<nat>)
    requires i < |fields| && |m| == |fields| && RecordOf(fields, i, r, m)
    ensures DecLoop(fields, r + t, m, seen) == DecLoop(fields, t, After(fields, i, r, m), seen + {i})
  {
    var key, body := DecVarint32(r).value, DecVarint32(r).rest;
    DecVarint32Extends(r, t);
    DecFieldExtends(fields, i, key % 8, body, t, m);
    assert [] + t == t;
    LoopStep(fields, r + t, m, seen, key, body + t, After(fields, i, r, m), t);
  }

  /** A record of one field is a record whatever another field has taken before. */
  lemma {:induction false} RecordStays(fields: seq<Field>, i: nat, j: nat, a: seq<byte>, b: seq<byte>, m: seq<Slot>)
    requires i < |fields| && j < |fields| && |m| == |fields| && i != j && !SameUnion(fields, i, j)
    requires RecordOf(fields, i, a, m) && RecordOf(fields, j, b, m)
    ensures RecordOf(fields, j, b, After(fields, i, a, m))
    ensures After(fields, j, b, After(fields, i, a, m))[j] == After(fields, j, b, m)[j]
  {
    WritesOwnSlot(fields, i, DecVarint32(a).value % 8, DecVarint32(a).rest, m);
    ReadsOwnSlot(fields, j, DecVarint32(b).value % 8, DecVarint32(b).rest, m, After(fields, i, a, m));
  }

  lemma {:induction false} AfterOwnSlot(fields: seq<Field>, i: nat, r: seq<byte>, m: seq<Slot>)
    requires i < |fields| && |m| == |fields| && RecordOf(fields, i, r, m)
    ensures OnlyOwnSlot(fields, i, m, After(fields, i, r, m))
  {
    WritesOwnSlot(fields, i, DecVarint32(r).value % 8, DecVarint32(r).rest, m);
  }

  lemma {:induction false} UnionSymmetric(fields: seq<Field>, i: nat, j: nat)
    requires i < |fields| && j < |fields|
    ensures SameUnion(fields, i, j) == SameUnion(fields, j, i)
  {
  }

  /** Two records of fields outside a common union lead to the same struct in either order. */
  lemma {:induction false} AfterBoth(fields: seq<Field>, i: nat, j: nat, a: seq<byte>, b: seq<byte>, m: seq<Slot>)
    requires i < |fields| && j < |fields| && |m| == |fields| && i != j && !SameUnion(fields, i, j)
    requires RecordOf(fields, i, a, m) && RecordOf(fields, j, b, m)
    ensures RecordOf(fields, j, b, After(fields, i, a, m)) && RecordOf(fields, i, a, After(fields, j, b, m))
    ensures After(fields, j, b, After(fields, i, a, m)) == After(fields, i, a, After(fields, j, b, m))
  {
    UnionSymmetric(fields, i, j);
    RecordStays(fields, i, j, a, b, m);
    RecordStays(fields, j, i, b, a, m);
    var mi, mj := After(fields, i, a, m), After(fields, j, b, m);
    AfterOwnSlot(fields, i, a, m);
    AfterOwnSlot(fields, j, b, m);
    AfterOwnSlot(fields, j, b, mi);
    AfterOwnSlot(fields, i, a, mj);
    var x, y := After(fields, j, b, mi), After(fields, i, a, mj);
    forall k | 0 <= k < |fields|
      ensures x[k] == y[k]
    {
    }
  }

  lemma {:induction false} RecordsSwap(fields: seq<Field>, i: nat, j: nat, a: seq<byte>, b: seq<byte>, t: seq<byte>,
                                       m: seq<Slot>, seen: set<nat>)
    requires i < |fields| && j < |fields| && |m| == |fields| && i != j && !SameUnion(fields, i, j)
    requires RecordOf(fields, i, a, m) && RecordOf(fields, j, b, m)
    ensures DecLoop(fields, a + (b + t), m, seen) == DecLoop(fields, b + (a + t), m, seen)
  {
    AfterBoth(fields, i, j, a, b, m);
    RecordDecodes(fields, i, a, b + t, m, seen);
    RecordDecodes(fields, j, b, t, After(fields, i, a, m), seen + {i});
    RecordDecodes(fields, j, b, a + t, m, seen);
    RecordDecodes(fields, i, a, t, After(fields, j, b, m), seen + {j});
    assert seen + {i} + {j} == seen + {j} + {i};
  }

  /** Swapping two neighbouring records of different fields outside a common union changes neither
      success nor the struct nor what is left unread. */
  lemma {:induction false} OrderDoesNotMatter(fields: seq<Field>, s: seq<byte>, i: nat, a: seq<byte>, j: nat,
                                              b: seq<byte>, t: seq<byte>, m: seq<Slot>)
    requires i < |fields| && j < |fields| && |m| == |fields| && i != j && !SameUnion(fields, i, j)
    requires ReadsThrough(fields, s, m)
    requires var n := DecLoop(fields, s, m, {}).value.slots; RecordOf(fields, i, a, n) && RecordOf(fields, j, b, n)
    ensures DecNoInit(fields, s + (a + (b + t)), m) == DecNoInit(fields, s + (b + (a + t)), m)
  {
    var p := DecLoop(fields, s, m, {}).value;
    LoopExtends(fields, s, a + (b + t), m, {});
    LoopExtends(fields, s, b + (a + t), m, {});
    RecordsSwap(fields, i, j, a, b, t, p.slots, p.seen);
  }
}
