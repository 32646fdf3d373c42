/** A repeated scalar field reads the same however its elements are spread over packed records
    and single records. */
module Packed {
  import opened Wrappers
  import opened Bits
  import opened Descriptor
  import opened Parse
  import opened Serialize
  import opened Canonical
  import opened RoundTrip
  import opened Sizes

  /** One record of a repeated field. */
  datatype Chunk = Run(items: seq<Value>) | Single(item: Value)

  function Elements(c: Chunk): seq<Value> {
    match c
    case Run(items) => items
    case Single(item) => [item]
  }

  function Flatten(chunks: seq<Chunk>): seq<Value> {
    if chunks == [] then [] else Elements(chunks[0]) + Flatten(chunks[1..])
  }

  predicate ChunkOk(f: Field, c: Chunk) {
    LeavesOk(f, Elements(c)) && ItemsOk(f, Elements(c))
  }

  predicate ChunksOk(f: Field, chunks: seq<Chunk>) {
    forall k :: 0 <= k < |chunks| ==> ChunkOk(f, chunks[k])
  }

  function SerChunk(f: Field, c: Chunk): seq<byte>
    requires f.ltype.Packable() && ChunkOk(f, c)
  {
    match c
    case Run(items) =>
      (match SerPacked(f, items)
       case None => []
       case Some(body) => Key(f.tag, WT_STRING) + Delimited(body))
    case Single(item) =>
      assert item == Elements(c)[0];
      (match SerTagged(f, item)
       case None => []
       case Some(s) => s)
  }

  function SerChunks(f: Field, chunks: seq<Chunk>): seq<byte>
    requires f.ltype.Packable() && ChunksOk(f, chunks)
  {
    if chunks == [] then [] else SerChunk(f, chunks[0]) + SerChunks(f, chunks[1..])
  }

  predicate ChunkShort(f: Field, c: Chunk)
    requires f.ltype.Packable() && ChunkOk(f, c)
  {
    c.Run? ==> Below(LENGTH_LIMIT, SerPacked(f, c.items))
  }

  /** Every packed record is short enough for its 32-bit length. */
  predicate Short(f: Field, chunks: seq<Chunk>)
    requires f.ltype.Packable() && ChunksOk(f, chunks)
  {
    forall k :: 0 <= k < |chunks| ==> ChunkShort(f, chunks[k])
  }

  lemma {:induction false} ChunkAppends(fields: seq<Field>, i: nat, m: seq<Slot>, c: Chunk, t: seq<byte>,
                                        seen: set<nat>)
    requires ValidFields(fields) && i < |fields| && |m| == |fields|
    requires fields[i].htype.HRepeated? && fields[i].ltype.Packable() && m[i].Many?
    requires ChunkOk(fields[i], c) && |m[i].items| + |Elements(c)| <= fields[i].arraySize
    requires ChunkShort(fields[i], c)
    ensures DecLoop(fields, SerChunk(fields[i], c) + t, m, seen)
         == DecLoop(fields, t, m[i := Many(m[i].items + Elements(c))], seen + {i})
  {
    var f := fields[i];
    assert ValidField(f);
    match c
    case Run(items) => PackedStep(fields, i, m, m[i].items, items, t, seen);
    case Single(item) =>
      assert LeafOk(true, f, Elements(c)[0]);
      LeafRoundTrip(f, item, t);
      ElementRoundTrip(fields, i, m, item, t, seen);
  }

  lemma {:induction false} ChunksTail(f: Field, chunks: seq<Chunk>)
    requires f.ltype.Packable() && ChunksOk(f, chunks) && chunks != []
    ensures ChunkOk(f, chunks[0]) && ChunksOk(f, chunks[1..])
    ensures Short(f, chunks) ==> ChunkShort(f, chunks[0]) && Short(f, chunks[1..])
  {
    assert forall k :: 0 <= k < |chunks| - 1 ==> chunks[1..][k] == chunks[k + 1];
  }

  lemma {:induction false} ThreeParts(a: seq<byte>, b: seq<byte>, t: seq<byte>)
    ensures a + b + t == a + (b + t)
  {
  }

  lemma {:induction false} ChunksSplit(f: Field, chunks: seq<Chunk>, t: seq<byte>)
    requires f.ltype.Packable() && ChunksOk(f, chunks) && Short(f, chunks) && chunks != []
    ensures ChunkOk(f, chunks[0]) && ChunkShort(f, chunks[0])
    ensures ChunksOk(f, chunks[1..]) && Short(f, chunks[1..])
    ensures SerChunks(f, chunks) + t == SerChunk(f, chunks[0]) + (SerChunks(f, chunks[1..]) + t)
    ensures |Flatten(chunks)| == |Elements(chunks[0])| + |Flatten(chunks[1..])|
  {
    ChunksTail(f, chunks);
    ThreeParts(SerChunk(f, chunks[0]), SerChunks(f, chunks[1..]), t);
  }

  lemma {:induction false} FlattenStep(m: seq<Slot>, i: nat, chunks: seq<Chunk>)
    requires i < |m| && m[i].Many? && chunks != []
    ensures var m' := m[i := Many(m[i].items + Elements(chunks[0]))];
            m'[i := Many(m'[i].items + Flatten(chunks[1..]))] == m[i := Many(m[i].items + Flatten(chunks))]
  {
    assert m[i].items + Elements(chunks[0]) + Flatten(chunks[1..]) == m[i].items + Flatten(chunks);
  }

  /** Any sequence of records appends its elements in order. */
  lemma {:induction false} ChunksAppend(fields: seq<Field>, i: nat, m: seq<Slot>, chunks: seq<Chunk>, t: seq<byte>,
                                        seen: set<nat>)
    requires ValidFields(fields) && i < |fields| && |m| == |fields|
    requires fields[i].htype.HRepeated? && fields[i].ltype.Packable() && m[i].Many?
    requires ChunksOk(fields[i], chunks) && Short(fields[i], chunks)
    requires |m[i].items| + |Flatten(chunks)| <= fields[i].arraySize
    ensures DecLoop(fields, SerChunks(fields[i], chunks) + t, m, seen)
         == DecLoop(fields, t, m[i := Many(m[i].items + Flatten(chunks))], if chunks == [] then seen else seen + {i})
    decreases |chunks|
  {
    var f := fields[i];
    if chunks == [] {
      assert m[i].items + [] == m[i].items;
      assert m[i := Many(m[i].items)] == m;
      assert [] + t == t;
    } else {
      var c, rest := chunks[0], chunks[1..];
      var u := SerChunks(f, rest) + t;
      ChunksSplit(f, chunks, t);
      ChunkAppends(fields, i, m, c, u, seen);
      ChunksAppend(fields, i, m[i := Many(m[i].items + Elements(c))], rest, t, seen + {i});
      FlattenStep(m, i, chunks);
      assert seen + {i} + {i} == seen + {i};
    }
  }

  /** Two ways to spread the same elements decode to the same array. */
  lemma {:induction false} PackedEqualsUnpacked(fields: seq<Field>, i: nat, m: seq<Slot>, one: seq<Chunk>,
                                                two: seq<Chunk>, t: seq<byte>, seen: set<nat>)
    requires ValidFields(fields) && i < |fields| && |m| == |fields|
    requires fields[i].htype.HRepeated? && fields[i].ltype.Packable() && m[i].Many?
    requires ChunksOk(fields[i], one) && Short(fields[i], one)
    requires ChunksOk(fields[i], two) && Short(fields[i], two)
    requires one != [] && two != [] && Flatten(one) == Flatten(two)
    requires |m[i].items| + |Flatten(one)| <= fields[i].arraySize
    ensures DecLoop(fields, SerChunks(fields[i], one) + t, m, seen)
         == DecLoop(fields, SerChunks(fields[i], two) + t, m, seen)
  {
    ChunksAppend(fields, i, m, one, t, seen);
    ChunksAppend(fields, i, m, two, t, seen);
  }

  // ----- too many elements -----

  lemma {:induction false} PackedOverflows(f: Field, items: seq<Value>, acc: seq<Value>)
    requires SizeOk(f) && f.ltype.Packable() && f.dataSize <= PB_SIZE_MAX
    requires LeavesOk(f, items) && ItemsOk(f, items)
    requires |acc| <= f.arraySize < |acc| + |items|
    ensures SerPacked(f, items).Some?
    ensures DecPacked(f, SerPacked(f, items).value, acc) == None
    decreases |items|
  {
    var head, tail := items[0], items[1..];
    if |acc| < f.arraySize {
      PackedOverflows(f, tail, acc + [head]);
    } else {
      PackedSome(f, tail);
    }
    LeafRoundTrip(f, head, SerPacked(f, tail).value);
    LeafNotEmpty(f, head);
  }

  lemma {:induction false} RunOverflows(fields: seq<Field>, i: nat, m: seq<Slot>, items: seq<Value>, t: seq<byte>,
                                        seen: set<nat>)
    requires ValidFields(fields) && i < |fields| && |m| == |fields| && ValidField(fields[i])
    requires fields[i].htype.HRepeated? && fields[i].ltype.Packable() && m[i].Many?
    requires LeavesOk(fields[i], items) && ItemsOk(fields[i], items)
    requires |m[i].items| <= fields[i].arraySize < |m[i].items| + |items|
    ensures SerPacked(fields[i], items).Some?
    ensures |SerPacked(fields[i], items).value| < LENGTH_LIMIT ==>
              var s := Key(fields[i].tag, WT_STRING) + Delimited(SerPacked(fields[i], items).value);
              DecLoop(fields, s + t, m, seen).Err?
  {
    var f := fields[i];
    PackedOverflows(f, items, m[i].items);
    var region := SerPacked(f, items).value;
    if |region| < LENGTH_LIMIT {
      TakeDelimited(region, t);
      var key, body := Key(f.tag, WT_STRING), Delimited(region) + t;
      RecordFails(fields, i, WT_STRING, key + body, body, m, seen);
      assert key + Delimited(region) + t == key + body;
    }
  }

  lemma {:induction false} SingleOverflows(fields: seq<Field>, i: nat, m: seq<Slot>, v: Value, t: seq<byte>,
                                           seen: set<nat>)
    requires ValidFields(fields) && i < |fields| && |m| == |fields| && ValidField(fields[i])
    requires fields[i].htype.HRepeated? && m[i].Many? && |m[i].items| >= fields[i].arraySize
    requires ValueOk(false, fields[i], v) && SerTagged(fields[i], v).Some?
    ensures DecLoop(fields, SerTagged(fields[i], v).value + t, m, seen).Err?
  {
    var f := fields[i];
    TaggedSplit(f, v, t);
    RecordFails(fields, i, WireType(f.ltype), SerTagged(f, v).value + t, SerValue(f, v).value + t, m, seen);
  }

  lemma {:induction false} ChunkOverflows(fields: seq<Field>, i: nat, m: seq<Slot>, c: Chunk, t: seq<byte>,
                                          seen: set<nat>)
    requires ValidFields(fields) && i < |fields| && |m| == |fields|
    requires fields[i].htype.HRepeated? && fields[i].ltype.Packable() && m[i].Many?
    requires ChunkOk(fields[i], c) && ChunkShort(fields[i], c)
    requires |m[i].items| <= fields[i].arraySize < |m[i].items| + |Elements(c)|
    ensures DecLoop(fields, SerChunk(fields[i], c) + t, m, seen).Err?
  {
    var f := fields[i];
    assert ValidField(f);
    match c
    case Run(items) => RunOverflows(fields, i, m, items, t, seen);
    case Single(item) =>
      assert LeafOk(true, f, Elements(c)[0]);
      LeafRoundTrip(f, item, t);
      SingleOverflows(fields, i, m, item, t, seen);
  }

  /** Records that carry more elements than the array has room for are rejected. */
  lemma {:induction false} ChunksOverflow(fields: seq<Field>, i: nat, m: seq<Slot>, chunks: seq<Chunk>, t: seq<byte>,
                                          seen: set<nat>)
    requires ValidFields(fields) && i < |fields| && |m| == |fields|
    requires fields[i].htype.HRepeated? && fields[i].ltype.Packable() && m[i].Many?
    requires ChunksOk(fields[i], chunks) && Short(fields[i], chunks)
    requires |m[i].items| <= fields[i].arraySize < |m[i].items| + |Flatten(chunks)|
    ensures DecLoop(fields, SerChunks(fields[i], chunks) + t, m, seen).Err?
    decreases |chunks|
  {
    var f, c, rest := fields[i], chunks[0], chunks[1..];
    ChunksSplit(f, chunks, t);
    var u := SerChunks(f, rest) + t;
    if |m[i].items| + |Elements(c)| <= f.arraySize {
      ChunkAppends(fields, i, m, c, u, seen);
      ChunksOverflow(fields, i, m[i := Many(m[i].items + Elements(c))], rest, t, seen + {i});
    } else {
      ChunkOverflows(fields, i, m, c, u, seen);
    }
  }
}
