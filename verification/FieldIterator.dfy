/** The cyclic field iterator. It reaches each struct member by adding up offsets as it walks, so
    what it points to could depend on how it got there; it does not. */
module FieldIterator {
  import opened Descriptor

  datatype IterState = IterState(pos: nat, pData: int, pSize: int, requiredIndex: nat)

  /** Bytes from the start of a member to its end. */
  function Footprint(f: Field): nat {
    if f.atype.AStatic? && f.htype.HRepeated? then f.dataSize * f.arraySize
    else if f.atype.APointer? then VOID_PTR_SIZE
    else f.dataSize
  }

  /** Where the deltas of the first `pos + 1` descriptors lead, relative to the struct. */
  function DataOffset(fields: seq<Field>, pos: nat): int
    requires pos < |fields|
  {
    if pos == 0 then fields[0].dataOffset
    else if JoinsUnion(fields[pos - 1], fields[pos]) then DataOffset(fields, pos - 1)
    else DataOffset(fields, pos - 1) + Footprint(fields[pos - 1]) + fields[pos].dataOffset
  }

  /** The members of a union share the `which` member of its leader. */
  function SizeOffset(fields: seq<Field>, pos: nat): int
    requires pos < |fields|
  {
    DataOffset(fields, pos) + fields[UnionOf(fields, pos)].sizeOffset
  }

  /** The state that belongs to a position, whatever the history; on an empty descriptor, the
      terminator. */
  function StateAt(fields: seq<Field>, base: int, pos: nat): IterState
    requires fields == [] ==> pos == 0
    requires fields != [] ==> pos < |fields|
  {
    if fields == [] then IterState(0, base, base, 0)
    else IterState(pos, base + DataOffset(fields, pos), base + SizeOffset(fields, pos), RequiredBefore(fields, pos))
  }

  function NextPos(fields: seq<Field>, pos: nat): nat
    requires fields == [] ==> pos == 0
    requires fields != [] ==> pos < |fields|
  {
    if pos + 1 < |fields| then pos + 1 else 0
  }

  // ----- the struct that the descriptors were generated from -----

  /** Offsets of a member and of its size, `has_` or `which_` member; `joins` marks the members of
      a union after its first. */
  datatype Place = Place(data: int, size: int, joins: bool)

  /** The descriptors are what the macros of `pb.h` make of the layout. */
  predicate GeneratedFrom(fields: seq<Field>, layout: seq<Place>) {
    && |layout| == |fields|
    && (forall i :: 0 <= i < |fields| ==> fields[i].sizeOffset == layout[i].size - layout[i].data)
    && (|fields| > 0 ==> !layout[0].joins && fields[0].dataOffset == layout[0].data)
    && forall i :: 0 < i < |fields| ==> FollowsIn(fields, layout, i)
  }

  predicate FollowsIn(fields: seq<Field>, layout: seq<Place>, i: nat)
    requires |layout| == |fields| && 0 < i < |fields|
  {
    if layout[i].joins then
      && fields[i - 1].htype.HOneof? && fields[i].htype.HOneof?
      && fields[i].dataOffset == PB_SIZE_MAX
      && layout[i].data == layout[i - 1].data && layout[i].size == layout[i - 1].size
    else
      && fields[i].dataOffset < PB_SIZE_MAX
      && fields[i].dataOffset == layout[i].data - layout[i - 1].data - Footprint(fields[i - 1])
  }

  /** The sum of the deltas is the offset of the member, and of its companion. */
  lemma {:induction false} OffsetsAreTheLayout(fields: seq<Field>, layout: seq<Place>, pos: nat)
    requires GeneratedFrom(fields, layout) && pos < |fields|
    ensures DataOffset(fields, pos) == layout[pos].data
    ensures SizeOffset(fields, pos) == layout[pos].size
    decreases pos
  {
    if pos > 0 {
      assert FollowsIn(fields, layout, pos);
      OffsetsAreTheLayout(fields, layout, pos - 1);
    }
  }

  // ----- where the decoder writes -----

  predicate SameStorage(fields: seq<Field>, i: nat, j: nat)
    requires i < |fields| && j < |fields|
  {
    UnionOf(fields, i) == UnionOf(fields, j)
  }

  /** A C union is as large as each of its members: what follows it begins behind all of them, and
      the struct ends behind the last. */
  predicate UnionsFit(fields: seq<Field>, layout: seq<Place>, structSize: int)
    requires |layout| == |fields|
  {
    && (forall i, j :: 0 <= i < j < |fields| && SameStorage(fields, i, j - 1) && !SameStorage(fields, i, j) ==>
          layout[i].data + Footprint(fields[i]) <= layout[j].data)
    && (forall i :: 0 <= i < |fields| && SameStorage(fields, i, |fields| - 1) ==>
          layout[i].data + Footprint(fields[i]) <= structSize)
  }

  predicate Growing(layout: seq<Place>) {
    forall j :: 0 < j < |layout| ==> layout[j - 1].data <= layout[j].data
  }

  lemma {:induction false} OffsetsGrow(fields: seq<Field>, layout: seq<Place>)
    requires GeneratedFrom(fields, layout)
    ensures Growing(layout)
  {
    forall j | 0 < j < |layout|
      ensures layout[j - 1].data <= layout[j].data
    {
      assert FollowsIn(fields, layout, j);
    }
  }

  lemma {:induction false} BehindUnion(fields: seq<Field>, layout: seq<Place>, structSize: int, i: nat, j: nat)
    requires |layout| == |fields| && UnionsFit(fields, layout, structSize)
    requires i < j < |fields| && SameStorage(fields, i, j - 1) && !SameStorage(fields, i, j)
    ensures layout[i].data + Footprint(fields[i]) <= layout[j].data
  {
  }

  lemma {:induction false} BehindGrowing(fields: seq<Field>, layout: seq<Place>, structSize: int, i: nat, j: nat)
    requires |layout| == |fields| && Growing(layout) && UnionsFit(fields, layout, structSize)
    requires i < j < |fields| && !SameStorage(fields, i, j)
    ensures layout[i].data + Footprint(fields[i]) <= layout[j].data
    decreases j
  {
    if SameStorage(fields, i, j - 1) {
      BehindUnion(fields, layout, structSize, i, j);
    } else {
      BehindGrowing(fields, layout, structSize, i, j - 1);
    }
  }

  /** Members that do not share their storage follow each other without overlap. */
  lemma {:induction false} InOrder(fields: seq<Field>, layout: seq<Place>, structSize: int, i: nat, j: nat)
    requires GeneratedFrom(fields, layout) && UnionsFit(fields, layout, structSize)
    requires i < j < |fields| && !SameStorage(fields, i, j)
    ensures layout[i].data + Footprint(fields[i]) <= layout[j].data
  {
    OffsetsGrow(fields, layout);
    BehindGrowing(fields, layout, structSize, i, j);
  }

  lemma {:induction false} InsideStruct(fields: seq<Field>, layout: seq<Place>, structSize: int, i: nat)
    requires GeneratedFrom(fields, layout) && UnionsFit(fields, layout, structSize) && i < |fields|
    ensures layout[i].data + Footprint(fields[i]) <= structSize
  {
    var last := |fields| - 1;
    if !SameStorage(fields, i, last) {
      InOrder(fields, layout, structSize, i, last);
    }
  }

  lemma {:induction false} OneMore(size: nat, k: nat)
    ensures size * (k + 1) == size * k + size
  {
  }

  lemma {:induction false} EntryInside(size: nat, count: nat, k: nat)
    requires k < count
    ensures 0 <= size * k && size * k + size <= size * count
    decreases count
  {
    OneMore(size, count - 1);
    if k + 1 < count {
      EntryInside(size, count - 1, k);
    }
  }

  /** Entry `k` of a field, as the decoder addresses it from the iterator: `pData + data_size * k`. */
  function EntryAddress(fields: seq<Field>, base: int, i: nat, k: nat): int
    requires i < |fields|
  {
    StateAt(fields, base, i).pData + fields[i].dataSize * k
  }

  predicate IsEntry(f: Field, k: nat) {
    f.atype.AStatic? && if f.htype.HRepeated? then k < f.arraySize else k == 0
  }

  /** The bytes of an entry lie inside the struct and outside every member that does not share the
      field's storage. */
  lemma {:induction false} WritesStayInside(fields: seq<Field>, layout: seq<Place>, structSize: int, base: int,
                                            i: nat, k: nat, j: nat)
    requires GeneratedFrom(fields, layout) && UnionsFit(fields, layout, structSize)
    requires i < |fields| && IsEntry(fields[i], k) && j < |fields|
    ensures var at, other := EntryAddress(fields, base, i, k), StateAt(fields, base, j).pData;
            && base + layout[i].data <= at && at + fields[i].dataSize <= base + structSize
            && (!SameStorage(fields, i, j) ==> at + fields[i].dataSize <= other || other + Footprint(fields[j]) <= at)
  {
    EntryInFootprint(fields, layout, base, i, k);
    OffsetsAreTheLayout(fields, layout, j);
    InsideStruct(fields, layout, structSize, i);
    if !SameStorage(fields, i, j) {
      Apart(fields, layout, structSize, i, j);
    }
  }

  lemma {:induction false} EntryInFootprint(fields: seq<Field>, layout: seq<Place>, base: int, i: nat, k: nat)
    requires GeneratedFrom(fields, layout) && i < |fields| && IsEntry(fields[i], k)
    ensures var at := EntryAddress(fields, base, i, k);
            && base + layout[i].data <= at
            && at + fields[i].dataSize <= base + layout[i].data + Footprint(fields[i])
  {
    OffsetsAreTheLayout(fields, layout, i);
    if fields[i].htype.HRepeated? {
      EntryInside(fields[i].dataSize, fields[i].arraySize, k);
    }
  }

  lemma {:induction false} Apart(fields: seq<Field>, layout: seq<Place>, structSize: int, i: nat, j: nat)
    requires GeneratedFrom(fields, layout) && UnionsFit(fields, layout, structSize)
    requires i < |fields| && j < |fields| && !SameStorage(fields, i, j)
    ensures layout[i].data + Footprint(fields[i]) <= layout[j].data
         || layout[j].data + Footprint(fields[j]) <= layout[i].data
  {
    if i < j {
      InOrder(fields, layout, structSize, i, j);
    } else if j < i {
      InOrder(fields, layout, structSize, j, i);
    }
  }

  // ----- walking -----

  /** `pb_field_iter_begin` */
  function BeginState(fields: seq<Field>, base: int): IterState {
    if fields == [] then IterState(0, base, base, 0)
    else
      var pData := base + fields[0].dataOffset;
      IterState(0, pData, pData + fields[0].sizeOffset, 0)
  }

  /** `pb_field_iter_next`, from any state with a position in range. */
  function NextState(fields: seq<Field>, base: int, st: IterState): (r: IterState)
    requires fields != [] ==> st.pos < |fields|
    ensures fields != [] ==> r.pos < |fields|
  {
    if fields == [] then st
    else if st.pos + 1 == |fields| then BeginState(fields, base)
    else
      var prev, cur := fields[st.pos], fields[st.pos + 1];
      if JoinsUnion(prev, cur) then st.(pos := st.pos + 1)
      else
        var pData := st.pData + Footprint(prev) + cur.dataOffset;
        var r := if prev.htype.HRequired? then st.requiredIndex + 1 else st.requiredIndex;
        IterState(st.pos + 1, pData, pData + cur.sizeOffset, r)
  }

  /** `pb_field_iter_find`, with `budget` positions left to look at. */
  function FindState(fields: seq<Field>, base: int, st: IterState, tag: nat, budget: nat): (r: IterState)
    requires fields != [] ==> st.pos < |fields|
    ensures fields != [] ==> r.pos < |fields|
    decreases budget
  {
    if budget == 0 || fields == [] || Matches(fields[st.pos], tag) then st
    else FindState(fields, base, NextState(fields, base, st), tag, budget - 1)
  }

  datatype IterOp = StepOp | FindOp(tag: nat)

  /** The state after a sequence of calls. */
  function RunOps(fields: seq<Field>, base: int, st: IterState, ops: seq<IterOp>): IterState
    requires fields != [] ==> st.pos < |fields|
    decreases |ops|
  {
    if ops == [] then st
    else
      var st' := match ops[0]
        case StepOp => NextState(fields, base, st)
        case FindOp(tag) => FindState(fields, base, st, tag, |fields|);
      RunOps(fields, base, st', ops[1..])
  }

  lemma {:induction false} BeginIsClosed(fields: seq<Field>, base: int)
    ensures BeginState(fields, base) == StateAt(fields, base, 0)
  {
  }

  lemma {:induction false} NextIsClosed(fields: seq<Field>, base: int, pos: nat)
    requires fields == [] ==> pos == 0
    requires fields != [] ==> pos < |fields|
    ensures NextState(fields, base, StateAt(fields, base, pos)) == StateAt(fields, base, NextPos(fields, pos))
  {
  }

  lemma {:induction false} FindIsClosed(fields: seq<Field>, base: int, pos: nat, tag: nat, budget: nat)
    returns (pos': nat)
    requires fields == [] ==> pos == 0
    requires fields != [] ==> pos < |fields|
    ensures fields == [] ==> pos' == 0
    ensures fields != [] ==> pos' < |fields|
    ensures FindState(fields, base, StateAt(fields, base, pos), tag, budget) == StateAt(fields, base, pos')
    decreases budget
  {
    if budget == 0 || fields == [] || Matches(fields[pos], tag) {
      pos' := pos;
    } else {
      NextIsClosed(fields, base, pos);
      pos' := FindIsClosed(fields, base, NextPos(fields, pos), tag, budget - 1);
    }
  }

  /** After any sequence of calls the iterator's pointers and its count of required fields are
      those of its position. */
  lemma {:induction false} HistoryDoesNotMatter(fields: seq<Field>, base: int, pos: nat, ops: seq<IterOp>)
    returns (pos': nat)
    requires fields == [] ==> pos == 0
    requires fields != [] ==> pos < |fields|
    ensures fields == [] ==> pos' == 0
    ensures fields != [] ==> pos' < |fields|
    ensures RunOps(fields, base, StateAt(fields, base, pos), ops) == StateAt(fields, base, pos')
    decreases |ops|
  {
    if ops == [] {
      pos' := pos;
    } else {
      var mid := NextPos(fields, pos);
      match ops[0] {
        case StepOp => NextIsClosed(fields, base, pos);
        case FindOp(tag) => mid := FindIsClosed(fields, base, pos, tag, |fields|);
      }
      pos' := HistoryDoesNotMatter(fields, base, mid, ops[1..]);
    }
  }

  // ----- the iterator itself -----

  predicate HasTag(fields: seq<Field>, tag: nat) {
    exists i :: 0 <= i < |fields| && Matches(fields[i], tag)
  }

  /** `pb_field_iter_t`. On an empty descriptor it rests on the terminator, whose tag is 0. */
  class FieldIter {
    const fields: seq<Field>
    const base: int
    var pos: nat
    var pData: int
    var pSize: int
    var requiredIndex: nat

    function State(): IterState
      reads this
    {
      IterState(pos, pData, pSize, requiredIndex)
    }

    /** What the pointers are depends on the position alone. */
    ghost predicate Valid()
      reads this
    {
      && (fields == [] ==> pos == 0)
      && (fields != [] ==> pos < |fields|)
      && State() == StateAt(fields, base, pos)
    }

    constructor (fields: seq<Field>, base: int)
      ensures Valid() && pos == 0 && this.fields == fields && this.base == base
    {
      this.fields, this.base := fields, base;
      var first := if fields == [] then 0 else fields[0].dataOffset;
      pos, requiredIndex := 0, 0;
      pData := base + first;
      pSize := base + first + if fields == [] then 0 else fields[0].sizeOffset;
      new;
      BeginIsClosed(fields, base);
    }

    /** `pb_field_iter_begin` */
    method Begin()
      modifies this
      ensures Valid() && pos == 0
    {
      pos, requiredIndex := 0, 0;
      pData := base + if fields == [] then 0 else fields[0].dataOffset;
      pSize := pData + if fields == [] then 0 else fields[0].sizeOffset;
      BeginIsClosed(fields, base);
    }

    /** `pb_field_iter_next`: false when it wraps. */
    method Next() returns (more: bool)
      requires Valid()
      modifies this
      ensures Valid() && pos == NextPos(fields, old(pos))
      ensures more <==> old(pos) + 1 < |fields|
    {
      if fields == [] {
        return false;
      }
      NextIsClosed(fields, base, pos);
      var prev := fields[pos];
      if pos + 1 == |fields| {
        Begin();
        return false;
      }
      pos := pos + 1;
      var cur := fields[pos];
      var prevSize := prev.dataSize;
      if prev.htype.HOneof? && cur.htype.HOneof? && cur.dataOffset == PB_SIZE_MAX {
        return true;
      } else if prev.atype.AStatic? && prev.htype.HRepeated? {
        prevSize := prevSize * prev.arraySize;
      } else if prev.atype.APointer? {
        prevSize := VOID_PTR_SIZE;
      }
      if prev.htype.HRequired? {
        requiredIndex := requiredIndex + 1;
      }
      pData := pData + prevSize + cur.dataOffset;
      pSize := pData + cur.sizeOffset;
      return true;
    }

    /** `pb_field_iter_find`: succeeds exactly when a non-extension field has the tag, and
        otherwise comes back to where it started. */
    method Find(tag: nat) returns (found: bool)
      requires Valid()
      modifies this
      ensures Valid()
      ensures fields != [] ==> (found <==> HasTag(fields, tag))
      ensures fields == [] ==> (found <==> tag == 0)
      ensures found && fields != [] ==> Matches(fields[pos], tag)
      ensures !found ==> pos == old(pos)
    {
      if fields == [] {
        var _ := Next();
        return tag == 0;
      }
      var start := pos;
      ghost var looked := 0;
      while true
        invariant Valid() && looked < |fields|
        invariant pos == if start + looked < |fields| then start + looked else start + looked - |fields|
        invariant forall k :: start <= k < start + looked && k < |fields| ==> !Matches(fields[k], tag)
        invariant forall k :: 0 <= k < start + looked - |fields| ==> !Matches(fields[k], tag)
        decreases |fields| - looked
      {
        if fields[pos].tag == tag && !fields[pos].ltype.LExtension? {
          return true;
        }
        var _ := Next();
        looked := looked + 1;
        if pos == start {
          break;
        }
      }
      return false;
    }
  }
}
