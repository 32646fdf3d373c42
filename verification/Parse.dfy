/** What the decoder makes of a byte string: every rule of `pb_decode` as a function from the
    bytes that are left to a value and the bytes that are left after it. */
module Parse {
  import opened Wrappers
  import opened Bits
  import opened Varint
  import ZigZag
  import opened Descriptor

  // wire types
  const WT_VARINT: nat := 0
  const WT_64BIT: nat := 1
  const WT_STRING: nat := 2
  const WT_32BIT: nat := 5

  /** `pb_read`: the next `n` bytes. */
  function Take(s: seq<byte>, n: nat): (r: Parsed<seq<byte>>)
    ensures r.Ok? ==> r.value + r.rest == s && |r.value| == n
  {
    if |s| < n then Err else Ok(s[..n], s[n..])
  }

  /** A length prefix and that many bytes. */
  function TakeString(s: seq<byte>): (r: Parsed<seq<byte>>)
    ensures r.Ok? ==> |r.rest| < |s| && |r.value| < |s|
  {
    match DecVarint32(s)
    case Err => Err
    case Ok(n, rest) => Take(rest, n)
  }

  // ----- unknown fields -----

  function SkipVarint(s: seq<byte>): Parsed<()> {
    var n := VarintSize(s);
    if n == 0 then Err else Ok((), s[n..])
  }

  function SkipBytes(s: seq<byte>, n: nat): Parsed<()> {
    match Take(s, n)
    case Err => Err
    case Ok(_, rest) => Ok((), rest)
  }

  function SkipField(wt: nat, s: seq<byte>): (r: Parsed<()>)
    ensures r.Ok? ==> |r.rest| < |s|
  {
    if wt == WT_VARINT then SkipVarint(s)
    else if wt == WT_64BIT then SkipBytes(s, 8)
    else if wt == WT_STRING then
      match TakeString(s)
      case Err => Err
      case Ok(_, rest) => Ok((), rest)
    else if wt == WT_32BIT then SkipBytes(s, 4)
    else Err
  }

  // ----- leaf values -----

  function AsInt64(u: nat): int {
    if u < 0x8000_0000_0000_0000 then u else u - 0x1_0000_0000_0000_0000
  }

  function AsInt32(u: nat): int {
    if u < 0x8000_0000 then u else u - 0x1_0000_0000
  }

  function FromLittleEndian(s: seq<byte>): nat {
    if s == [] then 0 else s[0] + 0x100 * FromLittleEndian(s[1..])
  }

  /** A C string: the bytes in front of the first NUL. */
  function UpToNul(s: seq<byte>): (r: seq<byte>)
    ensures |r| <= |s| && 0 !in r
    ensures 0 !in s ==> r == s
  {
    if s == [] || s[0] == 0 then [] else [s[0]] + UpToNul(s[1..])
  }

  function Number(f: Field, r: Parsed<nat>): Parsed<Value> {
    match r
    case Err => Err
    case Ok(u, rest) =>
      match f.ltype
      case LVarint =>
        var v := if f.dataSize == 8 then AsInt64(u) else AsInt32(Low32(u));
        if SignedFits(v, f.dataSize) then Ok(Num(v), rest) else Err
      case LSVarint =>
        var v := ZigZag.Deinterleaved(u);
        if SignedFits(v, f.dataSize) then Ok(Num(v), rest) else Err
      case _ =>
        if UnsignedFits(u, f.dataSize) then Ok(Num(u), rest) else Err
  }

  function Fixed(s: seq<byte>, n: nat): (r: Parsed<Value>)
  {
    match Take(s, n)
    case Err => Err
    case Ok(b, rest) => Ok(Num(FromLittleEndian(b)), rest)
  }

  function DecBytes(f: Field, s: seq<byte>): Parsed<Value> {
    match DecVarint32(s)
    case Err => Err
    case Ok(n, rest) =>
      if n + BYTES_HEADER > f.dataSize then Err
      else
        match Take(rest, n)
        case Err => Err
        case Ok(b, rest') => Ok(Blob(b), rest')
  }

  function DecString(f: Field, s: seq<byte>): Parsed<Value> {
    match DecVarint32(s)
    case Err => Err
    case Ok(n, rest) =>
      if n + 1 > f.dataSize then Err
      else
        match Take(rest, n)
        case Err => Err
        case Ok(b, rest') => Ok(Blob(UpToNul(b)), rest')
  }

  /** An empty string stands for all zeros. */
  function DecFixedLengthBytes(f: Field, s: seq<byte>): Parsed<Value> {
    match DecVarint32(s)
    case Err => Err
    case Ok(n, rest) =>
      if n == 0 then Ok(ZeroLeaf(f), rest)
      else if n != f.dataSize then Err
      else
        match Take(rest, n)
        case Err => Err
        case Ok(b, rest') => Ok(Blob(b), rest')
  }

  function DecLeaf(f: Field, s: seq<byte>): (r: Parsed<Value>)
    ensures r.Ok? ==> |r.rest| < |s|
  {
    match f.ltype
    case LVarint => Number(f, DecVarint(s))
    case LUVarint => Number(f, DecVarint(s))
    case LSVarint => Number(f, DecVarint(s))
    case LFixed32 => Fixed(s, 4)
    case LFixed64 => Fixed(s, 8)
    case LBytes => DecBytes(f, s)
    case LString => DecString(f, s)
    case LFixedLengthBytes => DecFixedLengthBytes(f, s)
    case LSubmessage => Err
    case LExtension => Err
  }

  /** Packed elements: they must fill the region and fit the array. */
  function DecPacked(f: Field, region: seq<byte>, items: seq<Value>): Option<seq<Value>>
    decreases |region|
  {
    if region == [] then Some(items)
    else if |items| >= f.arraySize then None
    else
      match DecLeaf(f, region)
      case Err => None
      case Ok(v, rest) => DecPacked(f, rest, items + [v])
  }

  // ----- messages -----

  /** The struct a submessage is decoded into. */
  function StructOf(f: Field, v: Value): (slots: seq<Slot>)
    ensures |slots| == |f.sub|
  {
    if v.Struct? && |v.slots| == |f.sub| then v.slots else Defaults(f.sub)
  }

  function Current(slot: Slot): Value {
    match slot
    case Plain(v) => v
    case Maybe(_, v) => v
    case _ => Num(0)
  }

  function Items(slot: Slot): seq<Value> {
    if slot.Many? then slot.items else []
  }

  /** Storing to a union member deselects the others. */
  function Select(fields: seq<Field>, slots: seq<Slot>, i: nat, v: Value): (r: seq<Slot>)
    requires i < |fields| && |slots| == |fields|
    ensures |r| == |fields|
  {
    seq(|fields|, j requires 0 <= j < |fields| =>
      if j == i then Member(Some(v))
      else if SameUnion(fields, i, j) then Member(None)
      else slots[j])
  }

  datatype Progress = Progress(slots: seq<Slot>, seen: set<nat>, zero: bool)

  function DecValue(f: Field, s: seq<byte>, base: seq<Slot>): (r: Parsed<Value>)
    requires |base| == |f.sub|
    ensures r.Ok? ==> |r.rest| < |s|
    decreases |s|, 0
  {
    if !f.ltype.LSubmessage? then DecLeaf(f, s)
    else
      match TakeString(s)
      case Err => Err
      case Ok(region, rest) =>
        match DecNoInit(f.sub, region, base)
        case Err => Err
        case Ok(slots, _) => Ok(Struct(slots), rest)
  }

  /** The repeated branch of `decode_static_field`: a packed region or one more entry. */
  function DecArray(f: Field, wt: nat, s: seq<byte>, items: seq<Value>): (r: Parsed<seq<Value>>)
    ensures r.Ok? ==> |r.rest| < |s|
    decreases |s|, 1
  {
    if wt == WT_STRING && f.ltype.Packable() then
      match TakeString(s)
      case Err => Err
      case Ok(region, rest) =>
        match DecPacked(f, region, items)
        case None => Err
        case Some(items') => Ok(items', rest)
    else if |items| >= f.arraySize then Err
    else
      match DecValue(f, s, Defaults(f.sub))
      case Err => Err
      case Ok(v, rest) => Ok(items + [v], rest)
  }

  /** `decode_static_field`: the field at position `i` takes a value from the stream. */
  function DecField(fields: seq<Field>, i: nat, wt: nat, s: seq<byte>, slots: seq<Slot>)
    : (r: Parsed<seq<Slot>>)
    requires i < |fields| && |slots| == |fields|
    ensures r.Ok? ==> |r.rest| < |s| && |r.value| == |fields|
    decreases |s|, 2
  {
    var f := fields[i];
    match f.htype
    case HRequired =>
      (match DecValue(f, s, StructOf(f, Current(slots[i])))
       case Err => Err
       case Ok(v, rest) => Ok(slots[i := Plain(v)], rest))
    case HOptional =>
      (match DecValue(f, s, StructOf(f, Current(slots[i])))
       case Err => Err
       case Ok(v, rest) => Ok(slots[i := if f.sizeOffset != 0 then Maybe(true, v) else Plain(v)], rest))
    case HRepeated =>
      (match DecArray(f, wt, s, Items(slots[i]))
       case Err => Err
       case Ok(items, rest) => Ok(slots[i := Many(items)], rest))
    case HOneof =>
      (match DecValue(f, s, Defaults(f.sub))
       case Err => Err
       case Ok(v, rest) => Ok(Select(fields, slots, i, v), rest))
  }

  /** One record behind its tag. On an empty descriptor the iterator rests on the terminator, so
      that tag 0 is taken for a field of no valid size. */
  function DecRecord(fields: seq<Field>, tag: nat, wt: nat, s: seq<byte>, slots: seq<Slot>)
    : (r: Parsed<seq<Slot>>)
    requires |slots| == |fields|
    ensures r.Ok? ==> |r.rest| < |s| && |r.value| == |fields|
    decreases |s|, 3
  {
    if fields == [] && tag == 0 then Err
    else
      match FindField(fields, tag)
      case Some(i) => DecField(fields, i, wt, s, slots)
      case None =>
        match SkipField(wt, s)
        case Err => Err
        case Ok(_, rest) => Ok(slots, rest)
  }

  function MarkSeen(fields: seq<Field>, tag: nat, seen: set<nat>): set<nat> {
    match FindField(fields, tag)
    case Some(i) => seen + {i}
    case None => seen
  }

  /** The record loop of `pb_decode_noinit`: up to the end of the region or a zero tag. */
  function DecLoop(fields: seq<Field>, s: seq<byte>, slots: seq<Slot>, seen: set<nat>)
    : (r: Parsed<Progress>)
    requires |slots| == |fields|
    ensures r.Ok? ==> |r.value.slots| == |fields| && |r.rest| <= |s|
    ensures r.Ok? && !r.value.zero ==> r.rest == []
    decreases |s|, 4
  {
    if s == [] then Ok(Progress(slots, seen, false), [])
    else
      match DecVarint32(s)
      case Err => Err
      case Ok(key, rest) =>
        if key == 0 then Ok(Progress(slots, seen, true), rest)
        else
          match DecRecord(fields, key / 8, key % 8, rest, slots)
          case Err => Err
          case Ok(slots', rest') => DecLoop(fields, rest', slots', MarkSeen(fields, key / 8, seen))
  }

  /** Every one of the first 64 required fields has occurred. */
  predicate RequiredSeen(fields: seq<Field>, seen: set<nat>) {
    forall i :: 0 <= i < |fields| && fields[i].htype.HRequired? && RequiredBefore(fields, i) < MAX_REQUIRED ==>
      i in seen
  }

  function DecNoInit(fields: seq<Field>, s: seq<byte>, slots: seq<Slot>): (r: Parsed<seq<Slot>>)
    requires |slots| == |fields|
    ensures r.Ok? ==> |r.value| == |fields|
    decreases |s|, 5
  {
    match DecLoop(fields, s, slots, {})
    case Err => Err
    case Ok(p, rest) => if RequiredSeen(fields, p.seen) then Ok(p.slots, rest) else Err
  }

  /** `pb_decode` */
  function Decode(fields: seq<Field>, s: seq<byte>): (r: Parsed<seq<Slot>>)
    ensures r.Ok? ==> |r.value| == |fields|
  {
    DecNoInit(fields, s, Defaults(fields))
  }
}
