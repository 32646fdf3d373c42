/** What a decoded struct holds for the fields that no record mentions. */
module Initial {
  import opened Wrappers
  import opened Bits
  import opened Descriptor
  import opened Parse
  import opened Merge
  import opened Order

  /** `pb_decode` starts from the initial struct, whatever the descriptor. */
  lemma {:induction false} StartsInitial(fields: seq<Field>, s: seq<byte>, m: seq<Slot>)
    requires InitialStruct(fields, m)
    ensures Decode(fields, s) == DecNoInit(fields, s, m)
  {
    DefaultsAreInitial(fields);
    InitialUnique(fields, m, Defaults(fields));
  }

  /** A record changes no slot but that of its field, except that other members of its union are
      deselected. */
  lemma {:induction false} RecordKeeps(fields: seq<Field>, tag: nat, wt: nat, s: seq<byte>, m: seq<Slot>, k: nat)
    requires |m| == |fields| && k < |fields| && DecRecord(fields, tag, wt, s, m).Ok?
    requires FindField(fields, tag) != Some(k)
    ensures var m' := DecRecord(fields, tag, wt, s, m).value;
            m'[k] == m[k] || (fields[k].htype.HOneof? && m'[k] == Member(None))
  {
    match FindField(fields, tag)
    case Some(i) => WritesOwnSlot(fields, i, wt, s, m);
    case None =>
  }

  lemma {:induction false} LoopKeeps(fields: seq<Field>, s: seq<byte>, m: seq<Slot>, seen: set<nat>, k: nat)
    requires |m| == |fields| && k < |fields| && DecLoop(fields, s, m, seen).Ok?
    requires k !in DecLoop(fields, s, m, seen).value.seen
    ensures k !in seen
    ensures var m' := DecLoop(fields, s, m, seen).value.slots;
            m'[k] == m[k] || (fields[k].htype.HOneof? && m'[k] == Member(None))
    decreases |s|
  {
    if s != [] {
      var key, body, m', t := LoopStarts(fields, s, m, seen);
      if key == 0 {
        LoopEnds(fields, s, m, seen);
      } else {
        LoopKeeps(fields, t, m', MarkSeen(fields, key / 8, seen), k);
        RecordKeeps(fields, key / 8, key % 8, body, m, k);
      }
    }
  }

  /** The fields that a record of `s` mentions, as `pb_decode` reads it. */
  function Mentioned(fields: seq<Field>, s: seq<byte>): set<nat> {
    match DecLoop(fields, s, Defaults(fields), {})
    case Err => {}
    case Ok(p, _) => p.seen
  }

  /** After a decode, a field that no record mentions holds its declared default, or zero, or
      nothing; it is absent if it can be. */
  lemma {:induction false} UnmentionedIsInitial(fields: seq<Field>, s: seq<byte>, k: nat)
    requires Decode(fields, s).Ok? && k < |fields| && k !in Mentioned(fields, s)
    ensures InitialSlot(fields[k], Decode(fields, s).value[k])
  {
    DefaultsAreInitial(fields);
    LoopKeeps(fields, s, Defaults(fields), {}, k);
  }

  /** The empty message decodes to the initial struct, if no field is required. */
  lemma {:induction false} EmptyMessage(fields: seq<Field>)
    ensures Decode(fields, []).Ok? <==> forall i :: 0 <= i < |fields| ==> !fields[i].htype.HRequired?
    ensures Decode(fields, []).Ok? ==> InitialStruct(fields, Decode(fields, []).value)
  {
    DefaultsAreInitial(fields);
    if i :| 0 <= i < |fields| && fields[i].htype.HRequired? {
      FirstRequired(fields, i);
    }
  }

  lemma {:induction false} FirstRequired(fields: seq<Field>, i: nat)
    requires i < |fields| && fields[i].htype.HRequired?
    ensures exists j :: 0 <= j <= i && fields[j].htype.HRequired? && RequiredBefore(fields, j) == 0
    decreases i
  {
    if RequiredBefore(fields, i) != 0 {
      var j := SomeBefore(fields, i);
      FirstRequired(fields, j);
    }
  }

  lemma {:induction false} SomeBefore(fields: seq<Field>, n: nat) returns (j: nat)
    requires n <= |fields| && RequiredBefore(fields, n) > 0
    ensures j < n && fields[j].htype.HRequired?
    decreases n
  {
    if fields[n - 1].htype.HRequired? {
      j := n - 1;
    } else {
      j := SomeBefore(fields, n - 1);
    }
  }

  /** A decode succeeds exactly when all records do and each required field that has fewer than 64
      required fields in front of it has been mentioned, a zero tag at the end or not. */
  lemma {:induction false} RequiredExactly(fields: seq<Field>, s: seq<byte>)
    ensures Decode(fields, s).Ok?
       <==> && DecLoop(fields, s, Defaults(fields), {}).Ok?
            && forall i :: 0 <= i < |fields| && fields[i].htype.HRequired? && RequiredBefore(fields, i) < 64 ==>
                 i in Mentioned(fields, s)
  {
  }
}
