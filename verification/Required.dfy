/** The required-field bitmap: two 32-bit words stand for the set of required fields seen, and the
    comparison of whole words at the end stands for the test that none is missing. */
module Required {
  import opened Bits
  import opened Descriptor
  import opened Parse
  import opened FieldIterator

  /** A required field with number `k` among the required fields has been seen. */
  predicate SeenIndex(fields: seq<Field>, seen: set<nat>, k: nat) {
    exists i :: i in seen && i < |fields| && fields[i].htype.HRequired? && RequiredBefore(fields, i) == k
  }

  /** Bit `k` of the two words. */
  predicate BitOf(w0: nat, w1: nat, k: nat) {
    if k < 32 then Bit(w0, k) else Bit(w1, k - 32)
  }

  /** The bits of the two words are exactly the numbers below 64 that have been seen. */
  ghost predicate Represents(w0: nat, w1: nat, fields: seq<Field>, seen: set<nat>) {
    && w0 < 0x1_0000_0000 && w1 < 0x1_0000_0000
    && forall k: nat :: k < MAX_REQUIRED ==> BitOf(w0, w1, k) == SeenIndex(fields, seen, k)
  }

  lemma {:induction false} ZeroHasNoBits(k: nat)
    ensures !Bit(0, k)
    decreases k
  {
    if k > 0 {
      ZeroHasNoBits(k - 1);
    }
  }

  lemma {:induction false} NothingSeen(fields: seq<Field>)
    ensures Represents(0, 0, fields, {})
  {
    forall k: nat | k < MAX_REQUIRED
      ensures !BitOf(0, 0, k)
    {
      ZeroHasNoBits(k % 32);
    }
  }

  lemma {:induction false} SetBitBound(w: nat, k: nat)
    requires w < 0x1_0000_0000 && k < 32
    ensures Or(w, Pow2(k)) < 0x1_0000_0000
  {
    Pow2Word();
    PowMonotone(k + 1, 32);
    OrBound(w, Pow2(k), 32);
  }

  /** Marking field `i` adds its own number and no other. */
  lemma {:induction false} MarkIndex(fields: seq<Field>, seen: set<nat>, i: nat, k: nat)
    requires i < |fields|
    ensures SeenIndex(fields, seen + {i}, k)
        <==> SeenIndex(fields, seen, k) || (fields[i].htype.HRequired? && RequiredBefore(fields, i) == k)
  {
    if fields[i].htype.HRequired? && RequiredBefore(fields, i) == k {
      assert i in seen + {i};
    }
    if SeenIndex(fields, seen, k) {
      var j :| j in seen && j < |fields| && fields[j].htype.HRequired? && RequiredBefore(fields, j) == k;
      assert j in seen + {i};
    }
  }

  lemma {:induction false} MarkOther(w0: nat, w1: nat, fields: seq<Field>, seen: set<nat>, i: nat)
    requires i < |fields| && Represents(w0, w1, fields, seen)
    requires !fields[i].htype.HRequired? || RequiredBefore(fields, i) >= MAX_REQUIRED
    ensures Represents(w0, w1, fields, seen + {i})
  {
    forall k: nat | k < MAX_REQUIRED
      ensures SeenIndex(fields, seen + {i}, k) == SeenIndex(fields, seen, k)
    {
      MarkIndex(fields, seen, i, k);
    }
  }

  /** Setting the bit of a required field records that it has been seen. */
  lemma {:induction false} MarkRequired(w0: nat, w1: nat, fields: seq<Field>, seen: set<nat>, i: nat)
    requires i < |fields| && Represents(w0, w1, fields, seen)
    requires fields[i].htype.HRequired? && RequiredBefore(fields, i) < MAX_REQUIRED
    ensures var r := RequiredBefore(fields, i);
            if r < 32 then Represents(Or(w0, Pow2(r)), w1, fields, seen + {i})
            else Represents(w0, Or(w1, Pow2(r - 32)), fields, seen + {i})
  {
    var r := RequiredBefore(fields, i);
    SetBitBound(w0, r % 32);
    SetBitBound(w1, r % 32);
    forall k: nat | k < MAX_REQUIRED
      ensures SeenIndex(fields, seen + {i}, k) == (SeenIndex(fields, seen, k) || k == r)
    {
      MarkIndex(fields, seen, i, k);
    }
    var w0' := if r < 32 then Or(w0, Pow2(r)) else w0;
    var w1' := if r < 32 then w1 else Or(w1, Pow2(r - 32));
    forall k: nat | k < MAX_REQUIRED
      ensures BitOf(w0', w1', k) == (BitOf(w0, w1, k) || k == r)
    {
      if k < 32 && r < 32 {
        OrSetsBit(w0, r, k);
      } else if k >= 32 && r >= 32 {
        OrSetsBit(w1, r - 32, k - 32);
      }
    }
  }

  // ----- the numbers of the required fields -----

  lemma {:induction false} RequiredGrows(fields: seq<Field>, i: nat, j: nat)
    requires i <= j <= |fields|
    ensures RequiredBefore(fields, i) <= RequiredBefore(fields, j)
    decreases j
  {
    if i < j {
      RequiredGrows(fields, i, j - 1);
    }
  }

  /** Different required fields have different numbers. */
  lemma {:induction false} RequiredInjective(fields: seq<Field>, i: nat, j: nat)
    requires i < |fields| && j < |fields|
    requires fields[i].htype.HRequired? && fields[j].htype.HRequired?
    requires RequiredBefore(fields, i) == RequiredBefore(fields, j)
    ensures i == j
  {
    if i < j {
      RequiredGrows(fields, i + 1, j);
    } else if j < i {
      RequiredGrows(fields, j + 1, i);
    }
  }

  /** Every number below the count belongs to a required field. */
  lemma {:induction false} RequiredSurjective(fields: seq<Field>, n: nat, k: nat) returns (i: nat)
    requires n <= |fields| && k < RequiredBefore(fields, n)
    ensures i < n && fields[i].htype.HRequired? && RequiredBefore(fields, i) == k
    decreases n
  {
    if RequiredBefore(fields, n - 1) == k {
      i := n - 1;
    } else {
      i := RequiredSurjective(fields, n - 1, k);
    }
  }

  function Tracked(fields: seq<Field>): nat {
    var c := RequiredBefore(fields, |fields|);
    if c > MAX_REQUIRED then MAX_REQUIRED else c
  }

  /** No tracked required field is missing exactly when all their numbers have been seen. */
  lemma {:induction false} RequiredByIndex(fields: seq<Field>, seen: set<nat>)
    ensures RequiredSeen(fields, seen) <==> forall k: nat :: k < Tracked(fields) ==> SeenIndex(fields, seen, k)
  {
    if RequiredSeen(fields, seen) {
      forall k: nat | k < Tracked(fields)
        ensures SeenIndex(fields, seen, k)
      {
        var i := RequiredSurjective(fields, |fields|, k);
        assert i in seen;
      }
    }
    if forall k: nat :: k < Tracked(fields) ==> SeenIndex(fields, seen, k) {
      forall i | 0 <= i < |fields| && fields[i].htype.HRequired? && RequiredBefore(fields, i) < MAX_REQUIRED
        ensures i in seen
      {
        RequiredGrows(fields, i + 1, |fields|);
        var k := RequiredBefore(fields, i);
        assert SeenIndex(fields, seen, k);
        var j :| j in seen && j < |fields| && fields[j].htype.HRequired? && RequiredBefore(fields, j) == k;
        RequiredInjective(fields, i, j);
      }
    }
  }

  /** No number at or above the count is ever seen. */
  lemma {:induction false} NothingBeyond(fields: seq<Field>, seen: set<nat>, k: nat)
    requires k >= RequiredBefore(fields, |fields|)
    ensures !SeenIndex(fields, seen, k)
  {
    if SeenIndex(fields, seen, k) {
      var i :| i in seen && i < |fields| && fields[i].htype.HRequired? && RequiredBefore(fields, i) == k;
      RequiredGrows(fields, i + 1, |fields|);
    }
  }

  lemma {:induction false} NoHighBits(w: nat, k: nat)
    requires w < Pow2(k)
    ensures forall j: nat :: j >= k ==> !Bit(w, j)
  {
    forall j: nat | j >= k
      ensures !Bit(w, j)
    {
      NoHighBit(w, k, j);
    }
  }

  lemma {:induction false} NoHighBit(w: nat, k: nat, j: nat)
    requires w < Pow2(k) && j >= k
    ensures !Bit(w, j)
    decreases j
  {
    if j > 0 {
      NoHighBit(w / 2, if k == 0 then 0 else k - 1, j - 1);
    }
  }

  /** A word equals `2^n - 1` exactly when its low `n` bits are set and no other is. */
  lemma {:induction false} WordIsFull(w: nat, n: nat)
    requires w < 0x1_0000_0000 && n <= 32
    requires forall k: nat :: n <= k < 32 ==> !Bit(w, k)
    ensures w == Pow2(n) - 1 <==> LowBitsSet(w, n)
  {
    Pow2Word();
    NoHighBits(w, 32);
    HighBitsClear(w, n);
    AllOnes(w, n);
  }

  /** The comparison the decoder makes: whole words first, then the bits that are left. */
  predicate WordsFull(w0: nat, w1: nat, count: nat) {
    if count < 32 then w0 == Pow2(count) - 1
    else w0 == Pow2(32) - 1 && (count == 32 || w1 == Pow2(count - 32) - 1)
  }

  lemma {:induction false} FullWords(w0: nat, w1: nat, c: nat)
    requires c <= MAX_REQUIRED && w0 < 0x1_0000_0000 && w1 < 0x1_0000_0000
    requires forall k: nat :: c <= k < MAX_REQUIRED ==> !BitOf(w0, w1, k)
    ensures WordsFull(w0, w1, c) <==> forall k: nat :: k < c ==> BitOf(w0, w1, k)
  {
    if c < 32 {
      assert forall k: nat :: c <= k < 32 ==> BitOf(w0, w1, k) == Bit(w0, k);
      WordIsFull(w0, c);
      assert forall k: nat :: k < c ==> BitOf(w0, w1, k) == Bit(w0, k);
    } else {
      WordIsFull(w0, 32);
      assert forall k: nat :: c - 32 <= k < 32 ==> BitOf(w0, w1, k + 32) == Bit(w1, k);
      WordIsFull(w1, c - 32);
      assert forall k: nat :: k < 32 ==> BitOf(w0, w1, k) == Bit(w0, k);
      forall k: nat | 32 <= k < c
        ensures LowBitsSet(w1, c - 32) ==> BitOf(w0, w1, k)
      {
        assert BitOf(w0, w1, k) == Bit(w1, k - 32);
      }
      if forall k: nat :: k < c ==> BitOf(w0, w1, k) {
        forall k | 0 <= k < c - 32
          ensures Bit(w1, k)
        {
          assert BitOf(w0, w1, k + 32);
        }
      }
    }
  }

  /** It succeeds exactly when every tracked required field has been seen. */
  lemma {:induction false} BitmapIsCorrect(w0: nat, w1: nat, fields: seq<Field>, seen: set<nat>)
    requires Represents(w0, w1, fields, seen)
    ensures WordsFull(w0, w1, Tracked(fields)) <==> RequiredSeen(fields, seen)
  {
    var c := Tracked(fields);
    RequiredByIndex(fields, seen);
    forall k: nat | c <= k < MAX_REQUIRED
      ensures !BitOf(w0, w1, k)
    {
      NothingBeyond(fields, seen, k);
    }
    FullWords(w0, w1, c);
    assert forall k: nat :: k < c ==> BitOf(w0, w1, k) == SeenIndex(fields, seen, k);
  }

  /** `allbits >> (32 - n)` */
  function LowMask(n: nat): (m: nat)
    requires 0 < n < 32
    ensures m == Pow2(n) - 1
  {
    Pow2Word();
    Pow2Add(32 - n, n);
    ShiftOnes(Pow2(32 - n), Pow2(n));
    0xFFFF_FFFF / Pow2(32 - n)
  }

  function LastPos(fields: seq<Field>): (n: nat)
    ensures n <= |fields|
  {
    if fields == [] then 0 else |fields| - 1
  }

  /** Walks the iterator to the end of the field array to count the required fields. */
  method CountRequired(iter: FieldIter) returns (count: nat)
    requires iter.Valid()
    modifies iter
    ensures count == Tracked(iter.fields)
  {
    count := 0;
    var last, more := HRequired, true;
    while more
      invariant iter.Valid()
      invariant !more ==> iter.pos == 0 && count == RequiredBefore(iter.fields, LastPos(iter.fields))
      invariant !more && iter.fields != [] ==> last == iter.fields[|iter.fields| - 1].htype
      decreases more, |iter.fields| - iter.pos
    {
      count := iter.requiredIndex;
      last := if iter.fields == [] then HRequired else iter.fields[iter.pos].htype;
      more := iter.Next();
    }
    if last.HRequired? && iter.fields != [] {
      count := count + 1;
    }
    if count > MAX_REQUIRED {
      count := MAX_REQUIRED;
    }
  }

  /** The whole words first, then the bits that are left. */
  method CheckWords(fieldsSeen: array<nat>, count: nat) returns (ok: bool)
    requires fieldsSeen.Length == 2 && 0 < count <= MAX_REQUIRED
    ensures ok == WordsFull(fieldsSeen[0], fieldsSeen[1], count)
  {
    Pow2Word();
    for i := 0 to count / 32
      invariant forall k :: 0 <= k < i ==> fieldsSeen[k] == 0xFFFF_FFFF
    {
      if fieldsSeen[i] != 0xFFFF_FFFF {
        return false;
      }
    }
    if count % 32 != 0 {
      if fieldsSeen[count / 32] != LowMask(count % 32) {
        return false;
      }
    }
    return true;
  }

  /** The check at the end of `pb_decode_noinit`. */
  method CheckRequired(iter: FieldIter, fieldsSeen: array<nat>, ghost seen: set<nat>) returns (ok: bool)
    requires iter.Valid() && fieldsSeen.Length == 2
    requires Represents(fieldsSeen[0], fieldsSeen[1], iter.fields, seen)
    modifies iter
    ensures ok == RequiredSeen(iter.fields, seen)
  {
    var count := CountRequired(iter);
    BitmapIsCorrect(fieldsSeen[0], fieldsSeen[1], iter.fields, seen);
    if count == 0 {
      NoRequired(fieldsSeen[0], iter.fields, seen);
      return true;
    }
    ok := CheckWords(fieldsSeen, count);
  }

  lemma {:induction false} ShiftOnes(a: nat, b: nat)
    requires a > 0 && b > 0
    ensures a * b > 0 && (a * b - 1) / a == b - 1
  {
    AtLeastOnce(a, b);
    assert a * b == a * (b - 1) + a;
    DivModUnique(a * b - 1, a, b - 1, a - 1);
  }

  lemma {:induction false} NoRequired(w0: nat, fields: seq<Field>, seen: set<nat>)
    requires Tracked(fields) == 0
    ensures RequiredSeen(fields, seen)
  {
    RequiredByIndex(fields, seen);
  }
}
